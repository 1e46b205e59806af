/**
 * The nshead frame: a fixed 36-byte big-endian header (id, version, log id,
 * a 16-byte provider name, the magic number 0xfb709394, a reserved word and
 * the body length) followed by exactly body-length bytes of body.
 *
 * The byte layout is given by the pure functions EncodeHeader/DecodeHeader
 * and Serialize/Parse; NsheadPacket.Write and ReadNsheadPacket are the
 * in-place operations built on them, over byte sequences instead of streams.
 */
module Nshead {
  import opened Results
  import opened Bytes

  type u16 = x: nat | x < 0x1_0000
  type u32 = x: nat | x < 0x1_0000_0000

  /** The fixed 16-byte provider field. */
  type Provider = s: seq<byte> | |s| == 16
    witness [0, 0, 0, 0, 0, 0, 0, 0, 0, 0, 0, 0, 0, 0, 0, 0]

  const HEADER_SIZE: nat := 36
  const MAGIC_NUM: u32 := 0xfb70_9394
  const MAX_INT32: nat := 0x7fff_ffff

  /** The header fields, in wire order. */
  datatype Nshead = Nshead(
    id: u16,
    version: u16,
    logid: u32,
    provider: Provider,
    magicNum: u32,
    reserved: u32,
    bodyLen: u32)

  /** The header of a freshly allocated packet: every field zero. */
  const ZERO_HEADER: Nshead := Nshead(0, 0, 0, [0, 0, 0, 0, 0, 0, 0, 0, 0, 0, 0, 0, 0, 0, 0, 0], 0, 0, 0)

  datatype NsheadError =
    | ErrMalformedHeader  // the magic number is wrong
    | UnexpectIOError     // the input ended inside the header or the body
    | ErrBodyTooLarge     // the body is longer than MAX_INT32 bytes

  /** The contents of a packet as a value: its header and its body. */
  datatype Frame = Frame(header: Nshead, body: seq<byte>)

  /** The 36 header bytes: each integer field big-endian, the provider verbatim. */
  function EncodeHeader(h: Nshead): (s: seq<byte>)
    ensures |s| == HEADER_SIZE
  {
    PowValues();
    ToBigEndian(h.id, 2) + ToBigEndian(h.version, 2) + ToBigEndian(h.logid, 4) + h.provider
    + ToBigEndian(h.magicNum, 4) + ToBigEndian(h.reserved, 4) + ToBigEndian(h.bodyLen, 4)
  }

  /**
   * The header that 36 bytes denote, reading the fields at offsets 0, 2, 4,
   * 8, 24, 28 and 32. Every 36-byte string is some header's encoding, and
   * this is that header.
   */
  function DecodeHeader(s: seq<byte>): (h: Nshead)
    requires |s| == HEADER_SIZE
    ensures EncodeHeader(h) == s
  {
    PowValues();
    var h := Nshead(BigEndian(s[0..2]), BigEndian(s[2..4]), BigEndian(s[4..8]), s[8..24],
                    BigEndian(s[24..28]), BigEndian(s[28..32]), BigEndian(s[32..36]));
    HeaderFields(h);
    ToBigEndianOfBigEndian(s[0..2]);
    ToBigEndianOfBigEndian(s[2..4]);
    ToBigEndianOfBigEndian(s[4..8]);
    ToBigEndianOfBigEndian(s[24..28]);
    ToBigEndianOfBigEndian(s[28..32]);
    ToBigEndianOfBigEndian(s[32..36]);
    SameFields(EncodeHeader(h), s);
    h
  }

  /** Where each field of an encoded header sits. */
  lemma HeaderFields(h: Nshead)
    ensures var s := EncodeHeader(h);
            s[0..2] == ToBigEndian(h.id, 2) && s[2..4] == ToBigEndian(h.version, 2) &&
            s[4..8] == ToBigEndian(h.logid, 4) && s[8..24] == h.provider &&
            s[24..28] == ToBigEndian(h.magicNum, 4) && s[28..32] == ToBigEndian(h.reserved, 4) &&
            s[32..36] == ToBigEndian(h.bodyLen, 4)
  {
    PowValues();
    var s := EncodeHeader(h);
    var a, b, c := ToBigEndian(h.id, 2), ToBigEndian(h.version, 2), ToBigEndian(h.logid, 4);
    var d, e, f := ToBigEndian(h.magicNum, 4), ToBigEndian(h.reserved, 4), ToBigEndian(h.bodyLen, 4);
    assert s == a + b + c + h.provider + d + e + f;
    assert s[32..] == f;
    assert s[0..2] == a;
    assert s[2..4] == b;
    assert s[4..8] == c;
    assert s[8..24] == h.provider;
    assert s[24..28] == d;
    assert s[28..32] == e;
    assert s[32..36] == f;
  }

  /** Decoding an encoded header gives the header back. */
  lemma {:induction false} HeaderRoundTrip(h: Nshead)
    ensures DecodeHeader(EncodeHeader(h)) == h
  {
    PowValues();
    HeaderFields(h);
    BigEndianOfToBigEndian(h.id, 2);
    BigEndianOfToBigEndian(h.version, 2);
    BigEndianOfToBigEndian(h.logid, 4);
    BigEndianOfToBigEndian(h.magicNum, 4);
    BigEndianOfToBigEndian(h.reserved, 4);
    BigEndianOfToBigEndian(h.bodyLen, 4);
  }

  /** Two 36-byte strings that agree field by field are equal. */
  lemma SameFields(s: seq<byte>, t: seq<byte>)
    requires |s| == HEADER_SIZE && |t| == HEADER_SIZE
    requires s[0..2] == t[0..2] && s[2..4] == t[2..4] && s[4..8] == t[4..8] && s[8..24] == t[8..24]
    requires s[24..28] == t[24..28] && s[28..32] == t[28..32] && s[32..36] == t[32..36]
    ensures s == t
  {
    assert s == s[0..2] + s[2..4] + s[4..8] + s[8..24] + s[24..28] + s[28..32] + s[32..36];
    assert t == t[0..2] + t[2..4] + t[4..8] + t[8..24] + t[24..28] + t[28..32] + t[32..36];
  }

  /** A frame on the wire: the header followed by the body verbatim. */
  function Serialize(f: Frame): (s: seq<byte>)
    ensures |s| == HEADER_SIZE + |f.body|
    ensures s[HEADER_SIZE..] == f.body
  {
    EncodeHeader(f.header) + f.body
  }

  /**
   * Reads one frame from the front of `s`: the header, which must carry the
   * magic number, then exactly bodyLen body bytes (none when bodyLen is 0).
   * Input that ends inside the header or the body is an I/O error. Bytes
   * after the frame are left unread.
   */
  function Parse(s: seq<byte>): (r: Result<Frame, NsheadError>)
    ensures r.Ok? ==> r.value.header.magicNum == MAGIC_NUM && |r.value.body| == r.value.header.bodyLen
    ensures r.Ok? ==> HEADER_SIZE + |r.value.body| <= |s| && r.value.header == DecodeHeader(s[..HEADER_SIZE])
    ensures r.Ok? ==> r.value.body == s[HEADER_SIZE..HEADER_SIZE + |r.value.body|]
    ensures r == Err(ErrMalformedHeader) <==>
              |s| >= HEADER_SIZE && DecodeHeader(s[..HEADER_SIZE]).magicNum != MAGIC_NUM
    ensures r == Err(UnexpectIOError) <==>
              |s| < HEADER_SIZE ||
              (DecodeHeader(s[..HEADER_SIZE]).magicNum == MAGIC_NUM
               && |s| < HEADER_SIZE + DecodeHeader(s[..HEADER_SIZE]).bodyLen)
    ensures r != Err(ErrBodyTooLarge)
  {
    if |s| < HEADER_SIZE then Err(UnexpectIOError)
    else
      var h := DecodeHeader(s[..HEADER_SIZE]);
      if h.magicNum != MAGIC_NUM then Err(ErrMalformedHeader)
      else if h.bodyLen == 0 then Ok(Frame(h, []))
      else if |s| < HEADER_SIZE + h.bodyLen then Err(UnexpectIOError)
      else Ok(Frame(h, s[HEADER_SIZE..HEADER_SIZE + h.bodyLen]))
  }

  /** The bytes a successful parse consumed are exactly the serialisation of what it returned. */
  lemma ParseConsumesFrame(s: seq<byte>)
    requires Parse(s).Ok?
    ensures s[..HEADER_SIZE + |Parse(s).value.body|] == Serialize(Parse(s).value)
  {
    var f := Parse(s).value;
    assert s[..HEADER_SIZE + |f.body|] == s[..HEADER_SIZE] + f.body;
  }

  /** A frame whose header carries the magic number and its body's length parses back from its serialisation, whatever follows it. */
  lemma FrameRoundTrip(f: Frame, rest: seq<byte>)
    requires f.header.magicNum == MAGIC_NUM && f.header.bodyLen == |f.body|
    ensures Parse(Serialize(f) + rest) == Ok(f)
  {
    var s := Serialize(f) + rest;
    assert s[..HEADER_SIZE] == EncodeHeader(f.header);
    HeaderRoundTrip(f.header);
    assert s[HEADER_SIZE..HEADER_SIZE + |f.body|] == f.body;
  }

  /** A packet: a header and a body, updated in place by Write. */
  class NsheadPacket {
    var header: Nshead
    var body: seq<byte>

    /** The packet with the given fields. */
    constructor (header: Nshead, body: seq<byte>)
      ensures this.header == header && this.body == body
    {
      this.header := header;
      this.body := body;
    }

    /**
     * Sets BodyLen to the body's length and MagicNum to MAGIC_NUM, then emits
     * the header and the body. A body longer than MAX_INT32 is refused with
     * ErrBodyTooLarge before anything is changed or emitted.
     */
    method Write() returns (out: seq<byte>, err: Option<NsheadError>)
      modifies this`header
      ensures |body| > MAX_INT32 ==> err == Some(ErrBodyTooLarge) && out == [] && header == old(header)
      ensures |body| <= MAX_INT32 ==>
                err == None && header.bodyLen == |body| && header.magicNum == MAGIC_NUM
                && header.id == old(header).id && header.version == old(header).version
                && header.logid == old(header).logid && header.provider == old(header).provider
                && header.reserved == old(header).reserved
                && out == Serialize(Frame(header, body))
    {
      if |body| > MAX_INT32 {
        return [], Some(ErrBodyTooLarge);
      }
      header := header.(bodyLen := |body|);
      header := header.(magicNum := MAGIC_NUM);
      out := EncodeHeader(header);
      out := out + body;
      err := None;
    }
  }

  /** What Write emits is read back by Parse as the normalised header and the same body, and is 36 + |body| bytes long. */
  lemma WriteOutputParses(h: Nshead, body: seq<byte>, rest: seq<byte>)
    requires |body| <= MAX_INT32
    ensures var f := Frame(h.(bodyLen := |body|, magicNum := MAGIC_NUM), body);
            |Serialize(f)| == HEADER_SIZE + |body| && Parse(Serialize(f) + rest) == Ok(f)
  {
    FrameRoundTrip(Frame(h.(bodyLen := |body|, magicNum := MAGIC_NUM), body), rest);
  }

  /**
   * Reads one packet from the front of `input`. The packet is allocated
   * zeroed, its header is filled from the first 36 bytes, and its body from
   * the next bodyLen bytes; each failure ends the read early with the packet
   * as filled so far.
   */
  method ReadNsheadPacket(input: seq<byte>) returns (packet: NsheadPacket, err: Option<NsheadError>)
    ensures fresh(packet)
    ensures Parse(input).Ok? ==> err == None && packet.header == Parse(input).value.header && packet.body == Parse(input).value.body
    ensures Parse(input).Err? ==> err == Some(Parse(input).error)
    ensures |input| < HEADER_SIZE ==> packet.header == ZERO_HEADER && packet.body == []
    ensures |input| >= HEADER_SIZE ==> packet.header == DecodeHeader(input[..HEADER_SIZE])
    ensures err == Some(ErrMalformedHeader) ==> packet.body == []
    ensures err == Some(UnexpectIOError) && |input| >= HEADER_SIZE ==>
              |packet.body| == packet.header.bodyLen && packet.body[..|input| - HEADER_SIZE] == input[HEADER_SIZE..]
  {
    packet := new NsheadPacket(ZERO_HEADER, []);
    if |input| < HEADER_SIZE {
      return packet, Some(UnexpectIOError);
    }
    packet.header := DecodeHeader(input[..HEADER_SIZE]);
    if packet.header.magicNum != MAGIC_NUM {
      return packet, Some(ErrMalformedHeader);
    }
    if packet.header.bodyLen == 0 {
      return packet, None;
    }
    var n := packet.header.bodyLen;
    packet.body := seq(n, _ => 0);
    if |input| < HEADER_SIZE + n {
      packet.body := input[HEADER_SIZE..] + packet.body[|input| - HEADER_SIZE..];
      return packet, Some(UnexpectIOError);
    }
    packet.body := input[HEADER_SIZE..HEADER_SIZE + n];
    err := None;
  }

  /*
   * A frame used as a fixed example: id 1, version 2, log id 3, provider
   * "HELLOTHEWORLD!!" and a NUL, reserved 4, and the 5-byte body "ZHANG".
   */

  const HELLO_PROVIDER: Provider :=
    [0x48, 0x45, 0x4c, 0x4c, 0x4f, 0x54, 0x48, 0x45, 0x57, 0x4f, 0x52, 0x4c, 0x44, 0x21, 0x21, 0x00]
  const ZHANG_BODY: seq<byte> := [0x5a, 0x48, 0x41, 0x4e, 0x47]
  const EXAMPLE_FRAME: seq<byte> :=
    [0x00, 0x01]                    // id
    + [0x00, 0x02]                  // version
    + [0x00, 0x00, 0x00, 0x03]      // log id
    + HELLO_PROVIDER
    + [0xfb, 0x70, 0x93, 0x94]      // magic number
    + [0x00, 0x00, 0x00, 0x04]      // reserved
    + [0x00, 0x00, 0x00, 0x05]      // body length
    + ZHANG_BODY

  /** The big-endian fields of the example header. */
  lemma ExampleFieldBytes()
    ensures ToBigEndian(1, 2) == [0x00, 0x01] && ToBigEndian(2, 2) == [0x00, 0x02]
    ensures ToBigEndian(3, 4) == [0x00, 0x00, 0x00, 0x03] && ToBigEndian(MAGIC_NUM, 4) == [0xfb, 0x70, 0x93, 0x94]
    ensures ToBigEndian(4, 4) == [0x00, 0x00, 0x00, 0x04] && ToBigEndian(5, 4) == [0x00, 0x00, 0x00, 0x05]
  {
    PowValues();
    assert ToBigEndian(1, 2) == [0x00, 0x01];
    assert ToBigEndian(2, 2) == [0x00, 0x02];
    assert ToBigEndian(3, 4) == [0x00, 0x00, 0x00, 0x03];
    assert ToBigEndian(MAGIC_NUM, 4) == [0xfb, 0x70, 0x93, 0x94];
    assert ToBigEndian(4, 4) == [0x00, 0x00, 0x00, 0x04];
  }

  /** The example bytes are the serialisation of the example frame. */
  lemma ExampleSerialization()
    ensures Serialize(Frame(Nshead(1, 2, 3, HELLO_PROVIDER, MAGIC_NUM, 4, 5), ZHANG_BODY)) == EXAMPLE_FRAME
  {
    ExampleFieldBytes();
  }

  /** Parsing the example bytes gives id 1, version 2, log id 3, the provider, reserved 4, body length 5 and body "ZHANG". */
  lemma ExampleParses()
    ensures Parse(EXAMPLE_FRAME) == Ok(Frame(Nshead(1, 2, 3, HELLO_PROVIDER, MAGIC_NUM, 4, 5), ZHANG_BODY))
  {
    var f := Frame(Nshead(1, 2, 3, HELLO_PROVIDER, MAGIC_NUM, 4, 5), ZHANG_BODY);
    ExampleSerialization();
    FrameRoundTrip(f, []);
    assert Serialize(f) + [] == EXAMPLE_FRAME;
  }

  /** Writing a packet with id 1, version 2, log id 3, the provider, reserved 4 and body "ZHANG" emits the example bytes. */
  method ExampleWrite() returns (out: seq<byte>, err: Option<NsheadError>)
    ensures err == None && out == EXAMPLE_FRAME
  {
    var packet := new NsheadPacket(Nshead(1, 2, 3, HELLO_PROVIDER, 0, 4, 0), ZHANG_BODY);
    out, err := packet.Write();
    ExampleSerialization();
  }

  /*
   * Write as the source has it: the size check only records ErrBodyTooLarge,
   * after which BodyLen is set to the body length truncated to 32 bits and
   * the header and body are emitted anyway.
   */

  /** The written Write: the updated header, the bytes emitted and the error returned. */
  function WriteAsWritten(h: Nshead, body: seq<byte>): (r: (Nshead, seq<byte>, Option<NsheadError>))
  {
    var h2 := h.(bodyLen := |body| % 0x1_0000_0000, magicNum := MAGIC_NUM);
    (h2, EncodeHeader(h2) + body, if |body| > MAX_INT32 then Some(ErrBodyTooLarge) else None)
  }

  /**
   * As written, a body of exactly 2^32 bytes is emitted under a header that
   * says the body is empty: a reader takes an empty body and is left with
   * 2^32 stray bytes where the next header should be.
   */
  lemma WriteAsWrittenTruncates(h: Nshead, body: seq<byte>)
    requires |body| == 0x1_0000_0000
    ensures WriteAsWritten(h, body).2 == Some(ErrBodyTooLarge)
    ensures |WriteAsWritten(h, body).1| == HEADER_SIZE + |body|
    ensures Parse(WriteAsWritten(h, body).1) == Ok(Frame(WriteAsWritten(h, body).0, []))
  {
    var h2 := WriteAsWritten(h, body).0;
    assert h2.bodyLen == 0;
    FrameRoundTrip(Frame(h2, []), body);
    assert Serialize(Frame(h2, [])) + body == WriteAsWritten(h, body).1;
  }
}
