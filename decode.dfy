/**
 * The mcpack v2 item-header decoder: a cursor over a byte buffer, the
 * fixed-width scalar readers, and the three-way branch that reads one item
 * header (fixed item, short item or long item).
 *
 * ParseItem is the specification of one item header as a function of the
 * buffer and the cursor; Decoder.UnpackStruct reads the same header step by
 * step and is proved to agree with it. EncodeItemHeader writes a header and
 * exists only so that the round trip can be stated.
 */
module McpackDecode {
  import opened Results
  import opened Bytes
  import opened Tags

  /** Why a header could not be read. */
  datatype DecodeError =
    | UnexpectedEof         // fewer bytes remain than the next read needs
    | InvalidTag(tag: byte) // the tag byte denotes no category

  /** The decoded payload of a fixed-width item. */
  datatype Scalar =
    | SignedInt(i: int)     // INT_8 .. INT_64
    | UnsignedInt(u: nat)   // UINT_8 .. UINT_64
    | Boolean(b: bool)      // BOOL
    | Bits(bits: nat)       // FLOAT, DOUBLE, DATE: the raw big-endian bit pattern
    | Nil                   // NULL

  /** One item header: a fixed item with its value, or a variable item with its content length. */
  datatype Item =
    | Fixed(tag: byte, name: seq<byte>, value: Scalar)
    | Var(tag: byte, name: seq<byte>, contentLen: nat)

  /** The scalar values a fixed-width category can carry in its width. */
  predicate ScalarFits(c: Category, v: Scalar)
    requires c.IsFixed()
  {
    match v
    case SignedInt(i) => c.IsSigned() && -Half(Width(c)) <= i < Half(Width(c))
    case UnsignedInt(u) => c.IsUnsigned() && u < Pow256(Width(c))
    case Boolean(_) => c == Bool
    case Bits(b) => c.IsRawBits() && b < Pow256(Width(c))
    case Nil => c == Null
  }

  /** The value the `Width(c)` payload bytes of a fixed item denote: big-endian, two's complement for signed, 0 is false. */
  function ScalarOf(c: Category, raw: seq<byte>): (v: Scalar)
    requires c.IsFixed() && |raw| == Width(c)
    ensures ScalarFits(c, v)
  {
    if c.IsSigned() then SignedInt(Signed(BigEndian(raw), |raw|))
    else if c.IsUnsigned() then UnsignedInt(BigEndian(raw))
    else if c.IsRawBits() then Bits(BigEndian(raw))
    else if c.Bool? then Boolean(raw[0] != 0)
    else Nil
  }

  /** The payload bytes of a fixed item (true is written 1, NULL's byte 0). */
  function EncodeScalar(c: Category, v: Scalar): (raw: seq<byte>)
    requires c.IsFixed() && ScalarFits(c, v)
    ensures |raw| == Width(c)
  {
    match v
    case SignedInt(i) => ToBigEndian(Unsigned(i, Width(c)), Width(c))
    case UnsignedInt(u) => ToBigEndian(u, Width(c))
    case Boolean(b) => [if b then 1 else 0]
    case Bits(b) => ToBigEndian(b, Width(c))
    case Nil => [0]
  }

  /** A signed value written in two's complement is read back unchanged. */
  lemma SignedRoundTrip(c: Category, i: int)
    requires c.IsSigned() && -Half(Width(c)) <= i < Half(Width(c))
    ensures ScalarOf(c, ToBigEndian(Unsigned(i, Width(c)), Width(c))) == SignedInt(i)
  {
    var w := Width(c);
    var raw := ToBigEndian(Unsigned(i, w), w);
    BigEndianOfToBigEndian(Unsigned(i, w), w);
    SignedUnsigned(i, 0, w);
  }

  /** An unsigned value or raw bit pattern written big-endian is read back unchanged. */
  lemma UnsignedRoundTrip(c: Category, u: nat)
    requires (c.IsUnsigned() || c.IsRawBits()) && u < Pow256(Width(c))
    ensures ScalarOf(c, ToBigEndian(u, Width(c))) == if c.IsUnsigned() then UnsignedInt(u) else Bits(u)
  {
    var raw := ToBigEndian(u, Width(c));
    BigEndianOfToBigEndian(u, Width(c));
  }

  /** Every value that fits a category is read back unchanged from its encoding. */
  lemma ScalarRoundTrip(c: Category, v: Scalar)
    requires c.IsFixed() && ScalarFits(c, v)
    ensures ScalarOf(c, EncodeScalar(c, v)) == v
  {
    match v
    case SignedInt(i) => SignedRoundTrip(c, i);
    case UnsignedInt(u) => UnsignedRoundTrip(c, u);
    case Boolean(b) =>
    case Bits(b) => UnsignedRoundTrip(c, b);
    case Nil =>
  }

  /** An item the format can carry: a known tag, a name of at most 255 bytes, and a payload that fits the tag. */
  predicate WellFormedItem(it: Item) {
    |it.name| < 256 && Classify(it.tag) != Invalid &&
    match it
    case Fixed(tag, _, v) => IsFixedTag(tag) && Classify(tag).IsFixed() && ScalarFits(Classify(tag), v)
    case Var(tag, _, n) => !IsFixedTag(tag) && Classify(tag).IsVariable() && n < Pow256(LengthFieldWidth(tag))
  }

  /** Number of bytes after the name: the fixed payload's width, or the content-length field's. */
  function PayloadWidth(it: Item): nat {
    match it
    case Fixed(tag, _, _) => Width(Classify(tag))
    case Var(tag, _, _) => LengthFieldWidth(tag)
  }

  /** The bytes after the name: the fixed payload, or the big-endian content length. */
  function PayloadBytes(it: Item): (p: seq<byte>)
    requires WellFormedItem(it)
    ensures |p| == PayloadWidth(it)
  {
    match it
    case Fixed(tag, _, v) => EncodeScalar(Classify(tag), v)
    case Var(tag, _, n) => ToBigEndian(n, LengthFieldWidth(tag))
  }

  /** Header bytes of an item: tag, name length, name, then the fixed payload or the content-length field. */
  function EncodeItemHeader(it: Item): (enc: seq<byte>)
    requires WellFormedItem(it)
    ensures |enc| == 2 + |it.name| + PayloadWidth(it)
    ensures enc[0] == it.tag && enc[1] == |it.name|
    ensures enc[2..2 + |it.name|] == it.name && enc[2 + |it.name|..] == PayloadBytes(it)
  {
    [it.tag, |it.name|] + it.name + PayloadBytes(it)
  }

  /** What follows the name, read at `pos` and dispatched on the whole tag byte. */
  function ParsePayload(data: seq<byte>, tag: byte, name: seq<byte>, pos: nat): (r: Result<(Item, nat), DecodeError>)
    requires pos <= |data| && |name| < 256
    ensures r.Ok? ==> WellFormedItem(r.value.0) && r.value.0.tag == tag && r.value.0.name == name
    ensures r.Ok? ==> r.value.1 == pos + PayloadWidth(r.value.0) <= |data|
    ensures r.Err? ==> r.error == UnexpectedEof || Classify(tag) == Invalid
    ensures Classify(tag) == Invalid ==> r == Err(InvalidTag(tag))
    ensures (Classify(tag) != Invalid
             && pos + (if IsFixedTag(tag) then Width(Classify(tag)) else LengthFieldWidth(tag)) <= |data|) ==> r.Ok?
  {
    var c := Classify(tag);
    if c == Invalid then Err(InvalidTag(tag))
    else
      FixedTagIffFixedCategory(tag);
      if IsFixedTag(tag) then
        var end := pos + Width(c);
        if end > |data| then Err(UnexpectedEof)
        else Ok((Fixed(tag, name, ScalarOf(c, data[pos..end])), end))
      else
        var end := pos + LengthFieldWidth(tag);
        if end > |data| then Err(UnexpectedEof)
        else Ok((Var(tag, name, BigEndian(data[pos..end])), end))
  }

  /**
   * One item header read at `off`: on success the item and the offset just
   * after the header (for a variable item, the start of its content).
   * At least two bytes (tag and name length) must remain, then the name,
   * then the payload or the length field; an unknown tag is rejected.
   */
  function ParseItem(data: seq<byte>, off: nat): (r: Result<(Item, nat), DecodeError>)
    ensures off + 2 > |data| ==> r == Err(UnexpectedEof)
    ensures off + 2 <= |data| && off + 2 + data[off + 1] > |data| ==> r == Err(UnexpectedEof)
    ensures r.Ok? ==> WellFormedItem(r.value.0) && r.value.0.tag == data[off]
    ensures r.Ok? ==> r.value.1 == off + 2 + |r.value.0.name| + PayloadWidth(r.value.0) <= |data|
    ensures r.Ok? ==> |r.value.0.name| == data[off + 1] && r.value.0.name == data[off + 2..off + 2 + |r.value.0.name|]
  {
    if off + 2 > |data| then Err(UnexpectedEof)
    else
      var nameEnd := off + 2 + data[off + 1];
      if nameEnd > |data| then Err(UnexpectedEof)
      else ParsePayload(data, data[off], data[off + 2..nameEnd], nameEnd)
  }

  /** The payload or length field written for an item is read back as that item. */
  lemma PayloadRoundTrip(data: seq<byte>, it: Item, pos: nat)
    requires WellFormedItem(it) && pos + PayloadWidth(it) <= |data|
    requires data[pos..pos + PayloadWidth(it)] == PayloadBytes(it)
    ensures ParsePayload(data, it.tag, it.name, pos) == Ok((it, pos + PayloadWidth(it)))
  {
    FixedTagIffFixedCategory(it.tag);
    match it
    case Fixed(tag, name, v) =>
      ScalarRoundTrip(Classify(tag), v);
    case Var(tag, name, n) =>
      BigEndianOfToBigEndian(n, LengthFieldWidth(tag));
  }

  /** A slice of the middle part of a concatenation is the same slice of that part. */
  lemma MiddleSlice(a: seq<byte>, b: seq<byte>, c: seq<byte>, i: nat, j: nat)
    requires i <= j <= |b|
    ensures (a + b + c)[|a| + i..|a| + j] == b[i..j]
  {
    var d := a + b + c;
    forall k | 0 <= k < j - i
      ensures d[|a| + i..|a| + j][k] == b[i..j][k]
    {
      assert d[|a| + i + k] == b[i + k];
    }
  }

  /** Where the parts of an encoded header sit inside a larger buffer. */
  lemma HeaderPlacement(prefix: seq<byte>, it: Item, rest: seq<byte>)
    requires WellFormedItem(it)
    ensures var data, off := prefix + EncodeItemHeader(it) + rest, |prefix|;
            var nameEnd := off + 2 + |it.name|;
            nameEnd + PayloadWidth(it) <= |data| &&
            data[off] == it.tag && data[off + 1] == |it.name| &&
            data[off + 2..nameEnd] == it.name &&
            data[nameEnd..nameEnd + PayloadWidth(it)] == PayloadBytes(it)
  {
    var enc := EncodeItemHeader(it);
    var n := |it.name|;
    MiddleSlice(prefix, enc, rest, 2, 2 + n);
    MiddleSlice(prefix, enc, rest, 2 + n, |enc|);
    assert enc[2 + n..|enc|] == enc[2 + n..];
  }

  /** A buffer holding an item's tag, name length, name and payload at `off` is read as that item. */
  lemma ItemAt(data: seq<byte>, off: nat, it: Item)
    requires WellFormedItem(it)
    requires off + 2 + |it.name| + PayloadWidth(it) <= |data|
    requires data[off] == it.tag && data[off + 1] == |it.name|
    requires data[off + 2..off + 2 + |it.name|] == it.name
    requires data[off + 2 + |it.name|..off + 2 + |it.name| + PayloadWidth(it)] == PayloadBytes(it)
    ensures ParseItem(data, off) == Ok((it, off + 2 + |it.name| + PayloadWidth(it)))
  {
    assert ParseItem(data, off) == ParsePayload(data, it.tag, it.name, off + 2 + |it.name|);
    PayloadRoundTrip(data, it, off + 2 + |it.name|);
  }

  /** Reading the header written for a well-formed item, wherever it sits in a buffer, gives that item back and stops right after it. */
  lemma ItemRoundTrip(prefix: seq<byte>, it: Item, rest: seq<byte>)
    requires WellFormedItem(it)
    ensures ParseItem(prefix + EncodeItemHeader(it) + rest, |prefix|)
         == Ok((it, |prefix| + |EncodeItemHeader(it)|))
  {
    HeaderPlacement(prefix, it, rest);
    ItemAt(prefix + EncodeItemHeader(it) + rest, |prefix|, it);
  }

  /** Every strict prefix of a header is reported as truncated, never misread and never a tag error. */
  lemma TruncatedItemFails(it: Item, k: nat)
    requires WellFormedItem(it) && k < |EncodeItemHeader(it)|
    ensures ParseItem(EncodeItemHeader(it)[..k], 0) == Err(UnexpectedEof)
  {
    var enc := EncodeItemHeader(it);
    var data := enc[..k];
    if k >= 2 {
      assert data[0] == it.tag && data[1] == enc[1];
      FixedTagIffFixedCategory(it.tag);
    }
  }

  /**
   * The cursor state of one decode call: the buffer, the offset of the next
   * unread byte, the bytes left in the current item, and the first error
   * recorded.
   */
  class Decoder {
    const data: seq<byte>
    var off: nat
    var curItemLeft: int
    var savedError: Option<DecodeError>

    /** The cursor never passes the end of the buffer. */
    ghost predicate Valid()
      reads this
    {
      off <= |data|
    }

    /** A fresh decoder over `data`, in the state `reset` leaves. */
    constructor (data: seq<byte>)
      ensures Valid()
      ensures this.data == data && off == 0 && savedError == None && curItemLeft == 0
    {
      this.data := data;
      off := 0;
      savedError := None;
      curItemLeft := 0;
    }

    /** Rewinds to the start of the buffer and forgets any recorded error. */
    method Reset()
      modifies this
      ensures Valid()
      ensures off == 0 && savedError == None && curItemLeft == 0
    {
      off := 0;
      savedError := None;
      curItemLeft := 0;
    }

    /** Reads one byte; on success the cursor moves by exactly 1. */
    method Uint8() returns (r: Result<byte, DecodeError>)
      requires Valid()
      modifies this`off
      ensures Valid()
      ensures old(off) + 1 <= |data| ==> r == Ok(data[old(off)]) && off == old(off) + 1
      ensures old(off) + 1 > |data| ==> r == Err(UnexpectedEof) && off == old(off)
    {
      if off + 1 > |data| {
        return Err(UnexpectedEof);
      }
      r := Ok(data[off]);
      off := off + 1;
    }

    /** Reads one byte as a two's-complement integer; on success the cursor moves by exactly 1. */
    method Int8() returns (r: Result<int, DecodeError>)
      requires Valid()
      modifies this`off
      ensures Valid()
      ensures old(off) + 1 <= |data| ==> r == Ok(Signed(data[old(off)], 1)) && off == old(off) + 1
      ensures old(off) + 1 > |data| ==> r == Err(UnexpectedEof) && off == old(off)
    {
      if off + 1 > |data| {
        return Err(UnexpectedEof);
      }
      r := Ok(Signed(data[off], 1));
      off := off + 1;
    }

    /** Reads `w` bytes as a big-endian unsigned integer; on success the cursor moves by exactly `w`. */
    method ReadUnsigned(w: nat) returns (r: Result<nat, DecodeError>)
      requires Valid()
      modifies this`off
      ensures Valid()
      ensures old(off) + w <= |data| ==> r == Ok(BigEndian(data[old(off)..old(off) + w])) && off == old(off) + w
      ensures old(off) + w > |data| ==> r == Err(UnexpectedEof) && off == old(off)
    {
      if off + w > |data| {
        return Err(UnexpectedEof);
      }
      r := Ok(BigEndian(data[off..off + w]));
      off := off + w;
    }

    /** Reads `w` bytes as a big-endian two's-complement integer; on success the cursor moves by exactly `w`. */
    method ReadSigned(w: nat) returns (r: Result<int, DecodeError>)
      requires Valid() && w > 0
      modifies this`off
      ensures Valid()
      ensures old(off) + w <= |data| ==> r == Ok(Signed(BigEndian(data[old(off)..old(off) + w]), w)) && off == old(off) + w
      ensures old(off) + w > |data| ==> r == Err(UnexpectedEof) && off == old(off)
    {
      var u := ReadUnsigned(w);
      if u.Err? {
        return Err(u.error);
      }
      r := Ok(Signed(u.value, w));
    }

    /** Reads 2 bytes big-endian; the cursor moves by exactly 2. */
    method Uint16() returns (r: Result<nat, DecodeError>)
      requires Valid()
      modifies this`off
      ensures Valid()
      ensures old(off) + 2 <= |data| ==> r == Ok(BigEndian(data[old(off)..old(off) + 2])) && off == old(off) + 2
      ensures old(off) + 2 > |data| ==> r == Err(UnexpectedEof) && off == old(off)
    {
      r := ReadUnsigned(2);
    }

    /** Reads 2 bytes big-endian as a signed integer; the cursor moves by exactly 2. */
    method Int16() returns (r: Result<int, DecodeError>)
      requires Valid()
      modifies this`off
      ensures Valid()
      ensures old(off) + 2 <= |data| ==> r == Ok(Signed(BigEndian(data[old(off)..old(off) + 2]), 2)) && off == old(off) + 2
      ensures old(off) + 2 > |data| ==> r == Err(UnexpectedEof) && off == old(off)
    {
      r := ReadSigned(2);
    }

    /** Reads 4 bytes big-endian; the cursor moves by exactly 4. */
    method Uint32() returns (r: Result<nat, DecodeError>)
      requires Valid()
      modifies this`off
      ensures Valid()
      ensures old(off) + 4 <= |data| ==> r == Ok(BigEndian(data[old(off)..old(off) + 4])) && off == old(off) + 4
      ensures old(off) + 4 > |data| ==> r == Err(UnexpectedEof) && off == old(off)
    {
      r := ReadUnsigned(4);
    }

    /** Reads 4 bytes big-endian as a signed integer; the cursor moves by exactly 4. */
    method Int32() returns (r: Result<int, DecodeError>)
      requires Valid()
      modifies this`off
      ensures Valid()
      ensures old(off) + 4 <= |data| ==> r == Ok(Signed(BigEndian(data[old(off)..old(off) + 4]), 4)) && off == old(off) + 4
      ensures old(off) + 4 > |data| ==> r == Err(UnexpectedEof) && off == old(off)
    {
      r := ReadSigned(4);
    }

    /** Reads 8 bytes big-endian; the cursor moves by exactly 8. */
    method Uint64() returns (r: Result<nat, DecodeError>)
      requires Valid()
      modifies this`off
      ensures Valid()
      ensures old(off) + 8 <= |data| ==> r == Ok(BigEndian(data[old(off)..old(off) + 8])) && off == old(off) + 8
      ensures old(off) + 8 > |data| ==> r == Err(UnexpectedEof) && off == old(off)
    {
      r := ReadUnsigned(8);
    }

    /** Reads 8 bytes big-endian as a signed integer; the cursor moves by exactly 8. */
    method Int64() returns (r: Result<int, DecodeError>)
      requires Valid()
      modifies this`off
      ensures Valid()
      ensures old(off) + 8 <= |data| ==> r == Ok(Signed(BigEndian(data[old(off)..old(off) + 8]), 8)) && off == old(off) + 8
      ensures old(off) + 8 > |data| ==> r == Err(UnexpectedEof) && off == old(off)
    {
      r := ReadSigned(8);
    }

    /** Reads one byte as a boolean, 0 being false; the cursor moves by exactly 1. */
    method Bool() returns (r: Result<bool, DecodeError>)
      requires Valid()
      modifies this`off
      ensures Valid()
      ensures old(off) + 1 <= |data| ==> r == Ok(data[old(off)] != 0) && off == old(off) + 1
      ensures old(off) + 1 > |data| ==> r == Err(UnexpectedEof) && off == old(off)
    {
      var b := Uint8();
      if b.Err? {
        return Err(b.error);
      }
      r := Ok(b.value != 0);
    }

    /** Skips the one byte of a NULL payload. */
    method Null() returns (r: Result<(), DecodeError>)
      requires Valid()
      modifies this`off
      ensures Valid()
      ensures old(off) + 1 <= |data| ==> r == Ok(()) && off == old(off) + 1
      ensures old(off) + 1 > |data| ==> r == Err(UnexpectedEof) && off == old(off)
    {
      if off + 1 > |data| {
        return Err(UnexpectedEof);
      }
      off := off + 1;
      r := Ok(());
    }

    /**
     * The switch over fixed-width categories: reads the payload of category
     * `c` at the cursor, which moves by exactly `Width(c)` on success.
     */
    method ReadScalar(c: Category) returns (r: Result<Scalar, DecodeError>)
      requires Valid() && c.IsFixed()
      modifies this`off
      ensures Valid()
      ensures old(off) + Width(c) <= |data| ==>
                r == Ok(ScalarOf(c, data[old(off)..old(off) + Width(c)])) && off == old(off) + Width(c)
      ensures old(off) + Width(c) > |data| ==> r == Err(UnexpectedEof) && off == old(off)
    {
      ghost var start := off;
      if c.IsSigned() {
        var x := ReadSignedScalar(c);
        if x.Err? { return Err(x.error); }
        r := Ok(SignedInt(x.value));
      } else if c.IsUnsigned() {
        var x := ReadUnsignedScalar(c);
        if x.Err? { return Err(x.error); }
        r := Ok(UnsignedInt(x.value));
      } else if c.IsRawBits() {
        // Float reads 4 bytes, Double and Date 8; their bits are passed on uninterpreted
        var x := ReadUnsigned(Width(c));
        if x.Err? { return Err(x.error); }
        r := Ok(Bits(x.value));
      } else if c.Bool? {
        var x := Bool();
        if x.Err? { return Err(x.error); }
        assert data[start..start + 1][0] == data[start];
        r := Ok(Boolean(x.value));
      } else {
        assert c.Null? && Width(c) == 1;
        var x := Null();
        if x.Err? { return Err(x.error); }
        r := Ok(Nil);
      }
    }

    /** The signed arms of the payload switch: Int8, Int16, Int32 and Int64 through their own readers, as two's-complement values. */
    method ReadSignedScalar(c: Category) returns (r: Result<int, DecodeError>)
      requires Valid() && c.IsSigned()
      modifies this`off
      ensures Valid()
      ensures old(off) + Width(c) <= |data| ==>
                r == Ok(Signed(BigEndian(data[old(off)..old(off) + Width(c)]), Width(c))) && off == old(off) + Width(c)
      ensures old(off) + Width(c) > |data| ==> r == Err(UnexpectedEof) && off == old(off)
    {
      ghost var start := off;
      match c {
        case Int8 =>
          var x := Int8();
          if x.Err? { return Err(x.error); }
          assert data[start..start + 1] == [data[start]];
          r := Ok(x.value);
        case Int16 =>
          var x := Int16();
          if x.Err? { return Err(x.error); }
          r := Ok(x.value);
        case Int32 =>
          var x := Int32();
          if x.Err? { return Err(x.error); }
          r := Ok(x.value);
        case Int64 =>
          var x := Int64();
          if x.Err? { return Err(x.error); }
          r := Ok(x.value);
      }
    }

    /** The unsigned arms of the payload switch: Uint8, Uint16, Uint32 and Uint64 through their own readers. */
    method ReadUnsignedScalar(c: Category) returns (r: Result<nat, DecodeError>)
      requires Valid() && c.IsUnsigned()
      modifies this`off
      ensures Valid()
      ensures old(off) + Width(c) <= |data| ==>
                r == Ok(BigEndian(data[old(off)..old(off) + Width(c)])) && off == old(off) + Width(c)
      ensures old(off) + Width(c) > |data| ==> r == Err(UnexpectedEof) && off == old(off)
    {
      ghost var start := off;
      match c {
        case UInt8 =>
          var x := Uint8();
          if x.Err? { return Err(x.error); }
          assert data[start..start + 1] == [x.value];
          r := Ok(x.value);
        case UInt16 =>
          var x := Uint16();
          if x.Err? { return Err(x.error); }
          r := Ok(x.value);
        case UInt32 =>
          var x := Uint32();
          if x.Err? { return Err(x.error); }
          r := Ok(x.value);
        case UInt64 =>
          var x := Uint64();
          if x.Err? { return Err(x.error); }
          r := Ok(x.value);
      }
    }

    /**
     * The three-way branch after the name, dispatched on the whole tag byte:
     * a fixed item's payload, a short item's 1-byte content length, or a long
     * item's 4-byte big-endian content length.
     */
    method UnpackPayload(tag: byte, name: seq<byte>) returns (r: Result<Item, DecodeError>)
      requires Valid() && |name| < 256
      modifies this`off
      ensures Valid()
      ensures ParsePayload(data, tag, name, old(off)).Ok? ==>
                r == Ok(ParsePayload(data, tag, name, old(off)).value.0) && off == ParsePayload(data, tag, name, old(off)).value.1
      ensures ParsePayload(data, tag, name, old(off)).Err? ==> r == Err(ParsePayload(data, tag, name, old(off)).error) && off == old(off)
    {
      var c := Classify(tag);
      if c == Invalid {
        return Err(InvalidTag(tag));
      }
      FixedTagIffFixedCategory(tag);
      if IsFixedTag(tag) {
        var v := ReadScalar(c);
        if v.Err? {
          return Err(v.error);
        }
        r := Ok(Fixed(tag, name, v.value));
      } else if IsShortTag(tag) {
        ghost var start := off;
        var len := Uint8();
        if len.Err? {
          return Err(len.error);
        }
        assert data[start..start + 1] == [len.value];
        r := Ok(Var(tag, name, len.value));
      } else {
        var len := Uint32();
        if len.Err? {
          return Err(len.error);
        }
        r := Ok(Var(tag, name, len.value));
      }
    }

    /**
     * Reads one item header at the cursor: tag, name length, name, then the
     * payload or content length. A failure is also recorded in `savedError`;
     * with fewer than two bytes left nothing is read.
     */
    method UnpackStruct() returns (r: Result<Item, DecodeError>)
      requires Valid()
      modifies this`off, this`savedError
      ensures Valid()
      ensures ParseItem(data, old(off)).Ok? ==>
                r == Ok(ParseItem(data, old(off)).value.0) && off == ParseItem(data, old(off)).value.1
                && savedError == old(savedError)
      ensures ParseItem(data, old(off)).Err? ==>
                r == Err(ParseItem(data, old(off)).error) && savedError == Some(r.error)
      ensures old(off) + 2 > |data| ==> off == old(off)
      ensures old(off) + 2 <= |data| && old(off) + 2 + data[old(off) + 1] > |data| ==> off == old(off) + 2
      ensures old(off) + 2 <= |data| && old(off) + 2 + data[old(off) + 1] <= |data| && ParseItem(data, old(off)).Err? ==>
                off == old(off) + 2 + data[old(off) + 1]
    {
      if off + 2 > |data| {
        savedError := Some(UnexpectedEof);
        return Err(UnexpectedEof);
      }
      ghost var start := off;
      var tag := Uint8();
      var nameLen := Uint8();
      var n := nameLen.value;
      assert tag.value == data[start] && off == start + 2 && n == data[start + 1];
      if off + n > |data| {
        assert ParseItem(data, start) == Err(UnexpectedEof);
        savedError := Some(UnexpectedEof);
        return Err(UnexpectedEof);
      }
      var name := data[off..off + n];
      off := off + n;
      ghost var p := ParsePayload(data, tag.value, name, off);
      assert ParseItem(data, start) == p;
      r := UnpackPayload(tag.value, name);
      assert p.Err? ==> off == start + 2 + n;
      if r.Err? {
        savedError := Some(r.error);
      }
    }
  }

  /*
   * The source as written. The fixed-item switch compares the masked tag
   * (`LowNibble(tag)`, at most 15) against full tag constants (all at least
   * 0x11), and its BOOL reader maps 0 to true without moving the cursor.
   */

  /** The arm the written switch selects: the first constant equal to the masked tag, Invalid for its default arm. */
  function DispatchAsWritten(tag: byte): (c: Category) {
    var key := LowNibble(tag);
    if key == UINT_8 then UInt8
    else if key == INT_8 then Int8
    else if key == UINT_16 then UInt16
    else if key == INT_16 then Int16
    else if key == UINT_32 then UInt32
    else if key == INT_32 then Int32
    else if key == UINT_64 then UInt64
    else if key == INT_64 then Int64
    else if key == BOOL then Bool
    else if key == FLOAT then Float
    else if key == DOUBLE then Double
    else if key == DATE then Date
    else if key == NULL then Null
    else Invalid
  }

  /** As written, every byte reaches the default arm, so no fixed item is ever decoded. */
  lemma DispatchAsWrittenNeverMatches(tag: byte)
    ensures DispatchAsWritten(tag) == Invalid
    ensures IsFixedTag(tag) && Classify(tag) != Invalid ==> DispatchAsWritten(tag) != Classify(tag)
  {
    assert LowNibble(tag) <= 0x0f;
  }

  /** The written BOOL reader: the value is `byte == 0` and the cursor stays where it was. */
  function BoolAsWritten(data: seq<byte>, off: nat): (r: (bool, nat))
    requires off < |data|
  {
    (data[off] == 0, off)
  }

  /** As written, a BOOL payload decodes to the opposite of the value it encodes, and the next read starts on the same byte. */
  lemma BoolAsWrittenInverts(b: bool)
    ensures BoolAsWritten(EncodeScalar(Bool, Boolean(b)), 0) == (!b, 0)
    ensures ScalarOf(Bool, EncodeScalar(Bool, Boolean(b))) == Boolean(b)
  {
  }
}
