/**
 * Bytes and the fixed-width integer encodings both codecs use: big-endian
 * unsigned readings of 1, 2, 4 or 8 bytes, their inverse, and the
 * two's-complement (signed) reading of the same bits.
 */
module Bytes {

  /** An octet, as a number. */
  type byte = x: int | 0 <= x < 256

  /** 256 to the power `w`: the number of values a `w`-byte field can hold. */
  function Pow256(w: nat): (r: nat)
    ensures r >= 1
  {
    if w == 0 then 1 else 256 * Pow256(w - 1)
  }

  /** The unsigned big-endian integer the bytes of `s` denote (most significant byte first). */
  function BigEndian(s: seq<byte>): (r: nat)
    ensures r < Pow256(|s|)
  {
    if s == [] then 0 else BigEndian(s[..|s| - 1]) * 256 + s[|s| - 1]
  }

  /** The `w` bytes that write `n` big-endian; `n` must fit in `w` bytes. */
  function ToBigEndian(n: nat, w: nat): (r: seq<byte>)
    requires n < Pow256(w)
    ensures |r| == w
  {
    if w == 0 then [] else ToBigEndian(n / 256, w - 1) + [n % 256]
  }

  /** Dropping the last byte of a `w`-byte value leaves a `w - 1`-byte value. */
  lemma DivBound(n: nat, p: nat)
    requires n < 256 * p
    ensures n / 256 < p
  {
  }

  /** Writing a value and reading it back gives the value. */
  lemma {:induction false} BigEndianOfToBigEndian(n: nat, w: nat)
    requires n < Pow256(w)
    ensures BigEndian(ToBigEndian(n, w)) == n
  {
    if w > 0 {
      DivBound(n, Pow256(w - 1));
      var hi, lo := n / 256, n % 256;
      var r := ToBigEndian(n, w);
      assert r == ToBigEndian(hi, w - 1) + [lo];
      assert r[..w - 1] == ToBigEndian(hi, w - 1);
      BigEndianOfToBigEndian(hi, w - 1);
      assert BigEndian(r) == hi * 256 + lo;
    }
  }

  /** Reading bytes and writing the value back gives the same bytes. */
  lemma {:induction false} ToBigEndianOfBigEndian(s: seq<byte>)
    ensures ToBigEndian(BigEndian(s), |s|) == s
  {
    if s != [] {
      var n := BigEndian(s);
      var init := s[..|s| - 1];
      assert n / 256 == BigEndian(init);
      assert n % 256 == s[|s| - 1];
      ToBigEndianOfBigEndian(init);
      assert s == init + [s[|s| - 1]];
    }
  }

  /** Two byte strings of the same length with the same reading are equal. */
  lemma BigEndianInjective(a: seq<byte>, b: seq<byte>)
    requires |a| == |b| && BigEndian(a) == BigEndian(b)
    ensures a == b
  {
    ToBigEndianOfBigEndian(a);
    ToBigEndianOfBigEndian(b);
  }

  /** The weight of the sign bit of a `w`-byte two's-complement integer (2^(8w-1)). */
  function Half(w: nat): (h: int)
    requires w > 0
    ensures Pow256(w) == 2 * h && h >= 128
  {
    128 * Pow256(w - 1)
  }

  /** The two's-complement reading of a `w`-byte unsigned value `u`. */
  function Signed(u: nat, w: nat): (i: int)
    requires w > 0 && u < Pow256(w)
    ensures -Half(w) <= i < Half(w)
    ensures i >= 0 <==> u < Half(w)
    ensures i == u || i == u - Pow256(w)
  {
    if u < Half(w) then u else u - Pow256(w)
  }

  /** The `w`-byte unsigned bit pattern of a signed value `i` in two's complement. */
  function Unsigned(i: int, w: nat): (u: nat)
    requires w > 0 && -Half(w) <= i < Half(w)
    ensures u < Pow256(w)
    ensures u == i || u == i + Pow256(w)
  {
    if i >= 0 then i else i + Pow256(w)
  }

  /** Signed and Unsigned are inverse bijections between the two ranges. */
  lemma SignedUnsigned(i: int, u: nat, w: nat)
    requires w > 0 && -Half(w) <= i < Half(w) && u < Pow256(w)
    ensures Signed(Unsigned(i, w), w) == i
    ensures Unsigned(Signed(u, w), w) == u
  {
  }

  /** The four widths the codecs use, as numbers. */
  lemma PowValues()
    ensures Pow256(1) == 0x100 && Pow256(2) == 0x1_0000
    ensures Pow256(4) == 0x1_0000_0000 && Pow256(8) == 0x1_0000_0000_0000_0000
  {
    assert Pow256(2) == 0x1_0000;
    assert Pow256(3) == 0x100_0000;
    assert Pow256(4) == 0x1_0000_0000;
    assert Pow256(6) == 0x1_0000_0000_0000;
  }
}
