/**
 * The mcpack v2 type-tag byte. A tag names a category; for fixed-width
 * scalars its low nibble is the payload width, for variable-length items the
 * low nibble is zero and bit 0x80 chooses a 1-byte content length (short
 * item) over a 4-byte one (long item).
 */
module Tags {
  import opened Bytes

  const INVALID: byte := 0x00
  const OBJECT: byte := 0x10
  const ARRAY: byte := 0x20
  const STRING: byte := 0x50
  const RAW: byte := 0x60
  const INT_8: byte := 0x11
  const INT_16: byte := 0x12
  const INT_32: byte := 0x14
  const INT_64: byte := 0x18
  const UINT_8: byte := 0x21
  const UINT_16: byte := 0x22
  const UINT_32: byte := 0x24
  const UINT_64: byte := 0x28
  const BOOL: byte := 0x31
  const FLOAT: byte := 0x44
  const DOUBLE: byte := 0x48
  const DATE: byte := 0x58
  const NULL: byte := 0x61
  const SHORT_ITEM: byte := 0x80
  const FIXED_ITEM: byte := 0x0f
  const DELETED_ITEM: byte := 0x70

  /** What a tag byte denotes, with an arm for bytes that denote nothing. */
  datatype Category =
    | Invalid
    | Object | Array | String | Raw | Deleted
    | Int8 | Int16 | Int32 | Int64
    | UInt8 | UInt16 | UInt32 | UInt64
    | Bool | Float | Double | Date | Null
  {
    /** The fixed-width scalar categories, whose payload width the tag carries. */
    predicate IsFixed() {
      !(Invalid? || Object? || Array? || String? || Raw? || Deleted?)
    }

    /** Fixed-width signed integers. */
    predicate IsSigned() {
      Int8? || Int16? || Int32? || Int64?
    }

    /** Fixed-width unsigned integers. */
    predicate IsUnsigned() {
      UInt8? || UInt16? || UInt32? || UInt64?
    }

    /** Fixed-width categories whose bits the decoder passes on uninterpreted (IEEE floats, dates). */
    predicate IsRawBits() {
      Float? || Double? || Date?
    }

    /** The categories followed by a content length: containers, strings, raw bytes, deleted items. */
    predicate IsVariable() {
      Object? || Array? || String? || Raw? || Deleted?
    }
  }

  /** The tag constant of a category; INVALID (0x00) for the Invalid arm. */
  function TagOf(c: Category): (t: byte)
    ensures t < SHORT_ITEM
    ensures t == INVALID <==> c == Invalid
  {
    match c
    case Invalid => INVALID
    case Object => OBJECT
    case Array => ARRAY
    case String => STRING
    case Raw => RAW
    case Deleted => DELETED_ITEM
    case Int8 => INT_8
    case Int16 => INT_16
    case Int32 => INT_32
    case Int64 => INT_64
    case UInt8 => UINT_8
    case UInt16 => UINT_16
    case UInt32 => UINT_32
    case UInt64 => UINT_64
    case Bool => BOOL
    case Float => FLOAT
    case Double => DOUBLE
    case Date => DATE
    case Null => NULL
  }

  /** The tag byte with the SHORT_ITEM bit (0x80) cleared, `tag & 0x7f`. */
  function BaseTag(tag: byte): (t: byte)
    ensures t < SHORT_ITEM
    ensures t == tag || t == tag - SHORT_ITEM
  {
    if tag < SHORT_ITEM then tag else tag - SHORT_ITEM
  }

  /** The tag byte's FIXED_ITEM bits, `tag & 0x0f`: the value modulo 16. */
  function LowNibble(tag: byte): (n: byte)
    ensures n <= FIXED_ITEM
  {
    tag % (FIXED_ITEM + 1)
  }

  /**
   * The category a tag byte denotes. The whole byte, short-item bit cleared,
   * is compared against the constants: the high nibble alone is ambiguous.
   */
  function Classify(tag: byte): (c: Category)
    ensures c != Invalid ==> TagOf(c) == BaseTag(tag)
  {
    var t := BaseTag(tag);
    if t == OBJECT then Object
    else if t == ARRAY then Array
    else if t == STRING then String
    else if t == RAW then Raw
    else if t == DELETED_ITEM then Deleted
    else if t == INT_8 then Int8
    else if t == INT_16 then Int16
    else if t == INT_32 then Int32
    else if t == INT_64 then Int64
    else if t == UINT_8 then UInt8
    else if t == UINT_16 then UInt16
    else if t == UINT_32 then UInt32
    else if t == UINT_64 then UInt64
    else if t == BOOL then Bool
    else if t == FLOAT then Float
    else if t == DOUBLE then Double
    else if t == DATE then Date
    else if t == NULL then Null
    else Invalid
  }

  /** The payload width in bytes of a fixed-width category; 0 for every other category. */
  function Width(c: Category): (w: nat)
    ensures c.IsFixed() ==> w == 1 || w == 2 || w == 4 || w == 8
    ensures !c.IsFixed() ==> w == 0
  {
    match c
    case Int8 => 1
    case UInt8 => 1
    case Bool => 1
    case Null => 1
    case Int16 => 2
    case UInt16 => 2
    case Int32 => 4
    case UInt32 => 4
    case Float => 4
    case Int64 => 8
    case UInt64 => 8
    case Double => 8
    case Date => 8
    case _ => 0
  }

  /** A tag whose FIXED_ITEM nibble, `tag & 0x0f`, is nonzero introduces a fixed-width item; the SHORT_ITEM bit does not change the nibble. */
  function IsFixedTag(tag: byte): (b: bool)
    ensures b <==> LowNibble(BaseTag(tag)) != 0
  {
    LowNibble(tag) != 0
  }

  /**
   * A tag with the SHORT_ITEM bit (0x80) set, `tag & 0x80 != 0`, carries a
   * 1-byte content length; the bit is exactly what BaseTag clears.
   */
  function IsShortTag(tag: byte): (b: bool)
    ensures b ==> BaseTag(tag) == tag - SHORT_ITEM
    ensures !b ==> BaseTag(tag) == tag
  {
    tag >= SHORT_ITEM
  }

  /** A tag below 0x80 with the SHORT_ITEM bit set, `tag | 0x80`. */
  function WithShortBit(tag: byte): (t: byte)
    requires tag < SHORT_ITEM
    ensures IsShortTag(t) && BaseTag(t) == tag
  {
    tag + SHORT_ITEM
  }

  /** Width in bytes of the content-length field of a variable item with this tag. */
  function LengthFieldWidth(tag: byte): (w: nat)
    ensures w == 1 <==> IsShortTag(tag)
    ensures w == 1 || w == 4
  {
    if IsShortTag(tag) then 1 else 4
  }

  /** The arithmetic forms above agree with the bit masks they stand for on every byte. */
  lemma MasksAgree(t: bv8)
    ensures LowNibble(t as int) == (t & 0x0f) as int
    ensures IsShortTag(t as int) <==> (t & 0x80) != 0
    ensures BaseTag(t as int) == (t & 0x7f) as int
    ensures t < 0x80 ==> WithShortBit(t as int) == (t | 0x80) as int
  {
  }

  /** Every tag constant but INVALID is nonzero, and no two categories share a tag. */
  lemma TagsDistinct(c: Category, d: Category)
    ensures c != Invalid ==> TagOf(c) != INVALID
    ensures TagOf(c) == TagOf(d) ==> c == d
  {
    ClassifyTagOf(c);
    ClassifyTagOf(d);
  }

  /** Classify inverts TagOf, with or without the short-item bit. */
  lemma ClassifyTagOf(c: Category)
    ensures Classify(TagOf(c)) == c
    ensures c != Invalid ==> Classify(WithShortBit(TagOf(c))) == c
  {
    match c
    case Invalid =>
    case Object =>
    case Array =>
    case String =>
    case Raw =>
    case Deleted =>
    case Int8 =>
    case Int16 =>
    case Int32 =>
    case Int64 =>
    case UInt8 =>
    case UInt16 =>
    case UInt32 =>
    case UInt64 =>
    case Bool =>
    case Float =>
    case Double =>
    case Date =>
    case Null =>
  }

  /** A byte is a known tag exactly when, short-item bit cleared, it equals some category's constant. */
  lemma ClassifyExact(tag: byte)
    ensures Classify(tag) != Invalid <==> exists c: Category :: c != Invalid && TagOf(c) == BaseTag(tag)
  {
    if exists c: Category :: c != Invalid && TagOf(c) == BaseTag(tag) {
      var c: Category :| c != Invalid && TagOf(c) == BaseTag(tag);
      ClassifyTagOf(c);
      assert BaseTag(TagOf(c)) == TagOf(c);
    }
  }

  /** The low nibble of each category's tag is its payload width (zero for variable categories). */
  lemma LowNibbleIsWidth(c: Category)
    ensures LowNibble(TagOf(c)) == Width(c)
  {
    match c
    case Invalid =>
    case Object =>
    case Array =>
    case String =>
    case Raw =>
    case Deleted =>
    case Int8 =>
    case Int16 =>
    case Int32 =>
    case Int64 =>
    case UInt8 =>
    case UInt16 =>
    case UInt32 =>
    case UInt64 =>
    case Bool =>
    case Float =>
    case Double =>
    case Date =>
    case Null =>
  }

  /** For a known tag, a nonzero FIXED_ITEM nibble separates fixed items from variable ones exactly. */
  lemma FixedTagIffFixedCategory(tag: byte)
    requires Classify(tag) != Invalid
    ensures IsFixedTag(tag) <==> Classify(tag).IsFixed()
    ensures !IsFixedTag(tag) <==> Classify(tag).IsVariable()
  {
    var c := Classify(tag);
    LowNibbleIsWidth(c);
    assert LowNibble(tag) == LowNibble(BaseTag(tag));
  }

  /** Every category constant is below SHORT_ITEM, so setting and clearing that bit loses nothing. */
  lemma ShortBitDisjoint(c: Category)
    ensures TagOf(c) < SHORT_ITEM
    ensures BaseTag(WithShortBit(TagOf(c))) == TagOf(c)
    ensures IsShortTag(WithShortBit(TagOf(c))) && !IsShortTag(TagOf(c))
    ensures LowNibble(WithShortBit(TagOf(c))) == LowNibble(TagOf(c))
  {
    match c
    case Invalid =>
    case Object =>
    case Array =>
    case String =>
    case Raw =>
    case Deleted =>
    case Int8 =>
    case Int16 =>
    case Int32 =>
    case Int64 =>
    case UInt8 =>
    case UInt16 =>
    case UInt32 =>
    case UInt64 =>
    case Bool =>
    case Float =>
    case Double =>
    case Date =>
    case Null =>
  }

  /** The high nibble alone does not identify a category. */
  lemma HighNibbleAmbiguous()
    ensures INT_8 / 16 == OBJECT / 16 && Classify(INT_8) != Classify(OBJECT)
    ensures DATE / 16 == STRING / 16 && Classify(DATE) != Classify(STRING)
  {
  }
}
