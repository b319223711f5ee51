/** Pixel format descriptors of synfig's colour codec.

    A pixel format is a set of independent bits; each bit selects one axis of
    the packed byte layout of a pixel (grey or RGB, alpha, depth, byte order,
    where alpha and depth sit, inversion, raw pass-through, premultiplication).
    The C enum is an `int`, so a format is modelled as a 32-bit vector. */
module PixelFormats {

  type PixelFormat = bv32

  /** A bit position inside a format. */
  type BitIndex = i: bv32 | i < 32

  const RGB: PixelFormat      := 0
  const Gray: PixelFormat     := 1 << 0   // one grey channel instead of three RGB channels
  const A: PixelFormat        := 1 << 1   // with an alpha byte
  const Z: PixelFormat        := 1 << 2   // with a depth byte
  const BGR: PixelFormat      := 1 << 3   // colour bytes in B, G, R order
  const AStart: PixelFormat   := 1 << 4   // alpha before the colour bytes
  const ZStart: PixelFormat   := 1 << 5   // depth before the colour bytes
  const ZA: PixelFormat       := 1 << 6   // depth in front of alpha within a group
  const AInv: PixelFormat     := 1 << 7   // alpha stored as 255 - alpha
  const ZInv: PixelFormat     := 1 << 8   // depth stored inverted (no effect in the codec)
  const APremult: PixelFormat := 1 << 10  // colour bytes premultiplied by alpha

  /** The raw flag is bit 9 together with the alpha bit 1. */
  const RawColor: PixelFormat := (1 << 9) + (1 << 1)

  /** Byte size of the in-memory colour (four 32-bit floats). */
  const ColorSize: nat := 16

  /** Bit `i` of a format, by position. The codec itself only uses `Flags`;
      this is the bit-by-bit view in which the lemmas below state what
      `Flags`, `Or` and `And` mean. */
  predicate HasBit(x: PixelFormat, i: BitIndex) {
    (x >> i) & 1 == 1
  }

  /** The `FLAGS(x, y)` test: every bit of `y` is set in `x`. */
  predicate Flags(x: PixelFormat, y: PixelFormat) {
    x & y == y
  }

  /** `operator|` */
  function Or(lhs: PixelFormat, rhs: PixelFormat): PixelFormat {
    lhs | rhs
  }

  /** `operator&` */
  function And(lhs: PixelFormat, rhs: PixelFormat): PixelFormat {
    lhs & rhs
  }

  /** The union of two formats passes the `Flags` test for both. */
  lemma OrContains(lhs: PixelFormat, rhs: PixelFormat)
    ensures Flags(Or(lhs, rhs), lhs)
    ensures Flags(Or(lhs, rhs), rhs)
  {
  }

  /** Both formats pass the `Flags` test for their intersection. */
  lemma AndContained(lhs: PixelFormat, rhs: PixelFormat)
    ensures Flags(lhs, And(lhs, rhs))
    ensures Flags(rhs, And(lhs, rhs))
  {
  }

  /** Bit by bit, `Or` is a disjunction. */
  lemma OrBit(lhs: PixelFormat, rhs: PixelFormat, i: BitIndex)
    ensures HasBit(Or(lhs, rhs), i) <==> HasBit(lhs, i) || HasBit(rhs, i)
  {
  }

  /** Bit by bit, `And` is a conjunction. */
  lemma AndBit(lhs: PixelFormat, rhs: PixelFormat, i: BitIndex)
    ensures HasBit(And(lhs, rhs), i) <==> HasBit(lhs, i) && HasBit(rhs, i)
  {
  }

  /** Every bit of a mask that `Flags` accepts is set in the format. */
  lemma FlagsBit(x: PixelFormat, y: PixelFormat, i: BitIndex)
    requires Flags(x, y)
    requires HasBit(y, i)
    ensures HasBit(x, i)
  {
  }

  /** Either bit `k` is set, or a set bit lies further up. */
  lemma BitOrAbove(d: PixelFormat, k: BitIndex) returns (found: bool)
    requires d >> k != 0
    ensures found ==> HasBit(d, k)
    ensures !found ==> k < 31 && d >> (k + 1) != 0
  {
    found := HasBit(d, k);
  }

  /** A format with a set bit at `k` or above has a set bit at some index. */
  lemma {:induction false} SomeBitFrom(d: PixelFormat, k: BitIndex) returns (i: BitIndex)
    requires d >> k != 0
    ensures HasBit(d, i)
    decreases 31 - k
  {
    var found := BitOrAbove(d, k);
    if found {
      i := k;
    } else {
      i := SomeBitFrom(d, k + 1);
    }
  }

  lemma MissingBit(x: PixelFormat, y: PixelFormat, i: BitIndex)
    requires HasBit(y & !x, i)
    ensures HasBit(y, i) && !HasBit(x, i)
  {
  }

  lemma MissingMask(x: PixelFormat, y: PixelFormat)
    requires !Flags(x, y)
    ensures (y & !x) >> 0 != 0
  {
  }

  /** A mask that `Flags` rejects has a bit the format lacks. */
  lemma MissingFlag(x: PixelFormat, y: PixelFormat) returns (i: BitIndex)
    requires !Flags(x, y)
    ensures HasBit(y, i) && !HasBit(x, i)
  {
    MissingMask(x, y);
    i := SomeBitFrom(y & !x, 0);
    MissingBit(x, y, i);
  }

  /** A format that holds every bit of a mask passes `Flags` for it. */
  lemma BitsCover(x: PixelFormat, y: PixelFormat)
    requires forall i: BitIndex :: HasBit(y, i) ==> HasBit(x, i)
    ensures Flags(x, y)
  {
    if !Flags(x, y) {
      var i := MissingFlag(x, y);
    }
  }

  /** `FLAGS(x, y)` holds exactly when every bit of `y` is set in `x`. */
  lemma FlagsAllBits(x: PixelFormat, y: PixelFormat)
    ensures Flags(x, y) <==> forall i: BitIndex :: HasBit(y, i) ==> HasBit(x, i)
  {
    if Flags(x, y) {
      forall i: BitIndex | HasBit(y, i)
        ensures HasBit(x, i)
      {
        FlagsBit(x, y, i);
      }
    }
    if forall i: BitIndex :: HasBit(y, i) ==> HasBit(x, i) {
      BitsCover(x, y);
    }
  }

  /** For a one-bit mask, as every flag but `RAW_COLOR` is, `Flags` is that bit. */
  lemma FlagsSingleBit(x: PixelFormat, i: BitIndex)
    ensures Flags(x, 1 << i) <==> HasBit(x, i)
  {
  }

  /** Number of bytes one packed pixel takes. */
  function Channels(x: PixelFormat): (n: nat)
    ensures Flags(x, RawColor) ==> n == ColorSize
    ensures !Flags(x, RawColor) ==> 1 <= n <= 5
    ensures !Flags(x, RawColor) && Flags(x, Gray) ==> n <= 3
    ensures !Flags(x, RawColor) && !Flags(x, Gray) ==> 3 <= n
  {
    if Flags(x, RawColor) then ColorSize
    else
      var chan := if Flags(x, Gray) then 1 else 3;
      var chan := if Flags(x, A) then chan + 1 else chan;
      if Flags(x, Z) then chan + 1 else chan
  }

  /** The raw test needs both bit 9 and the alpha bit 1. */
  lemma RawNeedsBothBits(x: PixelFormat)
    ensures Flags(x, RawColor) ==> HasBit(x, 9) && HasBit(x, 1)
    ensures HasBit(x, 9) && HasBit(x, 1) ==> Flags(x, RawColor)
  {
  }

  /** Bit 9 on its own is not raw: it is a plain RGB format of three bytes. */
  lemma RawBitAloneIsNotRaw()
    ensures !Flags(1 << 9, RawColor)
    ensures Channels(1 << 9) == 3
  {
  }

  /** Every raw format also carries the alpha bit. */
  lemma RawHasAlpha(x: PixelFormat)
    requires Flags(x, RawColor)
    ensures Flags(x, A)
  {
  }
}
