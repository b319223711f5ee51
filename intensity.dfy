/** Integer arithmetic of the encoder: the alpha byte, integer
    premultiplication, the top byte of a 16-bit intensity and the grey byte.

    The inputs are the alpha byte `ac` (already clamped and scaled by the
    floating-point code) and the three 16-bit intensities that the gamma
    mapping produced. */
module Intensities {
  import opened Buffers

  /** A 16-bit gamma output. */
  type Intensity = x: int | 0 <= x < 0x1_0000

  /** Luma weights scaled by 256: red and green come from the YUV encode
      matrix, blue takes the rest so that the three sum to 256. */
  datatype Luma = Luma(yr: int, yg: int)

  function BlueWeight(l: Luma): int {
    256 - l.yr - l.yg
  }

  predicate ValidLuma(l: Luma) {
    0 <= l.yr && 0 <= l.yg && 0 <= BlueWeight(l)
  }

  /** Conversion to `unsigned char`: only the low eight bits survive. */
  function ToByte(x: int): (b: Byte)
    ensures 0 <= x < 256 ==> b == x
  {
    x % 256
  }

  /** The stored alpha byte: `ac`, or `255 - ac` for an inverted-alpha format. */
  function StoredAlpha(inverted: bool, ac: Byte): (s: Byte)
    ensures inverted ==> s + ac == 255
    ensures !inverted ==> s == ac
  {
    if inverted then 255 - ac else ac
  }

  lemma PremultiplyBound(x: Intensity, weight: int)
    requires 1 <= weight <= 256
    ensures 0 <= (x * weight) / 256 <= x
  {
    assert 0 <= x * weight <= x * 256;
  }

  /** `(x * (stored + 1)) >> 8`: scaling by the stored alpha, with a +1 bias so
      that an alpha of 255 keeps the intensity. */
  function Premultiply(x: Intensity, stored: Byte): (r: Intensity)
    ensures r <= x
    ensures stored == 255 ==> r == x
    ensures stored == 0 ==> r < 256
  {
    PremultiplyBound(x, stored + 1);
    (x * (stored + 1)) / 256
  }

  /** `(unsigned char)(x >> 8)`: for a 16-bit intensity the cast loses nothing
      and the result is the top byte. */
  function HighByte(x: Intensity): (b: Byte)
    ensures b * 256 <= x < b * 256 + 256
  {
    ToByte(x / 256)
  }

  function WeightedSum(l: Luma, r: Intensity, g: Intensity, b: Intensity): int {
    r * l.yr + g * l.yg + b * BlueWeight(l)
  }

  /** `(unsigned char)((r*yr + g*yg + b*yb) >> 16)`. */
  function GrayByte(l: Luma, r: Intensity, g: Intensity, b: Intensity): Byte {
    ToByte(WeightedSum(l, r, g, b) / 0x1_0000)
  }

  lemma MulMonotone(a: int, b: int, c: int)
    requires 0 <= a <= b && 0 <= c
    ensures 0 <= a * c <= b * c
  {
  }

  lemma WeightedSumBound(l: Luma, r: Intensity, g: Intensity, b: Intensity)
    requires ValidLuma(l)
    ensures 0 <= WeightedSum(l, r, g, b) < 0x1_0000 * 256
  {
    MulMonotone(r, 0xFFFF, l.yr);
    MulMonotone(g, 0xFFFF, l.yg);
    MulMonotone(b, 0xFFFF, BlueWeight(l));
  }

  /** With non-negative weights summing to 256 the grey byte needs no
      truncation: it is the weighted sum shifted right by 16. */
  lemma GrayByteExact(l: Luma, r: Intensity, g: Intensity, b: Intensity)
    requires ValidLuma(l)
    ensures GrayByte(l, r, g, b) == WeightedSum(l, r, g, b) / 0x1_0000 <= 255
  {
    WeightedSumBound(l, r, g, b);
  }

  /** A grey pixel keeps its level: equal intensities give their top byte. */
  lemma GrayOfEqualIntensities(l: Luma, x: Intensity)
    ensures GrayByte(l, x, x, x) == HighByte(x)
  {
    calc {
      WeightedSum(l, x, x, x);
      x * l.yr + x * l.yg + x * (256 - l.yr - l.yg);
      { assert x * (256 - l.yr - l.yg) == x * 256 - x * l.yr - x * l.yg; }
      x * 256;
    }
    assert (x * 256) / 0x1_0000 == x / 256;
  }

  /** Zero alpha blanks every colour byte: the premultiplied intensities are
      below 256, so their top bytes and their grey byte are 0. */
  lemma ZeroAlphaBlanks(l: Luma, r: Intensity, g: Intensity, b: Intensity)
    requires ValidLuma(l)
    ensures HighByte(Premultiply(r, 0)) == 0
    ensures GrayByte(l, Premultiply(r, 0), Premultiply(g, 0), Premultiply(b, 0)) == 0
  {
    var r', g', b' := Premultiply(r, 0), Premultiply(g, 0), Premultiply(b, 0);
    MulMonotone(r', 255, l.yr);
    MulMonotone(g', 255, l.yg);
    MulMonotone(b', 255, BlueWeight(l));
    assert WeightedSum(l, r', g', b') <= 255 * 256;
  }
}
