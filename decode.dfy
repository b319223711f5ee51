/** Decoding one packed pixel back into a colour (`PixelFormat2Color`).

    Channel values are `k * byte` with `k = 1/255`, taken as exact reals.
    The colour passed in is updated in place by the source through setters;
    here it is the `prior` value, and every channel the format does not read
    keeps its prior value. */
module PixelDecode {
  import opened PixelFormats
  import opened PixelLayout
  import opened Buffers
  import opened Intensities
  import opened PixelEncode

  datatype Color = Color(r: real, g: real, b: real, a: real)

  /** What the decoder leaves in the caller's colour: the copied memory image
      for a raw format, or a converted colour. `demultiply` records that a
      premultiplied format asks for the colour to be divided by its alpha. */
  datatype Decoded = Raw(image: ColorImage) | Converted(color: Color, demultiply: bool)

  const K: real := 1.0 / 255.0

  /** `k * ColorReal(byte)` */
  function Unit(b: Byte): (v: real)
    ensures 0.0 <= v <= 1.0
    ensures b == 0 <==> v == 0.0
    ensures b == 255 <==> v == 1.0
  {
    K * (b as real)
  }

  /** Equal bytes and only equal bytes decode to equal values. */
  lemma UnitInjective(x: Byte, y: Byte)
    ensures Unit(x) == Unit(y) <==> x == y
  {
  }

  /** Inverting the stored byte and then the decoded value gives the value of
      the original byte. */
  lemma UnitInverted(b: Byte)
    ensures 1.0 - Unit(255 - b) == Unit(b)
  {
  }

  /** The colour decoded from the bytes of one pixel, read at the offsets of
      the layout. */
  function DecodeBytes(f: Axes, bytes: seq<Byte>, prior: Color): (d: Decoded)
    requires |bytes| == Advance(f)
    ensures d.Raw? <==> f.raw
    ensures d.Raw? ==> d.image == bytes
    ensures d.Converted? ==> d.demultiply == f.premult
  {
    if f.raw then Raw(bytes)
    else
      var a := if HasAlpha(f) then Unit(bytes[AlphaOffset(f)]) else prior.a;
      var a := if f.aInv then 1.0 - a else a;
      var c :=
        if f.gray then
          var y := Unit(bytes[GrayOffset(f)]);
          Color(y, y, y, a)
        else Color(Unit(bytes[RedOffset(f)]), Unit(bytes[GreenOffset(f)]), Unit(bytes[BlueOffset(f)]), a);
      Converted(c, f.premult)
  }

  /** The decoded alpha: the byte at the alpha offset (inverted by `AInv`), or
      the prior alpha when the format has none, inverted all the same. This
      unfolds `DecodeBytes` case by case for the lemmas below. */
  lemma DecodedAlpha(f: Axes, bytes: seq<Byte>, prior: Color)
    requires |bytes| == Advance(f) && !f.raw
    ensures HasAlpha(f) && !f.aInv ==>
              DecodeBytes(f, bytes, prior).color.a == Unit(bytes[AlphaOffset(f)])
    ensures HasAlpha(f) && f.aInv ==>
              DecodeBytes(f, bytes, prior).color.a == 1.0 - Unit(bytes[AlphaOffset(f)])
    ensures !HasAlpha(f) ==>
              DecodeBytes(f, bytes, prior).color.a == if f.aInv then 1.0 - prior.a else prior.a
  {
    LayoutSize(f);
  }

  /** The decoded colour channels: the grey byte in all three, or each
      channel's byte at its own offset. This unfolds `DecodeBytes` for the
      lemmas below. */
  lemma DecodedColour(f: Axes, bytes: seq<Byte>, prior: Color)
    requires |bytes| == Advance(f) && !f.raw
    ensures var c := DecodeBytes(f, bytes, prior).color;
            && (f.gray ==> GrayOffset(f) < |bytes| && c.r == c.g == c.b == Unit(bytes[GrayOffset(f)]))
            && (!f.gray ==> RedOffset(f) < |bytes| && GreenOffset(f) < |bytes| && BlueOffset(f) < |bytes|)
            && (!f.gray ==> c.r == Unit(bytes[RedOffset(f)]) && c.g == Unit(bytes[GreenOffset(f)])
                            && c.b == Unit(bytes[BlueOffset(f)]))
  {
  }

  /** A colour whose channels hold the bytes at their offsets (alpha before
      inversion, or the prior alpha when the format has none) is, once
      inverted under `AInv`, what `DecodeBytes` gives. */
  lemma DecodeFromChannels(f: Axes, bytes: seq<Byte>, prior: Color, c: Color)
    requires |bytes| == Advance(f) && !f.raw
    requires c.a == if HasAlpha(f) then Unit(bytes[AlphaOffset(f)]) else prior.a
    requires f.gray ==> c.r == c.g == c.b == Unit(bytes[GrayOffset(f)])
    requires !f.gray ==> c.r == Unit(bytes[RedOffset(f)]) && c.g == Unit(bytes[GreenOffset(f)])
                         && c.b == Unit(bytes[BlueOffset(f)])
    ensures DecodeBytes(f, bytes, prior) == Converted(if f.aInv then c.(a := 1.0 - c.a) else c, f.premult)
  {
    DecodedAlpha(f, bytes, prior);
    DecodedColour(f, bytes, prior);
  }

  /** The depth byte is stepped over: whatever it holds, the colour is the same. */
  lemma DecodeIgnoresDepth(f: Axes, bytes: seq<Byte>, prior: Color, x: Byte)
    requires |bytes| == Advance(f) && !f.raw && HasDepth(f)
    ensures DepthOffset(f) < |bytes|
    ensures DecodeBytes(f, bytes[DepthOffset(f) := x], prior) == DecodeBytes(f, bytes, prior)
  {
  }

  /** The bytes of one encoded pixel: the image of a raw colour, and for a
      packed format the stored alpha byte at the alpha offset and the colour
      bytes at theirs. */
  function EncodedBytes(f: Axes, s: Sample, luma: Luma, b: seq<Byte>, out: nat): (bytes: seq<Byte>)
    requires out + Advance(f) <= |b|
    ensures |bytes| == Advance(f)
  {
    Overlay(b, out, EncodeCells(f, s, luma))[out..out + Advance(f)]
  }

  lemma StoredRaw(f: Axes, s: Sample, luma: Luma, b: seq<Byte>, out: nat)
    requires out + Advance(f) <= |b| && f.raw
    ensures EncodedBytes(f, s, luma, b, out) == s.image
  {
    var bytes := EncodedBytes(f, s, luma, b, out);
    forall j | 0 <= j < ColorSize
      ensures bytes[j] == s.image[j]
    {
      OverlayAt(b, out, EncodeCells(f, s, luma), j);
    }
  }

  /** The packed encoder leaves the alpha byte at the alpha offset. */
  lemma StoredAlphaByte(f: Axes, luma: Luma, alpha: Byte, v: Levels, b: seq<Byte>, out: nat)
    requires out + |Layout(f)| <= |b| && HasAlpha(f)
    ensures AlphaOffset(f) < |Layout(f)|
    ensures Overlay(b, out, SlotCells(luma, alpha, v, Layout(f)))[out + AlphaOffset(f)] == alpha
  {
    AlphaPosition(f);
    OverlayAt(b, out, SlotCells(luma, alpha, v, Layout(f)), AlphaOffset(f));
  }

  /** The packed encoder leaves the grey byte at the grey offset. */
  lemma StoredGrayByte(f: Axes, luma: Luma, alpha: Byte, v: Levels, b: seq<Byte>, out: nat)
    requires out + |Layout(f)| <= |b| && f.gray
    ensures GrayOffset(f) < |Layout(f)|
    ensures Overlay(b, out, SlotCells(luma, alpha, v, Layout(f)))[out + GrayOffset(f)] == GrayByte(luma, v.r, v.g, v.b)
  {
    GrayPosition(f);
    OverlayAt(b, out, SlotCells(luma, alpha, v, Layout(f)), GrayOffset(f));
  }

  /** A slot other than depth holds the byte its cell stores. */
  lemma StoredSlot(luma: Luma, alpha: Byte, v: Levels, layout: seq<Slot>, b: seq<Byte>, out: nat, k: nat)
    requires out + |layout| <= |b| && k < |layout| && layout[k] != DepthSlot
    ensures Overlay(b, out, SlotCells(luma, alpha, v, layout))[out + k] == SlotCell(luma, alpha, v, layout[k]).value
  {
    OverlayAt(b, out, SlotCells(luma, alpha, v, layout), k);
  }

  /** The packed encoder leaves the top byte of each intensity at the offset of its channel. */
  lemma StoredRgbBytes(f: Axes, luma: Luma, alpha: Byte, v: Levels, b: seq<Byte>, out: nat)
    requires out + |Layout(f)| <= |b| && !f.gray
    ensures RedOffset(f) < |Layout(f)| && GreenOffset(f) < |Layout(f)| && BlueOffset(f) < |Layout(f)|
    ensures var after := Overlay(b, out, SlotCells(luma, alpha, v, Layout(f)));
            && after[out + RedOffset(f)] == HighByte(v.r)
            && after[out + GreenOffset(f)] == HighByte(v.g)
            && after[out + BlueOffset(f)] == HighByte(v.b)
  {
    LayoutAtOffsets(f);
    StoredRgbAt(f, Layout(f), luma, alpha, v, b, out);
  }

  /** `StoredRgbBytes` for any slot sequence the offset functions describe. */
  lemma StoredRgbAt(f: Axes, layout: seq<Slot>, luma: Luma, alpha: Byte, v: Levels, b: seq<Byte>, out: nat)
    requires AtOffsets(f, layout) && out + |layout| <= |b| && !f.gray
    ensures RedOffset(f) < |layout| && GreenOffset(f) < |layout| && BlueOffset(f) < |layout|
    ensures var after := Overlay(b, out, SlotCells(luma, alpha, v, layout));
            && after[out + RedOffset(f)] == HighByte(v.r)
            && after[out + GreenOffset(f)] == HighByte(v.g)
            && after[out + BlueOffset(f)] == HighByte(v.b)
  {
    StoredSlot(luma, alpha, v, layout, b, out, RedOffset(f));
    StoredSlot(luma, alpha, v, layout, b, out, GreenOffset(f));
    StoredSlot(luma, alpha, v, layout, b, out, BlueOffset(f));
  }

  /** The depth slot is only stepped over: the encoder leaves the byte
      that was there. */
  lemma EncodeKeepsDepth(f: Axes, s: Sample, luma: Luma, b: seq<Byte>, out: nat)
    requires !f.raw && HasDepth(f) && out + Advance(f) <= |b|
    ensures DepthOffset(f) < Advance(f)
    ensures Overlay(b, out, EncodeCells(f, s, luma))[out + DepthOffset(f)] == b[out + DepthOffset(f)]
  {
    DepthPosition(f);
    OverlayAt(b, out, EncodeCells(f, s, luma), DepthOffset(f));
  }

  /** A premultiplied format stores a zero alpha byte with zero colour
      bytes, whatever the intensities were. */
  lemma TransparentBlanks(f: Axes, s: Sample, luma: Luma, b: seq<Byte>, out: nat)
    requires !f.raw && f.premult && AlphaByte(f, s) == 0 && ValidLuma(luma) && out + Advance(f) <= |b|
    ensures var after := Overlay(b, out, EncodeCells(f, s, luma));
            && (f.gray ==> GrayOffset(f) < Advance(f) && after[out + GrayOffset(f)] == 0)
            && (!f.gray ==> RedOffset(f) < Advance(f) && GreenOffset(f) < Advance(f) && BlueOffset(f) < Advance(f)
                            && after[out + RedOffset(f)] == 0 && after[out + GreenOffset(f)] == 0
                            && after[out + BlueOffset(f)] == 0)
  {
    var v := ColourLevels(f, s);
    ZeroAlphaBlanks(luma, s.ri, s.gi, s.bi);
    ZeroAlphaBlanks(luma, s.gi, s.bi, s.ri);
    ZeroAlphaBlanks(luma, s.bi, s.ri, s.gi);
    if f.gray {
      StoredGrayByte(f, luma, 0, v, b, out);
    } else {
      StoredRgbBytes(f, luma, 0, v, b, out);
    }
  }

  /** The bytes one packed pixel occupies once the encoder has stored its cells. */
  function PackedBytes(f: Axes, luma: Luma, alpha: Byte, v: Levels, b: seq<Byte>, out: nat): (bytes: seq<Byte>)
    requires out + |Layout(f)| <= |b|
    ensures |bytes| == |Layout(f)|
  {
    Overlay(b, out, SlotCells(luma, alpha, v, Layout(f)))[out..out + |Layout(f)|]
  }

  /** Decoding a packed pixel gives back its alpha byte as `k * byte`,
      inverted again under `AInv`. */
  lemma DecodePackedAlpha(f: Axes, luma: Luma, alpha: Byte, v: Levels, b: seq<Byte>, out: nat, prior: Color)
    requires !f.raw && out + Advance(f) <= |b| && HasAlpha(f)
    ensures DecodeBytes(f, PackedBytes(f, luma, alpha, v, b, out), prior).color.a
              == if f.aInv then 1.0 - Unit(alpha) else Unit(alpha)
  {
    var bytes := PackedBytes(f, luma, alpha, v, b, out);
    StoredAlphaByte(f, luma, alpha, v, b, out);
    assert bytes[AlphaOffset(f)] == alpha;
    DecodedAlpha(f, bytes, prior);
  }

  /** Decoding a packed pixel gives back the grey byte, or the top byte of
      each intensity, as `k * byte`. */
  lemma DecodePackedColour(f: Axes, luma: Luma, alpha: Byte, v: Levels, b: seq<Byte>, out: nat, prior: Color)
    requires !f.raw && out + Advance(f) <= |b|
    ensures var c := DecodeBytes(f, PackedBytes(f, luma, alpha, v, b, out), prior).color;
            && (f.gray ==> c.r == c.g == c.b == Unit(GrayByte(luma, v.r, v.g, v.b)))
            && (!f.gray ==> c.r == Unit(HighByte(v.r)) && c.g == Unit(HighByte(v.g)) && c.b == Unit(HighByte(v.b)))
  {
    var bytes := PackedBytes(f, luma, alpha, v, b, out);
    DecodedColour(f, bytes, prior);
    if f.gray {
      StoredGrayByte(f, luma, alpha, v, b, out);
      assert bytes[GrayOffset(f)] == GrayByte(luma, v.r, v.g, v.b);
    } else {
      StoredRgbBytes(f, luma, alpha, v, b, out);
      assert bytes[RedOffset(f)] == HighByte(v.r);
      assert bytes[GreenOffset(f)] == HighByte(v.g);
      assert bytes[BlueOffset(f)] == HighByte(v.b);
    }
  }

  /** Decoding what the encoder stored: a raw colour comes back unchanged; a
      converted alpha comes back as `k * ac` whether or not it was inverted,
      and each colour channel as `k` times the byte the encoder stored for it. */
  lemma DecodeAfterEncode(f: Axes, s: Sample, luma: Luma, b: seq<Byte>, out: nat, prior: Color)
    requires out + Advance(f) <= |b|
    ensures var d := DecodeBytes(f, EncodedBytes(f, s, luma, b, out), prior);
            var v := ColourLevels(f, s);
            && (f.raw ==> d == Raw(s.image))
            && (!f.raw ==> d.Converted? && d.demultiply == f.premult)
            && (!f.raw && HasAlpha(f) ==> d.color.a == Unit(s.ac))
            && (!f.raw && f.gray ==>
                  d.color.r == d.color.g == d.color.b == Unit(GrayByte(luma, v.r, v.g, v.b)))
            && (!f.raw && !f.gray ==>
                  d.color.r == Unit(HighByte(v.r)) && d.color.g == Unit(HighByte(v.g)) && d.color.b == Unit(HighByte(v.b)))
  {
    if f.raw {
      StoredRaw(f, s, luma, b, out);
    } else {
      var alpha, v := AlphaByte(f, s), ColourLevels(f, s);
      assert EncodedBytes(f, s, luma, b, out) == PackedBytes(f, luma, alpha, v, b, out);
      DecodePackedColour(f, luma, alpha, v, b, out, prior);
      if HasAlpha(f) {
        DecodePackedAlpha(f, luma, alpha, v, b, out, prior);
        UnitInverted(s.ac);
      }
    }
  }

  /** Premultiplication uses the alpha byte after inversion. Under
      `A_INV | A_PREMULT` an opaque colour therefore has alpha byte 0 (stored
      when the format has alpha) and blank colour bytes. It decodes as opaque
      black when the format stores alpha; otherwise the decoded alpha is the
      inverted prior alpha. */
  lemma InvertedOpaqueIsBlack(f: Axes, s: Sample, luma: Luma, b: seq<Byte>, out: nat, prior: Color)
    requires !f.raw && f.aInv && f.premult && s.ac == 255 && ValidLuma(luma) && out + Advance(f) <= |b|
    ensures AlphaByte(f, s) == 0
    ensures var d := DecodeBytes(f, EncodedBytes(f, s, luma, b, out), prior);
            && d.color.r == 0.0 && d.color.g == 0.0 && d.color.b == 0.0
            && (HasAlpha(f) ==> d.color.a == 1.0)
            && (!HasAlpha(f) ==> d.color.a == 1.0 - prior.a)
  {
    var v := ColourLevels(f, s);
    DecodeAfterEncode(f, s, luma, b, out, prior);
    DecodedAlpha(f, EncodedBytes(f, s, luma, b, out), prior);
    ZeroAlphaBlanks(luma, s.ri, s.gi, s.bi);
    ZeroAlphaBlanks(luma, s.gi, s.bi, s.ri);
    ZeroAlphaBlanks(luma, s.bi, s.ri, s.gi);
    assert f.gray ==> GrayByte(luma, v.r, v.g, v.b) == 0;
    assert !f.gray ==> HighByte(v.r) == 0 && HighByte(v.g) == 0 && HighByte(v.b) == 0;
  }

  /** Reads alpha and depth in front of the colour bytes; only the start bits are consulted. */
  method GetLeading(f: Axes, buf: array<Byte>, input: nat, c: Color) returns (c': Color, next: nat)
    requires !f.raw && input + Advance(f) <= buf.Length
    ensures next == input + LeadingSize(f)
    ensures c' == if f.aStart then c.(a := Unit(buf[input + AlphaOffset(f)])) else c
  {
    c', next := c, input;
    if f.za {
      if f.zStart {
        next := next + 1;
      }
      if f.aStart {
        c' := c'.(a := Unit(buf[next]));
        next := next + 1;
      }
    } else {
      if f.aStart {
        c' := c'.(a := Unit(buf[next]));
        next := next + 1;
      }
      if f.zStart {
        next := next + 1;
      }
    }
  }

  /** Reads the colour bytes: one grey byte into all three channels, or three in BGR or RGB order. */
  method GetColour(f: Axes, buf: array<Byte>, input: nat, o: nat, c: Color) returns (c': Color, next: nat)
    requires !f.raw && input + Advance(f) <= buf.Length && o == input + LeadingSize(f)
    ensures next == o + ColourCount(f)
    ensures f.gray ==> c' == c.(r := Unit(buf[input + GrayOffset(f)]), g := Unit(buf[input + GrayOffset(f)]),
                                b := Unit(buf[input + GrayOffset(f)]))
    ensures !f.gray ==> c' == c.(r := Unit(buf[input + RedOffset(f)]), g := Unit(buf[input + GreenOffset(f)]),
                                 b := Unit(buf[input + BlueOffset(f)]))
  {
    c', next := c, o;
    if f.gray {
      // set_yuv(y, 0, 0): no chroma, so red, green and blue are all y
      var y := Unit(buf[next]);
      c' := c'.(r := y, g := y, b := y);
      next := next + 1;
    } else if f.bgr {
      c' := c'.(b := Unit(buf[next]));
      next := next + 1;
      c' := c'.(g := Unit(buf[next]));
      next := next + 1;
      c' := c'.(r := Unit(buf[next]));
      next := next + 1;
    } else {
      c' := c'.(r := Unit(buf[next]));
      next := next + 1;
      c' := c'.(g := Unit(buf[next]));
      next := next + 1;
      c' := c'.(b := Unit(buf[next]));
      next := next + 1;
    }
  }

  /** Reads alpha and depth after the colour bytes: a channel whose bit is set
      and whose start bit is clear. */
  method GetTrailing(f: Axes, buf: array<Byte>, input: nat, o: nat, c: Color) returns (c': Color, next: nat)
    requires !f.raw && input + Advance(f) <= buf.Length && o == input + LeadingSize(f) + ColourCount(f)
    ensures next == input + Advance(f)
    ensures c' == if f.a && !f.aStart then c.(a := Unit(buf[input + AlphaOffset(f)])) else c
  {
    c', next := c, o;
    if f.za {
      if !f.zStart && f.z {
        next := next + 1;
      }
      if !f.aStart && f.a {
        c' := c'.(a := Unit(buf[next]));
        next := next + 1;
      }
    } else {
      if !f.aStart && f.a {
        c' := c'.(a := Unit(buf[next]));
        next := next + 1;
      }
      if !f.zStart && f.z {
        next := next + 1;
      }
    }
  }

  /** `DecodeFromChannels` for bytes that sit in a buffer at `input`. */
  lemma DecodeFromBuffer(f: Axes, buf: array<Byte>, input: nat, prior: Color, c: Color)
    requires !f.raw && input + Advance(f) <= buf.Length
    requires c.a == if HasAlpha(f) then Unit(buf[input + AlphaOffset(f)]) else prior.a
    requires f.gray ==> c.r == c.g == c.b == Unit(buf[input + GrayOffset(f)])
    requires !f.gray ==> c.r == Unit(buf[input + RedOffset(f)]) && c.g == Unit(buf[input + GreenOffset(f)])
                         && c.b == Unit(buf[input + BlueOffset(f)])
    ensures DecodeBytes(f, buf[input..input + Advance(f)], prior)
         == Converted(if f.aInv then c.(a := 1.0 - c.a) else c, f.premult)
  {
    var bytes := buf[input..input + Advance(f)];
    LayoutSize(f);
    if HasAlpha(f) {
      assert bytes[AlphaOffset(f)] == buf[input + AlphaOffset(f)];
    }
    if f.gray {
      assert bytes[GrayOffset(f)] == buf[input + GrayOffset(f)];
    } else {
      assert bytes[RedOffset(f)] == buf[input + RedOffset(f)];
      assert bytes[GreenOffset(f)] == buf[input + GreenOffset(f)];
      assert bytes[BlueOffset(f)] == buf[input + BlueOffset(f)];
    }
    DecodeFromChannels(f, bytes, prior, c);
  }

  /** The three groups in order: every channel the format stores is read
      from its offset, and alpha keeps its prior value when there is none. */
  method GetChannels(f: Axes, prior: Color, buf: array<Byte>, input: nat) returns (c: Color, next: nat)
    requires !f.raw && input + Advance(f) <= buf.Length
    ensures next == input + Advance(f)
    ensures c.a == if HasAlpha(f) then Unit(buf[input + AlphaOffset(f)]) else prior.a
    ensures f.gray ==> c.r == c.g == c.b == Unit(buf[input + GrayOffset(f)])
    ensures !f.gray ==> c.r == Unit(buf[input + RedOffset(f)]) && c.g == Unit(buf[input + GreenOffset(f)])
                        && c.b == Unit(buf[input + BlueOffset(f)])
  {
    c := prior;
    c, next := GetLeading(f, buf, input, c);
    c, next := GetColour(f, buf, input, next, c);
    c, next := GetTrailing(f, buf, input, next, c);
  }

  /** The packed branch: leading group, colour bytes, trailing group, then alpha inversion. */
  method GetPacked(f: Axes, prior: Color, buf: array<Byte>, input: nat) returns (color: Decoded, next: nat)
    requires !f.raw && input + Advance(f) <= buf.Length
    ensures next == input + Advance(f)
    ensures color == DecodeBytes(f, buf[input..next], prior)
  {
    var c;
    c, next := GetChannels(f, prior, buf, input);
    DecodeFromBuffer(f, buf, input, prior, c);

    // invert alpha
    if f.aInv {
      c := c.(a := 1.0 - c.a);
    }
    color := Converted(c, f.premult);
  }

  /** Decodes one pixel at `input` into the colour `prior` and returns the
      advanced cursor; the colour is exactly what `DecodeBytes` gives for the
      bytes passed over. */
  method PixelFormat2Color(prior: Color, pf: PixelFormat, buf: array<Byte>, input: nat) returns (color: Decoded, next: nat)
    requires input + Advance(AxesOf(pf)) <= buf.Length
    ensures next == input + Advance(AxesOf(pf))
    ensures color == DecodeBytes(AxesOf(pf), buf[input..next], prior)
  {
    var f := AxesOf(pf);
    if f.raw {
      // the bytes are the colour's memory image
      color := Raw(buf[input..input + ColorSize]);
      return color, input + ColorSize;
    }
    color, next := GetPacked(f, prior, buf, input);
  }
}
