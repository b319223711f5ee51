/** Encoding one colour into packed bytes (`Color2PixelFormat`).

    `EncodeCells` specifies, position by position after the cursor, which
    byte the encoder stores or steps over; `Color2PixelFormat` is the
    cursor-moving code over a caller's array, proved to have exactly that
    effect and nothing more. */
module PixelEncode {
  import opened PixelFormats
  import opened PixelLayout
  import opened Buffers
  import opened Intensities

  /** The in-memory image of a colour, copied verbatim by raw formats. */
  type ColorImage = s: seq<Byte> | |s| == ColorSize witness seq(16, _ => 0)

  /** What the encoder takes from one clamped colour: its memory image, its
      alpha byte and its three 16-bit gamma-mapped intensities. */
  datatype Sample = Sample(image: ColorImage, ac: Byte, ri: Intensity, gi: Intensity, bi: Intensity)

  datatype Levels = Levels(r: Intensity, g: Intensity, b: Intensity)

  /** The alpha byte as stored, after any inversion. `StoredAlpha` is the
      byte arithmetic of that step; this names its outcome for one format and
      one sample, which is how the encoder's specification refers to it. */
  function AlphaByte(f: Axes, s: Sample): Byte {
    StoredAlpha(f.aInv, s.ac)
  }

  /** Intensities after optional premultiplication by the stored alpha byte. */
  function ColourLevels(f: Axes, s: Sample): (v: Levels)
    ensures v.r <= s.ri && v.g <= s.gi && v.b <= s.bi
    ensures !f.premult || AlphaByte(f, s) == 255 ==> v == Levels(s.ri, s.gi, s.bi)
  {
    if f.premult then
      var stored := AlphaByte(f, s);
      Levels(Premultiply(s.ri, stored), Premultiply(s.gi, stored), Premultiply(s.bi, stored))
    else Levels(s.ri, s.gi, s.bi)
  }

  /** What the encoder does at a slot: the depth slot is only stepped over. */
  function SlotCell(luma: Luma, alpha: Byte, v: Levels, slot: Slot): Cell {
    match slot
    case AlphaSlot => Put(alpha)
    case DepthSlot => Skip
    case RedSlot => Put(HighByte(v.r))
    case GreenSlot => Put(HighByte(v.g))
    case BlueSlot => Put(HighByte(v.b))
    case GraySlot => Put(GrayByte(luma, v.r, v.g, v.b))
  }

  function SlotCells(luma: Luma, alpha: Byte, v: Levels, slots: seq<Slot>): (cells: seq<Cell>)
    ensures |cells| == |slots|
  {
    seq(|slots|, j requires 0 <= j < |slots| => SlotCell(luma, alpha, v, slots[j]))
  }

  function ImageCells(image: ColorImage): (cells: seq<Cell>)
    ensures |cells| == ColorSize
  {
    seq(ColorSize, i requires 0 <= i < ColorSize => Put(image[i]))
  }

  /** The cells one pixel occupies: the colour's image for a raw format,
      otherwise one cell per layout slot. */
  function EncodeCells(f: Axes, s: Sample, luma: Luma): (cells: seq<Cell>)
    ensures |cells| == Advance(f)
  {
    if f.raw then ImageCells(s.image)
    else SlotCells(luma, AlphaByte(f, s), ColourLevels(f, s), Layout(f))
  }

  /** One more slot of a layout prefix adds its cell. */
  lemma SlotCellsPrefix(luma: Luma, alpha: Byte, v: Levels, slots: seq<Slot>, n: nat)
    requires n < |slots|
    ensures SlotCells(luma, alpha, v, slots[..n + 1]) == SlotCells(luma, alpha, v, slots[..n]) + [SlotCell(luma, alpha, v, slots[n])]
  {
    assert slots[..n + 1] == slots[..n] + [slots[n]];
  }

  /** The buffer holds the cells of the first `n` slots of `layout` from
      `out` on, and the cursor `o` stands just past them. */
  ghost predicate Emitted(layout: seq<Slot>, luma: Luma, alpha: Byte, v: Levels, buf: array<Byte>, before: seq<Byte>,
                          out: nat, n: nat, o: nat)
    reads buf
  {
    && |before| == buf.Length
    && out + |layout| <= buf.Length
    && n <= |layout|
    && o == out + n
    && buf[..] == Overlay(before, out, SlotCells(luma, alpha, v, layout[..n]))
  }

  /** `*out++ = value` at a slot whose cell stores `value`. */
  method PutSlot(buf: array<Byte>, o: nat, value: Byte, ghost layout: seq<Slot>, ghost luma: Luma, ghost alpha: Byte,
                 ghost v: Levels, ghost before: seq<Byte>, ghost out: nat, ghost n: nat)
    requires Emitted(layout, luma, alpha, v, buf, before, out, n, o)
    requires n < |layout| && SlotCell(luma, alpha, v, layout[n]) == Put(value)
    modifies buf
    ensures Emitted(layout, luma, alpha, v, buf, before, out, n + 1, o + 1)
  {
    SlotCellsPrefix(luma, alpha, v, layout, n);
    PutByte(buf, o, value, before, out, SlotCells(luma, alpha, v, layout[..n]));
  }

  /** `++out` over the depth slot leaves the buffer as it is. */
  lemma SkipDepth(buf: array<Byte>, o: nat, layout: seq<Slot>, luma: Luma, alpha: Byte, v: Levels,
                  before: seq<Byte>, out: nat, n: nat)
    requires Emitted(layout, luma, alpha, v, buf, before, out, n, o)
    requires n < |layout| && layout[n] == DepthSlot
    ensures Emitted(layout, luma, alpha, v, buf, before, out, n + 1, o + 1)
  {
    SlotCellsPrefix(luma, alpha, v, layout, n);
    OverlayStep(before, out, SlotCells(luma, alpha, v, layout[..n]), Skip);
  }

  /** Puts alpha and depth in front of the colour bytes; only the start bits are consulted. */
  method PutLeading(f: Axes, ac: Byte, buf: array<Byte>, o: nat,
                    ghost layout: seq<Slot>, ghost luma: Luma, ghost v: Levels, ghost before: seq<Byte>, ghost out: nat)
      returns (next: nat)
    requires Emitted(layout, luma, ac, v, buf, before, out, 0, o)
    requires AtOffsets(f, layout)
    modifies buf
    ensures Emitted(layout, luma, ac, v, buf, before, out, LeadingSize(f), next)
  {
    next := o;
    ghost var n := 0;
    if f.za {
      if f.zStart {
        SkipDepth(buf, next, layout, luma, ac, v, before, out, n);
        next, n := next + 1, n + 1;
      }
      if f.aStart {
        PutSlot(buf, next, ac, layout, luma, ac, v, before, out, n);
        next, n := next + 1, n + 1;
      }
    } else {
      if f.aStart {
        PutSlot(buf, next, ac, layout, luma, ac, v, before, out, n);
        next, n := next + 1, n + 1;
      }
      if f.zStart {
        SkipDepth(buf, next, layout, luma, ac, v, before, out, n);
        next, n := next + 1, n + 1;
      }
    }
  }

  /** Puts the colour bytes: one grey byte, or three in BGR or RGB order. */
  method PutColour(f: Axes, ri: Intensity, gi: Intensity, bi: Intensity, luma: Luma, buf: array<Byte>, o: nat,
                   ghost layout: seq<Slot>, ghost ac: Byte, ghost before: seq<Byte>, ghost out: nat)
      returns (next: nat)
    requires Emitted(layout, luma, ac, Levels(ri, gi, bi), buf, before, out, LeadingSize(f), o)
    requires AtOffsets(f, layout)
    modifies buf
    ensures Emitted(layout, luma, ac, Levels(ri, gi, bi), buf, before, out, LeadingSize(f) + ColourCount(f), next)
  {
    ghost var v := Levels(ri, gi, bi);
    next := o;
    ghost var n := LeadingSize(f);
    if f.gray {
      // (ri*yuv_r + gi*yuv_g + bi*yuv_b) >> 16, cast to a byte
      var y := GrayByte(luma, ri, gi, bi);
      PutSlot(buf, next, y, layout, luma, ac, v, before, out, n);
      next, n := next + 1, n + 1;
    } else if f.bgr {
      PutSlot(buf, next, HighByte(bi), layout, luma, ac, v, before, out, n);
      next, n := next + 1, n + 1;
      PutSlot(buf, next, HighByte(gi), layout, luma, ac, v, before, out, n);
      next, n := next + 1, n + 1;
      PutSlot(buf, next, HighByte(ri), layout, luma, ac, v, before, out, n);
      next, n := next + 1, n + 1;
    } else {
      PutSlot(buf, next, HighByte(ri), layout, luma, ac, v, before, out, n);
      next, n := next + 1, n + 1;
      PutSlot(buf, next, HighByte(gi), layout, luma, ac, v, before, out, n);
      next, n := next + 1, n + 1;
      PutSlot(buf, next, HighByte(bi), layout, luma, ac, v, before, out, n);
      next, n := next + 1, n + 1;
    }
  }

  /** Puts alpha and depth after the colour bytes: a channel whose bit is set
      and whose start bit is clear. */
  method PutTrailing(f: Axes, ac: Byte, buf: array<Byte>, o: nat,
                     ghost layout: seq<Slot>, ghost luma: Luma, ghost v: Levels, ghost before: seq<Byte>, ghost out: nat)
      returns (next: nat)
    requires Emitted(layout, luma, ac, v, buf, before, out, LeadingSize(f) + ColourCount(f), o)
    requires AtOffsets(f, layout)
    modifies buf
    ensures Emitted(layout, luma, ac, v, buf, before, out, LeadingSize(f) + ColourCount(f) + TrailingSize(f), next)
  {
    next := o;
    ghost var n := LeadingSize(f) + ColourCount(f);
    if f.za {
      if !f.zStart && f.z {
        SkipDepth(buf, next, layout, luma, ac, v, before, out, n);
        next, n := next + 1, n + 1;
      }
      if !f.aStart && f.a {
        PutSlot(buf, next, ac, layout, luma, ac, v, before, out, n);
        next, n := next + 1, n + 1;
      }
    } else {
      if !f.aStart && f.a {
        PutSlot(buf, next, ac, layout, luma, ac, v, before, out, n);
        next, n := next + 1, n + 1;
      }
      if !f.zStart && f.z {
        SkipDepth(buf, next, layout, luma, ac, v, before, out, n);
        next, n := next + 1, n + 1;
      }
    }
  }

  /** The raw branch: the colour's memory image is copied byte for byte. */
  method CopyImage(image: ColorImage, buf: array<Byte>, out: nat) returns (next: nat)
    requires out + ColorSize <= buf.Length
    modifies buf
    ensures next == out + ColorSize
    ensures buf[..] == Overlay(old(buf[..]), out, ImageCells(image))
  {
    ghost var before := buf[..];
    forall i | 0 <= i < ColorSize {
      buf[out + i] := image[i];
    }
    ghost var cells := ImageCells(image);
    forall i | 0 <= i < buf.Length
      ensures buf[i] == Overlay(before, out, cells)[i]
    {
      if out <= i < out + ColorSize {
        OverlayAt(before, out, cells, i - out);
      } else {
        OverlayOutside(before, out, cells, i);
      }
    }
    next := out + ColorSize;
  }

  /** The packed branch: leading group, colour bytes, trailing group. */
  method PutPacked(f: Axes, ac: Byte, ri: Intensity, gi: Intensity, bi: Intensity, luma: Luma, buf: array<Byte>, out: nat)
      returns (next: nat)
    requires out + |Layout(f)| <= buf.Length
    modifies buf
    ensures next == out + |Layout(f)|
    ensures buf[..] == Overlay(old(buf[..]), out, SlotCells(luma, ac, Levels(ri, gi, bi), Layout(f)))
  {
    ghost var before := buf[..];
    ghost var v := Levels(ri, gi, bi);
    ghost var layout := Layout(f);
    LayoutAtOffsets(f);
    OverlayNone(before, out);
    next := PutLeading(f, ac, buf, out, layout, luma, v, before, out);
    next := PutColour(f, ri, gi, bi, luma, buf, next, layout, ac, before, out);
    next := PutTrailing(f, ac, buf, next, layout, luma, v, before, out);
    assert layout[..|layout|] == layout;
  }

  /** Encodes one colour at `out` and returns the advanced cursor. Every
      position is either stored as `EncodeCells` says or left alone. */
  method Color2PixelFormat(s: Sample, pf: PixelFormat, buf: array<Byte>, out: nat, luma: Luma) returns (next: nat)
    requires out + Advance(AxesOf(pf)) <= buf.Length
    modifies buf
    ensures next == out + Advance(AxesOf(pf))
    ensures buf[..] == Overlay(old(buf[..]), out, EncodeCells(AxesOf(pf), s, luma))
  {
    var f := AxesOf(pf);
    if f.raw {
      next := CopyImage(s.image, buf, out);
      return;
    }

    // alpha byte
    var ac: Byte := s.ac;
    if f.aInv {
      ac := 255 - ac;
    }

    // colour intensities, scaled by (ac + 1) / 256 when premultiplying
    var ri, gi, bi := s.ri, s.gi, s.bi;
    if f.premult {
      ri, gi, bi := Premultiply(ri, ac), Premultiply(gi, ac), Premultiply(bi, ac);
    }

    assert Levels(ri, gi, bi) == ColourLevels(f, s);
    next := PutPacked(f, ac, ri, gi, bi, luma, buf, out);
  }
}
