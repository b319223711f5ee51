/** Byte layout of one packed, non-raw pixel.

    `Layout` lists, slot by slot, what the encoder puts at each byte position
    after the cursor: an optional leading group (alpha and/or depth), the
    colour bytes, and an optional trailing group. The offset functions below
    are a second, arithmetic description of the same positions; the lemmas
    show that the two agree. */
module PixelLayout {
  import opened PixelFormats

  /** The outcome of each `FLAGS` test the codec makes on a format. */
  datatype Axes = Axes(raw: bool, gray: bool, a: bool, z: bool, bgr: bool, aStart: bool, zStart: bool, za: bool,
                       aInv: bool, premult: bool)

  function AxesOf(pf: PixelFormat): Axes {
    Axes(Flags(pf, RawColor), Flags(pf, Gray), Flags(pf, A), Flags(pf, Z), Flags(pf, BGR),
         Flags(pf, AStart), Flags(pf, ZStart), Flags(pf, ZA), Flags(pf, AInv), Flags(pf, APremult))
  }

  datatype Slot = AlphaSlot | DepthSlot | RedSlot | GreenSlot | BlueSlot | GraySlot

  /** Slots in front of the colour bytes. Only the start bits are consulted here,
      not the channel bits `A` and `Z`. */
  function Leading(f: Axes): seq<Slot> {
    var z := if f.zStart then [DepthSlot] else [];
    var a := if f.aStart then [AlphaSlot] else [];
    if f.za then z + a else a + z
  }

  /** The colour bytes: one grey byte, or three in RGB or BGR order. */
  function ColourSlots(f: Axes): seq<Slot> {
    if f.gray then [GraySlot]
    else if f.bgr then [BlueSlot, GreenSlot, RedSlot]
    else [RedSlot, GreenSlot, BlueSlot]
  }

  /** Slots after the colour bytes: a channel that is present and not placed at the start. */
  function Trailing(f: Axes): seq<Slot> {
    var z := if !f.zStart && f.z then [DepthSlot] else [];
    var a := if !f.aStart && f.a then [AlphaSlot] else [];
    if f.za then z + a else a + z
  }

  function Layout(f: Axes): seq<Slot> {
    Leading(f) + ColourSlots(f) + Trailing(f)
  }

  function Count(b: bool): nat {
    if b then 1 else 0
  }

  function LeadingSize(f: Axes): nat {
    Count(f.aStart) + Count(f.zStart)
  }

  function ColourCount(f: Axes): nat {
    if f.gray then 1 else 3
  }

  function TrailingSize(f: Axes): nat {
    Count(f.a && !f.aStart) + Count(f.z && !f.zStart)
  }

  predicate HasAlpha(f: Axes) {
    f.aStart || f.a
  }

  predicate HasDepth(f: Axes) {
    f.zStart || f.z
  }

  function AlphaOffset(f: Axes): nat
    requires HasAlpha(f)
  {
    if f.aStart then Count(f.za && f.zStart)
    else LeadingSize(f) + ColourCount(f) + Count(f.za && f.z && !f.zStart)
  }

  function DepthOffset(f: Axes): nat
    requires HasDepth(f)
  {
    if f.zStart then Count(!f.za && f.aStart)
    else LeadingSize(f) + ColourCount(f) + Count(!f.za && f.a && !f.aStart)
  }

  function GrayOffset(f: Axes): nat {
    LeadingSize(f)
  }

  function RedOffset(f: Axes): nat {
    LeadingSize(f) + if f.bgr then 2 else 0
  }

  function GreenOffset(f: Axes): nat {
    LeadingSize(f) + 1
  }

  function BlueOffset(f: Axes): nat {
    LeadingSize(f) + if f.bgr then 0 else 2
  }

  /** Each group is as long as its size function says. */
  lemma LayoutSize(f: Axes)
    ensures |Leading(f)| == LeadingSize(f)
    ensures |ColourSlots(f)| == ColourCount(f)
    ensures |Trailing(f)| == TrailingSize(f)
    ensures |Layout(f)| == LeadingSize(f) + ColourCount(f) + TrailingSize(f)
  {
  }

  lemma LeadingAt(f: Axes, k: nat)
    requires k < LeadingSize(f)
    ensures k < |Layout(f)| && Layout(f)[k] == Leading(f)[k]
  {
    LayoutSize(f);
  }

  lemma ColourAt(f: Axes, k: nat)
    requires k < ColourCount(f)
    ensures LeadingSize(f) + k < |Layout(f)| && Layout(f)[LeadingSize(f) + k] == ColourSlots(f)[k]
  {
    LayoutSize(f);
    assert Layout(f) == Leading(f) + ColourSlots(f) + Trailing(f);
  }

  lemma TrailingAt(f: Axes, k: nat)
    requires k < TrailingSize(f)
    ensures LeadingSize(f) + ColourCount(f) + k < |Layout(f)|
    ensures Layout(f)[LeadingSize(f) + ColourCount(f) + k] == Trailing(f)[k]
  {
    LayoutSize(f);
  }

  /** When a start or channel bit asks for alpha, the alpha slot is at `AlphaOffset`. */
  lemma AlphaPosition(f: Axes)
    requires HasAlpha(f)
    ensures AlphaOffset(f) < |Layout(f)| && Layout(f)[AlphaOffset(f)] == AlphaSlot
  {
    if f.aStart {
      LeadingAt(f, AlphaOffset(f));
    } else {
      TrailingAt(f, AlphaOffset(f) - LeadingSize(f) - ColourCount(f));
    }
  }

  /** When a start or channel bit asks for depth, the depth slot is at `DepthOffset`. */
  lemma DepthPosition(f: Axes)
    requires HasDepth(f)
    ensures DepthOffset(f) < |Layout(f)| && Layout(f)[DepthOffset(f)] == DepthSlot
  {
    if f.zStart {
      LeadingAt(f, DepthOffset(f));
    } else {
      TrailingAt(f, DepthOffset(f) - LeadingSize(f) - ColourCount(f));
    }
  }

  /** No slot other than the one at `AlphaOffset` is an alpha slot: a format
      with both an alpha start bit and an alpha bit still writes alpha once. */
  lemma AlphaOnce(f: Axes)
    ensures forall j :: 0 <= j < |Layout(f)| && Layout(f)[j] == AlphaSlot ==> HasAlpha(f) && j == AlphaOffset(f)
  {
    var lead, colour, trail := Leading(f), ColourSlots(f), Trailing(f);
    forall j | 0 <= j < |Layout(f)| && Layout(f)[j] == AlphaSlot
      ensures HasAlpha(f) && j == AlphaOffset(f)
    {
      if j < |lead| {
        assert lead[j] == AlphaSlot;
      } else if |lead| + |colour| <= j {
        assert trail[j - |lead| - |colour|] == AlphaSlot;
      }
    }
  }

  /** No slot other than the one at `DepthOffset` is a depth slot. */
  lemma DepthOnce(f: Axes)
    ensures forall j :: 0 <= j < |Layout(f)| && Layout(f)[j] == DepthSlot ==> HasDepth(f) && j == DepthOffset(f)
  {
    var lead, colour, trail := Leading(f), ColourSlots(f), Trailing(f);
    forall j | 0 <= j < |Layout(f)| && Layout(f)[j] == DepthSlot
      ensures HasDepth(f) && j == DepthOffset(f)
    {
      if j < |lead| {
        assert lead[j] == DepthSlot;
      } else if |lead| + |colour| <= j {
        assert trail[j - |lead| - |colour|] == DepthSlot;
      }
    }
  }

  /** A grey format has its one colour byte right after the leading group. */
  lemma GrayPosition(f: Axes)
    requires f.gray
    ensures GrayOffset(f) < |Layout(f)| && Layout(f)[GrayOffset(f)] == GraySlot
  {
    ColourAt(f, 0);
  }

  /** Otherwise red, green and blue follow the leading group, with red and
      blue swapped by `BGR`. */
  lemma RgbPositions(f: Axes)
    requires !f.gray
    ensures BlueOffset(f) < |Layout(f)| && GreenOffset(f) < |Layout(f)| && RedOffset(f) < |Layout(f)|
    ensures Layout(f)[RedOffset(f)] == RedSlot
    ensures Layout(f)[GreenOffset(f)] == GreenSlot
    ensures Layout(f)[BlueOffset(f)] == BlueSlot
    ensures f.bgr ==> BlueOffset(f) < GreenOffset(f) < RedOffset(f)
    ensures !f.bgr ==> RedOffset(f) < GreenOffset(f) < BlueOffset(f)
  {
    ColourAt(f, 0);
    ColourAt(f, 1);
    ColourAt(f, 2);
  }

  /** The offset functions describe `layout`: its length is the sum of the
      group sizes and every slot the format asks for sits at its offset. */
  ghost predicate AtOffsets(f: Axes, layout: seq<Slot>) {
    && |layout| == LeadingSize(f) + ColourCount(f) + TrailingSize(f)
    && (HasAlpha(f) ==> layout[AlphaOffset(f)] == AlphaSlot)
    && (HasDepth(f) ==> layout[DepthOffset(f)] == DepthSlot)
    && (f.gray ==> layout[GrayOffset(f)] == GraySlot)
    && (!f.gray ==> layout[RedOffset(f)] == RedSlot && layout[GreenOffset(f)] == GreenSlot
                    && layout[BlueOffset(f)] == BlueSlot)
  }

  /** The slot list and the offset functions agree. */
  lemma LayoutAtOffsets(f: Axes)
    ensures AtOffsets(f, Layout(f))
  {
    LayoutSize(f);
    if HasAlpha(f) {
      AlphaPosition(f);
    }
    if HasDepth(f) {
      DepthPosition(f);
    }
    if f.gray {
      GrayPosition(f);
    } else {
      RgbPositions(f);
    }
  }

  /** An alpha or depth byte sits in the leading group exactly when its start bit is set. */
  lemma GroupMembership(f: Axes)
    ensures HasAlpha(f) ==> (AlphaOffset(f) < LeadingSize(f) <==> f.aStart)
    ensures HasDepth(f) ==> (DepthOffset(f) < LeadingSize(f) <==> f.zStart)
  {
  }

  /** Within the leading group, and within the trailing group, depth comes
      before alpha when `ZA` is set and after it otherwise. */
  lemma GroupOrder(f: Axes)
    requires HasAlpha(f) && HasDepth(f)
    requires f.aStart == f.zStart
    ensures DepthOffset(f) < AlphaOffset(f) <==> f.za
    ensures AlphaOffset(f) != DepthOffset(f)
  {
  }

  /** How far encoding or decoding one pixel moves the cursor. */
  function Advance(f: Axes): (n: nat)
    ensures f.raw ==> n == ColorSize
    ensures !f.raw ==> n == |Layout(f)|
  {
    if f.raw then ColorSize
    else LeadingSize(f) + ColourCount(f) + TrailingSize(f)
  }

  /** For a non-raw format the cursor moves by `Channels`, plus one byte for
      each start bit whose channel bit is clear. */
  lemma EncodeLength(pf: PixelFormat)
    requires !Flags(pf, RawColor)
    ensures Advance(AxesOf(pf)) == Channels(pf)
                                   + Count(Flags(pf, AStart) && !Flags(pf, A))
                                   + Count(Flags(pf, ZStart) && !Flags(pf, Z))
  {
  }

  /** When every start bit comes with its channel bit, the cursor moves by exactly `Channels`. */
  lemma EncodeLengthIsChannels(pf: PixelFormat)
    requires !Flags(pf, RawColor)
    requires Flags(pf, AStart) ==> Flags(pf, A)
    requires Flags(pf, ZStart) ==> Flags(pf, Z)
    ensures Advance(AxesOf(pf)) == Channels(pf)
  {
    EncodeLength(pf);
  }

  /** A raw format moves the cursor by the size of the colour, as `Channels` says. */
  lemma RawLength(pf: PixelFormat)
    requires Flags(pf, RawColor)
    ensures Advance(AxesOf(pf)) == Channels(pf) == ColorSize
  {
  }

  /** Alpha start without the alpha bit: four bytes for a three-channel format. */
  lemma AlphaStartWithoutAlpha()
    ensures Layout(AxesOf(AStart)) == [AlphaSlot, RedSlot, GreenSlot, BlueSlot]
    ensures Channels(AStart) == 3 && Advance(AxesOf(AStart)) == 4
  {
  }
}
