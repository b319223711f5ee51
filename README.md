# Pixel-format codec of synfig

This project models the packed pixel codec of synfig's colour library
(`synfig-core/src/synfig/color/pixelformat.h`) and proves properties of it.
The codec turns one colour into the bytes of a pixel, a row of colours into
consecutive pixels, and the bytes of a pixel back into a colour. A
`PixelFormat` is a set of bit flags; they choose:

- grey or RGB, and the BGR byte order;
- an alpha byte and a depth byte, each placed in front of or after the
  colour bytes;
- the depth/alpha order inside such a group;
- inverted alpha and premultiplied colour;
- a raw pass-through that copies the in-memory `Color` verbatim.

Modules:

- `PixelFormats` (`pixel_format.dfy`): the flag constants, `operator|`,
  `operator&`, the `FLAGS` test and `channels`. A format is a 32-bit vector,
  since the C enum is an `int`.
- `PixelLayout` (`layout.dfy`): the outcome of every `FLAGS` test the codec
  makes, as `Axes`. It gives the slot sequence of a packed pixel (leading
  group, colour bytes, trailing group) and an arithmetic offset for each
  channel. Lemmas show that the two descriptions agree, and relate the
  cursor advance to `channels`.
- `Buffers` (`buffer.dfy`): the caller's byte buffer. A run of cells (store
  a byte, or step over it) is applied from a cursor.
- `Intensities` (`intensity.dfy`): the integer arithmetic of the encoder.
  It covers the stored alpha byte, premultiplication
  `(x * (ac + 1)) >> 8`, the top byte `x >> 8` and the grey byte
  `(r*yr + g*yg + b*yb) >> 16`.
- `PixelEncode` (`encode.dfy`): `Color2PixelFormat`. It is a method that
  moves a cursor through an array, proved to have exactly the effect of
  the specification `EncodeCells`.
- `PixelDecode` (`decode.dfy`): `PixelFormat2Color`. It is a method that
  reads through a cursor, proved to return what the specification
  `DecodeBytes` gives for the bytes it passes over. This module also holds
  the round trip: decoding what the encoder stored.
- `PixelBatch` (`batch.dfy`): `convert_color_format`. It is a loop that
  encodes colour after colour, with the record of colour `i` starting at
  `i` times the pixel size.

Five details of the code are kept as written:

- The leading group tests only the start bits `A_START`/`Z_START`. The
  trailing group tests the channel bit and the cleared start bit.
- `RAW_COLOR` is bit 9 plus the alpha bit, so the raw test needs both bits.
- `channels` counts only the channel bits. A format with `A_START` but
  without `A` therefore has `channels` 3 while the codec moves the cursor
  by 4 (`AlphaStartWithoutAlpha`).
- Under `A_INV` the decoder inverts alpha even when the format stores none,
  so the caller's alpha comes back inverted.
- Premultiplication uses the alpha byte after the `A_INV` inversion. Under
  `A_INV | A_PREMULT` an opaque colour has alpha byte 0 and zero colour
  bytes. When the format stores alpha, that colour decodes as opaque black.
  Without an alpha byte it decodes as black with the caller's alpha inverted
  (`InvertedOpaqueIsBlack`).

## Model

| member | source | states |
|---|---|---|
| PixelFormats.Flags | synfig-core/src/synfig/color/pixelformat.h:69 | the `FLAGS(x, y)` test `x & y == y`; `FlagsAllBits` shows it holds iff every bit of `y` is set in `x` |
| PixelFormats.Or | synfig-core/src/synfig/color/pixelformat.h:64-65 | `operator|` on the 32-bit value; `OrBit` and `OrContains` state its meaning |
| PixelFormats.And | synfig-core/src/synfig/color/pixelformat.h:67-68 | `operator&` on the 32-bit value; `AndBit` and `AndContained` state its meaning |
| PixelFormats.OrContains | synfig-core/src/synfig/color/pixelformat.h:64-69 | the union of two formats passes `FLAGS` for each operand |
| PixelFormats.AndContained | synfig-core/src/synfig/color/pixelformat.h:64-69 | each operand passes `FLAGS` for the intersection |
| PixelFormats.OrBit | synfig-core/src/synfig/color/pixelformat.h:64-65 | a bit is set in the union of two formats iff it is set in either operand |
| PixelFormats.AndBit | synfig-core/src/synfig/color/pixelformat.h:67-68 | a bit is set in the intersection of two formats iff it is set in both operands |
| PixelFormats.FlagsBit | synfig-core/src/synfig/color/pixelformat.h:69 | when `FLAGS(x, y)` holds, every bit of `y` is set in `x` |
| PixelFormats.MissingFlag | synfig-core/src/synfig/color/pixelformat.h:69 | when `FLAGS(x, y)` fails, some bit of `y` is clear in `x` |
| PixelFormats.BitsCover | synfig-core/src/synfig/color/pixelformat.h:69 | a format holding every bit of `y` passes `FLAGS(x, y)` |
| PixelFormats.FlagsAllBits | synfig-core/src/synfig/color/pixelformat.h:69 | `FLAGS(x, y)` holds iff every bit of `y` is set in `x`, both directions |
| PixelFormats.FlagsSingleBit | synfig-core/src/synfig/color/pixelformat.h:51-59 | for a one-bit mask `1 << i`, as every flag but `PF_RGB` (0) and `PF_RAW_COLOR` is, `FLAGS` passes iff bit `i` is set |
| PixelFormats.Channels | synfig-core/src/synfig/color/pixelformat.h:72-82 | a raw format takes the colour size (16); any other takes 1 to 5 bytes: at most 3 for grey, at least 3 for RGB |
| PixelFormats.RawNeedsBothBits | synfig-core/src/synfig/color/pixelformat.h:60 | the raw test passes iff both bit 9 and the alpha bit 1 are set |
| PixelFormats.RawBitAloneIsNotRaw | synfig-core/src/synfig/color/pixelformat.h:72-82 | bit 9 alone is not raw: it is a 3-byte RGB format |
| PixelFormats.RawHasAlpha | synfig-core/src/synfig/color/pixelformat.h:60 | every raw format passes the alpha test |
| PixelLayout.AxesOf | synfig-core/src/synfig/color/pixelformat.h:95-147 | the outcome of each `FLAGS` test the codec makes on a format, one field per flag |
| PixelLayout.Leading | synfig-core/src/synfig/color/pixelformat.h:117-124 | the slots before the colour bytes: depth if `Z_START`, alpha if `A_START`, depth first iff `ZA`; `LeadingAt`, `GroupMembership` and `GroupOrder` state their properties |
| PixelLayout.ColourSlots | synfig-core/src/synfig/color/pixelformat.h:126-138 | one grey slot, or blue, green, red under `BGR`, or red, green, blue |
| PixelLayout.Trailing | synfig-core/src/synfig/color/pixelformat.h:140-147 | the slots after the colour bytes: depth if `Z` without `Z_START`, alpha if `A` without `A_START`, depth first iff `ZA` |
| PixelLayout.Layout | synfig-core/src/synfig/color/pixelformat.h:117-147 | a packed pixel is the leading group, the colour slots and the trailing group, in that order |
| PixelLayout.AlphaOffset | synfig-core/src/synfig/color/pixelformat.h:117-147 | where alpha sits: inside the leading group under `A_START`, otherwise in the trailing group; `AlphaPosition` and `LayoutAtOffsets` tie it to `Layout` |
| PixelLayout.DepthOffset | synfig-core/src/synfig/color/pixelformat.h:117-147 | where depth sits, by the same rule with `Z_START`; `DepthPosition` ties it to `Layout` |
| PixelLayout.GrayOffset | synfig-core/src/synfig/color/pixelformat.h:127-128 | the grey byte comes right after the leading group; `GrayPosition` ties it to `Layout` |
| PixelLayout.RedOffset | synfig-core/src/synfig/color/pixelformat.h:129-138 | red is the first colour byte, or the third under `BGR`; `RgbPositions` ties it to `Layout` |
| PixelLayout.GreenOffset | synfig-core/src/synfig/color/pixelformat.h:129-138 | green is always the middle colour byte |
| PixelLayout.BlueOffset | synfig-core/src/synfig/color/pixelformat.h:129-138 | blue is the third colour byte, or the first under `BGR` |
| PixelLayout.LayoutSize | synfig-core/src/synfig/color/pixelformat.h:117-147 | the leading, colour and trailing groups have the lengths their size functions give, and the pixel is their sum |
| PixelLayout.LeadingAt | synfig-core/src/synfig/color/pixelformat.h:117-124 | the first bytes of a pixel are the leading group's slots |
| PixelLayout.ColourAt | synfig-core/src/synfig/color/pixelformat.h:126-138 | the colour slots follow the leading group |
| PixelLayout.TrailingAt | synfig-core/src/synfig/color/pixelformat.h:140-147 | the trailing slots follow the colour slots |
| PixelLayout.AlphaPosition | synfig-core/src/synfig/color/pixelformat.h:117-147 | when a start or channel bit asks for alpha, the alpha slot is at the alpha offset |
| PixelLayout.DepthPosition | synfig-core/src/synfig/color/pixelformat.h:117-147 | when a start or channel bit asks for depth, the depth slot is at the depth offset |
| PixelLayout.AlphaOnce | synfig-core/src/synfig/color/pixelformat.h:117-147 | alpha is written at most once: any alpha slot is at the alpha offset |
| PixelLayout.DepthOnce | synfig-core/src/synfig/color/pixelformat.h:117-147 | any depth slot is at the depth offset, so depth is stepped over at most once |
| PixelLayout.GrayPosition | synfig-core/src/synfig/color/pixelformat.h:126-128 | a grey format has its one grey slot right after the leading group |
| PixelLayout.RgbPositions | synfig-core/src/synfig/color/pixelformat.h:129-138 | an RGB format has red, green and blue at their offsets, in B,G,R order under `BGR` and R,G,B otherwise |
| PixelLayout.LayoutAtOffsets | synfig-core/src/synfig/color/pixelformat.h:117-147 | the slot sequence and the offset functions describe the same positions |
| PixelLayout.GroupMembership | synfig-core/src/synfig/color/pixelformat.h:117-147 | alpha (depth) is in the leading group iff its start bit is set |
| PixelLayout.GroupOrder | synfig-core/src/synfig/color/pixelformat.h:117-147 | within one group depth comes before alpha iff `ZA` is set, and the two never share a byte |
| PixelLayout.Advance | synfig-core/src/synfig/color/pixelformat.h:95-149 | the cursor moves by the colour size for raw formats and by the pixel's slot count otherwise |
| PixelLayout.EncodeLength | synfig-core/src/synfig/color/pixelformat.h:117-147 | a non-raw pixel is `channels` bytes plus one for each start bit whose channel bit is clear |
| PixelLayout.EncodeLengthIsChannels | synfig-core/src/synfig/color/pixelformat.h:72-82 | when each start bit comes with its channel bit, a non-raw pixel is exactly `channels` bytes |
| PixelLayout.RawLength | synfig-core/src/synfig/color/pixelformat.h:95-98 | a raw pixel advances by the colour size, which is also `channels` |
| PixelLayout.AlphaStartWithoutAlpha | synfig-core/src/synfig/color/pixelformat.h:117-124 | `A_START` alone gives alpha, R, G, B: four bytes although `channels` is 3 |
| Buffers.Overlay | synfig-core/src/synfig/color/pixelformat.h:117-147 | the buffer after a run of cells is applied from a cursor: stored cells put their byte, skipped ones keep the old byte; its length is unchanged |
| Buffers.OverlayOutside | synfig-core/src/synfig/color/pixelformat.h:117-147 | applying a pixel's cells changes no byte before the cursor or past the pixel |
| Buffers.OverlayAt | synfig-core/src/synfig/color/pixelformat.h:117-147 | a stored cell puts its byte at its position; a stepped-over cell leaves the old byte |
| Buffers.OverlayConcat | synfig-core/src/synfig/color/pixelformat.h:161-162 | applying two runs of cells one after the other is applying their concatenation |
| Buffers.PutByte | synfig-core/src/synfig/color/pixelformat.h:120 | `*out++ = v` stores the next cell of a run |
| Intensities.ToByte | synfig-core/src/synfig/color/pixelformat.h:128 | the `unsigned char` cast keeps any value already in 0..255 |
| Intensities.StoredAlpha | synfig-core/src/synfig/color/pixelformat.h:104 | under `A_INV` the stored byte and `ac` sum to 255; otherwise it is `ac` |
| Intensities.PremultiplyBound | synfig-core/src/synfig/color/pixelformat.h:111-112 | scaling by a weight in 1..256 and shifting by 8 stays between 0 and the intensity |
| Intensities.Premultiply | synfig-core/src/synfig/color/pixelformat.h:110-115 | premultiplication never raises an intensity, keeps it at alpha 255 and leaves it below 256 at alpha 0 |
| Intensities.HighByte | synfig-core/src/synfig/color/pixelformat.h:131-137 | `x >> 8` is the byte `b` with `256 * b <= x < 256 * b + 256` |
| Intensities.WeightedSumBound | synfig-core/src/synfig/color/pixelformat.h:128 | with non-negative weights summing to 256 the weighted sum is below `2^24` |
| Intensities.GrayByteExact | synfig-core/src/synfig/color/pixelformat.h:128 | under such weights the grey byte is the weighted sum shifted by 16 and at most 255, with no truncation |
| Intensities.GrayByte | synfig-core/src/synfig/color/pixelformat.h:128 | the grey byte `(r*yr + g*yg + b*yb) >> 16` cast to a byte; `GrayByteExact` shows the cast loses nothing |
| Intensities.GrayOfEqualIntensities | synfig-core/src/synfig/color/pixelformat.h:128 | equal intensities give the same grey byte as their top byte |
| Intensities.ZeroAlphaBlanks | synfig-core/src/synfig/color/pixelformat.h:110-138 | premultiplied by alpha 0, every top byte and the grey byte are 0 |
| PixelEncode.AlphaByte | synfig-core/src/synfig/color/pixelformat.h:103-104 | the alpha byte the encoder stores for a format and a colour: `ac`, or `255 - ac` under `A_INV` |
| PixelEncode.ColourLevels | synfig-core/src/synfig/color/pixelformat.h:110-115 | the intensities written never exceed the inputs; without `A_PREMULT` or at stored alpha 255 they are the inputs |
| PixelEncode.SlotCell | synfig-core/src/synfig/color/pixelformat.h:117-147 | at an alpha slot the encoder stores the alpha byte, at a colour slot that channel's top byte or the grey byte, and at a depth slot it only steps over |
| PixelEncode.EncodeCells | synfig-core/src/synfig/color/pixelformat.h:84-150 | one pixel occupies exactly the cursor advance |
| PixelEncode.SlotCellsPrefix | synfig-core/src/synfig/color/pixelformat.h:117-147 | each slot the encoder passes adds its own cell |
| PixelEncode.PutSlot | synfig-core/src/synfig/color/pixelformat.h:120 | a store at the cursor emits the cell of the next slot |
| PixelEncode.SkipDepth | synfig-core/src/synfig/color/pixelformat.h:119 | `++out` over a depth slot emits that slot's cell and writes nothing |
| PixelEncode.PutLeading | synfig-core/src/synfig/color/pixelformat.h:117-124 | the leading code emits exactly the leading group's cells |
| PixelEncode.PutColour | synfig-core/src/synfig/color/pixelformat.h:126-138 | the colour code emits exactly the grey, or the B,G,R or R,G,B, cells |
| PixelEncode.PutTrailing | synfig-core/src/synfig/color/pixelformat.h:140-147 | the trailing code emits exactly the trailing group's cells |
| PixelEncode.CopyImage | synfig-core/src/synfig/color/pixelformat.h:95-98 | the raw branch stores the colour's 16 bytes and advances by 16, changing nothing else |
| PixelEncode.PutPacked | synfig-core/src/synfig/color/pixelformat.h:117-149 | the packed branch stores exactly the layout's cells and advances by the layout's length |
| PixelEncode.Color2PixelFormat | synfig-core/src/synfig/color/pixelformat.h:84-150 | encoding advances the cursor by `Advance` and leaves the buffer as `EncodeCells` says, outside the pixel included |
| PixelDecode.Unit | synfig-core/src/synfig/color/pixelformat.h:172 | `k * byte` lies in [0, 1]; it is 0 only for byte 0 and 1 only for byte 255 |
| PixelDecode.UnitInjective | synfig-core/src/synfig/color/pixelformat.h:172 | two bytes decode to the same value iff they are equal |
| PixelDecode.UnitInverted | synfig-core/src/synfig/color/pixelformat.h:213-214 | decoding and inverting the inverted byte gives the value of the original byte |
| PixelDecode.DecodeBytes | synfig-core/src/synfig/color/pixelformat.h:166-221 | the result is raw iff the format is raw, a raw result is the bytes themselves, and a converted one is marked for demultiplication iff `A_PREMULT` |
| PixelDecode.DecodedAlpha | synfig-core/src/synfig/color/pixelformat.h:180-214 | alpha is the byte at the alpha offset, or the prior alpha when none is stored, and is inverted under `A_INV` |
| PixelDecode.DecodedColour | synfig-core/src/synfig/color/pixelformat.h:189-201 | grey sets all three channels to the grey byte; RGB reads each channel at its offset |
| PixelDecode.DecodeFromChannels | synfig-core/src/synfig/color/pixelformat.h:212-218 | a colour that holds the bytes at their offsets, after `A_INV` inversion, is the decoded colour |
| PixelDecode.DecodeIgnoresDepth | synfig-core/src/synfig/color/pixelformat.h:180-210 | changing the depth byte does not change the decoded colour |
| PixelDecode.StoredRaw | synfig-core/src/synfig/color/pixelformat.h:95-98 | after a raw encode the pixel's bytes are the colour's memory image |
| PixelDecode.StoredAlphaByte | synfig-core/src/synfig/color/pixelformat.h:117-147 | the encoder leaves the alpha byte at the alpha offset |
| PixelDecode.StoredGrayByte | synfig-core/src/synfig/color/pixelformat.h:127-128 | the encoder leaves the grey byte at the grey offset |
| PixelDecode.StoredRgbBytes | synfig-core/src/synfig/color/pixelformat.h:129-138 | the encoder leaves each channel's top byte at that channel's offset |
| PixelDecode.EncodeKeepsDepth | synfig-core/src/synfig/color/pixelformat.h:117-147 | the byte at the depth offset is the one the buffer held before encoding |
| PixelDecode.TransparentBlanks | synfig-core/src/synfig/color/pixelformat.h:110-138 | a premultiplied format with stored alpha 0 stores 0 in every colour byte |
| PixelDecode.DecodePackedAlpha | synfig-core/src/synfig/color/pixelformat.h:180-214 | decoding a packed pixel gives back its alpha byte as `k * byte`, inverted again under `A_INV` |
| PixelDecode.DecodePackedColour | synfig-core/src/synfig/color/pixelformat.h:189-201 | decoding a packed pixel gives back the grey byte, or each channel's top byte, as `k * byte` |
| PixelDecode.DecodeAfterEncode | synfig-core/src/synfig/color/pixelformat.h:84-221 | the round trip: a raw colour comes back unchanged; alpha comes back as `k * ac` when the format stores alpha, with or without `A_INV`; the colour channels come back as the stored grey or top bytes |
| PixelDecode.InvertedOpaqueIsBlack | synfig-core/src/synfig/color/pixelformat.h:104-115 | premultiplication uses the alpha byte after inversion: under `A_INV` and `A_PREMULT` an opaque colour has alpha byte 0 (stored when the format has alpha) and blank colour bytes; it decodes as opaque black when the format stores alpha, and otherwise with the prior alpha inverted |
| PixelDecode.GetLeading | synfig-core/src/synfig/color/pixelformat.h:180-187 | the leading code reads alpha from the alpha offset iff `A_START`, and advances past the leading group |
| PixelDecode.GetColour | synfig-core/src/synfig/color/pixelformat.h:189-201 | the colour code reads grey into all three channels, or each channel from its offset |
| PixelDecode.GetTrailing | synfig-core/src/synfig/color/pixelformat.h:203-210 | the trailing code reads alpha iff `A` is set without `A_START`, and ends at the pixel's end |
| PixelDecode.DecodeFromBuffer | synfig-core/src/synfig/color/pixelformat.h:166-218 | channels read from a buffer at their offsets, after `A_INV` inversion, are the decoded colour of that slice |
| PixelDecode.GetChannels | synfig-core/src/synfig/color/pixelformat.h:180-210 | the three groups together read every stored channel from its offset and keep the prior alpha when none is stored |
| PixelDecode.GetPacked | synfig-core/src/synfig/color/pixelformat.h:180-220 | the packed decoder returns `DecodeBytes` of the bytes it passes over |
| PixelDecode.PixelFormat2Color | synfig-core/src/synfig/color/pixelformat.h:166-221 | decoding advances the cursor by `Advance`, as encoding does, and returns `DecodeBytes` of the bytes passed over |
| PixelBatch.FlattenAt | synfig-core/src/synfig/color/pixelformat.h:161-162 | in a run of equal-size records, record `i` starts at `i` times the record size |
| PixelBatch.FlattenAppend | synfig-core/src/synfig/color/pixelformat.h:161-162 | one more record goes at the end of the run |
| PixelBatch.BatchCells | synfig-core/src/synfig/color/pixelformat.h:152-164 | a row of `n` colours occupies `n` times the pixel size |
| PixelBatch.RecordAt | synfig-core/src/synfig/color/pixelformat.h:161-162 | the cells of colour `i` start at `i` times the pixel size |
| PixelBatch.BatchRecord | synfig-core/src/synfig/color/pixelformat.h:161-162 | each pixel of an encoded row holds the bytes that encoding that colour alone at that position stores, so the round trip applies pixel by pixel |
| PixelBatch.EncodeNext | synfig-core/src/synfig/color/pixelformat.h:161-162 | one turn of the loop encodes the next colour at the cursor: the row then holds one more record, and the cursor is one pixel further on |
| PixelBatch.ConvertColorFormat | synfig-core/src/synfig/color/pixelformat.h:152-164 | encoding `w` colours advances by `w` times the pixel size and stores their records in order; `w = 0` changes nothing |

## Left out

- Floating-point colour handling. This covers the alpha clamp and the
  `a * 255.9` truncation, the gamma lookup to 16-bit intensities, and
  `Color::clamped`. The encoder takes the alpha byte and the three 16-bit
  intensities as its input (`Sample`). `Gamma` and `Color` live in
  `color.h`, which is not part of this model.
- The luma weights. They are derived once from the `EncodeYUV` matrix
  (function-local statics). Here they are a parameter, `Luma`, with blue
  taking the rest of 256.
- Decoded values are exact reals `k * byte`. The single-precision products
  of the code are not modelled.
- `set_yuv(y, 0, 0)` of a grey pixel is taken as red, green and blue all
  equal to `y` (no chroma); `color.h` is not part of this model.
- PixelDecode.DecodeBytes: does not perform `demult_alpha` (in `color.h`).
  It returns the colour before the division, with a `demultiply` flag that
  is set iff `A_PREMULT` is.
- The raw copy. The `reinterpret_cast` copy of `Color` is modelled as a
  16-byte image: four 32-bit floats, no padding assumed.
- In-place update of the caller's colour. `PixelFormat2Color` takes the
  colour as a value (`prior`) and returns the updated one.
- `Z_INV`. It is declared, and the codec never reads it.
- `valuenode_segcalcvertex.cpp` (value-node plumbing around an ETL
  Hermite curve) and `tasktransformation.h` (a task handle holder) are not
  part of this model.
