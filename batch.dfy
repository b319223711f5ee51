/** Encoding a row of colours (`convert_color_format`).

    The row is encoded pixel after pixel, each record starting where the
    previous one ended; `BatchCells` is the run of cells the whole row
    occupies, and `BatchRecord` says that every record in it is what a single
    `Color2PixelFormat` stores at that position. */
module PixelBatch {
  import opened PixelFormats
  import opened PixelLayout
  import opened Buffers
  import opened Intensities
  import opened PixelEncode
  import opened PixelDecode

  /** Records laid end to end. */
  function Flatten(records: seq<seq<Cell>>): (cells: seq<Cell>)
    ensures |records| == 0 ==> cells == []
  {
    if |records| == 0 then [] else records[0] + Flatten(records[1..])
  }

  ghost predicate Uniform(records: seq<seq<Cell>>, size: nat) {
    forall i | 0 <= i < |records| :: |records[i]| == size
  }

  lemma MulSucc(k: nat, size: nat)
    ensures (k + 1) * size == k * size + size
  {
  }

  lemma MulStep(k: nat, size: nat, w: nat)
    requires k < w
    ensures k * size + size <= w * size
  {
    MulSucc(k, size);
    assert (k + 1) * size <= w * size;
  }

  lemma {:induction false} FlattenLength(records: seq<seq<Cell>>, size: nat)
    requires Uniform(records, size)
    ensures |Flatten(records)| == |records| * size
    decreases |records|
  {
    if |records| != 0 {
      FlattenLength(records[1..], size);
      MulSucc(|records| - 1, size);
    }
  }

  /** One more record goes at the end. */
  lemma {:induction false} FlattenAppend(records: seq<seq<Cell>>, r: seq<Cell>)
    ensures Flatten(records + [r]) == Flatten(records) + r
    decreases |records|
  {
    if |records| == 0 {
      assert Flatten([r]) == r + Flatten([]);
    } else {
      assert (records + [r])[1..] == records[1..] + [r];
      FlattenAppend(records[1..], r);
    }
  }

  lemma SliceRight(x: seq<Cell>, y: seq<Cell>, p: nat, n: nat)
    requires p + n <= |y|
    ensures (x + y)[|x| + p..|x| + p + n] == y[p..p + n]
  {
  }

  /** Record `i` of a uniform run starts at `i` times the record size. */
  lemma {:induction false} FlattenAt(records: seq<seq<Cell>>, size: nat, i: nat)
    requires Uniform(records, size) && i < |records|
    ensures i * size + size <= |Flatten(records)|
    ensures Flatten(records)[i * size..i * size + size] == records[i]
    decreases i
  {
    FlattenLength(records, size);
    MulStep(i, size, |records|);
    if i == 0 {
      assert Flatten(records)[0..size] == records[0];
    } else {
      var p := (i - 1) * size;
      MulSucc(i - 1, size);
      FlattenAt(records[1..], size, i - 1);
      SliceRight(records[0], Flatten(records[1..]), p, size);
    }
  }

  /** Applying record `k` right after the first `k` records of a uniform run
      applies the first `k + 1`. */
  lemma FlatStep(records: seq<seq<Cell>>, size: nat, b: seq<Byte>, dest: nat, k: nat)
    requires Uniform(records, size) && k < |records| && dest + |records| * size <= |b|
    ensures dest + k * size + size <= |b|
    ensures |Flatten(records[..k])| == k * size && |Flatten(records[..k + 1])| == k * size + size
    ensures Overlay(Overlay(b, dest, Flatten(records[..k])), dest + k * size, records[k])
         == Overlay(b, dest, Flatten(records[..k + 1]))
  {
    FlattenLength(records[..k], size);
    FlattenLength(records[..k + 1], size);
    MulStep(k, size, |records|);
    OverlayConcat(b, dest, Flatten(records[..k]), records[k]);
    assert records[..k + 1] == records[..k] + [records[k]];
    FlattenAppend(records[..k], records[k]);
  }

  /** The state of `ConvertColorFormat` after `k` colours: the cursor is `k`
      records past `dest` and the buffer holds the first `k` records. */
  ghost predicate Progress(records: seq<seq<Cell>>, size: nat, before: seq<Byte>, dest: nat, k: nat,
                           at: nat, current: seq<Byte>)
  {
    && k <= |records|
    && at == dest + k * size
    && |Flatten(records[..k])| == k * size
    && at <= |before|
    && current == Overlay(before, dest, Flatten(records[..k]))
  }

  /** Before the loop no record is applied. */
  lemma RowStart(records: seq<seq<Cell>>, size: nat, before: seq<Byte>, dest: nat)
    requires dest <= |before|
    ensures Progress(records, size, before, dest, 0, dest, before)
  {
    OverlayNone(before, dest);
    assert records[..0] == [];
  }

  /** After the loop every record is applied. */
  lemma RowDone(records: seq<seq<Cell>>, size: nat, before: seq<Byte>, dest: nat, at: nat, current: seq<Byte>)
    requires Progress(records, size, before, dest, |records|, at, current)
    ensures at == dest + |records| * size && |Flatten(records)| == |records| * size
    ensures current == Overlay(before, dest, Flatten(records))
  {
    assert records[..|records|] == records;
  }

  /** The next record fits in the buffer. */
  lemma RowRoom(records: seq<seq<Cell>>, size: nat, before: seq<Byte>, dest: nat, k: nat, at: nat, current: seq<Byte>)
    requires Uniform(records, size) && dest + |records| * size <= |before|
    requires Progress(records, size, before, dest, k, at, current) && k < |records|
    ensures at + size <= |current| == |before|
  {
    MulStep(k, size, |records|);
  }

  /** Applying record `k` at the cursor moves the state on by one colour. */
  lemma RowStep(records: seq<seq<Cell>>, size: nat, before: seq<Byte>, dest: nat, k: nat,
                at: nat, record: seq<Cell>, current: seq<Byte>, after: seq<Byte>)
    requires Uniform(records, size) && dest + |records| * size <= |before|
    requires Progress(records, size, before, dest, k, at, current) && k < |records|
    requires record == records[k]
    requires at + size <= |current| && after == Overlay(current, at, record)
    ensures Progress(records, size, before, dest, k + 1, at + size, after)
  {
    FlatStep(records, size, before, dest, k);
    MulSucc(k, size);
  }

  /** The record of each sample, in order. */
  function Records(f: Axes, samples: seq<Sample>, luma: Luma): (records: seq<seq<Cell>>)
    ensures |records| == |samples|
  {
    seq(|samples|, i requires 0 <= i < |samples| => EncodeCells(f, samples[i], luma))
  }

  lemma RecordsUniform(f: Axes, samples: seq<Sample>, luma: Luma)
    ensures Uniform(Records(f, samples, luma), Advance(f))
  {
  }

  lemma RecordsAppend(f: Axes, samples: seq<Sample>, s: Sample, luma: Luma)
    ensures Records(f, samples + [s], luma) == Records(f, samples, luma) + [EncodeCells(f, s, luma)]
  {
  }

  /** The records of the samples, one after another. */
  function BatchCells(f: Axes, samples: seq<Sample>, luma: Luma): (cells: seq<Cell>)
    ensures |cells| == |samples| * Advance(f)
  {
    RecordsUniform(f, samples, luma);
    FlattenLength(Records(f, samples, luma), Advance(f));
    Flatten(Records(f, samples, luma))
  }

  /** Record `i` of a row sits at `i` times the record size. */
  lemma RecordAt(f: Axes, samples: seq<Sample>, luma: Luma, i: nat)
    requires i < |samples|
    ensures i * Advance(f) + Advance(f) <= |BatchCells(f, samples, luma)|
    ensures BatchCells(f, samples, luma)[i * Advance(f)..i * Advance(f) + Advance(f)]
         == EncodeCells(f, samples[i], luma)
  {
    RecordsUniform(f, samples, luma);
    FlattenAt(Records(f, samples, luma), Advance(f), i);
  }

  /** The bytes of a window depend only on the cells that fall in it. */
  lemma OverlayWindow(b: seq<Byte>, off: nat, cells: seq<Cell>, p: nat, n: nat, window: seq<Cell>, at: nat)
    requires off + |cells| <= |b| && p + n <= |cells| && window == cells[p..p + n] && at == off + p
    ensures Overlay(b, off, cells)[at..at + n] == Overlay(b, at, window)[at..at + n]
  {
    var lhs := Overlay(b, off, cells)[at..at + n];
    var rhs := Overlay(b, at, window)[at..at + n];
    forall j | 0 <= j < n
      ensures lhs[j] == rhs[j]
    {
      OverlayAt(b, off, cells, p + j);
      OverlayAt(b, off + p, window, j);
    }
  }

  /** Every record of an encoded row holds exactly the bytes that encoding
      that one colour at that position (`at`) stores, so `DecodeAfterEncode`
      applies to each pixel of the row. */
  lemma BatchRecord(f: Axes, samples: seq<Sample>, luma: Luma, b: seq<Byte>, dest: nat, i: nat, at: nat)
    requires dest + |samples| * Advance(f) <= |b| && i < |samples|
    requires at == dest + i * Advance(f)
    ensures at + Advance(f) <= |b|
    ensures Overlay(b, dest, BatchCells(f, samples, luma))[at..at + Advance(f)]
         == EncodedBytes(f, samples[i], luma, b, at)
  {
    var a := Advance(f);
    var cells, record := BatchCells(f, samples, luma), EncodeCells(f, samples[i], luma);
    RecordAt(f, samples, luma, i);
    OverlayWindow(b, dest, cells, i * a, a, record, at);
    assert EncodedBytes(f, samples[i], luma, b, at) == Overlay(b, at, record)[at..at + a];
  }

  /** One turn of the loop of `convert_color_format`: encodes colour `k` at
      the cursor and moves the row on by one record. */
  method EncodeNext(buf: array<Byte>, next: nat, src: seq<Sample>, k: nat, w: nat, pf: PixelFormat, luma: Luma,
                    ghost records: seq<seq<Cell>>, ghost before: seq<Byte>, ghost dest: nat)
    returns (next': nat)
    requires k < w <= |src| && records == Records(AxesOf(pf), src[..w], luma)
    requires dest + w * Advance(AxesOf(pf)) <= |before|
    requires Progress(records, Advance(AxesOf(pf)), before, dest, k, next, buf[..])
    modifies buf
    ensures Progress(records, Advance(AxesOf(pf)), before, dest, k + 1, next', buf[..])
  {
    ghost var a := Advance(AxesOf(pf));
    RecordsUniform(AxesOf(pf), src[..w], luma);
    RowRoom(records, a, before, dest, k, next, buf[..]);
    assert records[k] == EncodeCells(AxesOf(pf), src[k], luma) by {
      assert src[..w][k] == src[k];
    }
    ghost var current := buf[..];
    next' := Color2PixelFormat(src[k], pf, buf, next, luma);
    RowStep(records, a, before, dest, k, next, EncodeCells(AxesOf(pf), src[k], luma), current, buf[..]);
  }

  /** `convert_color_format`: encodes the first `w` colours one after another
      from `dest` on and returns the cursor past the last record. */
  method ConvertColorFormat(buf: array<Byte>, dest: nat, src: seq<Sample>, w: int, pf: PixelFormat, luma: Luma)
    returns (next: nat)
    requires 0 <= w <= |src|
    requires dest + w * Advance(AxesOf(pf)) <= buf.Length
    modifies buf
    ensures next == dest + w * Advance(AxesOf(pf))
    ensures buf[..] == Overlay(old(buf[..]), dest, BatchCells(AxesOf(pf), src[..w], luma))
  {
    ghost var before := buf[..];
    ghost var a := Advance(AxesOf(pf));
    ghost var records := Records(AxesOf(pf), src[..w], luma);
    RowStart(records, a, before, dest);
    var remaining, k := w, 0;
    next := dest;
    while remaining > 0
      invariant 0 <= remaining <= w && k == w - remaining
      invariant Progress(records, a, before, dest, k, next, buf[..])
    {
      next := EncodeNext(buf, next, src, k, w, pf, luma, records, before, dest);
      remaining, k := remaining - 1, k + 1;
    }
    RowDone(records, a, before, dest, next, buf[..]);
  }
}
