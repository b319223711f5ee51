/** Bytes and the effect of an encoder on a caller's buffer.

    The encoder moves a cursor through the buffer and, at each position,
    either stores a byte (`*out++ = v`) or only steps over it (`++out`).
    A `Cell` records which of the two happens; `Overlay` gives the buffer
    after a run of cells has been applied from some offset on. */
module Buffers {

  type Byte = x: int | 0 <= x < 256

  datatype Cell = Put(value: Byte) | Skip

  function Overlay(b: seq<Byte>, off: nat, cells: seq<Cell>): (r: seq<Byte>)
    requires off + |cells| <= |b|
    ensures |r| == |b|
  {
    seq(|b|, i requires 0 <= i < |b| =>
      if off <= i < off + |cells| && cells[i - off].Put? then cells[i - off].value else b[i])
  }

  /** Nothing before the cursor or past the last cell changes. */
  lemma OverlayOutside(b: seq<Byte>, off: nat, cells: seq<Cell>, i: nat)
    requires off + |cells| <= |b|
    requires i < |b| && (i < off || off + |cells| <= i)
    ensures Overlay(b, off, cells)[i] == b[i]
  {
  }

  /** A `Put` cell stores its byte; a `Skip` cell leaves the old byte. */
  lemma OverlayAt(b: seq<Byte>, off: nat, cells: seq<Cell>, j: nat)
    requires off + |cells| <= |b|
    requires j < |cells|
    ensures Overlay(b, off, cells)[off + j] == if cells[j].Put? then cells[j].value else b[off + j]
  {
  }

  lemma OverlayNone(b: seq<Byte>, off: nat)
    requires off <= |b|
    ensures Overlay(b, off, []) == b
  {
  }

  /** Applying one more cell at the cursor. */
  lemma OverlayStep(b: seq<Byte>, off: nat, cells: seq<Cell>, c: Cell)
    requires off + |cells| < |b|
    ensures c.Put? ==> Overlay(b, off, cells + [c]) == Overlay(b, off, cells)[off + |cells| := c.value]
    ensures c.Skip? ==> Overlay(b, off, cells + [c]) == Overlay(b, off, cells)
  {
    var n := off + |cells|;
    var r, r' := Overlay(b, off, cells), Overlay(b, off, cells + [c]);
    forall i | 0 <= i < |b|
      ensures r'[i] == if i == n && c.Put? then c.value else r[i]
    {
      if off <= i < n {
        assert (cells + [c])[i - off] == cells[i - off];
      }
    }
  }

  /** Two runs of cells applied one after the other are one run of their concatenation. */
  lemma OverlayConcat(b: seq<Byte>, off: nat, c1: seq<Cell>, c2: seq<Cell>)
    requires off + |c1| + |c2| <= |b|
    ensures Overlay(Overlay(b, off, c1), off + |c1|, c2) == Overlay(b, off, c1 + c2)
  {
    var lhs, rhs := Overlay(Overlay(b, off, c1), off + |c1|, c2), Overlay(b, off, c1 + c2);
    forall i | 0 <= i < |b|
      ensures lhs[i] == rhs[i]
    {
      if off <= i < off + |c1| {
        assert (c1 + c2)[i - off] == c1[i - off];
      } else if off + |c1| <= i < off + |c1| + |c2| {
        assert (c1 + c2)[i - off] == c2[i - off - |c1|];
      }
    }
  }

  /** `*out++ = v`: stores one byte at the cursor, the next cell of a run. */
  method PutByte(buf: array<Byte>, o: nat, v: Byte, ghost before: seq<Byte>, ghost off: nat, ghost cells: seq<Cell>)
    requires |before| == buf.Length
    requires o == off + |cells| < buf.Length
    requires buf[..] == Overlay(before, off, cells)
    modifies buf
    ensures buf[..] == Overlay(before, off, cells + [Put(v)])
  {
    OverlayStep(before, off, cells, Put(v));
    buf[o] := v;
  }
}
