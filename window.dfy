/** The square neighbourhood scanned by the morphology operators, the local
    filters and the local thresholds: rows y-off..y+off, and in each row the
    columns x-off..x+off, in that order, skipping positions outside the image
    (the border clamp `new_y >= 0 && new_y < height && ...`). */
module Window {

  import opened VcTypes
  import opened Samples
  import Grid

  predicate InBounds(w: int, h: int, x: int, y: int)
  {
    0 <= x < w && 0 <= y < h
  }

  /** Sample (x, y) of a one-channel w-by-h image. */
  function At(s: seq<byte>, w: int, h: int, x: int, y: int): byte
    requires |s| == w * h && InBounds(w, h, x, y)
  {
    Grid.InRange(w, h, x, y);
    s[y * w + x]
  }

  /** (xx, yy) lies in the square of half-width off centred on (x, y). */
  predicate Near(x: int, y: int, off: int, xx: int, yy: int)
  {
    x - off <= xx <= x + off && y - off <= yy <= y + off
  }

  /** The in-image samples of row `row`, columns x-off .. x+j-1. */
  function RowPart(s: seq<byte>, w: int, h: int, x: int, off: int, row: int, j: int): seq<byte>
    requires |s| == w * h
    decreases j + off
  {
    if j <= -off then []
    else
      RowPart(s, w, h, x, off, row, j - 1) +
      (if InBounds(w, h, x + j - 1, row) then [At(s, w, h, x + j - 1, row)] else [])
  }

  /** The in-image samples of rows y-off .. y+i-1. */
  function Rows(s: seq<byte>, w: int, h: int, x: int, y: int, off: int, i: int): seq<byte>
    requires |s| == w * h
    decreases i + off
  {
    if i <= -off then []
    else Rows(s, w, h, x, y, off, i - 1) + RowPart(s, w, h, x, off, y + i - 1, off + 1)
  }

  /** The whole border-clamped neighbourhood of (x, y). It is empty when
      off < 0, as the C loops then run no iteration. */
  function Neighbourhood(s: seq<byte>, w: int, h: int, x: int, y: int, off: int): seq<byte>
    requires |s| == w * h
  {
    Rows(s, w, h, x, y, off, off + 1)
  }

  lemma {:induction false} RowPartHas(s: seq<byte>, w: int, h: int, x: int, off: int, row: int, j: int, xx: int)
    requires |s| == w * h
    requires x - off <= xx < x + j && InBounds(w, h, xx, row)
    ensures At(s, w, h, xx, row) in RowPart(s, w, h, x, off, row, j)
    decreases j + off
  {
    if xx < x + j - 1 {
      RowPartHas(s, w, h, x, off, row, j - 1, xx);
    }
  }

  lemma {:induction false} RowsHas(s: seq<byte>, w: int, h: int, x: int, y: int, off: int, i: int, xx: int, yy: int)
    requires |s| == w * h
    requires x - off <= xx <= x + off && y - off <= yy < y + i && InBounds(w, h, xx, yy)
    ensures At(s, w, h, xx, yy) in Rows(s, w, h, x, y, off, i)
    decreases i + off
  {
    if yy < y + i - 1 {
      RowsHas(s, w, h, x, y, off, i - 1, xx, yy);
    } else {
      RowPartHas(s, w, h, x, off, yy, off + 1, xx);
    }
  }

  /** Every in-image sample of the square is in the neighbourhood. */
  lemma NeighbourhoodHas(s: seq<byte>, w: int, h: int, x: int, y: int, off: int, xx: int, yy: int)
    requires |s| == w * h
    requires Near(x, y, off, xx, yy) && InBounds(w, h, xx, yy)
    ensures At(s, w, h, xx, yy) in Neighbourhood(s, w, h, x, y, off)
  {
    RowsHas(s, w, h, x, y, off, off + 1, xx, yy);
  }

  lemma {:induction false} RowPartFrom(s: seq<byte>, w: int, h: int, x: int, off: int, row: int, j: int, v: byte)
    returns (xx: int)
    requires |s| == w * h
    requires v in RowPart(s, w, h, x, off, row, j)
    ensures x - off <= xx < x + j && InBounds(w, h, xx, row) && v == At(s, w, h, xx, row)
    decreases j + off
  {
    if v in RowPart(s, w, h, x, off, row, j - 1) {
      xx := RowPartFrom(s, w, h, x, off, row, j - 1, v);
    } else {
      xx := x + j - 1;
    }
  }

  /** Every sample the scan has visited, up to row y+i and column x+j-1,
      comes from an in-image position of the square. */
  lemma {:induction false} PartialFrom(s: seq<byte>, w: int, h: int, x: int, y: int, off: int, i: int, j: int, v: byte)
    returns (xx: int, yy: int)
    requires |s| == w * h && -off <= i <= off && j <= off + 1
    requires v in Rows(s, w, h, x, y, off, i) + RowPart(s, w, h, x, off, y + i, j)
    ensures Near(x, y, off, xx, yy) && yy <= y + i && InBounds(w, h, xx, yy) && v == At(s, w, h, xx, yy)
    decreases i + off
  {
    if v in RowPart(s, w, h, x, off, y + i, j) {
      xx := RowPartFrom(s, w, h, x, off, y + i, j, v);
      yy := y + i;
    } else {
      assert i > -off;
      assert Rows(s, w, h, x, y, off, i) == Rows(s, w, h, x, y, off, i - 1) + RowPart(s, w, h, x, off, y + i - 1, off + 1);
      xx, yy := PartialFrom(s, w, h, x, y, off, i - 1, off + 1, v);
    }
  }

  /** Where sample (x, y) sits in the buffer. */
  lemma AtIndex(s: seq<byte>, w: int, h: int, x: int, y: int)
    requires |s| == w * h && InBounds(w, h, x, y)
    ensures 0 <= y * w + x < |s| && At(s, w, h, x, y) == s[y * w + x]
  {
    Grid.InRange(w, h, x, y);
  }

  /** One more row of the scan (new_y = y + i) extends the rows seen. */
  lemma RowsNext(s: seq<byte>, w: int, h: int, x: int, y: int, off: int, i: int)
    requires |s| == w * h && -off <= i
    ensures Rows(s, w, h, x, y, off, i + 1) ==
      Rows(s, w, h, x, y, off, i) + RowPart(s, w, h, x, off, y + i, off + 1)
  {
  }

  /** Every sample of the neighbourhood comes from an in-image position of
      the square. */
  lemma NeighbourhoodFrom(s: seq<byte>, w: int, h: int, x: int, y: int, off: int, v: byte)
    returns (xx: int, yy: int)
    requires |s| == w * h && v in Neighbourhood(s, w, h, x, y, off)
    ensures Near(x, y, off, xx, yy) && InBounds(w, h, xx, yy) && v == At(s, w, h, xx, yy)
  {
    if off < 0 {
      assert false;
    }
    RowsNext(s, w, h, x, y, off, off);
    xx, yy := PartialFrom(s, w, h, x, y, off, off, off + 1, v);
  }

  /** The neighbourhood contains v exactly when some in-image position of
      the square holds v. */
  lemma NeighbourhoodContains(s: seq<byte>, w: int, h: int, x: int, y: int, off: int, v: byte)
    requires |s| == w * h
    ensures v in Neighbourhood(s, w, h, x, y, off) <==>
      exists xx, yy :: Near(x, y, off, xx, yy) && InBounds(w, h, xx, yy) && At(s, w, h, xx, yy) == v
  {
    if v in Neighbourhood(s, w, h, x, y, off) {
      var xx, yy := NeighbourhoodFrom(s, w, h, x, y, off, v);
    }
    if exists xx, yy :: Near(x, y, off, xx, yy) && InBounds(w, h, xx, yy) && At(s, w, h, xx, yy) == v {
      var xx, yy :| Near(x, y, off, xx, yy) && InBounds(w, h, xx, yy) && At(s, w, h, xx, yy) == v;
      NeighbourhoodHas(s, w, h, x, y, off, xx, yy);
    }
  }

  // ---------------------------------------------------------------------
  // The scan itself: the C loops fold a step function over the window in
  // the same order, without building the sequence.

  /** Row `row` of the scan, columns x-off .. x+j-1, continuing from acc. */
  function RowFold<A>(f: (A, byte) -> A, acc: A, s: seq<byte>, w: int, h: int, x: int, off: int, row: int, j: int): A
    requires |s| == w * h
    decreases j + off
  {
    if j <= -off then acc
    else
      var a := RowFold(f, acc, s, w, h, x, off, row, j - 1);
      if InBounds(w, h, x + j - 1, row) then f(a, At(s, w, h, x + j - 1, row)) else a
  }

  /** Rows y-off .. y+i-1 of the scan, starting from init. */
  function RowsFold<A>(f: (A, byte) -> A, init: A, s: seq<byte>, w: int, h: int, x: int, y: int, off: int, i: int): A
    requires |s| == w * h
    decreases i + off
  {
    if i <= -off then init
    else RowFold(f, RowsFold(f, init, s, w, h, x, y, off, i - 1), s, w, h, x, off, y + i - 1, off + 1)
  }

  /** The whole scan of the neighbourhood of (x, y). */
  function WindowFold<A>(f: (A, byte) -> A, init: A, s: seq<byte>, w: int, h: int, x: int, y: int, off: int): A
    requires |s| == w * h
  {
    RowsFold(f, init, s, w, h, x, y, off, off + 1)
  }

  /** Scanning a row part is folding over its samples. */
  lemma {:induction false} RowFoldSeq<A>(f: (A, byte) -> A, acc: A, s: seq<byte>, w: int, h: int, x: int, off: int, row: int, j: int)
    requires |s| == w * h
    ensures RowFold(f, acc, s, w, h, x, off, row, j) == SeqFold(f, acc, RowPart(s, w, h, x, off, row, j))
    decreases j + off
  {
    if j > -off {
      RowFoldSeq(f, acc, s, w, h, x, off, row, j - 1);
      var part := RowPart(s, w, h, x, off, row, j - 1);
      if InBounds(w, h, x + j - 1, row) {
        SeqFoldSnoc(f, acc, part, At(s, w, h, x + j - 1, row));
      } else {
        assert part + [] == part;
      }
    }
  }

  /** Scanning the first rows is folding over their samples. */
  lemma {:induction false} RowsFoldSeq<A>(f: (A, byte) -> A, init: A, s: seq<byte>, w: int, h: int, x: int, y: int, off: int, i: int)
    requires |s| == w * h
    ensures RowsFold(f, init, s, w, h, x, y, off, i) == SeqFold(f, init, Rows(s, w, h, x, y, off, i))
    decreases i + off
  {
    if i > -off {
      RowsFoldSeq(f, init, s, w, h, x, y, off, i - 1);
      var rows := Rows(s, w, h, x, y, off, i - 1);
      RowFoldSeq(f, SeqFold(f, init, rows), s, w, h, x, off, y + i - 1, off + 1);
      SeqFoldAppend(f, init, rows, RowPart(s, w, h, x, off, y + i - 1, off + 1));
    }
  }

  /** The scan of the window folds the step over the neighbourhood, in order. */
  lemma WindowFoldSeq<A>(f: (A, byte) -> A, init: A, s: seq<byte>, w: int, h: int, x: int, y: int, off: int)
    requires |s| == w * h
    ensures WindowFold(f, init, s, w, h, x, y, off) == SeqFold(f, init, Neighbourhood(s, w, h, x, y, off))
  {
    RowsFoldSeq(f, init, s, w, h, x, y, off, off + 1);
  }

  /** Once the black-sample flag is raised, the rest of a row keeps it. */
  lemma {:induction false} ZeroKept(acc: bool, s: seq<byte>, w: int, h: int, x: int, off: int, row: int, j: int, k: int)
    requires |s| == w * h && j <= k && RowFold(ZeroStep, acc, s, w, h, x, off, row, j)
    ensures RowFold(ZeroStep, acc, s, w, h, x, off, row, k)
    decreases k - j
  {
    if j < k {
      ZeroKept(acc, s, w, h, x, off, row, j, k - 1);
    }
  }

  /** Once the black-sample flag is raised, the remaining rows keep it. */
  lemma {:induction false} ZeroKeptRows(s: seq<byte>, w: int, h: int, x: int, y: int, off: int, i: int, k: int)
    requires |s| == w * h && -off <= i <= k && RowsFold(ZeroStep, false, s, w, h, x, y, off, i)
    ensures RowsFold(ZeroStep, false, s, w, h, x, y, off, k)
    decreases k - i
  {
    if i < k {
      ZeroKeptRows(s, w, h, x, y, off, i, k - 1);
      RowFoldTrue(s, w, h, x, off, y + k - 1, off + 1);
    }
  }

  /** A row scanned with the flag already raised leaves it raised. */
  lemma {:induction false} RowFoldTrue(s: seq<byte>, w: int, h: int, x: int, off: int, row: int, j: int)
    requires |s| == w * h
    ensures RowFold(ZeroStep, true, s, w, h, x, off, row, j)
    decreases j + off
  {
    if j > -off {
      RowFoldTrue(s, w, h, x, off, row, j - 1);
    }
  }
}
