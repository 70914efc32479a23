/** vc_binary_blob_info: for every blob of a labelled plane, one scan of the
    interior gives its area, bounding box, centroid (the truncated mean of
    the coordinates) and the count of its pixels with a 4-neighbour outside
    it, which is added to the blob's perimeter. */
module BlobInfo {

  import opened VcTypes
  import Grid
  import Samples

  /** The running values of the scan of one blob: area, sums of the
      coordinates, bounding box, and the boundary pixels seen so far. */
  datatype Tally = Tally(area: int, sumx: int, sumy: int, xmin: int, ymin: int, xmax: int, ymax: int, edge: int)

  /** The values before the scan: an empty box from (w-1, h-1) to (0, 0). */
  function Start(w: int, h: int): Tally
  {
    Tally(0, 0, 0, w - 1, h - 1, 0, 0, 0)
  }

  /** An interior pixel and its four 4-neighbours lie inside the plane. */
  lemma PixelBounds(w: int, h: int, x: int, y: int)
    requires 1 <= x < w - 1 && 1 <= y < h - 1
    ensures w + 1 <= y * w + x && y * w + x + w < w * h
  {
    Grid.InRange(w, h, x, y + 1);
    Grid.NextRow(w, y);
    Grid.MulMono(1, y, w);
  }

  /** A pixel one of whose left, right, upper and lower neighbours does not
      carry its label. */
  predicate OnBoundary(s: seq<byte>, w: int, pos: int, lbl: int)
    requires 1 <= w && w + 1 <= pos && pos + w < |s|
  {
    s[pos - 1] != lbl || s[pos + 1] != lbl || s[pos - w] != lbl || s[pos + w] != lbl
  }

  /** The body of the x loop at interior pixel (x, y). */
  function Visit(s: seq<byte>, w: int, h: int, lbl: int, x: int, y: int, t: Tally): Tally
    requires |s| == w * h && 1 <= x < w - 1 && 1 <= y < h - 1
  {
    PixelBounds(w, h, x, y);
    var pos := y * w + x;
    if s[pos] != lbl then t
    else Tally(t.area + 1, t.sumx + x, t.sumy + y,
               if t.xmin > x then x else t.xmin, if t.ymin > y then y else t.ymin,
               if t.xmax < x then x else t.xmax, if t.ymax < y then y else t.ymax,
               t.edge + if OnBoundary(s, w, pos, lbl) then 1 else 0)
  }

  /** The x loop over columns 1 .. x-1 of row y, from t. */
  function TallyRow(s: seq<byte>, w: int, h: int, lbl: int, y: int, x: int, t: Tally): Tally
    requires |s| == w * h && 1 <= y < h - 1 && (x <= w - 1 || x == 1)
    decreases x
  {
    if x <= 1 then t else Visit(s, w, h, lbl, x - 1, y, TallyRow(s, w, h, lbl, y, x - 1, t))
  }

  /** The y loop over rows 1 .. y-1. */
  function TallyRows(s: seq<byte>, w: int, h: int, lbl: int, y: int): Tally
    requires |s| == w * h && (y <= h - 1 || y == 1)
    decreases y
  {
    if y <= 1 then Start(w, h) else TallyRow(s, w, h, lbl, y - 1, w - 1, TallyRows(s, w, h, lbl, y - 1))
  }

  /** What the function stores in a blob after its scan. The perimeter is
      not reset: the boundary count is added to what the blob held. */
  function Finish(b: Blob, t: Tally): Blob
  {
    b.(x := t.xmin, y := t.ymin, width := (t.xmax - t.xmin) + 1, height := (t.ymax - t.ymin) + 1,
       area := t.area, xc := CDiv(t.sumx, Max(t.area, 1)), yc := CDiv(t.sumy, Max(t.area, 1)),
       perimeter := b.perimeter + t.edge)
  }

  /** The blob after vc_binary_blob_info, from its record before. */
  function Info(s: seq<byte>, w: int, h: int, b: Blob): Blob
    requires |s| == w * h && h >= 1
  {
    Finish(b, TallyRows(s, w, h, b.lbl, h - 1))
  }

  // ---------------------------------------------------------------------
  // The loops

  /** The body of the x loop at interior pixel (x, y) for blob i. */
  method MeasurePixel(data: array<byte>, w: int, h: int, blobs: array<Blob>, i: int, x: int, y: int, ghost p0: int,
                      xmin0: int, ymin0: int, xmax0: int, ymax0: int, sumx0: int, sumy0: int)
    returns (xmin: int, ymin: int, xmax: int, ymax: int, sumx: int, sumy: int)
    requires data.Length == w * h && 1 <= x < w - 1 && 1 <= y < h - 1 && 0 <= i < blobs.Length
    modifies blobs
    ensures Tally(blobs[i].area, sumx, sumy, xmin, ymin, xmax, ymax, blobs[i].perimeter - p0) ==
      Visit(data[..], w, h, old(blobs[i]).lbl, x, y,
            Tally(old(blobs[i]).area, sumx0, sumy0, xmin0, ymin0, xmax0, ymax0, old(blobs[i]).perimeter - p0))
    ensures blobs[i] == old(blobs[i]).(area := blobs[i].area, perimeter := blobs[i].perimeter)
    ensures forall j :: 0 <= j < blobs.Length && j != i ==> blobs[j] == old(blobs[j])
  {
    xmin, ymin, xmax, ymax, sumx, sumy := xmin0, ymin0, xmax0, ymax0, sumx0, sumy0;
    PixelBounds(w, h, x, y);
    var pos := y * w + x;
    if data[pos] == blobs[i].lbl {
      blobs[i] := blobs[i].(area := blobs[i].area + 1);
      sumx := sumx + x;
      sumy := sumy + y;
      if xmin > x {
        xmin := x;
      }
      if ymin > y {
        ymin := y;
      }
      if xmax < x {
        xmax := x;
      }
      if ymax < y {
        ymax := y;
      }
      if data[pos - 1] != blobs[i].lbl || data[pos + 1] != blobs[i].lbl ||
         data[pos - w] != blobs[i].lbl || data[pos + w] != blobs[i].lbl {
        blobs[i] := blobs[i].(perimeter := blobs[i].perimeter + 1);
      }
    }
  }

  /** The x loop over row y for blob i: area and perimeter are counted in
      the blob itself, the sums and the box in the caller's variables. */
  method MeasureRow(data: array<byte>, w: int, h: int, blobs: array<Blob>, i: int, y: int, ghost p0: int,
                    xmin0: int, ymin0: int, xmax0: int, ymax0: int, sumx0: int, sumy0: int)
    returns (xmin: int, ymin: int, xmax: int, ymax: int, sumx: int, sumy: int)
    requires data.Length == w * h && 1 <= y < h - 1 && 0 <= i < blobs.Length
    modifies blobs
    ensures Tally(blobs[i].area, sumx, sumy, xmin, ymin, xmax, ymax, blobs[i].perimeter - p0) ==
      TallyRow(data[..], w, h, old(blobs[i]).lbl, y, w - 1,
               Tally(old(blobs[i]).area, sumx0, sumy0, xmin0, ymin0, xmax0, ymax0, old(blobs[i]).perimeter - p0))
    ensures blobs[i] == old(blobs[i]).(area := blobs[i].area, perimeter := blobs[i].perimeter)
    ensures forall j :: 0 <= j < blobs.Length && j != i ==> blobs[j] == old(blobs[j])
  {
    ghost var s, lbl := data[..], blobs[i].lbl;
    ghost var t0 := Tally(blobs[i].area, sumx0, sumy0, xmin0, ymin0, xmax0, ymax0, blobs[i].perimeter - p0);
    xmin, ymin, xmax, ymax, sumx, sumy := xmin0, ymin0, xmax0, ymax0, sumx0, sumy0;
    var x := 1;
    while x < w - 1
      invariant 1 <= x && (x <= w - 1 || x == 1)
      invariant Tally(blobs[i].area, sumx, sumy, xmin, ymin, xmax, ymax, blobs[i].perimeter - p0) ==
        TallyRow(s, w, h, lbl, y, x, t0)
      invariant blobs[i] == old(blobs[i]).(area := blobs[i].area, perimeter := blobs[i].perimeter)
      invariant forall j :: 0 <= j < blobs.Length && j != i ==> blobs[j] == old(blobs[j])
    {
      xmin, ymin, xmax, ymax, sumx, sumy := MeasurePixel(data, w, h, blobs, i, x, y, p0, xmin, ymin, xmax, ymax, sumx, sumy);
      x := x + 1;
    }
  }

  /** The scan of blob i and the stores after it. */
  method Measure(data: array<byte>, w: int, h: int, blobs: array<Blob>, i: int)
    requires data.Length == w * h && h >= 1 && 0 <= i < blobs.Length
    modifies blobs
    ensures blobs[i] == Info(data[..], w, h, old(blobs[i]))
    ensures forall j :: 0 <= j < blobs.Length && j != i ==> blobs[j] == old(blobs[j])
  {
    ghost var s, b0 := data[..], blobs[i];
    ghost var p0 := blobs[i].perimeter;
    var xmin, ymin, xmax, ymax := w - 1, h - 1, 0, 0;
    var sumx, sumy := 0, 0;
    blobs[i] := blobs[i].(area := 0);
    var y := 1;
    while y < h - 1
      invariant 1 <= y && (y <= h - 1 || y == 1)
      invariant Tally(blobs[i].area, sumx, sumy, xmin, ymin, xmax, ymax, blobs[i].perimeter - p0) ==
        TallyRows(s, w, h, b0.lbl, y)
      invariant blobs[i] == b0.(area := blobs[i].area, perimeter := blobs[i].perimeter)
      invariant forall j :: 0 <= j < blobs.Length && j != i ==> blobs[j] == old(blobs[j])
    {
      xmin, ymin, xmax, ymax, sumx, sumy := MeasureRow(data, w, h, blobs, i, y, p0, xmin, ymin, xmax, ymax, sumx, sumy);
      y := y + 1;
    }
    var area := Max(blobs[i].area, 1);
    blobs[i] := blobs[i].(x := xmin, y := ymin, width := (xmax - xmin) + 1, height := (ymax - ymin) + 1);
    blobs[i] := blobs[i].(xc := CDiv(sumx, area), yc := CDiv(sumy, area));
  }

  /** vc_binary_blob_info: fails, changing nothing, on an empty or
      multi-channel image; otherwise measures blobs 0 .. nblobs-1. */
  method BlobInfo(src: Image, blobs: array<Blob>, nblobs: int) returns (ok: bool)
    requires src.Valid() && nblobs <= blobs.Length
    modifies blobs
    ensures ok <==> src.width > 0 && src.height > 0 && src.channels == 1
    ensures ok ==> forall i :: 0 <= i < blobs.Length ==>
      blobs[i] == if i < nblobs then Info(src.data[..], src.width, src.height, old(blobs[i])) else old(blobs[i])
    ensures !ok ==> blobs[..] == old(blobs[..])
  {
    if src.width <= 0 || src.height <= 0 {
      return false;
    }
    if src.channels != 1 {
      return false;
    }
    assert src.data.Length == src.width * src.height;
    var i := 0;
    while i < nblobs
      invariant 0 <= i && (i <= nblobs || i == 0)
      invariant forall j :: 0 <= j < blobs.Length ==>
        blobs[j] == if j < i then Info(src.data[..], src.width, src.height, old(blobs[j])) else old(blobs[j])
    {
      Measure(src.data, src.width, src.height, blobs, i);
      i := i + 1;
    }
    return true;
  }

  // ---------------------------------------------------------------------
  // What the scan computes

  /** The interior pixels before flat offset k that carry label lbl. */
  ghost function Labelled(s: seq<byte>, w: int, h: int, lbl: int, k: int): set<int>
  {
    set p | 0 <= p < k && p < |s| && w > 0 && Grid.Interior(w, h, p) && s[p] == lbl
  }

  /** The area counts the pixels before k that carry the label, and at
      most that many were on the boundary. */
  ghost predicate Counted(s: seq<byte>, w: int, h: int, lbl: int, k: int, t: Tally)
  {
    t.area == |Labelled(s, w, h, lbl, k)| && 0 <= t.edge <= t.area
  }

  /** The box holds every pixel before k that carries the label. */
  ghost predicate Boxed(s: seq<byte>, w: int, h: int, lbl: int, k: int, t: Tally)
    requires w > 0
  {
    forall p :: p in Labelled(s, w, h, lbl, k) ==> t.xmin <= p % w <= t.xmax && t.ymin <= p / w <= t.ymax
  }

  /** Before the first hit nothing has moved from the start; after it, the
      sums lie between the area times the box's lower and upper bounds. */
  predicate Summed(w: int, h: int, t: Tally)
  {
    t.area >= 0 && t.sumx >= 0 && t.sumy >= 0 &&
    (t.area == 0 ==> t == Start(w, h)) &&
    (t.area > 0 ==> t.area * t.xmin <= t.sumx <= t.area * t.xmax && t.area * t.ymin <= t.sumy <= t.area * t.ymax)
  }

  /** The labelled pixel at offset p has a left, right, upper or lower
      neighbour without the label. */
  ghost predicate Boundary(s: seq<byte>, w: int, lbl: int, p: int)
  {
    1 <= w && w + 1 <= p && p + w < |s| && OnBoundary(s, w, p, lbl)
  }

  /** The pixels of S on the boundary of their blob. */
  ghost function Edges(s: seq<byte>, w: int, lbl: int, S: set<int>): set<int>
  {
    set p | p in S && Boundary(s, w, lbl, p)
  }

  /** The sum of the columns of the interior pixels before offset k that
      carry the label. */
  ghost function ColumnSum(s: seq<byte>, w: int, h: int, lbl: int, k: int): int
    decreases k
  {
    if k <= 0 || w <= 0 then 0
    else
      var hit := k - 1 < |s| && Grid.Interior(w, h, k - 1) && s[k - 1] == lbl;
      ColumnSum(s, w, h, lbl, k - 1) + (if hit then (k - 1) % w else 0)
  }

  /** The sum of the rows of the interior pixels before offset k that carry
      the label. */
  ghost function RowSum(s: seq<byte>, w: int, h: int, lbl: int, k: int): int
    decreases k
  {
    if k <= 0 || w <= 0 then 0
    else
      var hit := k - 1 < |s| && Grid.Interior(w, h, k - 1) && s[k - 1] == lbl;
      RowSum(s, w, h, lbl, k - 1) + (if hit then (k - 1) / w else 0)
  }

  /** The boundary count and the coordinate sums are those of the pixels
      before k that carry the label. */
  ghost predicate Totals(s: seq<byte>, w: int, h: int, lbl: int, k: int, t: Tally)
  {
    t.edge == |Edges(s, w, lbl, Labelled(s, w, h, lbl, k))| &&
    t.sumx == ColumnSum(s, w, h, lbl, k) && t.sumy == RowSum(s, w, h, lbl, k)
  }

  /** Some pixel of S lies in column x. */
  ghost predicate HasColumn(S: set<int>, w: int, x: int)
    requires w > 0
  {
    exists p :: p in S && p % w == x
  }

  /** Some pixel of S lies in row y. */
  ghost predicate HasRow(S: set<int>, w: int, y: int)
    requires w > 0
  {
    exists p :: p in S && p / w == y
  }

  /** Once a pixel carrying the label is seen, each side of the box passes
      through one of the pixels seen. */
  ghost predicate Tight(s: seq<byte>, w: int, h: int, lbl: int, k: int, t: Tally)
    requires w > 0
  {
    var hits := Labelled(s, w, h, lbl, k);
    t.area > 0 ==>
      HasColumn(hits, w, t.xmin) && HasColumn(hits, w, t.xmax) && HasRow(hits, w, t.ymin) && HasRow(hits, w, t.ymax)
  }

  /** The running values t are right for the pixels before k. */
  ghost predicate Sound(s: seq<byte>, w: int, h: int, lbl: int, k: int, t: Tally)
    requires w > 0
  {
    Counted(s, w, h, lbl, k, t) && Boxed(s, w, h, lbl, k, t) && Summed(w, h, t) &&
    Totals(s, w, h, lbl, k, t) && Tight(s, w, h, lbl, k, t)
  }

  /** Offsets with no interior pixel between them add nothing. */
  lemma LabelledSame(s: seq<byte>, w: int, h: int, lbl: int, k: int, k2: int)
    requires w > 0 && k <= k2
    requires forall p :: k <= p < k2 && 0 <= p < w * h ==> !Grid.Interior(w, h, p)
    ensures Labelled(s, w, h, lbl, k) == Labelled(s, w, h, lbl, k2)
  {
  }

  /** Offsets with no interior pixel between them add nothing to the sums. */
  lemma {:induction false} SumsSame(s: seq<byte>, w: int, h: int, lbl: int, k: int, k2: int)
    requires w > 0 && k <= k2
    requires forall p :: k <= p < k2 && 0 <= p < w * h ==> !Grid.Interior(w, h, p)
    ensures ColumnSum(s, w, h, lbl, k) == ColumnSum(s, w, h, lbl, k2)
    ensures RowSum(s, w, h, lbl, k) == RowSum(s, w, h, lbl, k2)
    decreases k2 - k
  {
    if k < k2 {
      SumsSame(s, w, h, lbl, k, k2 - 1);
    }
  }

  /** One more offset adds at most that pixel. */
  lemma LabelledStep(s: seq<byte>, w: int, h: int, lbl: int, k: int)
    requires w > 0 && 0 <= k < |s|
    ensures k !in Labelled(s, w, h, lbl, k)
    ensures Labelled(s, w, h, lbl, k + 1) ==
      Labelled(s, w, h, lbl, k) + if Grid.Interior(w, h, k) && s[k] == lbl then {k} else {}
  {
  }

  /** Pixel (x, y) off the border is interior, at flat offset y * w + x. */
  lemma InteriorAt(w: int, h: int, x: int, y: int)
    requires 1 <= x < w - 1 && 1 <= y < h - 1
    ensures Grid.Interior(w, h, y * w + x) && (y * w + x) % w == x && (y * w + x) / w == y
  {
    PixelBounds(w, h, x, y);
    Grid.Coord(w, x, y);
  }

  /** The update of one sum and its bounds when value v is added to the n
      values so far. */
  lemma SumStep(n: int, lo: int, hi: int, sum: int, v: int)
    requires n >= 0 && (n > 0 ==> n * lo <= sum <= n * hi) && (n == 0 ==> sum == 0 && lo >= v && hi <= v)
    ensures (n + 1) * (if lo > v then v else lo) <= sum + v <= (n + 1) * (if hi < v then v else hi)
  {
    var lo', hi' := if lo > v then v else lo, if hi < v then v else hi;
    if n > 0 {
      Grid.MulMono(lo', lo, n);
      Grid.MulMono(hi, hi', n);
    }
  }

  lemma VisitCounted(s: seq<byte>, w: int, h: int, lbl: int, x: int, y: int, t: Tally)
    requires |s| == w * h && 1 <= x < w - 1 && 1 <= y < h - 1
    requires Counted(s, w, h, lbl, y * w + x, t)
    ensures Counted(s, w, h, lbl, y * w + x + 1, Visit(s, w, h, lbl, x, y, t))
  {
    InteriorAt(w, h, x, y);
    LabelledStep(s, w, h, lbl, y * w + x);
  }

  lemma VisitBoxed(s: seq<byte>, w: int, h: int, lbl: int, x: int, y: int, t: Tally)
    requires |s| == w * h && 1 <= x < w - 1 && 1 <= y < h - 1
    requires Boxed(s, w, h, lbl, y * w + x, t)
    ensures Boxed(s, w, h, lbl, y * w + x + 1, Visit(s, w, h, lbl, x, y, t))
  {
    InteriorAt(w, h, x, y);
    LabelledStep(s, w, h, lbl, y * w + x);
  }

  lemma VisitSummed(s: seq<byte>, w: int, h: int, lbl: int, x: int, y: int, t: Tally)
    requires |s| == w * h && 1 <= x < w - 1 && 1 <= y < h - 1
    requires Summed(w, h, t)
    ensures Summed(w, h, Visit(s, w, h, lbl, x, y, t))
  {
    SumStep(t.area, t.xmin, t.xmax, t.sumx, x);
    SumStep(t.area, t.ymin, t.ymax, t.sumy, y);
  }

  /** Adding pixel p to S adds it to the boundary pixels exactly when it is
      on the boundary. */
  lemma EdgesAdd(s: seq<byte>, w: int, lbl: int, S: set<int>, p: int)
    requires p !in S
    ensures Edges(s, w, lbl, S + {p}) == Edges(s, w, lbl, S) + if Boundary(s, w, lbl, p) then {p} else {}
    ensures |Edges(s, w, lbl, S + {p})| == |Edges(s, w, lbl, S)| + if Boundary(s, w, lbl, p) then 1 else 0
  {
    assert p !in Edges(s, w, lbl, S);
  }

  lemma VisitTotals(s: seq<byte>, w: int, h: int, lbl: int, x: int, y: int, t: Tally)
    requires |s| == w * h && 1 <= x < w - 1 && 1 <= y < h - 1
    requires Totals(s, w, h, lbl, y * w + x, t)
    ensures Totals(s, w, h, lbl, y * w + x + 1, Visit(s, w, h, lbl, x, y, t))
  {
    var k := y * w + x;
    InteriorAt(w, h, x, y);
    PixelBounds(w, h, x, y);
    LabelledStep(s, w, h, lbl, k);
    if s[k] == lbl {
      EdgesAdd(s, w, lbl, Labelled(s, w, h, lbl, k), k);
    }
  }

  /** A larger set keeps the witnesses of a smaller one. */
  lemma Witnesses(S: set<int>, S': set<int>, w: int, x: int, y: int)
    requires w > 0 && S <= S'
    ensures HasColumn(S, w, x) ==> HasColumn(S', w, x)
    ensures HasRow(S, w, y) ==> HasRow(S', w, y)
  {
    if HasColumn(S, w, x) {
      var p :| p in S && p % w == x;
      assert p in S';
    }
    if HasRow(S, w, y) {
      var p :| p in S && p / w == y;
      assert p in S';
    }
  }

  lemma VisitTight(s: seq<byte>, w: int, h: int, lbl: int, x: int, y: int, t: Tally)
    requires |s| == w * h && 1 <= x < w - 1 && 1 <= y < h - 1
    requires Summed(w, h, t) && Tight(s, w, h, lbl, y * w + x, t)
    ensures Tight(s, w, h, lbl, y * w + x + 1, Visit(s, w, h, lbl, x, y, t))
  {
    var k := y * w + x;
    InteriorAt(w, h, x, y);
    LabelledStep(s, w, h, lbl, k);
    var hits, hits' := Labelled(s, w, h, lbl, k), Labelled(s, w, h, lbl, k + 1);
    if s[k] == lbl {
      assert k in hits';
      assert HasColumn(hits', w, x) && HasRow(hits', w, y);
      Witnesses(hits, hits', w, t.xmin, t.ymin);
      Witnesses(hits, hits', w, t.xmax, t.ymax);
    }
  }

  /** The x loop body keeps the running values right. */
  lemma VisitSound(s: seq<byte>, w: int, h: int, lbl: int, x: int, y: int, t: Tally)
    requires |s| == w * h && 1 <= x < w - 1 && 1 <= y < h - 1
    requires Sound(s, w, h, lbl, y * w + x, t)
    ensures Sound(s, w, h, lbl, y * w + x + 1, Visit(s, w, h, lbl, x, y, t))
  {
    VisitCounted(s, w, h, lbl, x, y, t);
    VisitBoxed(s, w, h, lbl, x, y, t);
    VisitSummed(s, w, h, lbl, x, y, t);
    VisitTotals(s, w, h, lbl, x, y, t);
    VisitTight(s, w, h, lbl, x, y, t);
  }

  /** The x loop over a row keeps the running values right. */
  lemma {:induction false} TallyRowSound(s: seq<byte>, w: int, h: int, lbl: int, y: int, x: int, t: Tally)
    requires |s| == w * h && 1 <= y < h - 1 && 1 <= x <= w - 1
    requires Sound(s, w, h, lbl, y * w + 1, t)
    ensures Sound(s, w, h, lbl, y * w + x, TallyRow(s, w, h, lbl, y, x, t))
    decreases x
  {
    if x > 1 {
      TallyRowSound(s, w, h, lbl, y, x - 1, t);
      VisitSound(s, w, h, lbl, x - 1, y, TallyRow(s, w, h, lbl, y, x - 1, t));
    }
  }

  /** Row y's last pixel and row y+1's first are not interior. */
  lemma RowGap(w: int, h: int, y: int)
    requires w >= 2 && y >= 0
    ensures forall p :: y * w + w - 1 <= p < (y + 1) * w + 1 && 0 <= p < w * h ==> !Grid.Interior(w, h, p)
  {
    Grid.Coord(w, w - 1, y);
    Grid.Coord(w, 0, y + 1);
    Grid.NextRow(w, y);
  }

  /** The y loop keeps the running values right. */
  lemma {:induction false} TallyRowsSound(s: seq<byte>, w: int, h: int, lbl: int, y: int)
    requires |s| == w * h && w >= 2 && 1 <= y <= h - 1
    ensures Sound(s, w, h, lbl, y * w + 1, TallyRows(s, w, h, lbl, y))
    decreases y
  {
    if y == 1 {
      StartSound(s, w, h, lbl);
    } else {
      TallyRowsSound(s, w, h, lbl, y - 1);
      var t := TallyRows(s, w, h, lbl, y - 1);
      TallyRowSound(s, w, h, lbl, y - 1, w - 1, t);
      NextRowSound(s, w, h, lbl, y - 1, TallyRow(s, w, h, lbl, y - 1, w - 1, t));
    }
  }

  /** Before the scan the start values are right. */
  lemma StartSound(s: seq<byte>, w: int, h: int, lbl: int)
    requires w >= 2
    ensures Sound(s, w, h, lbl, w + 1, Start(w, h))
  {
    FirstRowEmpty(s, w, h, lbl);
  }

  /** Running values right at the end of row y's interior are right at the
      start of row y+1's. */
  lemma NextRowSound(s: seq<byte>, w: int, h: int, lbl: int, y: int, t: Tally)
    requires w >= 2 && y >= 0
    requires Sound(s, w, h, lbl, y * w + w - 1, t)
    ensures Sound(s, w, h, lbl, (y + 1) * w + 1, t)
  {
    RowGapSame(s, w, h, lbl, y);
    SoundSame(s, w, h, lbl, y * w + w - 1, (y + 1) * w + 1, t);
  }

  /** Nothing before the second pixel of row 1 is interior. */
  lemma FirstRowEmpty(s: seq<byte>, w: int, h: int, lbl: int)
    requires w >= 2
    ensures Labelled(s, w, h, lbl, w + 1) == {}
    ensures ColumnSum(s, w, h, lbl, w + 1) == 0 && RowSum(s, w, h, lbl, w + 1) == 0
  {
    RowGap(w, h, 0);
    forall p | 0 <= p < w && p < w * h
      ensures !Grid.Interior(w, h, p)
    {
      Grid.Coord(w, p, 0);
    }
    LabelledSame(s, w, h, lbl, 0, w + 1);
    SumsSame(s, w, h, lbl, 0, w + 1);
  }

  /** Passing from the end of row y's interior to the start of row y+1's
      adds nothing. */
  lemma RowGapSame(s: seq<byte>, w: int, h: int, lbl: int, y: int)
    requires w >= 2 && y >= 0
    ensures Labelled(s, w, h, lbl, y * w + w - 1) == Labelled(s, w, h, lbl, (y + 1) * w + 1)
    ensures ColumnSum(s, w, h, lbl, y * w + w - 1) == ColumnSum(s, w, h, lbl, (y + 1) * w + 1)
    ensures RowSum(s, w, h, lbl, y * w + w - 1) == RowSum(s, w, h, lbl, (y + 1) * w + 1)
  {
    RowGap(w, h, y);
    LabelledSame(s, w, h, lbl, y * w + w - 1, (y + 1) * w + 1);
    SumsSame(s, w, h, lbl, y * w + w - 1, (y + 1) * w + 1);
  }

  /** Nothing from the start of the last row on is interior. */
  lemma LastRowNotInterior(w: int, h: int)
    requires w > 0 && h >= 1
    ensures forall p :: (h - 1) * w <= p < w * h ==> !Grid.Interior(w, h, p)
  {
    forall p | (h - 1) * w <= p < w * h
      ensures !Grid.Interior(w, h, p)
    {
      Grid.FromFlat(w, h, p);
      if p / w < h - 1 {
        Grid.MulMono(p / w + 1, h - 1, w);
      }
    }
  }

  /** A plane less than three pixels wide or high has no interior. */
  lemma NoInterior(w: int, h: int)
    requires w > 0 && (w <= 2 || h <= 2)
    ensures forall p :: 0 <= p < w * h ==> !Grid.Interior(w, h, p)
  {
  }

  /** Sound depends on the offset only through the pixels it covers. */
  lemma SoundSame(s: seq<byte>, w: int, h: int, lbl: int, k: int, k2: int, t: Tally)
    requires w > 0 && Labelled(s, w, h, lbl, k) == Labelled(s, w, h, lbl, k2)
    requires ColumnSum(s, w, h, lbl, k) == ColumnSum(s, w, h, lbl, k2)
    requires RowSum(s, w, h, lbl, k) == RowSum(s, w, h, lbl, k2)
    requires Sound(s, w, h, lbl, k, t)
    ensures Sound(s, w, h, lbl, k2, t)
  {
  }

  /** The scan of one blob gets the running values right for the whole
      plane. */
  lemma ScanSound(s: seq<byte>, w: int, h: int, lbl: int)
    requires |s| == w * h && w > 0 && h > 0
    ensures Sound(s, w, h, lbl, |s|, TallyRows(s, w, h, lbl, h - 1))
  {
    if w >= 3 && h >= 3 {
      ScanSoundWide(s, w, h, lbl);
    } else {
      ScanSoundNarrow(s, w, h, lbl);
    }
  }

  /** ScanSound on a plane with an interior. */
  lemma ScanSoundWide(s: seq<byte>, w: int, h: int, lbl: int)
    requires |s| == w * h && w >= 3 && h >= 3
    ensures Sound(s, w, h, lbl, |s|, TallyRows(s, w, h, lbl, h - 1))
  {
    TallyRowsSound(s, w, h, lbl, h - 1);
    var k := (h - 1) * w + 1;
    Grid.NextRow(w, h - 1);
    assert k <= |s|;
    LastRowNotInterior(w, h);
    LabelledSame(s, w, h, lbl, k, |s|);
    SumsSame(s, w, h, lbl, k, |s|);
    SoundSame(s, w, h, lbl, k, |s|, TallyRows(s, w, h, lbl, h - 1));
  }

  /** ScanSound on a plane without an interior: nothing moves. */
  lemma ScanSoundNarrow(s: seq<byte>, w: int, h: int, lbl: int)
    requires |s| == w * h && w > 0 && h > 0 && (w <= 2 || h <= 2)
    ensures Sound(s, w, h, lbl, |s|, TallyRows(s, w, h, lbl, h - 1))
  {
    NoInterior(w, h);
    LabelledSame(s, w, h, lbl, 0, |s|);
    SumsSame(s, w, h, lbl, 0, |s|);
    assert Labelled(s, w, h, lbl, 0) == {};
    if w <= 2 {
      TallyRowsEmpty(s, w, h, lbl, h - 1);
    }
    assert TallyRows(s, w, h, lbl, h - 1) == Start(w, h);
  }

  /** On a plane one or two pixels wide the x loop never runs. */
  lemma {:induction false} TallyRowsEmpty(s: seq<byte>, w: int, h: int, lbl: int, y: int)
    requires |s| == w * h && w <= 2 && (y <= h - 1 || y == 1)
    ensures TallyRows(s, w, h, lbl, y) == Start(w, h)
    decreases y
  {
    if y > 1 {
      TallyRowsEmpty(s, w, h, lbl, y - 1);
    }
  }

  /** The stores after the scan, from right running values. */
  lemma FinishOutcome(b: Blob, w: int, h: int, t: Tally)
    requires Summed(w, h, t)
    ensures var r := Finish(b, t);
      r.lbl == b.lbl && r.area == t.area && r.perimeter == b.perimeter + t.edge &&
      r.x == t.xmin && r.x + r.width == t.xmax + 1 && r.y == t.ymin && r.y + r.height == t.ymax + 1 &&
      (t.area > 0 ==> r.x <= r.xc < r.x + r.width && r.y <= r.yc < r.y + r.height) &&
      (t.area == 0 ==> r.x == w - 1 && r.y == h - 1 && r.width == 2 - w && r.height == 2 - h && r.xc == 0 && r.yc == 0)
  {
    if t.area > 0 {
      CentroidIn(t.sumx, t.area, t.xmin, t.xmax);
      CentroidIn(t.sumy, t.area, t.ymin, t.ymax);
    }
  }

  /** The truncated mean of n values lies between their bounds. */
  lemma CentroidIn(sum: int, n: int, lo: int, hi: int)
    requires n > 0 && sum >= 0 && n * lo <= sum <= n * hi
    ensures lo <= CDiv(sum, Max(n, 1)) <= hi
  {
    Samples.DivBetween(sum, n, lo, hi);
  }

  /** What vc_binary_blob_info stores for a blob: its area is the number of
      interior pixels carrying its label, its box holds all of them, a
      non-empty blob's centroid lies in its box, an empty blob gets the
      start box and centroid (0, 0), and the perimeter grows by at most the
      area. InfoBox, InfoCentroid and InfoPerimeter pin those values down. */
  lemma InfoOutcome(s: seq<byte>, w: int, h: int, b: Blob)
    requires |s| == w * h && w > 0 && h > 0
    ensures var r, hits := Info(s, w, h, b), Labelled(s, w, h, b.lbl, |s|);
      r.lbl == b.lbl && r.area == |hits| &&
      (forall p :: p in hits ==> r.x <= p % w < r.x + r.width && r.y <= p / w < r.y + r.height) &&
      (r.area > 0 ==> r.x <= r.xc < r.x + r.width && r.y <= r.yc < r.y + r.height) &&
      (r.area == 0 ==> r.x == w - 1 && r.y == h - 1 && r.width == 2 - w && r.height == 2 - h && r.xc == 0 && r.yc == 0) &&
      b.perimeter <= r.perimeter <= b.perimeter + r.area
  {
    var t := TallyRows(s, w, h, b.lbl, h - 1);
    ScanSound(s, w, h, b.lbl);
    FinishOutcome(b, w, h, t);
  }

  /** A non-empty blob's box is tight: each of its four sides passes
      through an interior pixel carrying the label, so with InfoOutcome the
      box is the minimum and maximum column and row of those pixels. */
  lemma InfoBox(s: seq<byte>, w: int, h: int, b: Blob)
    requires |s| == w * h && w > 0 && h > 0
    ensures var r, hits := Info(s, w, h, b), Labelled(s, w, h, b.lbl, |s|);
      r.area > 0 ==>
        HasColumn(hits, w, r.x) && HasColumn(hits, w, r.x + r.width - 1) &&
        HasRow(hits, w, r.y) && HasRow(hits, w, r.y + r.height - 1)
  {
    var t := TallyRows(s, w, h, b.lbl, h - 1);
    ScanSound(s, w, h, b.lbl);
    FinishOutcome(b, w, h, t);
  }

  /** The centroid is the sum of the columns (rows) of the blob's interior
      pixels divided, truncating, by their number, or by 1 when there are
      none. */
  lemma InfoCentroid(s: seq<byte>, w: int, h: int, b: Blob)
    requires |s| == w * h && w > 0 && h > 0
    ensures var r, hits := Info(s, w, h, b), Labelled(s, w, h, b.lbl, |s|);
      r.xc == CDiv(ColumnSum(s, w, h, b.lbl, |s|), Max(|hits|, 1)) &&
      r.yc == CDiv(RowSum(s, w, h, b.lbl, |s|), Max(|hits|, 1))
  {
    ScanSound(s, w, h, b.lbl);
  }

  /** The perimeter grows by the number of the blob's interior pixels that
      have a left, right, upper or lower neighbour without the label. */
  lemma InfoPerimeter(s: seq<byte>, w: int, h: int, b: Blob)
    requires |s| == w * h && w > 0 && h > 0
    ensures var r, hits := Info(s, w, h, b), Labelled(s, w, h, b.lbl, |s|);
      r.perimeter == b.perimeter + |Edges(s, w, b.lbl, hits)|
  {
    ScanSound(s, w, h, b.lbl);
  }
}
