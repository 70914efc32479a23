/** vc_binary_blob_labelling: connected-component labelling of a binary mask
    with 8-connectivity. The mask is copied to dst, normalised to 0/255 and
    its border cleared; a raster pass gives each foreground pixel the
    smallest class among its up-left, up, up-right and left neighbours (or a
    fresh label) and merges their classes in the equivalence table; a second
    pass replaces every provisional label by its representative; the table
    is then reduced to the distinct representatives, one blob each. */
module Labelling {

  import opened VcTypes
  import opened LabelTable
  import Grid

  /** The normalisation of the copied mask: nonzero becomes 255. */
  function Marked(v: byte): (r: byte)
    ensures r == 0 <==> v == 0
  {
    if v != 0 then 255 else 0
  }

  /** Column 0 or column w-1. */
  predicate IsSide(w: int, p: int)
    requires w > 0
  {
    p % w == 0 || p % w == w - 1
  }

  /** A pixel that the labelling treats as foreground: nonzero in the mask
      and off the image border. */
  ghost predicate Foreground(s: seq<byte>, w: int, h: int, p: int)
    requires w > 0 && 0 <= p < |s|
  {
    Grid.Interior(w, h, p) && s[p] != 0
  }

  /** The plane the raster pass starts from. */
  ghost function Prepared(s: seq<byte>, w: int, h: int): (r: seq<byte>)
    requires w > 0
    ensures |r| == |s|
  {
    seq(|s|, p requires 0 <= p < |s| => if Foreground(s, w, h, p) then 255 else 0)
  }

  // ---------------------------------------------------------------------
  // The three preparation loops

  /** memcpy(datadst, datasrc, n). */
  method Copy(datasrc: array<byte>, datadst: array<byte>, n: int)
    requires 0 <= n <= datasrc.Length && n <= datadst.Length && datasrc != datadst
    modifies datadst
    ensures forall p :: 0 <= p < n ==> datadst[p] == datasrc[p]
    ensures forall p :: n <= p < datadst.Length ==> datadst[p] == old(datadst[p])
  {
    var i := 0;
    while i < n
      invariant 0 <= i <= n
      invariant forall p :: 0 <= p < i ==> datadst[p] == datasrc[p]
      invariant forall p :: i <= p < datadst.Length ==> datadst[p] == old(datadst[p])
    {
      datadst[i] := datasrc[i];
      i := i + 1;
    }
  }

  /** Every nonzero sample of the first n becomes 255. */
  method Normalise(data: array<byte>, n: int)
    requires 0 <= n <= data.Length
    modifies data
    ensures forall p :: 0 <= p < n ==> data[p] == Marked(old(data[p]))
    ensures forall p :: n <= p < data.Length ==> data[p] == old(data[p])
  {
    var i := 0;
    while i < n
      invariant 0 <= i <= n
      invariant forall p :: 0 <= p < i ==> data[p] == Marked(old(data[p]))
      invariant forall p :: i <= p < data.Length ==> data[p] == old(data[p])
    {
      if data[i] != 0 {
        data[i] := 255;
      }
      i := i + 1;
    }
  }

  /** In row y (starting at start), exactly the first and the last sample
      lie on a side column. */
  lemma SideRow(w: int, y: int, start: int)
    requires w > 0 && start == y * w
    ensures forall p :: start <= p < start + w ==> (IsSide(w, p) <==> p == start || p == start + w - 1)
  {
    forall p | start <= p < start + w
      ensures IsSide(w, p) <==> p == start || p == start + w - 1
    {
      Grid.Coord(w, p - start, y);
    }
  }

  /** The loop over rows that clears columns 0 and w-1. */
  method ClearSides(data: array<byte>, w: int, h: int)
    requires w > 0 && 0 <= h && data.Length == w * h
    modifies data
    ensures forall p :: 0 <= p < data.Length ==> data[p] == if IsSide(w, p) then 0 else old(data[p])
  {
    ghost var start := 0;
    var y := 0;
    while y < h
      invariant 0 <= y <= h && start == y * w && 0 <= start <= data.Length
      invariant forall p :: 0 <= p < data.Length ==>
        data[p] == if p < start && IsSide(w, p) then 0 else old(data[p])
    {
      Grid.MulMono(y + 1, h, w);
      SideRow(w, y, start);
      data[y * w + 0] := 0;
      data[y * w + (w - 1)] := 0;
      Grid.NextRow(w, y);
      y := y + 1;
      start := start + w;
    }
  }

  /** The loop over columns that clears rows 0 and h-1. */
  method ClearEdges(data: array<byte>, w: int, h: int, ghost last: int)
    requires w > 0 && h > 0 && data.Length == w * h && last == (h - 1) * w
    modifies data
    ensures 0 <= last && last + w == data.Length
    ensures forall p :: 0 <= p < data.Length ==> data[p] == if p < w || last <= p then 0 else old(data[p])
  {
    Grid.ProductNonNegative(h - 1, w);
    Grid.NextRow(w, h - 1);
    var x := 0;
    while x < w
      invariant 0 <= x <= w
      invariant forall p :: 0 <= p < data.Length ==>
        data[p] == if p < x || last <= p < last + x then 0 else old(data[p])
    {
      data[0 * w + x] := 0;
      data[(h - 1) * w + x] := 0;
      x := x + 1;
    }
  }

  /** A flat index is interior exactly when it is off the first and the last
      row and off the two side columns. */
  lemma InteriorFlat(w: int, h: int, p: int)
    requires w > 0 && 0 <= p < w * h
    ensures Grid.Interior(w, h, p) <==> w <= p < (h - 1) * w && !IsSide(w, p)
  {
    Grid.FromFlat(w, h, p);
    var x, y := p % w, p / w;
    if y >= 1 {
      Grid.MulMono(1, y, w);
    }
    if y < h - 1 {
      Grid.MulMono(y, h - 2, w);
      assert (h - 2) * w + w == (h - 1) * w;
    } else {
      Grid.MulMono(h - 1, y, w);
    }
  }

  /** The three loops together produce the prepared plane. */
  method Prepare(datasrc: array<byte>, datadst: array<byte>, w: int, h: int)
    requires datasrc != datadst && w > 0 && h > 0
    requires datasrc.Length == w * h && datadst.Length == w * h
    modifies datadst
    ensures datadst[..] == Prepared(datasrc[..], w, h)
  {
    Copy(datasrc, datadst, w * h);
    Normalise(datadst, w * h);
    ClearSides(datadst, w, h);
    ghost var last := (h - 1) * w;
    ClearEdges(datadst, w, h, last);
    forall p | 0 <= p < w * h
      ensures datadst[p] == Prepared(datasrc[..], w, h)[p]
    {
      InteriorFlat(w, h, p);
    }
  }

  // ---------------------------------------------------------------------
  // The raster pass

  /** Pixel p of the prepared plane opens a new label: it is foreground and
      its up-left, up, up-right and left neighbours are not. */
  ghost predicate Opens(d0: seq<byte>, w: int, p: int)
  {
    1 <= w && w + 1 <= p < |d0| && d0[p] != 0 &&
    d0[p - w - 1] == 0 && d0[p - w] == 0 && d0[p - w + 1] == 0 && d0[p - 1] == 0
  }

  /** How many pixels before k open a new label. */
  ghost function OpenedBefore(d0: seq<byte>, w: int, k: int): (r: int)
    ensures r >= 0
    decreases k
  {
    if k <= 0 then 0 else OpenedBefore(d0, w, k - 1) + (if Opens(d0, w, k - 1) then 1 else 0)
  }

  /** How many labels the raster pass hands out for mask s. */
  ghost function NewLabels(s: seq<byte>, w: int, h: int): int
    requires w > 0
  {
    OpenedBefore(Prepared(s, w, h), w, |s|)
  }

  lemma {:induction false} OpenedMono(d0: seq<byte>, w: int, k1: int, k2: int)
    requires k1 <= k2
    ensures OpenedBefore(d0, w, k1) <= OpenedBefore(d0, w, k2)
    decreases k2 - k1
  {
    if k1 < k2 {
      OpenedMono(d0, w, k1, k2 - 1);
    }
  }

  /** Background pixels open nothing. */
  lemma {:induction false} OpenedFlat(d0: seq<byte>, w: int, k1: int, k2: int)
    requires k1 <= k2 && forall p :: 0 <= p && k1 <= p < k2 && p < |d0| ==> d0[p] == 0
    ensures OpenedBefore(d0, w, k1) == OpenedBefore(d0, w, k2)
    decreases k2 - k1
  {
    if k1 < k2 {
      OpenedFlat(d0, w, k1, k2 - 1);
    }
  }

  /** No pixel of the first row, nor the first pixel of the second, has the
      four neighbours a new label is judged by. */
  lemma {:induction false} OpenedNoneBefore(d0: seq<byte>, w: int, k: int)
    requires k <= w + 1
    ensures OpenedBefore(d0, w, k) == 0
    decreases k
  {
    if k > 0 {
      OpenedNoneBefore(d0, w, k - 1);
    }
  }

  /** A pixel the raster pass has been over: a foreground pixel holds a
      provisional label handed out so far, a background one 0. */
  ghost predicate Visited(d0: seq<byte>, d: seq<byte>, next: int, p: int)
  {
    0 <= p < |d0| == |d| && (if d0[p] != 0 then 1 <= d[p] < next else d[p] == 0)
  }

  /** When q is foreground, p and q are in the same class of table t. */
  ghost predicate SameClass(d0: seq<byte>, d: seq<byte>, t: seq<int>, p: int, q: int)
  {
    0 <= q < |d0| && 0 <= p < |d0| && |d| == |d0| && |t| == 256 &&
    (d0[q] != 0 ==> t[d[p]] == t[d[q]])
  }

  /** A foreground pixel is in the class of each foreground neighbour among
      up-left, up, up-right and left. */
  ghost predicate Joined(d0: seq<byte>, d: seq<byte>, t: seq<int>, w: int, p: int)
  {
    0 <= p < |d0| &&
    (d0[p] != 0 && w + 1 <= p ==>
      SameClass(d0, d, t, p, p - w - 1) && SameClass(d0, d, t, p, p - w) &&
      SameClass(d0, d, t, p, p - w + 1) && SameClass(d0, d, t, p, p - 1))
  }

  /** The state of the raster pass before pixel k: the table invariant holds
      over the labels handed out, each of them was handed out at a pixel
      already visited that still holds it, the visited pixels are labelled
      and joined to their earlier neighbours, the rest of the plane is as
      prepared. */
  ghost predicate Scanned(d0: seq<byte>, d: seq<byte>, t: seq<int>, next: int, origin: seq<int>, w: int, k: int)
  {
    |d| == |d0| && TableOk(t, next) && |origin| == 256 && w > 0 && 0 <= k &&
    (forall a :: 1 <= a < next ==> 0 <= origin[a] < k && origin[a] < |d| && d[origin[a]] == a) &&
    (forall p :: 0 <= p < |d| && p < k ==> Visited(d0, d, next, p)) &&
    (forall p :: 0 <= p < |d| && p < k ==> Joined(d0, d, t, w, p)) &&
    (forall p :: k <= p < |d| ==> d[p] == d0[p])
  }

  /** Passing over background pixels changes nothing. */
  lemma SkipTo(d0: seq<byte>, d: seq<byte>, t: seq<int>, next: int, origin: seq<int>, w: int, k: int, k2: int)
    requires Scanned(d0, d, t, next, origin, w, k) && k <= k2
    requires forall p :: 0 <= p && k <= p < k2 && p < |d0| ==> d0[p] == 0
    ensures Scanned(d0, d, t, next, origin, w, k2)
    ensures OpenedBefore(d0, w, k) == OpenedBefore(d0, w, k2)
  {
    OpenedFlat(d0, w, k, k2);
    forall p | 0 <= p < |d| && p < k2
      ensures Visited(d0, d, next, p) && Joined(d0, d, t, w, p)
    {
      if k <= p {
        assert d[p] == d0[p] == 0;
      }
    }
  }

  /** A pass that has gone beyond the plane has been over all of it. */
  lemma ScannedAll(d0: seq<byte>, d: seq<byte>, t: seq<int>, next: int, origin: seq<int>, w: int, k: int)
    requires Scanned(d0, d, t, next, origin, w, k) && |d0| <= k
    ensures Scanned(d0, d, t, next, origin, w, |d0|)
    ensures OpenedBefore(d0, w, |d0|) == OpenedBefore(d0, w, k)
  {
    OpenedFlat(d0, w, |d0|, k);
  }

  /** A pixel that opens a new label. */
  lemma OpenStep(d0: seq<byte>, d: seq<byte>, t: seq<int>, next: int, origin: seq<int>, w: int, k: int)
    requires Scanned(d0, d, t, next, origin, w, k) && w >= 2 && next - 1 == OpenedBefore(d0, w, k)
    requires OpenedBefore(d0, w, |d0|) <= 255 && w + 1 <= k < |d0|
    requires d[k] != 0 && d[k - w - 1] == 0 && d[k - w] == 0 && d[k - w + 1] == 0 && d[k - 1] == 0
    ensures next <= 255
    ensures Scanned(d0, d[k := next], t[next := next], next + 1, origin[next := k], w, k + 1)
    ensures next == OpenedBefore(d0, w, k + 1)
  {
    assert Visited(d0, d, next, k - w - 1) && Visited(d0, d, next, k - w);
    assert Visited(d0, d, next, k - w + 1) && Visited(d0, d, next, k - 1);
    assert Opens(d0, w, k);
    OpenedMono(d0, w, k + 1, |d0|);
    var d', t', origin', next' := d[k := next], t[next := next], origin[next := k], next + 1;
    forall a | 1 <= a < next'
      ensures Entry(t', a)
    {
      if a < next {
        assert Entry(t, a);
      }
    }
    forall p | 0 <= p < |d'| && p < k + 1
      ensures Visited(d0, d', next', p) && Joined(d0, d', t', w, p)
    {
      if p < k {
        assert Visited(d0, d, next, p) && Joined(d0, d, t, w, p);
        if d0[p] != 0 && w + 1 <= p {
          assert Visited(d0, d, next, p - w - 1) && Visited(d0, d, next, p - w);
          assert Visited(d0, d, next, p - w + 1) && Visited(d0, d, next, p - 1);
        }
      }
    }
  }

  /** A merge keeps every visited pixel joined to its neighbours: classes
      only grow. */
  lemma JoinedSubst(d0: seq<byte>, d: seq<byte>, t: seq<int>, t': seq<int>, next: int, w: int, k: int,
                    tmp: int, num: int)
    requires |t| == 256 && |t'| == 256 && |d| == |d0| && 1 <= w && 1 <= next <= 256
    requires forall a :: 1 <= a < next ==> t'[a] == Subst(t[a], tmp, num)
    requires forall p :: 0 <= p < |d| && p < k ==> Visited(d0, d, next, p)
    requires forall p :: 0 <= p < |d| && p < k ==> Joined(d0, d, t, w, p)
    ensures forall p :: 0 <= p < |d| && p < k ==> Joined(d0, d, t', w, p)
  {
    forall p | 0 <= p < |d| && p < k
      ensures Joined(d0, d, t', w, p)
    {
      assert Joined(d0, d, t, w, p) && Visited(d0, d, next, p);
      if d0[p] != 0 && w + 1 <= p {
        assert Visited(d0, d, next, p - w - 1) && Visited(d0, d, next, p - w);
        assert Visited(d0, d, next, p - w + 1) && Visited(d0, d, next, p - 1);
      }
    }
  }

  /** One of the four merge blocks of the raster pass: when the neighbour
      holding provisional label `lab` is foreground and its class is not yet
      `num`, its class is absorbed into `num`. */
  method MergeNeighbour(labeltable: array<int>, next: int, lab: int, num: int,
                        ghost d0: seq<byte>, ghost d: seq<byte>, ghost w: int, ghost k: int)
    requires TableOk(labeltable[..], next) && 1 <= num < next && labeltable[num] == num
    requires lab != 0 ==> 1 <= lab < next && labeltable[lab] >= num
    requires |d| == |d0| && 1 <= w
    requires forall p :: 0 <= p < |d| && p < k ==> Visited(d0, d, next, p)
    requires forall p :: 0 <= p < |d| && p < k ==> Joined(d0, d, labeltable[..], w, p)
    modifies labeltable
    ensures TableOk(labeltable[..], next) && labeltable[num] == num
    ensures lab != 0 ==> labeltable[lab] == num
    ensures forall a :: 1 <= a < next && old(labeltable[a]) >= num ==> labeltable[a] >= num
    ensures forall a :: 1 <= a < next && old(labeltable[a]) == num ==> labeltable[a] == num
    ensures forall p :: 0 <= p < |d| && p < k ==> Joined(d0, d, labeltable[..], w, p)
  {
    if lab != 0 {
      if labeltable[lab] != num {
        ghost var t := labeltable[..];
        assert Entry(t, lab);
        var tmp := labeltable[lab];
        Union(labeltable, next, tmp, num);
        UnionOk(t, labeltable[..], next, tmp, num);
        JoinedSubst(d0, d, t, labeltable[..], next, w, k, tmp, num);
      }
    }
  }

  /** A neighbour's provisional label, 0 for background, whose class is
      not below num. */
  ghost predicate Mergeable(t: seq<int>, next: int, lab: int, num: int)
  {
    lab != 0 ==> 1 <= lab < next <= |t| && t[lab] >= num
  }

  /** A neighbour's provisional label, 0 for background, whose class is
      num. */
  ghost predicate Merged(t: seq<int>, lab: int, num: int)
  {
    lab != 0 ==> 0 <= lab < |t| && t[lab] == num
  }

  /** The four merge blocks, for the neighbours up-left, up, up-right and
      left, in that order. */
  method MergeNeighbours(labeltable: array<int>, next: int, labA: int, labB: int, labC: int, labD: int,
                         num: int, ghost d0: seq<byte>, ghost d: seq<byte>, ghost w: int, ghost k: int)
    requires TableOk(labeltable[..], next) && 1 <= num < next && labeltable[num] == num
    requires Mergeable(labeltable[..], next, labA, num) && Mergeable(labeltable[..], next, labB, num)
    requires Mergeable(labeltable[..], next, labC, num) && Mergeable(labeltable[..], next, labD, num)
    requires |d| == |d0| && 1 <= w
    requires forall p :: 0 <= p < |d| && p < k ==> Visited(d0, d, next, p)
    requires forall p :: 0 <= p < |d| && p < k ==> Joined(d0, d, labeltable[..], w, p)
    modifies labeltable
    ensures TableOk(labeltable[..], next) && labeltable[num] == num
    ensures Merged(labeltable[..], labA, num) && Merged(labeltable[..], labB, num)
    ensures Merged(labeltable[..], labC, num) && Merged(labeltable[..], labD, num)
    ensures forall p :: 0 <= p < |d| && p < k ==> Joined(d0, d, labeltable[..], w, p)
  {
    MergeNeighbour(labeltable, next, labA, num, d0, d, w, k);
    MergeNeighbour(labeltable, next, labB, num, d0, d, w, k);
    MergeNeighbour(labeltable, next, labC, num, d0, d, w, k);
    MergeNeighbour(labeltable, next, labD, num, d0, d, w, k);
  }

  /** The raster pass after a pixel that joins existing classes. */
  lemma MergeStep(d0: seq<byte>, d: seq<byte>, t: seq<int>, t1: seq<int>, next: int, origin: seq<int>,
                  w: int, k: int, num: int)
    requires Scanned(d0, d, t, next, origin, w, k) && w >= 2 && w + 1 <= k < |d0|
    requires d[k] != 0 && (d[k - w - 1] != 0 || d[k - w] != 0 || d[k - w + 1] != 0 || d[k - 1] != 0)
    requires TableOk(t1, next) && 1 <= num < next && t1[num] == num
    requires forall p :: 0 <= p < |d| && p < k ==> Joined(d0, d, t1, w, p)
    requires d[k - w - 1] != 0 ==> t1[d[k - w - 1]] == num
    requires d[k - w] != 0 ==> t1[d[k - w]] == num
    requires d[k - w + 1] != 0 ==> t1[d[k - w + 1]] == num
    requires d[k - 1] != 0 ==> t1[d[k - 1]] == num
    ensures Scanned(d0, d[k := num], t1, next, origin, w, k + 1)
    ensures OpenedBefore(d0, w, k) == OpenedBefore(d0, w, k + 1)
  {
    assert Visited(d0, d, next, k - w - 1) && Visited(d0, d, next, k - w);
    assert Visited(d0, d, next, k - w + 1) && Visited(d0, d, next, k - 1);
    assert !Opens(d0, w, k);
    var d' := d[k := num];
    forall p | 0 <= p < |d'| && p < k + 1
      ensures Visited(d0, d', next, p) && Joined(d0, d', t1, w, p)
    {
      if p < k {
        assert Visited(d0, d, next, p) && Joined(d0, d, t1, w, p);
      }
    }
  }

  /** The smallest class among the marked neighbours up-left, up, up-right
      and left of pos, starting from 255. */
  method SmallestClass(datadst: array<byte>, labeltable: array<int>, w: int, pos: int, next: int)
    returns (num: int, ghost from: int)
    requires w >= 2 && w + 1 <= pos < datadst.Length && TableOk(labeltable[..], next)
    requires forall q :: 0 <= q < pos ==> datadst[q] < next
    requires datadst[pos - w - 1] != 0 || datadst[pos - w] != 0 || datadst[pos - w + 1] != 0 || datadst[pos - 1] != 0
    ensures from in {pos - w - 1, pos - w, pos - w + 1, pos - 1} && datadst[from] != 0
    ensures num == labeltable[datadst[from]] && 1 <= num < next && labeltable[num] == num
    ensures forall q :: q in {pos - w - 1, pos - w, pos - w + 1, pos - 1} && datadst[q] != 0 ==>
      num <= labeltable[datadst[q]]
  {
    var posA, posB, posC, posD := pos - w - 1, pos - w, pos - w + 1, pos - 1;
    ghost var t := labeltable[..];
    num, from := 255, pos;
    if datadst[posA] != 0 {
      assert Entry(t, datadst[posA] as int);
      num, from := labeltable[datadst[posA]], posA;
    }
    if datadst[posB] != 0 {
      assert Entry(t, datadst[posB] as int);
      if labeltable[datadst[posB]] < num {
        num, from := labeltable[datadst[posB]], posB;
      }
    }
    if datadst[posC] != 0 {
      assert Entry(t, datadst[posC] as int);
      if labeltable[datadst[posC]] < num {
        num, from := labeltable[datadst[posC]], posC;
      }
    }
    if datadst[posD] != 0 {
      assert Entry(t, datadst[posD] as int);
      if labeltable[datadst[posD]] < num {
        num, from := labeltable[datadst[posD]], posD;
      }
    }
    if from == pos {
      // every marked neighbour has class 255, and one of them is marked
      from := if datadst[posA] != 0 then posA else if datadst[posB] != 0 then posB
        else if datadst[posC] != 0 then posC else posD;
    }
  }

  /** A foreground pixel with a marked neighbour: it takes the smallest
      class among them, and the classes of all of them are merged into it. */
  method JoinPixel(datadst: array<byte>, labeltable: array<int>, w: int, pos: int, next: int,
                   ghost d0: seq<byte>, ghost origin: seq<int>)
    requires w >= 2 && w + 1 <= pos < datadst.Length
    requires Scanned(d0, datadst[..], labeltable[..], next, origin, w, pos)
    requires datadst[pos] != 0
    requires datadst[pos - w - 1] != 0 || datadst[pos - w] != 0 || datadst[pos - w + 1] != 0 || datadst[pos - 1] != 0
    modifies datadst, labeltable
    ensures Scanned(d0, datadst[..], labeltable[..], next, origin, w, pos + 1)
    ensures OpenedBefore(d0, w, pos) == OpenedBefore(d0, w, pos + 1)
  {
    ghost var d, t := datadst[..], labeltable[..];
    var posA, posB, posC, posD := pos - w - 1, pos - w, pos - w + 1, pos - 1;
    assert Visited(d0, d, next, posA) && Visited(d0, d, next, posB);
    assert Visited(d0, d, next, posC) && Visited(d0, d, next, posD);
    forall q | 0 <= q < pos
      ensures datadst[q] < next
    {
      assert Visited(d0, d, next, q);
    }
    var num, from := SmallestClass(datadst, labeltable, w, pos, next);
    datadst[pos] := num as byte;
    labeltable[num] := num;
    assert labeltable[..] == t;
    MergeNeighbours(labeltable, next, datadst[posA] as int, datadst[posB] as int, datadst[posC] as int,
                    datadst[posD] as int, num, d0, d, w, pos);
    MergeStep(d0, d, t, labeltable[..], next, origin, w, pos, num);
  }

  /** One pixel of the raster pass. */
  method LabelPixel(datadst: array<byte>, labeltable: array<int>, w: int, pos: int, next0: int,
                    ghost d0: seq<byte>, ghost origin0: seq<int>)
    returns (next: int, ghost origin: seq<int>)
    requires w >= 2 && w + 1 <= pos < datadst.Length
    requires Scanned(d0, datadst[..], labeltable[..], next0, origin0, w, pos)
    requires next0 - 1 == OpenedBefore(d0, w, pos) && OpenedBefore(d0, w, |d0|) <= 255
    modifies datadst, labeltable
    ensures Scanned(d0, datadst[..], labeltable[..], next, origin, w, pos + 1)
    ensures next - 1 == OpenedBefore(d0, w, pos + 1)
  {
    ghost var d, t := datadst[..], labeltable[..];
    next, origin := next0, origin0;
    if datadst[pos] != 0 {
      if datadst[pos - w - 1] == 0 && datadst[pos - w] == 0 && datadst[pos - w + 1] == 0 && datadst[pos - 1] == 0 {
        OpenStep(d0, d, t, next, origin, w, pos);
        datadst[pos] := next;
        labeltable[next] := next;
        origin := origin[next := pos];
        next := next + 1;
      } else {
        JoinPixel(datadst, labeltable, w, pos, next, d0, origin);
      }
    } else {
      SkipTo(d0, d, t, next, origin, w, pos, pos + 1);
    }
  }

  // ---------------------------------------------------------------------
  // The raster loops

  /** The prepared plane is zero outside the interior. */
  ghost predicate Framed(d0: seq<byte>, w: int, h: int)
  {
    w >= 1 && h >= 1 && |d0| == w * h &&
    forall p :: 0 <= p < |d0| && d0[p] != 0 ==> Grid.Interior(w, h, p)
  }

  /** The prepared plane is zero on the first row, the last row and the side
      columns. */
  lemma FramedZero(d0: seq<byte>, w: int, h: int, p: int)
    requires Framed(d0, w, h) && 0 <= p < |d0|
    requires p < w || (h - 1) * w <= p || IsSide(w, p)
    ensures d0[p] == 0
  {
    InteriorFlat(w, h, p);
  }

  /** The last pixel of a row and the first of the next are side pixels. */
  lemma RowEnds(w: int, y: int)
    requires w >= 1 && y >= 0
    ensures IsSide(w, y * w + w - 1) && IsSide(w, (y + 1) * w)
  {
    Grid.Coord(w, w - 1, y);
    Grid.Coord(w, 0, y + 1);
  }

  /** Where the pass over the row starting at `start` begins, and where it
      ends: the row's interior, or nothing for an image of width 1. */
  function RowFrom(w: int, start: int): int
  {
    if w >= 2 then start + 1 else 0
  }

  function RowTo(w: int, start: int): int
  {
    if w >= 2 then start + w - 1 else 0
  }

  /** The x loop of the raster pass over one row. */
  method LabelRow(datadst: array<byte>, labeltable: array<int>, w: int, start: int, next0: int,
                  ghost d0: seq<byte>, ghost origin0: seq<int>)
    returns (next: int, ghost origin: seq<int>)
    requires w >= 1 && w <= start && start + w <= datadst.Length
    requires Scanned(d0, datadst[..], labeltable[..], next0, origin0, w, RowFrom(w, start))
    requires next0 - 1 == OpenedBefore(d0, w, RowFrom(w, start)) && OpenedBefore(d0, w, |d0|) <= 255
    modifies datadst, labeltable
    ensures Scanned(d0, datadst[..], labeltable[..], next, origin, w, RowTo(w, start))
    ensures next - 1 == OpenedBefore(d0, w, RowTo(w, start))
  {
    next, origin := next0, origin0;
    var x := 1;
    while x < w - 1
      invariant 1 <= x && (x <= w - 1 || x == 1)
      invariant Scanned(d0, datadst[..], labeltable[..], next, origin, w, if w >= 2 then start + x else 0)
      invariant next - 1 == OpenedBefore(d0, w, if w >= 2 then start + x else 0)
    {
      next, origin := LabelPixel(datadst, labeltable, w, start + x, next, d0, origin);
      x := x + 1;
    }
  }

  /** Before the first row's interior there is only background. */
  lemma FramedHead(d0: seq<byte>, w: int, h: int)
    requires Framed(d0, w, h)
    ensures forall p :: 0 <= p && 0 <= p < RowFrom(w, w) && p < |d0| ==> d0[p] == 0
  {
    forall p | 0 <= p < RowFrom(w, w) && p < |d0|
      ensures d0[p] == 0
    {
      if p == w {
        RowEnds(w, 0);
      }
      FramedZero(d0, w, h, p);
    }
  }

  /** Between the interiors of two rows there is only background. */
  lemma FramedGap(d0: seq<byte>, w: int, h: int, y: int)
    requires Framed(d0, w, h) && y >= 0
    ensures forall p :: 0 <= p && RowTo(w, y * w) <= p < RowFrom(w, (y + 1) * w) && p < |d0| ==> d0[p] == 0
  {
    RowEnds(w, y);
    Grid.NextRow(w, y);
    forall p | 0 <= p && RowTo(w, y * w) <= p < RowFrom(w, (y + 1) * w) && p < |d0|
      ensures d0[p] == 0
    {
      FramedZero(d0, w, h, p);
    }
  }

  /** After the interior of the last row scanned there is only background. */
  lemma FramedTail(d0: seq<byte>, w: int, h: int, y: int)
    requires Framed(d0, w, h) && 1 <= y && (y == h - 1 || (y == 1 && h <= 2))
    ensures forall p :: 0 <= p && RowFrom(w, y * w) <= p < |d0| ==> d0[p] == 0
  {
    forall p | 0 <= p && RowFrom(w, y * w) <= p < |d0|
      ensures d0[p] == 0
    {
      if w >= 2 {
        Grid.MulMono(h - 1, y, w);
      } else {
        assert IsSide(w, p);
      }
      FramedZero(d0, w, h, p);
    }
  }

  /** One turn of the y loop: the x loop over row y, then on to the next
      row's interior. */
  method ScanRow(datadst: array<byte>, labeltable: array<int>, w: int, h: int, y: int, next0: int,
                 ghost d0: seq<byte>, ghost origin0: seq<int>)
    returns (next: int, ghost origin: seq<int>)
    requires Framed(d0, w, h) && datadst.Length == w * h && 1 <= y < h - 1
    requires Scanned(d0, datadst[..], labeltable[..], next0, origin0, w, RowFrom(w, y * w))
    requires next0 - 1 == OpenedBefore(d0, w, RowFrom(w, y * w)) && OpenedBefore(d0, w, |d0|) <= 255
    modifies datadst, labeltable
    ensures Scanned(d0, datadst[..], labeltable[..], next, origin, w, RowFrom(w, (y + 1) * w))
    ensures next - 1 == OpenedBefore(d0, w, RowFrom(w, (y + 1) * w))
  {
    Grid.MulMono(1, y, w);
    Grid.MulMono(y + 1, h, w);
    Grid.NextRow(w, y);
    next, origin := LabelRow(datadst, labeltable, w, y * w, next0, d0, origin0);
    FramedGap(d0, w, h, y);
    SkipTo(d0, datadst[..], labeltable[..], next, origin, w, RowTo(w, y * w), RowFrom(w, (y + 1) * w));
  }

  /** The y loop of the raster pass: every foreground pixel receives a
      provisional label, joined in the table to its earlier neighbours. */
  method LabelRows(datadst: array<byte>, labeltable: array<int>, w: int, h: int, ghost d0: seq<byte>)
    returns (next: int, ghost origin: seq<int>)
    requires Framed(d0, w, h) && datadst[..] == d0 && labeltable.Length == 256
    requires OpenedBefore(d0, w, |d0|) <= 255
    modifies datadst, labeltable
    ensures Scanned(d0, datadst[..], labeltable[..], next, origin, w, |d0|)
    ensures next - 1 == OpenedBefore(d0, w, |d0|)
  {
    next, origin := 1, seq(256, _ => 0);
    FramedHead(d0, w, h);
    SkipTo(d0, datadst[..], labeltable[..], next, origin, w, 0, RowFrom(w, w));
    var y := 1;
    while y < h - 1
      invariant 1 <= y && (y <= h - 1 || y == 1)
      invariant Scanned(d0, datadst[..], labeltable[..], next, origin, w, RowFrom(w, y * w))
      invariant next - 1 == OpenedBefore(d0, w, RowFrom(w, y * w))
    {
      next, origin := ScanRow(datadst, labeltable, w, h, y, next, d0, origin);
      y := y + 1;
    }
    FramedTail(d0, w, h, y);
    if RowFrom(w, y * w) <= |d0| {
      SkipTo(d0, datadst[..], labeltable[..], next, origin, w, RowFrom(w, y * w), |d0|);
    } else {
      ScannedAll(d0, datadst[..], labeltable[..], next, origin, w, RowFrom(w, y * w));
    }
  }

  // ---------------------------------------------------------------------
  // The second pass: every provisional label is replaced by its class

  /** The class of a provisional label, 0 for background. */
  function Relabelled(t: seq<int>, v: byte): int
    requires |t| == 256
  {
    if v == 0 then 0 else t[v]
  }

  /** Every provisional label in the plane has a class that fits a pixel. */
  ghost predicate Relabellable(d1: seq<byte>, t: seq<int>)
  {
    |t| == 256 && forall p :: 0 <= p < |d1| && d1[p] != 0 ==> 1 <= t[d1[p]] <= 255
  }

  /** The second pass has been over the pixels before k. */
  ghost predicate RelabelledUpTo(d: seq<byte>, d1: seq<byte>, t: seq<int>, k: int)
  {
    |d| == |d1| && |t| == 256 &&
    forall p :: 0 <= p < |d| ==> d[p] == if p < k then Relabelled(t, d1[p]) else d1[p]
  }

  /** Passing over background pixels changes nothing. */
  lemma RelabelSkip(d: seq<byte>, d1: seq<byte>, t: seq<int>, k: int, k2: int)
    requires RelabelledUpTo(d, d1, t, k) && k <= k2
    requires forall p :: 0 <= p && k <= p < k2 && p < |d1| ==> d1[p] == 0
    ensures RelabelledUpTo(d, d1, t, k2)
  {
  }

  /** The x loop of the second pass over one row. */
  method RelabelRow(datadst: array<byte>, labeltable: array<int>, w: int, start: int, ghost d1: seq<byte>)
    requires w >= 1 && 0 <= start && start + w <= datadst.Length
    requires Relabellable(d1, labeltable[..]) && RelabelledUpTo(datadst[..], d1, labeltable[..], RowFrom(w, start))
    modifies datadst
    ensures RelabelledUpTo(datadst[..], d1, labeltable[..], RowTo(w, start))
  {
    var x := 1;
    while x < w - 1
      invariant 1 <= x && (x <= w - 1 || x == 1)
      invariant RelabelledUpTo(datadst[..], d1, labeltable[..], if w >= 2 then start + x else 0)
    {
      var pos := start + x;
      if datadst[pos] != 0 {
        datadst[pos] := labeltable[datadst[pos]] as byte;
      }
      x := x + 1;
    }
  }

  /** One turn of the y loop of the second pass. */
  method RelabelScanRow(datadst: array<byte>, labeltable: array<int>, w: int, h: int, y: int, ghost d1: seq<byte>)
    requires Framed(d1, w, h) && datadst.Length == w * h && 1 <= y < h - 1
    requires Relabellable(d1, labeltable[..]) && RelabelledUpTo(datadst[..], d1, labeltable[..], RowFrom(w, y * w))
    modifies datadst
    ensures RelabelledUpTo(datadst[..], d1, labeltable[..], RowFrom(w, (y + 1) * w))
  {
    Grid.MulMono(y + 1, h, w);
    Grid.NextRow(w, y);
    RelabelRow(datadst, labeltable, w, y * w, d1);
    FramedGap(d1, w, h, y);
    RelabelSkip(datadst[..], d1, labeltable[..], RowTo(w, y * w), RowFrom(w, (y + 1) * w));
  }

  /** The second pass: every foreground pixel is given its class. */
  method RelabelRows(datadst: array<byte>, labeltable: array<int>, w: int, h: int, ghost d1: seq<byte>)
    requires Framed(d1, w, h) && datadst[..] == d1 && Relabellable(d1, labeltable[..])
    modifies datadst
    ensures forall p :: 0 <= p < |d1| ==> datadst[p] == Relabelled(labeltable[..], d1[p])
  {
    FramedHead(d1, w, h);
    RelabelSkip(datadst[..], d1, labeltable[..], 0, RowFrom(w, w));
    var y := 1;
    while y < h - 1
      invariant 1 <= y && (y <= h - 1 || y == 1)
      invariant RelabelledUpTo(datadst[..], d1, labeltable[..], RowFrom(w, y * w))
    {
      RelabelScanRow(datadst, labeltable, w, h, y, d1);
      y := y + 1;
    }
    FramedTail(d1, w, h, y);
    if RowFrom(w, y * w) <= |d1| {
      RelabelSkip(datadst[..], d1, labeltable[..], RowFrom(w, y * w), |d1|);
    }
  }

  // ---------------------------------------------------------------------
  // What the labelling promises

  /** The checks vc_binary_blob_labelling makes before it touches dst. */
  predicate LabelArgs(src: Image, dst: Image)
  {
    src.width > 0 && src.height > 0 &&
    src.width == dst.width && src.height == dst.height && src.channels == dst.channels &&
    src.channels == 1
  }

  /** The output is nonzero exactly on the foreground. */
  ghost predicate LabelsForeground(s: seq<byte>, w: int, h: int, out: seq<byte>)
    requires w > 0
  {
    |out| == |s| && forall p :: 0 <= p < |s| ==> (out[p] != 0 <==> Foreground(s, w, h, p))
  }

  /** Pixel q, when foreground, carries the label of pixel p. */
  ghost predicate Agrees(s: seq<byte>, w: int, h: int, out: seq<byte>, p: int, q: int)
    requires w > 0 && |out| == |s| && 0 <= p < |s|
  {
    0 <= q < |s| && (Foreground(s, w, h, q) ==> out[q] == out[p])
  }

  /** Every foreground pixel carries the label of each foreground neighbour
      up-left, up, up-right and left of it. */
  ghost predicate NeighboursAgree(s: seq<byte>, w: int, h: int, out: seq<byte>)
    requires w > 0
  {
    |out| == |s| &&
    forall p :: 0 <= p < |s| && Foreground(s, w, h, p) ==>
      Agrees(s, w, h, out, p, p - w - 1) && Agrees(s, w, h, out, p, p - w) &&
      Agrees(s, w, h, out, p, p - w + 1) && Agrees(s, w, h, out, p, p - 1)
  }

  /** The distinct labels of an output plane. */
  ghost function LabelSet(out: seq<byte>): (r: set<int>)
    ensures forall v :: v in r <==> v != 0 && v in out
  {
    set p | 0 <= p < |out| && out[p] != 0 :: out[p] as int
  }

  predicate Increasing(r: seq<int>)
  {
    forall i, j :: 0 <= i < j < |r| ==> r[i] < r[j]
  }

  /** The labels of a list of blobs. */
  function LabelsOf(blobs: seq<Blob>): (r: seq<int>)
    ensures |r| == |blobs| && forall i :: 0 <= i < |r| ==> r[i] == blobs[i].lbl
  {
    seq(|blobs|, i requires 0 <= i < |blobs| => blobs[i].lbl)
  }

  /** The elements of a strictly increasing sequence are distinct, so there
      are as many of them as the sequence is long. */
  lemma {:induction false} IncreasingCard(r: seq<int>)
    requires Increasing(r)
    ensures |set v | v in r| == |r|
  {
    if r != [] {
      var n := |r| - 1;
      var q := r[..n];
      assert Increasing(q);
      IncreasingCard(q);
      assert (set v | v in r) == (set v | v in q) + {r[n]};
      assert r[n] !in q;
    }
  }

  /** The prepared plane is zero off the interior. */
  lemma PreparedFramed(s: seq<byte>, w: int, h: int)
    requires w > 0 && h > 0 && |s| == w * h
    ensures Framed(Prepared(s, w, h), w, h)
  {
  }

  /** After the raster pass, every provisional label in the plane has a
      class that fits a pixel, and the plane is still zero off the
      interior. */
  lemma ScannedLabels(d0: seq<byte>, d1: seq<byte>, t: seq<int>, next: int, origin: seq<int>, w: int, h: int)
    requires Framed(d0, w, h) && Scanned(d0, d1, t, next, origin, w, |d0|)
    ensures Relabellable(d1, t) && Framed(d1, w, h)
  {
    forall p | 0 <= p < |d1|
      ensures d1[p] != 0 ==> d0[p] != 0 && 1 <= t[d1[p]] <= 255
    {
      assert Visited(d0, d1, next, p);
      if d1[p] != 0 {
        assert Entry(t, d1[p] as int);
      }
    }
  }

  /** What the two passes and the table reduction achieve together. */
  lemma {:induction false} LabellingOutcome(s: seq<byte>, w: int, h: int, d1: seq<byte>, t: seq<int>, next: int,
                                          origin: seq<int>, out: seq<byte>)
    requires w > 0 && h > 0 && |s| == w * h
    requires Scanned(Prepared(s, w, h), d1, t, next, origin, w, |s|)
    requires |out| == |d1| && forall p :: 0 <= p < |d1| ==> out[p] == Relabelled(t, d1[p])
    ensures LabelsForeground(s, w, h, out)
    ensures NeighboursAgree(s, w, h, out)
    ensures forall v :: v in Roots(t, next) <==> v in LabelSet(out)
    ensures Increasing(Roots(t, next)) && |Roots(t, next)| == |LabelSet(out)|
  {
    var d0 := Prepared(s, w, h);
    forall p | 0 <= p < |s|
      ensures out[p] != 0 <==> Foreground(s, w, h, p)
      ensures out[p] != 0 ==> Entry(t, d1[p] as int) && out[p] == t[d1[p]] && d1[p] < next
    {
      assert Visited(d0, d1, next, p);
      if d1[p] != 0 {
        assert Entry(t, d1[p] as int);
      }
    }
    forall p | 0 <= p < |s| && Foreground(s, w, h, p)
      ensures Agrees(s, w, h, out, p, p - w - 1) && Agrees(s, w, h, out, p, p - w)
      ensures Agrees(s, w, h, out, p, p - w + 1) && Agrees(s, w, h, out, p, p - 1)
    {
      Grid.InteriorNeighbours(w, h, p);
      assert Joined(d0, d1, t, w, p);
    }
    forall v
      ensures v in Roots(t, next) <==> v in LabelSet(out)
    {
      RootsHas(t, next, v);
      if v in Roots(t, next) {
        var o := origin[v];
        assert d1[o] == v && out[o] == v;
      }
      if v in LabelSet(out) {
        var p :| 0 <= p < |out| && out[p] == v;
        RootsHas(t, next, t[d1[p]]);
      }
    }
    RootsIncreasing(t, next);
    IncreasingCard(Roots(t, next));
    assert (set v | v in Roots(t, next)) == LabelSet(out);
  }

  /** Two 8-adjacent foreground pixels, given by their coordinates, carry
      the same label: each of them is the up-left, up, up-right or left
      neighbour of the other, or the other way round. */
  lemma EightNeighboursAgree(s: seq<byte>, w: int, h: int, out: seq<byte>, x1: int, y1: int, x2: int, y2: int)
    requires w > 0 && |s| == w * h && NeighboursAgree(s, w, h, out)
    requires 0 <= x1 < w && 0 <= y1 < h && 0 <= x2 < w && 0 <= y2 < h
    requires -1 <= x2 - x1 <= 1 && -1 <= y2 - y1 <= 1
    requires 0 <= y1 * w + x1 < |s| && 0 <= y2 * w + x2 < |s|
    requires Foreground(s, w, h, y1 * w + x1) && Foreground(s, w, h, y2 * w + x2)
    ensures out[y1 * w + x1] == out[y2 * w + x2]
  {
    var a1, a2 := y1 * w, y2 * w;
    var p1, p2 := a1 + x1, a2 + x2;
    if y2 == y1 + 1 {
      Grid.NextRow(w, y1);
      AgreeBehind(s, w, h, out, p2, p1);
    } else if y1 == y2 + 1 {
      Grid.NextRow(w, y2);
      AgreeBehind(s, w, h, out, p1, p2);
    } else if x2 == x1 + 1 {
      AgreeBehind(s, w, h, out, p2, p1);
    } else if x1 == x2 + 1 {
      AgreeBehind(s, w, h, out, p1, p2);
    }
  }

  /** A foreground pixel q up-left, up, up-right or left of foreground
      pixel p carries p's label. */
  lemma AgreeBehind(s: seq<byte>, w: int, h: int, out: seq<byte>, p: int, q: int)
    requires w > 0 && NeighboursAgree(s, w, h, out) && 0 <= p < |s| && 0 <= q < |s|
    requires q == p - w - 1 || q == p - w || q == p - w + 1 || q == p - 1
    requires Foreground(s, w, h, p) && Foreground(s, w, h, q)
    ensures out[q] == out[p]
  {
    assert Agrees(s, w, h, out, p, p - w - 1) && Agrees(s, w, h, out, p, p - w);
    assert Agrees(s, w, h, out, p, p - w + 1) && Agrees(s, w, h, out, p, p - 1);
  }

  /** The blob list: calloc'd records whose label is filled in from the
      reduced table. */
  method MakeBlobs(labeltable: array<int>, nlabels: int) returns (blobs: array<Blob>)
    requires 0 <= nlabels <= labeltable.Length
    ensures fresh(blobs) && blobs.Length == nlabels
    ensures forall i :: 0 <= i < nlabels ==> blobs[i] == FreshBlob(labeltable[i])
  {
    blobs := new Blob[nlabels](_ => FreshBlob(0));
    var a := 0;
    while a < nlabels
      invariant 0 <= a <= nlabels
      invariant forall i :: 0 <= i < a ==> blobs[i] == FreshBlob(labeltable[i])
      invariant forall i :: a <= i < nlabels ==> blobs[i] == FreshBlob(0)
    {
      blobs[a] := blobs[a].(lbl := labeltable[a]);
      a := a + 1;
    }
  }

  /** The end of vc_binary_blob_labelling: repeated representatives are
      removed from the table, the rest compacted and counted, and one blob
      made per representative, or none when there are none. */
  method CountBlobs(labeltable: array<int>, next: int) returns (blobs: array?<Blob>, nlabels: int)
    requires TableOk(labeltable[..], next)
    modifies labeltable
    ensures nlabels == |Roots(old(labeltable[..]), next)|
    ensures blobs == null <==> nlabels == 0
    ensures blobs != null ==> fresh(blobs) && blobs.Length == nlabels
    ensures blobs != null ==> LabelsOf(blobs[..]) == Roots(old(labeltable[..]), next)
    ensures blobs != null ==> forall i :: 0 <= i < blobs.Length ==> blobs[i] == FreshBlob(blobs[i].lbl)
  {
    ghost var t := labeltable[..];
    RemoveRepeats(labeltable, next);
    nlabels := Compact(labeltable, next, t);
    if nlabels == 0 {
      return null, nlabels;
    }
    blobs := MakeBlobs(labeltable, nlabels);
    assert LabelsOf(blobs[..]) == Roots(t, next);
  }

  /** vc_binary_blob_labelling. `nlabels` is the count the C function stores
      through its pointer argument, `nlabelsIn` the value that pointer held
      on entry. At most 255 provisional labels fit the 8-bit plane and the
      256-entry table. */
  method BlobLabelling(src: Image, dst: Image, nlabelsIn: int) returns (blobs: array?<Blob>, nlabels: int)
    requires src.Valid() && dst.Valid() && src.data != dst.data
    requires LabelArgs(src, dst) ==> NewLabels(src.data[..], src.width, src.height) <= 255
    modifies dst.data
    ensures !LabelArgs(src, dst) ==> blobs == null && nlabels == nlabelsIn && dst.data[..] == old(dst.data[..])
    ensures LabelArgs(src, dst) ==>
      LabelsForeground(src.data[..], src.width, src.height, dst.data[..]) &&
      NeighboursAgree(src.data[..], src.width, src.height, dst.data[..])
    ensures LabelArgs(src, dst) ==> (blobs == null <==> nlabels == 0)
    ensures LabelArgs(src, dst) ==> nlabels == |LabelSet(dst.data[..])|
    ensures blobs != null ==> fresh(blobs) && blobs.Length == nlabels
    ensures blobs != null ==> Increasing(LabelsOf(blobs[..]))
    ensures blobs != null ==> forall v :: v in LabelsOf(blobs[..]) <==> v in LabelSet(dst.data[..])
    ensures blobs != null ==> forall i :: 0 <= i < blobs.Length ==> blobs[i] == FreshBlob(blobs[i].lbl)
  {
    if src.width <= 0 || src.height <= 0 {
      return null, nlabelsIn;
    }
    if src.width != dst.width || src.height != dst.height || src.channels != dst.channels {
      return null, nlabelsIn;
    }
    if src.channels != 1 {
      return null, nlabelsIn;
    }
    var w, h := src.width, src.height;
    ghost var s := src.data[..];
    Prepare(src.data, dst.data, w, h);
    ghost var d0 := dst.data[..];
    PreparedFramed(s, w, h);
    var labeltable := new int[256](_ => 0);
    var next;
    ghost var origin;
    next, origin := LabelRows(dst.data, labeltable, w, h, d0);
    ghost var d1, t := dst.data[..], labeltable[..];
    ScannedLabels(d0, d1, t, next, origin, w, h);
    RelabelRows(dst.data, labeltable, w, h, d1);
    LabellingOutcome(s, w, h, d1, t, next, origin, dst.data[..]);
    blobs, nlabels := CountBlobs(labeltable, next);
  }
}
