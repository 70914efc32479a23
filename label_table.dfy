/** The equivalence table of vc_binary_blob_labelling (`labeltable[256]`):
    entry a names the representative of provisional label a. Merging two
    classes rewrites every entry of the absorbed class to the smaller
    representative; there is no union by rank and no path compression. At
    the end, repeated representatives are removed and the survivors are
    compacted to the front of the table. */
module LabelTable {

  /** Entry a names a representative that is at most a and is its own
      representative. */
  ghost predicate Entry(t: seq<int>, a: int)
  {
    0 <= a < |t| && 1 <= t[a] <= a && t[t[a]] == t[a]
  }

  /** The invariant of the table over the labels handed out so far,
      `1 .. next-1` (the C variable `label` holds next). */
  ghost predicate TableOk(t: seq<int>, next: int)
  {
    |t| == 256 && 1 <= next <= 256 && forall a :: 1 <= a < next ==> Entry(t, a)
  }

  /** What one merge does to an entry: the absorbed representative `tmp`
      becomes `num`. */
  function Subst(v: int, tmp: int, num: int): int
  {
    if v == tmp then num else v
  }

  /** The merge loop over the labels handed out so far: every entry equal
      to `tmp` is set to `num`. */
  method Union(labeltable: array<int>, next: int, tmp: int, num: int)
    requires labeltable.Length == 256 && 1 <= next <= 256
    modifies labeltable
    ensures forall a :: 1 <= a < next ==> labeltable[a] == Subst(old(labeltable[a]), tmp, num)
    ensures forall a :: 0 <= a < 256 && !(1 <= a < next) ==> labeltable[a] == old(labeltable[a])
  {
    var a := 1;
    while a < next
      invariant 1 <= a <= next || (a == 1 && next == 1)
      invariant forall b :: 1 <= b < a ==> labeltable[b] == Subst(old(labeltable[b]), tmp, num)
      invariant forall b :: 0 <= b < 256 && !(1 <= b < a) ==> labeltable[b] == old(labeltable[b])
    {
      if labeltable[a] == tmp {
        labeltable[a] := num;
      }
      a := a + 1;
    }
  }

  /** Absorbing one representative into a smaller one keeps the table
      invariant, and the smaller one stays a representative. */
  lemma UnionOk(t: seq<int>, t': seq<int>, next: int, tmp: int, num: int)
    requires TableOk(t, next) && 1 <= num < tmp < next && t[num] == num && t[tmp] == tmp
    requires |t'| == 256 && forall a :: 1 <= a < next ==> t'[a] == Subst(t[a], tmp, num)
    ensures TableOk(t', next) && t'[num] == num
  {
    forall a | 1 <= a < next
      ensures Entry(t', a)
    {
      assert Entry(t, a);
      if t[a] != tmp {
        assert Entry(t, t[a]);
      }
    }
  }

  // ---------------------------------------------------------------------
  // Removal of repeated representatives

  /** Entry b after the outer loop of the removal has run up to (not
      including) a: an entry whose representative lies below a and is not b
      itself has been cleared. */
  function Cleared(t: seq<int>, a: int, b: int): int
    requires 0 <= b < |t|
  {
    if t[b] < a && t[b] != b then 0 else t[b]
  }

  /** What survives the removal: a representative at its own index. */
  function Kept(t: seq<int>, b: int): (r: int)
    requires 0 <= b < |t|
    ensures r == b || r == 0
  {
    if t[b] == b then b else 0
  }

  /** The two removal loops: for each a, every later entry equal to entry a
      is cleared. */
  method RemoveRepeats(labeltable: array<int>, next: int)
    requires TableOk(labeltable[..], next)
    modifies labeltable
    ensures forall b :: 1 <= b < next ==> labeltable[b] == Kept(old(labeltable[..]), b)
    ensures forall b :: 0 <= b < 256 && !(1 <= b < next) ==> labeltable[b] == old(labeltable[b])
  {
    ghost var t := labeltable[..];
    forall b | 1 <= b < next
      ensures Cleared(t, 1, b) == t[b]
    {
      assert Entry(t, b);
    }
    var a := 1;
    while a < next - 1
      invariant 1 <= a && (a <= next - 1 || a == 1)
      invariant forall b :: 1 <= b < next ==> labeltable[b] == Cleared(t, a, b)
      invariant forall b :: 0 <= b < 256 && !(1 <= b < next) ==> labeltable[b] == t[b]
    {
      RemoveRepeatsOf(labeltable, next, a, t);
      a := a + 1;
    }
    forall b | 1 <= b < next
      ensures labeltable[b] == Kept(t, b)
    {
      assert Entry(t, b);
    }
  }

  /** The inner removal loop for one a. */
  method RemoveRepeatsOf(labeltable: array<int>, next: int, a: int, ghost t: seq<int>)
    requires TableOk(t, next) && labeltable.Length == 256 && 1 <= a < next - 1
    requires forall b :: 1 <= b < next ==> labeltable[b] == Cleared(t, a, b)
    requires forall b :: 0 <= b < 256 && !(1 <= b < next) ==> labeltable[b] == t[b]
    modifies labeltable
    ensures forall b :: 1 <= b < next ==> labeltable[b] == Cleared(t, a + 1, b)
    ensures forall b :: 0 <= b < 256 && !(1 <= b < next) ==> labeltable[b] == t[b]
  {
    assert Entry(t, a);
    var b := a + 1;
    while b < next
      invariant a + 1 <= b <= next
      invariant labeltable[a] == Cleared(t, a, a)
      invariant forall c :: 1 <= c < next ==> labeltable[c] == if a < c < b then Cleared(t, a + 1, c) else Cleared(t, a, c)
      invariant forall c :: 0 <= c < 256 && !(1 <= c < next) ==> labeltable[c] == t[c]
    {
      assert Entry(t, b);
      if labeltable[a] == labeltable[b] {
        labeltable[b] := 0;
      }
      b := b + 1;
    }
    forall c | 1 <= c <= a
      ensures Cleared(t, a + 1, c) == Cleared(t, a, c)
    {
      assert Entry(t, c);
    }
  }

  // ---------------------------------------------------------------------
  // Compaction

  /** The representatives among labels 1 .. a-1, in increasing order. */
  function Roots(t: seq<int>, a: int): (r: seq<int>)
    requires 0 <= a <= |t|
    ensures |r| <= a
  {
    if a <= 1 then [] else Roots(t, a - 1) + (if t[a - 1] == a - 1 then [a - 1] else [])
  }

  /** The representatives are exactly the labels that are their own entry. */
  lemma {:induction false} RootsHas(t: seq<int>, a: int, v: int)
    requires 0 <= a <= |t|
    ensures v in Roots(t, a) <==> 1 <= v < a && t[v] == v
  {
    if a > 1 {
      RootsHas(t, a - 1, v);
    }
  }

  /** The representatives come out strictly increasing, so they are
      pairwise distinct. */
  lemma {:induction false} RootsIncreasing(t: seq<int>, a: int)
    requires 0 <= a <= |t|
    ensures forall i, j :: 0 <= i < j < |Roots(t, a)| ==> Roots(t, a)[i] < Roots(t, a)[j]
  {
    if a > 1 {
      RootsIncreasing(t, a - 1);
      var r := Roots(t, a - 1);
      forall i | 0 <= i < |r|
        ensures r[i] < a - 1
      {
        RootsHas(t, a - 1, r[i]);
      }
    }
  }

  /** The compaction loop: every nonzero entry is moved, in order, to the
      front of the table; the result is the count of entries moved. */
  method Compact(labeltable: array<int>, next: int, ghost t: seq<int>) returns (nlabels: int)
    requires |t| == 256 && labeltable.Length == 256 && 1 <= next <= 256
    requires forall b :: 1 <= b < next ==> labeltable[b] == Kept(t, b)
    modifies labeltable
    ensures nlabels == |Roots(t, next)|
    ensures labeltable[..nlabels] == Roots(t, next)
  {
    nlabels := 0;
    var a := 1;
    while a < next
      invariant 1 <= a <= next
      invariant nlabels == |Roots(t, a)| && nlabels < a
      invariant labeltable[..nlabels] == Roots(t, a)
      invariant forall b :: a <= b < next ==> labeltable[b] == Kept(t, b)
    {
      if labeltable[a] != 0 {
        labeltable[nlabels] := labeltable[a];
        nlabels := nlabels + 1;
      }
      a := a + 1;
    }
  }
}
