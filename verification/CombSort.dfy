/** detail::sort, the comb sort behind the enum indices: total correctness for pairwise
    distinct keys, with the inversion count as the termination measure. */
module CombSort {
  import opened Sequences

  /** A strict order: irreflexive and transitive. */
  ghost predicate Strict<T(!new)>(less: (T, T) -> bool) {
    && (forall x :: !less(x, x))
    && (forall x, y, z {:trigger less(x, y), less(y, z)} :: less(x, y) && less(y, z) ==> less(x, z))
  }

  /** Any two positions hold comparable elements, so no two keys are equal. */
  ghost predicate Distinct<T>(less: (T, T) -> bool, s: seq<T>) {
    forall i, j :: 0 <= i < j < |s| ==> less(s[i], s[j]) || less(s[j], s[i])
  }

  ghost predicate Sorted<T>(less: (T, T) -> bool, s: seq<T>) {
    forall i, j :: 0 <= i < j < |s| ==> less(s[i], s[j])
  }

  ghost function Swapped<T>(s: seq<T>, i: nat, j: nat): (r: seq<T>)
    requires i < |s| && j < |s|
    ensures |r| == |s|
  {
    s[i := s[j]][j := s[i]]
  }

  // ----- Inversions -----

  ghost function Inversions<T>(less: (T, T) -> bool, s: seq<T>): set<(int, int)> {
    set p, q | 0 <= p < |s| && 0 <= q < |s| && p < q && less(s[q], s[p]) :: (p, q)
  }

  lemma {:induction false} InjectiveSize<A, B>(xs: set<A>, ys: set<B>, f: A -> B)
    requires forall x :: x in xs ==> f(x) in ys
    requires forall x, x' :: x in xs && x' in xs && f(x) == f(x') ==> x == x'
    ensures |xs| <= |ys|
    decreases xs
  {
    if xs != {} {
      var x :| x in xs;
      InjectiveSize(xs - {x}, ys - {f(x)}, f);
    }
  }

  /** Where an inversion after exchanging i and j was before. */
  function Trace(pair: (int, int), i: int, j: int): (int, int) {
    var other := (k: int) => if k == i then j else if k == j then i else k;
    if pair.0 < i then (pair.0, other(pair.1))
    else if pair.1 > j then (other(pair.0), pair.1)
    else pair
  }

  /** Exchanging an inverted pair, at whatever distance, removes at least one inversion. */
  lemma SwapRemovesInversion<T(!new)>(less: (T, T) -> bool, s: seq<T>, i: nat, j: nat)
    requires Strict(less) && i < j < |s| && less(s[j], s[i])
    ensures |Inversions(less, Swapped(s, i, j))| < |Inversions(less, s)|
  {
    var before, after := Inversions(less, s), Inversions(less, Swapped(s, i, j));
    var f := (pair: (int, int)) => Trace(pair, i, j);
    assert (i as int, j as int) in before;
    forall pair | pair in after ensures f(pair) in before - {(i, j)} {
      TraceIsInversion(less, s, i, j, pair);
    }
    InjectiveSize(after, before - {(i, j)}, f);
  }

  lemma TraceIsInversion<T(!new)>(less: (T, T) -> bool, s: seq<T>, i: nat, j: nat, pair: (int, int))
    requires Strict(less) && i < j < |s| && less(s[j], s[i])
    requires pair in Inversions(less, Swapped(s, i, j))
    ensures Trace(pair, i, j) in Inversions(less, s) && Trace(pair, i, j) != (i as int, j as int)
  {
    var s' := Swapped(s, i, j);
    var p, q := pair.0, pair.1;
    assert less(s'[q], s'[p]);
    if p == i && i < q < j {
      assert less(s[q], s[j]);
    } else if q == j && i < p < j {
      assert less(s[i], s[p]);
    }
  }

  // ----- Exchanges keep the elements -----

  lemma SwapKeepsElements<T>(s: seq<T>, i: nat, j: nat)
    requires i < j < |s|
    ensures multiset(Swapped(s, i, j)) == multiset(s)
  {
    assert s == s[..i] + [s[i]] + s[i + 1..j] + [s[j]] + s[j + 1..];
    assert Swapped(s, i, j) == s[..i] + [s[j]] + s[i + 1..j] + [s[i]] + s[j + 1..];
  }

  lemma SwapKeepsDistinct<T>(less: (T, T) -> bool, s: seq<T>, i: nat, j: nat)
    requires i < j < |s| && Distinct(less, s)
    ensures Distinct(less, Swapped(s, i, j))
  {
    var s' := Swapped(s, i, j);
    var other := (k: int) => if k == i then j else if k == j then i else k;
    forall p, q | 0 <= p < q < |s'| ensures less(s'[p], s'[q]) || less(s'[q], s'[p]) {
      assert s'[p] == s[other(p)] && s'[q] == s[other(q)];
      if other(p) < other(q) {
        assert less(s[other(p)], s[other(q)]) || less(s[other(q)], s[other(p)]);
      } else {
        assert less(s[other(q)], s[other(p)]) || less(s[other(p)], s[other(q)]);
      }
    }
  }

  lemma {:induction false} AdjacentSorted<T(!new)>(less: (T, T) -> bool, s: seq<T>, i: nat, j: nat)
    requires Strict(less) && i < j < |s|
    requires forall k :: 0 <= k < |s| - 1 ==> less(s[k], s[k + 1])
    ensures less(s[i], s[j])
    decreases j - i
  {
    assert less(s[i], s[i + 1]);
    if i + 1 < j {
      AdjacentSorted(less, s, i + 1, j);
    }
  }

  // ----- The gap -----

  const SHRINK: real := 1.247330950103979

  function ShrinkGap(gap: nat): int {
    (gap as real / SHRINK).Floor
  }

  /** The gap divided by 1.247330950103979 and rounded down, said in integers. */
  lemma ShrinkGapMeans(gap: nat)
    ensures ShrinkGap(gap) * 1_247330950103979 <= gap * 1_000000000000000 < (ShrinkGap(gap) + 1) * 1_247330950103979
  {
    var x, g := gap as real / SHRINK, ShrinkGap(gap);
    assert x * SHRINK == gap as real;
    assert g as real <= x < g as real + 1.0;
    assert g as real * SHRINK <= gap as real < (g as real + 1.0) * SHRINK;
  }

  /** A gap of two or more gets smaller but never reaches zero. */
  lemma GapShrinks(gap: nat)
    requires gap > 1
    ensures 1 <= ShrinkGap(gap) < gap
  {
    var x := gap as real / SHRINK;
    assert x * SHRINK == gap as real;
    assert 1.0 <= x < gap as real;
  }

  // ----- The sort -----

  method Exchange<T>(a: array<T>, i: nat, j: nat, ghost s: seq<T>)
    requires i < j < a.Length && a[..] == s
    modifies a
    ensures a[..] == Swapped(s, i, j)
  {
    var swap := a[i];
    a[i] := a[j];
    a[j] := swap;
  }

  /** One pass over the pairs at a fixed gap from index i on: the result and whether anything
      was exchanged. */
  ghost function PassFrom<T>(less: (T, T) -> bool, s: seq<T>, gap: nat, i: nat): (seq<T>, bool)
    requires gap > 0
    decreases |s| - i
  {
    if i + gap >= |s| then (s, false)
    else if !less(s[i], s[i + gap]) then (PassFrom(less, Swapped(s, i, i + gap), gap, i + 1).0, true)
    else PassFrom(less, s, gap, i + 1)
  }

  lemma {:induction false} PassPermutes<T>(less: (T, T) -> bool, s: seq<T>, gap: nat, i: nat)
    requires gap > 0
    ensures multiset(PassFrom(less, s, gap, i).0) == multiset(s)
    ensures |PassFrom(less, s, gap, i).0| == |s|
    decreases |s| - i
  {
    if i + gap < |s| {
      if !less(s[i], s[i + gap]) {
        SwapKeepsElements(s, i, i + gap);
        PassPermutes(less, Swapped(s, i, i + gap), gap, i + 1);
      } else {
        PassPermutes(less, s, gap, i + 1);
      }
    }
  }

  /** A pass that exchanges nothing found every pair at its gap in order. */
  lemma {:induction false} QuietPass<T>(less: (T, T) -> bool, s: seq<T>, gap: nat, i: nat)
    requires gap > 0 && !PassFrom(less, s, gap, i).1
    ensures PassFrom(less, s, gap, i).0 == s
    ensures forall k :: i <= k < |s| - gap ==> less(s[k], s[k + gap])
    decreases |s| - i
  {
    if i + gap < |s| {
      QuietPass(less, s, gap, i + 1);
    }
  }

  /** A pass over distinct keys that exchanges anything removes inversions. */
  lemma {:induction false} PassProgress<T(!new)>(less: (T, T) -> bool, s: seq<T>, gap: nat, i: nat)
    requires Strict(less) && Distinct(less, s) && gap > 0
    ensures Distinct(less, PassFrom(less, s, gap, i).0)
    ensures var (r, swapped) := PassFrom(less, s, gap, i);
      |Inversions(less, r)| <= |Inversions(less, s)| - if swapped then 1 else 0
    decreases |s| - i
  {
    if i + gap < |s| {
      if !less(s[i], s[i + gap]) {
        assert less(s[i + gap], s[i]);
        SwapRemovesInversion(less, s, i, i + gap);
        SwapKeepsDistinct(less, s, i, i + gap);
        PassProgress(less, Swapped(s, i, i + gap), gap, i + 1);
      } else {
        PassProgress(less, s, gap, i + 1);
      }
    }
  }

  /** The inner loop: exchange every pair at this gap that is out of order. */
  method Pass<T>(a: array<T>, less: (T, T) -> bool, gap: nat) returns (swapped: bool)
    requires gap > 0
    modifies a
    ensures (a[..], swapped) == PassFrom(less, old(a[..]), gap, 0)
  {
    swapped := false;
    var i := 0;
    while gap + i < a.Length
      invariant PassFrom(less, old(a[..]), gap, 0)
             == (PassFrom(less, a[..], gap, i).0, swapped || PassFrom(less, a[..], gap, i).1)
      decreases a.Length - i
    {
      if !less(a[i], a[i + gap]) {
        Exchange(a, i, i + gap, a[..]);
        swapped := true;
      }
      i := i + 1;
    }
  }

  lemma LastPassSorts<T(!new)>(less: (T, T) -> bool, s: seq<T>)
    requires Strict(less) && !PassFrom(less, s, 1, 0).1
    ensures Sorted(less, PassFrom(less, s, 1, 0).0)
  {
    QuietPass(less, s, 1, 0);
    forall i, j | 0 <= i < j < |s| ensures less(s[i], s[j]) {
      AdjacentSorted(less, s, i, j);
    }
  }

  /** detail::sort: a sorted permutation, for any strict order and pairwise distinct keys. */
  method Sort<T(!new)>(a: array<T>, less: (T, T) -> bool)
    requires Strict(less) && Distinct(less, a[..])
    modifies a
    ensures Sorted(less, a[..]) && multiset(a[..]) == multiset(old(a[..]))
  {
    var gap := a.Length;
    var swapped := false;
    while gap > 1 || swapped
      invariant gap > 0 || a.Length == 0
      invariant swapped ==> gap > 0
      invariant Distinct(less, a[..]) && multiset(a[..]) == multiset(old(a[..]))
      invariant gap <= 1 && !swapped ==> Sorted(less, a[..])
      decreases gap, |Inversions(less, a[..])|, if swapped then 1 else 0
    {
      if gap > 1 {
        GapShrinks(gap);
        gap := ShrinkGap(gap);
      }
      PassProgress(less, a[..], gap, 0);
      PassPermutes(less, a[..], gap, 0);
      ghost var s := a[..];
      swapped := Pass(a, less, gap);
      if !swapped {
        QuietPass(less, s, gap, 0);
        if gap == 1 {
          LastPassSorts(less, s);
        }
      }
    }
  }

  /** Distinctness depends on the elements only, not on their arrangement. */
  lemma DistinctPermutation<T(!new)>(less: (T, T) -> bool, s: seq<T>, r: seq<T>)
    requires Strict(less) && Distinct(less, r) && multiset(r) == multiset(s)
    ensures Distinct(less, s)
  {
    forall i, j | 0 <= i < j < |r| ensures r[i] != r[j] {
      assert less(r[i], r[j]) || less(r[j], r[i]);
    }
    forall i, j | 0 <= i < j < |s| ensures less(s[i], s[j]) || less(s[j], s[i]) {
      TwoOccurrences(s, i, j);
      NoDupCount(r, s[i]);
      assert s[i] in multiset(r) && s[j] in multiset(r);
    }
  }

  /** With two equal keys a pass leaves two equal keys, and at gap one it exchanges something. */
  lemma EqualKeysStay<T(!new)>(less: (T, T) -> bool, s: seq<T>, gap: nat)
    requires Strict(less) && !Distinct(less, s) && gap > 0
    ensures var (r, swapped) := PassFrom(less, s, gap, 0); !Distinct(less, r) && (gap == 1 ==> swapped)
  {
    var (r, swapped) := PassFrom(less, s, gap, 0);
    PassPermutes(less, s, gap, 0);
    if gap == 1 && !swapped {
      QuietPass(less, s, 1, 0);
      LastPassSorts(less, s);
    }
    if Distinct(less, r) {
      DistinctPermutation(less, s, r);
    }
  }

  /** The state of the outer loop: the range, the gap, and whether the last pass exchanged. */
  datatype Loop<T> = Loop(s: seq<T>, gap: nat, swapped: bool) {
    predicate Goes() {
      gap > 1 || swapped
    }
  }

  /** One round of the outer loop. */
  ghost function Round<T>(less: (T, T) -> bool, l: Loop<T>): Loop<T>
    requires l.gap > 0
  {
    GapStaysPositive(l.gap);
    var gap := if l.gap > 1 then ShrinkGap(l.gap) else l.gap;
    var (r, swapped) := PassFrom(less, l.s, gap, 0);
    Loop(r, gap, swapped)
  }

  /** The state after n rounds, whether the loop goes on or not. */
  ghost function Rounds<T>(less: (T, T) -> bool, l: Loop<T>, n: nat): (r: Loop<T>)
    requires l.gap > 0
    ensures r.gap > 0
    decreases n
  {
    if n == 0 then l
    else
      GapStaysPositive(l.gap);
      Rounds(less, Round(less, l), n - 1)
  }

  lemma GapStaysPositive(gap: nat)
    requires gap > 0
    ensures gap > 1 ==> 0 < ShrinkGap(gap) < gap
  {
    if gap > 1 {
      GapShrinks(gap);
    }
  }

  lemma {:induction false} GoesOn<T(!new)>(less: (T, T) -> bool, l: Loop<T>, n: nat)
    requires Strict(less) && !Distinct(less, l.s) && l.gap > 0 && l.Goes()
    ensures Rounds(less, l, n).Goes()
    decreases n
  {
    if n > 0 {
      GapStaysPositive(l.gap);
      EqualKeysStay(less, l.s, Round(less, l).gap);
      GoesOn(less, Round(less, l), n - 1);
    }
  }

  lemma {:induction false} Settles<T(!new)>(less: (T, T) -> bool, l: Loop<T>) returns (n: nat)
    requires Strict(less) && Distinct(less, l.s) && l.gap > 0
    ensures !Rounds(less, l, n).Goes()
    decreases l.gap, |Inversions(less, l.s)|
  {
    n := 0;
    if l.Goes() {
      GapStaysPositive(l.gap);
      var next := Round(less, l);
      PassProgress(less, l.s, next.gap, 0);
      if next.Goes() {
        var m := Settles(less, next);
        n := m + 1;
      } else {
        n := 1;
        assert Rounds(less, next, 0) == next;
      }
    }
  }

  /** Pairwise distinct keys are also necessary: the loop comes to an end if and only if no two
      keys are equal. With equal keys it goes on after any number of rounds. */
  lemma EndsIffDistinct<T(!new)>(less: (T, T) -> bool, s: seq<T>)
    requires Strict(less) && s != []
    ensures (exists n :: !Rounds(less, Loop(s, |s|, false), n).Goes()) <==> Distinct(less, s)
  {
    if Distinct(less, s) {
      var n := Settles(less, Loop(s, |s|, false));
    } else {
      forall n ensures Rounds(less, Loop(s, |s|, false), n).Goes() {
        GoesOn(less, Loop(s, |s|, false), n);
      }
    }
  }

  lemma TwoOccurrences<T>(s: seq<T>, i: nat, j: nat)
    requires i < j < |s|
    ensures s[i] == s[j] ==> multiset(s)[s[i]] >= 2
  {
    assert s == s[..j] + s[j..];
    assert s[..j][i] == s[i] && s[j..][0] == s[j];
    assert s[i] in s[..j] && s[j] in s[j..];
  }
}
