/** Iterators without a stack, seen from outside: a successor function and the list of
    positions that repeated increments visit until an end position is reached. */
module Walks {
  import opened Sequences

  /** Incrementing from xs[0] visits exactly xs, in order, and then stands on end. */
  ghost predicate Chain<T>(next: T -> Option<T>, xs: seq<T>, end: Option<T>) {
    forall k {:trigger next(xs[k])} :: 0 <= k < |xs| ==> next(xs[k]) == Behind(xs, k, end)
  }

  /** The position that follows xs[k]. */
  ghost function Behind<T>(xs: seq<T>, k: nat, end: Option<T>): Option<T> {
    if k + 1 < |xs| then Some(xs[k + 1]) else end
  }

  lemma ChainAt<T>(next: T -> Option<T>, xs: seq<T>, end: Option<T>, k: nat)
    requires Chain(next, xs, end) && k < |xs|
    ensures next(xs[k]) == Behind(xs, k, end)
  {}

  /** A walk whose end sentinel is not among the visited positions. */
  ghost predicate Range<T>(next: T -> Option<T>, xs: seq<T>, end: Option<T>) {
    Chain(next, xs, end) && forall k :: 0 <= k < |xs| ==> Some(xs[k]) != end
  }

  ghost function FirstOf<T>(xs: seq<T>, end: Option<T>): Option<T> {
    if xs == [] then end else Some(xs[0])
  }

  function OrElse<T>(o: Option<T>, other: Option<T>): Option<T> {
    if o.Some? then o else other
  }

  lemma FirstOfConcat<T>(xs: seq<T>, ys: seq<T>)
    ensures FirstOf(xs + ys, None) == OrElse(FirstOf(xs, None), FirstOf(ys, None))
  {}

  lemma ChainConcat<T>(next: T -> Option<T>, xs: seq<T>, ys: seq<T>, end: Option<T>)
    requires Chain(next, xs, FirstOf(ys, end)) && Chain(next, ys, end)
    ensures Chain(next, xs + ys, end)
    ensures FirstOf(xs + ys, end) == FirstOf(xs, FirstOf(ys, end))
  {
    var zs := xs + ys;
    forall k | 0 <= k < |zs|
      ensures next(zs[k]) == Behind(zs, k, end)
    {
      if k < |xs| {
        assert zs[k] == xs[k];
        if k + 1 == |xs| && ys != [] {
          assert zs[k + 1] == ys[0];
        }
      } else {
        assert zs[k] == ys[k - |xs|];
        assert Behind(zs, k, end) == Behind(ys, k - |xs|, end);
      }
    }
  }

  lemma ChainSuffix<T>(next: T -> Option<T>, xs: seq<T>, end: Option<T>, k: nat)
    requires Chain(next, xs, end) && k <= |xs|
    ensures Chain(next, xs[k..], end)
  {
    forall i | 0 <= i < |xs[k..]|
      ensures next(xs[k..][i]) == Behind(xs[k..], i, end)
    {
      assert xs[k..][i] == xs[k + i];
    }
  }

  /** Starting a walk in the middle visits the rest of it. */
  lemma ChainFrom<T>(next: T -> Option<T>, xs: seq<T>, end: Option<T>, x: T)
    requires Chain(next, xs, end) && NoDup(xs) && x in xs
    ensures var ys := [x] + After(xs, x);
      |ys| <= |xs| && xs[|xs| - |ys|..] == ys && Chain(next, ys, end)
  {
    var k :| 0 <= k < |xs| && xs[k] == x;
    AfterAt(xs, k);
    assert [x] + xs[k + 1..] == xs[k..];
    ChainSuffix(next, xs, end, k);
  }

  /** One increment from x leads to what lies behind x, and the walk goes on from there. */
  lemma WalkBehind<T>(next: T -> Option<T>, xs: seq<T>, end: Option<T>, x: T)
    requires Chain(next, xs, end) && NoDup(xs) && x in xs
    ensures Chain(next, After(xs, x), end) && next(x) == FirstOf(After(xs, x), end)
  {
    var k :| 0 <= k < |xs| && xs[k] == x;
    AfterAt(xs, k);
    ChainAt(next, xs, end, k);
    ChainSuffix(next, xs, end, k + 1);
  }

  /** The same for a range with a sentinel. */
  lemma RangeBehind<T>(next: T -> Option<T>, xs: seq<T>, end: Option<T>, x: T)
    requires Range(next, xs, end) && NoDup(xs) && x in xs
    ensures Range(next, After(xs, x), end) && next(x) == FirstOf(After(xs, x), end)
  {
    WalkBehind(next, xs, end, x);
    var rest := After(xs, x);
    forall k | 0 <= k < |rest| ensures Some(rest[k]) != end {
      AfterMember(xs, x, rest[k]);
    }
  }

  lemma RangeTail<T>(next: T -> Option<T>, xs: seq<T>, end: Option<T>)
    requires Range(next, xs, end) && xs != []
    ensures Range(next, xs[1..], end)
  {
    ChainSuffix(next, xs, end, 1);
    forall k | 0 <= k < |xs[1..]| ensures Some(xs[1..][k]) != end {
      assert xs[1..][k] == xs[k + 1];
    }
  }

  /** Nested iteration: an inner walk over the piece of each outer element that, at the
      end of a piece, jumps to the first element of the next non-empty piece. */
  lemma {:induction false} FlattenChain<A, B>(next: B -> Option<B>, xs: seq<A>, f: A -> seq<B>, end: Option<B>)
    requires forall k :: 0 <= k < |xs| ==> Chain(next, f(xs[k]), FirstOf(Flatten(xs[k + 1..], f), end))
    ensures Chain(next, Flatten(xs, f), end)
  {
    if xs != [] {
      var rest := xs[1..];
      forall k | 0 <= k < |rest|
        ensures Chain(next, f(rest[k]), FirstOf(Flatten(rest[k + 1..], f), end))
      {
        assert rest[k] == xs[k + 1] && rest[k + 1..] == xs[k + 2..];
      }
      FlattenChain(next, rest, f, end);
      assert Chain(next, f(xs[0]), FirstOf(Flatten(xs[1..], f), end));
      ChainConcat(next, f(xs[0]), Flatten(rest, f), end);
    }
  }

  /** The distance between two iterators, as detail::distance counts it. The loop stops
      exactly at the sentinel when the sentinel is not among the visited positions. */
  method Distance<T(==)>(next: T -> Option<T>, begin: Option<T>, end: Option<T>, ghost xs: seq<T>)
    returns (count: nat)
    requires Chain(next, xs, end) && begin == FirstOf(xs, end)
    requires forall i :: 0 <= i < |xs| ==> Some(xs[i]) != end
    ensures count == |xs|
  {
    count := 0;
    var itr := begin;
    while itr != end
      invariant count <= |xs|
      invariant itr == if count < |xs| then Some(xs[count]) else end
      decreases |xs| - count
    {
      itr := next(itr.value);
      count := count + 1;
    }
  }
}
