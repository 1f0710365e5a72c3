/** clusters(x) for any service x, where the precomputed end need not be a cluster head. */
module ClusterRanges {
  import opened Sequences
  import opened Walks
  import opened ServiceTree
  import opened Traversal
  import opened Postorder

  /** Two walks from the same position agree until the shorter one reaches its end. */
  lemma {:induction false} SameWalk<T>(next: T -> Option<T>, xs: seq<T>, end: Option<T>, ys: seq<T>)
    requires Chain(next, xs, end) && Chain(next, ys, None) && xs != [] && ys != [] && xs[0] == ys[0]
    ensures |xs| <= |ys| && ys == xs + ys[|xs|..] && end == FirstOf(ys[|xs|..], None)
    decreases |xs|
  {
    ChainAt(next, xs, end, 0);
    ChainAt(next, ys, None, 0);
    if |xs| > 1 {
      ChainSuffix(next, xs, end, 1);
      ChainSuffix(next, ys, None, 1);
      SameWalk(next, xs[1..], end, ys[1..]);
    }
  }

  lemma ChainPrefix<T>(next: T -> Option<T>, xs: seq<T>, ys: seq<T>, end: Option<T>)
    requires Chain(next, xs + ys, end)
    ensures Chain(next, xs, FirstOf(ys, end))
  {
    forall k | 0 <= k < |xs| ensures next(xs[k]) == Behind(xs, k, FirstOf(ys, end)) {
      ChainAt(next, xs + ys, end, k);
      assert (xs + ys)[k] == xs[k];
    }
  }

  /** A walk visits its listed positions and nothing else before it ends. */
  lemma {:induction false} StaysInWalk<T>(next: T -> Option<T>, xs: seq<T>, n: nat)
    requires Chain(next, xs, None)
    ensures var at := Iterate(next, FirstOf(xs, None), n); at.Some? ==> at.value in xs
    decreases n
  {
    if xs != [] && n > 0 {
      ChainAt(next, xs, None, 0);
      ChainSuffix(next, xs, None, 1);
      StaysInWalk(next, xs[1..], n - 1);
    }
  }

  /** The services below x are a stretch of all services; behind it comes the service that
      next_parent_or_neighbour finds. */
  lemma BelowIsStretch(sys: System, x: Service) returns (rest: seq<Service>)
    requires Valid(sys, x)
    ensures After(Services(sys), x) == Listing(sys, x, All)[1..] + rest
    ensures Up(sys, x, All) == FirstOf(rest, None)
  {
    TransitiveServicesComplete(sys);
    PreorderChain(sys, x, All);
    var below, after := Listing(sys, x, All), After(Services(sys), x);
    ChainFrom(NextFn(sys, All), Services(sys), None, x);
    SameWalk(NextFn(sys, All), below, Up(sys, x, All), [x] + after);
    rest := ([x] + after)[|below|..];
    DropFront(x, after, below, rest);
  }

  lemma DropFront<T>(x: T, after: seq<T>, below: seq<T>, rest: seq<T>)
    requires below != [] && [x] + after == below + rest
    ensures after == below[1..] + rest
  {
    assert ([x] + after)[1..] == after;
    assert (below + rest)[1..] == below[1..] + rest;
  }

  /** What clusters(x) is meant to visit: x and the cluster heads below it. */
  ghost function ClustersFrom(sys: System, x: Service): seq<Service> {
    [x] + Flatten(Listing(sys, x, All)[1..], IfHeadFn(sys))
  }

  lemma HeadsSuffix(sys: System, i: nat)
    requires WellRooted(sys) && i <= |Services(sys)|
    ensures Chain(NextHeadFn(sys), Flatten(Services(sys)[i..], IfHeadFn(sys)), None)
  {
    var ss, f := Services(sys), IfHeadFn(sys);
    ClustersComplete(sys);
    FlattenConcat(ss[..i], ss[i..], f);
    assert ss == ss[..i] + ss[i..];
    ChainSuffix(NextHeadFn(sys), Heads(sys), None, |Flatten(ss[..i], f)|);
    assert Heads(sys)[|Flatten(ss[..i], f)|..] == Flatten(ss[i..], f);
  }

  /** Without an end, cluster_iterator runs from x over all heads behind it. */
  lemma HeadsBehind(sys: System, x: Service)
    requires WellRooted(sys) && Valid(sys, x)
    ensures Chain(NextHeadFn(sys), [x] + Flatten(After(Services(sys), x), IfHeadFn(sys)), None)
  {
    TransitiveServicesComplete(sys);
    assert x in Services(sys);
    var i :| 0 <= i < |Services(sys)| && Services(sys)[i] == x;
    AfterAt(Services(sys), i);
    HeadsSuffix(sys, i + 1);
    PrependWalk(NextHeadFn(sys), x, Flatten(After(Services(sys), x), IfHeadFn(sys)));
  }

  lemma PrependWalk<T>(next: T -> Option<T>, x: T, xs: seq<T>)
    requires Chain(next, xs, None) && next(x) == FirstOf(xs, None)
    ensures Chain(next, [x] + xs, None)
  {
    ChainConcat(next, [x], xs, None);
  }

  lemma ClustersMember(sys: System, x: Service, h: Service)
    requires Valid(sys, x)
    ensures h in ClustersFrom(sys, x) <==>
            h == x || (Valid(sys, h) && IsClusterHead(sys, h) && Reach(sys, h, x, All))
  {
    var below := Listing(sys, x, All);
    ListingMember(sys, x, All, h);
    FlattenMember(below[1..], IfHeadFn(sys), h);
    assert below == [x] + below[1..];
    if h in below[1..] {
      var i :| 0 <= i < |below[1..]| && below[1..][i] == h;
      assert IsClusterHead(sys, h) ==> h in IfHeadFn(sys)(below[1..][i]);
    }
  }

  /** The end of clusters(x) is the end of the walk or a cluster head. */
  predicate EndsAtHead(sys: System, x: Service) {
    var end := Up(sys, x, All);
    end.Some? ==> IsClusterHead(sys, end.value)
  }

  /** All heads behind x: those below it, then those behind the service that follows. */
  lemma SplitHeads(sys: System, x: Service) returns (later: seq<Service>)
    requires WellRooted(sys) && Valid(sys, x)
    ensures Chain(NextHeadFn(sys), ClustersFrom(sys, x) + later, None)
    ensures EndsAtHead(sys, x) ==> Up(sys, x, All) == FirstOf(later, None)
    ensures !EndsAtHead(sys, x) ==> Up(sys, x, All).value !in ClustersFrom(sys, x) + later
  {
    var f := IfHeadFn(sys);
    var rest := BelowIsStretch(sys, x);
    later := Flatten(rest, f);
    HeadsBehind(sys, x);
    FlattenConcat(Listing(sys, x, All)[1..], rest, f);
    assert [x] + Flatten(After(Services(sys), x), f) == ClustersFrom(sys, x) + later;
    if !EndsAtHead(sys, x) {
      NeverAtEnd(sys, x);
    }
  }

  lemma NeverAtEnd(sys: System, x: Service)
    requires Up(sys, x, All).Some? && !IsClusterHead(sys, Up(sys, x, All).value)
    ensures Up(sys, x, All).value !in [x] + Flatten(After(Services(sys), x), IfHeadFn(sys))
  {
    UpShallow(sys, x, All);
    FlattenMember(After(Services(sys), x), IfHeadFn(sys), Up(sys, x, All).value);
  }

  /** clusters(x) reaches its end if and only if that end is a cluster head or there is no
      service behind x. Then it visits x and the heads below it; otherwise it runs past. */
  lemma ClustersEndExactly(sys: System, x: Service)
    requires WellRooted(sys) && Valid(sys, x)
    ensures (exists n :: Iterate(NextHeadFn(sys), Some(x), n) == Up(sys, x, All)) <==> EndsAtHead(sys, x)
    ensures EndsAtHead(sys, x) ==> Range(NextHeadFn(sys), ClustersFrom(sys, x), Up(sys, x, All))
    ensures forall h :: h in ClustersFrom(sys, x) <==>
              h == x || (Valid(sys, h) && IsClusterHead(sys, h) && Reach(sys, h, x, All))
  {
    var later := SplitHeads(sys, x);
    if EndsAtHead(sys, x) {
      ChainPrefix(NextHeadFn(sys), ClustersFrom(sys, x), later, None);
      ChainEnds(NextHeadFn(sys), ClustersFrom(sys, x), Up(sys, x, All));
    } else {
      forall n ensures Iterate(NextHeadFn(sys), Some(x), n) != Up(sys, x, All) {
        StaysInWalk(NextHeadFn(sys), ClustersFrom(sys, x) + later, n);
      }
    }
    forall h ensures h in ClustersFrom(sys, x) <==>
                     h == x || (Valid(sys, h) && IsClusterHead(sys, h) && Reach(sys, h, x, All)) {
      ClustersMember(sys, x, h);
    }
    forall k | 0 <= k < |ClustersFrom(sys, x)| ensures Some(ClustersFrom(sys, x)[k]) != Up(sys, x, All) {
      ClustersMember(sys, x, ClustersFrom(sys, x)[k]);
      UpShallow(sys, x, All);
      UpOutside(sys, x, All, All);
    }
  }
}
