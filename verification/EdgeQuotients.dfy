/** The quotients of the service graph and the cluster graph, for the edges that the code
    enumerates: out-edges and in-edges are different edge objects, and the question is whether
    they project to the same pairs of services, or of cluster heads. */
module EdgeQuotients {
  import opened Sequences
  import opened ServiceTree
  import opened Traversal
  import opened GraphModel
  import opened Enumeration
  import opened Duality
  import opened EdgeWalks
  import opened EdgeDuality
  import opened ServiceGraph
  import opened ClusterGraph

  /** The usages enumerated over all services although their kind is filtered out. */
  ghost function Strays(sys: System, flags: Flags, dir: Direction): seq<Edge> {
    StrayEdges(sys, flags, dir, NodesOf(sys, Services(sys)))
  }

  ghost function AllOuter(sys: System, flags: Flags, dir: Direction): seq<Edge> {
    OuterEdges(sys, flags, dir, Services(sys))
  }

  lemma OuterSplit<K>(sys: System, flags: Flags, dir: Direction, key: Edge -> K)
    ensures multiset(Map(AllOuter(sys, flags, dir), key))
         == multiset(Map(DeclaredOuter(sys, flags, dir, Services(sys)), key)) + multiset(Map(Strays(sys, flags, dir), key))
  {
    EdgesSplit(sys, flags, dir, NodesOf(sys, Services(sys)));
    SplitMap(AllOuter(sys, flags, dir), DeclaredOuter(sys, flags, dir, Services(sys)), Strays(sys, flags, dir), key);
  }

  /** A direction whose half of the usages is filtered has no strays. */
  lemma {:induction false} NoHalfNoStrays(sys: System, flags: Flags, dir: Direction, ns: seq<Node>)
    requires !HasOwnHalf(flags, dir)
    ensures StrayEdges(sys, flags, dir, ns) == []
  {
    if ns != [] {
      NoHalfNoStrays(sys, flags, dir, ns[1..]);
    }
  }

  lemma CancelEqual<T>(a: multiset<T>, b: multiset<T>, s: multiset<T>, t: multiset<T>)
    requires a == b
    ensures a + s == b + t <==> s == t
  {
    assert (a + s) - a == s && (b + t) - b == t;
  }

  /** Everything that depends on the projected ends only agrees between the enumerated out-edges
      and in-edges if and only if the flags keep both halves of the usages that pass the filter,
      or neither, and the usages misread in the two directions project to the same. */
  lemma QuotientExactly<K>(sys: System, flags: Flags, key: Edge -> K)
    requires WellLinked(sys)
    requires forall e, e' :: EndsFn(sys)(e) == EndsFn(sys)(e') ==> key(e) == key(e')
    ensures multiset(Map(AllOuter(sys, flags, Out), key)) == multiset(Map(AllOuter(sys, flags, In), key))
       <==> ViewsAgree(sys, flags) && multiset(Map(Strays(sys, flags, Out), key)) == multiset(Map(Strays(sys, flags, In), key))
  {
    OuterSplit(sys, flags, Out, key);
    OuterSplit(sys, flags, In, key);
    if ViewsAgree(sys, flags) {
      AgreeingQuotient(sys, flags, key);
      CancelEqual(multiset(Map(DeclaredOuter(sys, flags, Out, Services(sys)), key)),
                  multiset(Map(DeclaredOuter(sys, flags, In, Services(sys)), key)),
                  multiset(Map(Strays(sys, flags, Out), key)), multiset(Map(Strays(sys, flags, In), key)));
    } else {
      var u :| u in sys.usages && Keeps(sys, flags, u);
      var dir := if HasOwnHalf(flags, Out) then Out else In;
      MoreOuterEdges(sys, flags, dir, if dir == Out then In else Out, u);
      DifferentSizes(AllOuter(sys, flags, Out), AllOuter(sys, flags, In), key);
    }
  }

  lemma DifferentSizes<A, K>(xs: seq<A>, ys: seq<A>, key: A -> K)
    requires |xs| != |ys|
    ensures multiset(Map(xs, key)) != multiset(Map(ys, key))
  {
    assert |multiset(Map(xs, key))| == |xs| && |multiset(Map(ys, key))| == |ys|;
  }

  lemma MoreOuterEdges(sys: System, flags: Flags, dir: Direction, other: Direction, u: UsageId)
    requires WellLinked(sys) && dir != other
    requires HasOwnHalf(flags, dir) && !HasOwnHalf(flags, other)
    requires u in sys.usages && Keeps(sys, flags, u)
    ensures |AllOuter(sys, flags, other)| < |AllOuter(sys, flags, dir)|
  {
    var ns := NodesOf(sys, Services(sys));
    HalfViewSmaller(sys, flags, dir, other, u);
    NoHalfNoStrays(sys, flags, other, ns);
    StraysIffClean(sys, flags, other, ns);
    VisitedIsDeclared(sys, flags, other, ns);
    MisstepsCount(sys, flags, dir, ns);
  }

  /** Service graph quotient: over all services, out_edges and in_edges project to the same
      multiset of service pairs under exactly this condition. */
  lemma ServiceQuotient(sys: System, flags: Flags)
    requires WellLinked(sys)
    ensures multiset(Map(AllOuter(sys, flags, Out), EndsFn(sys))) == multiset(Map(AllOuter(sys, flags, In), EndsFn(sys)))
       <==> ViewsAgree(sys, flags)
            && multiset(Map(Strays(sys, flags, Out), EndsFn(sys))) == multiset(Map(Strays(sys, flags, In), EndsFn(sys)))
    ensures flags.filterStrong == flags.filterWeak ==> Strays(sys, flags, Out) == Strays(sys, flags, In) == []
  {
    QuotientExactly(sys, flags, EndsFn(sys));
    UniformNoStrays(sys, flags, Out);
    UniformNoStrays(sys, flags, In);
  }

  lemma UniformNoStrays(sys: System, flags: Flags, dir: Direction)
    ensures flags.filterStrong == flags.filterWeak ==> Strays(sys, flags, dir) == []
  {
    AlwaysClean(sys, flags, dir, NodesOf(sys, Services(sys)));
    StraysIffClean(sys, flags, dir, NodesOf(sys, Services(sys)));
  }

  /** Replacing each export-to-usage edge by the usage-to-import edge turns the enumerated
      out-edges into a permutation of the enumerated in-edges, exactly if it does so with the
      misread usages. */
  lemma CrossPermutes(sys: System, flags: Flags)
    requires WellLinked(sys) && UsageHalvesAgree(flags)
    ensures multiset(Map(AllOuter(sys, flags, Out), CrossFn(sys))) == multiset(AllOuter(sys, flags, In))
       <==> multiset(Map(Strays(sys, flags, Out), CrossFn(sys))) == multiset(Strays(sys, flags, In))
  {
    OuterSplit(sys, flags, Out, CrossFn(sys));
    EdgesSplit(sys, flags, In, NodesOf(sys, Services(sys)));
    CrossPermutesDeclared(sys, flags);
    CancelEqual(multiset(Map(DeclaredOuter(sys, flags, Out, Services(sys)), CrossFn(sys))),
                multiset(DeclaredOuter(sys, flags, In, Services(sys))),
                multiset(Map(Strays(sys, flags, Out), CrossFn(sys))), multiset(Strays(sys, flags, In)));
  }

  /** Cluster graph quotient: collected cluster by cluster, out_edges and in_edges project to the
      same multiset of pairs of cluster heads under exactly this condition. */
  lemma ClusterQuotient(sys: System, flags: Flags)
    requires WellLinked(sys)
    ensures multiset(Map(Flatten(Heads(sys), ClusterEdgesFn(sys, flags, Out)), HeadEndsFn(sys)))
         == multiset(Map(Flatten(Heads(sys), ClusterEdgesFn(sys, flags, In)), HeadEndsFn(sys)))
       <==> ViewsAgree(sys, flags)
            && multiset(Map(Strays(sys, flags, Out), HeadEndsFn(sys))) == multiset(Map(Strays(sys, flags, In), HeadEndsFn(sys)))
  {
    QuotientExactly(sys, flags, HeadEndsFn(sys));
    ClusterEdgesPermuteServiceEdges(sys, flags, Out);
    ClusterEdgesPermuteServiceEdges(sys, flags, In);
    MapPermutation(Flatten(Heads(sys), ClusterEdgesFn(sys, flags, Out)), AllOuter(sys, flags, Out), HeadEndsFn(sys));
    MapPermutation(Flatten(Heads(sys), ClusterEdgesFn(sys, flags, In)), AllOuter(sys, flags, In), HeadEndsFn(sys));
  }

  ghost function HeadEndsFn(sys: System): Edge -> (Service, Service) {
    (e: Edge) => (HeadOf(sys, EdgeSource(sys, e)), HeadOf(sys, EdgeTarget(sys, e)))
  }
}
