/** DependencyGraph: the iterators over its edges, and init_graph with its debug asserts
    as proved results. */
module NodeGraph {
  import opened Sequences
  import opened Walks
  import opened ServiceTree
  import opened GraphModel
  import opened Enumeration
  import opened Vertices
  import opened Duality
  import opened EdgeWalks
  import opened EdgeDuality

  class NodeIterator {
    const sys: System
    var current: Option<Node>

    constructor (sys: System, start: Node)
      ensures this.sys == sys && current == Some(start)
    {
      this.sys := sys;
      current := Some(start);
    }

    method Increment()
      requires WellLinked(sys) && current.Some? && ValidNode(sys, current.value)
      modifies this
      ensures current == FirstOf(After(AllNodes(sys), old(current).value), None)
      ensures current == NextNode(sys, old(current).value)
    {
      RestOfNodes(sys, current.value);
      var me := current.value;
      match me
      case ServiceNode(s) =>
        current := PartFrom(sys, s, 0);
        if current.None? {
          current := NextService(sys, s);
        }
      case ImportNode(p) =>
        current := PartFrom(sys, p.owner, p.part + 1);
        if current.None? {
          current := NextService(sys, p.owner);
        }
      case ExportNode(p) =>
        current := FirstUsage(PartAt(sys, p).usages);
        if current.None? {
          current := PartFrom(sys, p.owner, p.part + 1);
          if current.None? {
            current := NextService(sys, p.owner);
          }
        }
      case UsageNode(u) =>
        var p := UsedBy(sys, u);
        current := FirstUsage(After(PartAt(sys, p).usages, u));
        if current.None? {
          current := PartFrom(sys, p.owner, p.part + 1);
          if current.None? {
            current := NextService(sys, p.owner);
          }
        }
    }
  }

  /** first_edge_in_range; rest lists the nodes still ahead. */
  method FirstEdgeInRange(sys: System, flags: Flags, start: Option<Node>, ghost rest: seq<Node>)
    returns (first: Option<Edge>)
    requires WellLinked(sys) && Chain(NextNodeFn(sys), rest, None) && start == FirstOf(rest, None)
    requires forall n :: n in rest ==> ValidNode(sys, n)
    ensures first == FirstOf(VisitedEdges(sys, flags, Out, rest), None)
  {
    var current := start;
    ghost var ns := rest;
    while current.Some?
      invariant Chain(NextNodeFn(sys), ns, None) && current == FirstOf(ns, None)
      invariant forall n :: n in ns ==> ValidNode(sys, n)
      invariant FirstOf(VisitedEdges(sys, flags, Out, rest), None) == FirstOf(VisitedEdges(sys, flags, Out, ns), None)
      decreases |ns|
    {
      FirstEdgeSplit(sys, flags, Out, ns);
      first := FirstEdgeOf(sys, flags, Out, current.value);
      if first.Some? {
        return;
      }
      ChainAt(NextNodeFn(sys), ns, None, 0);
      current := NextNode(sys, current.value);
      ChainSuffix(NextNodeFn(sys), ns, None, 1);
      ns := ns[1..];
    }
    first := None;
  }

  class EdgeIterator {
    const sys: System
    const flags: Flags
    var current: Option<Edge>

    constructor (sys: System, flags: Flags, start: Option<Edge>)
      ensures this.sys == sys && this.flags == flags && current == start
    {
      this.sys := sys;
      this.flags := flags;
      current := start;
    }

    method Increment()
      requires WellLinked(sys) && current.Some? && ValidNode(sys, current.value.source)
      modifies this
      ensures current == NextEdge(sys, flags, Out, AllNodes(sys), old(current).value)
    {
      current := EdgeBehind(sys, flags, current.value);
    }
  }

  /** edge_iterator::increment: advance at the source node, or search from the node behind it. */
  method EdgeBehind(sys: System, flags: Flags, e: Edge) returns (next: Option<Edge>)
    requires WellLinked(sys) && ValidNode(sys, e.source)
    ensures next == NextEdge(sys, flags, Out, AllNodes(sys), e)
  {
    next := AdvanceEdge(sys, flags, Out, e);
    if next.None? {
      RestOfNodes(sys, e.source);
      next := FirstEdgeInRange(sys, flags, NextNode(sys, e.source), After(AllNodes(sys), e.source));
    }
  }

  lemma RestOfNodes(sys: System, n: Node)
    requires WellLinked(sys) && ValidNode(sys, n)
    ensures var rest := After(AllNodes(sys), n);
      && Chain(NextNodeFn(sys), rest, None) && NextNode(sys, n) == FirstOf(rest, None)
      && forall m :: m in rest ==> ValidNode(sys, m)
  {
    VerticesComplete(sys);
    WalkBehind(NextNodeFn(sys), AllNodes(sys), None, n);
    forall m | m in After(AllNodes(sys), n) ensures ValidNode(sys, m) {
      AfterMember(AllNodes(sys), n, m);
    }
  }

  /** All edges in the order of edges(graph). */
  ghost function AllEdges(sys: System, flags: Flags): seq<Edge> {
    VisitedEdges(sys, flags, Out, AllNodes(sys))
  }

  lemma AllEdgesWalk(sys: System, flags: Flags)
    requires WellLinked(sys)
    ensures Chain(NextEdgeFn(sys, flags, Out, AllNodes(sys)), AllEdges(sys, flags), None)
    ensures forall e :: e in AllEdges(sys, flags) ==> ValidNode(sys, e.source)
  {
    VerticesComplete(sys);
    EdgesWalk(sys, flags, Out, AllNodes(sys));
    forall e | e in AllEdges(sys, flags) ensures ValidNode(sys, e.source) {
      NearOfVisited(sys, flags, Out, AllNodes(sys), e);
    }
  }

  lemma EdgeBehindAt(sys: System, flags: Flags, es: seq<Edge>, k: nat)
    requires Chain(NextEdgeFn(sys, flags, Out, AllNodes(sys)), es, None) && k < |es|
    ensures NextEdge(sys, flags, Out, AllNodes(sys), es[k]) == Behind(es, k, None)
  {
    ChainAt(NextEdgeFn(sys, flags, Out, AllNodes(sys)), es, None, k);
  }

  method WalkEdges(sys: System, flags: Flags, start: Option<Edge>, ghost es: seq<Edge>) returns (visited: seq<Edge>)
    requires WellLinked(sys)
    requires Chain(NextEdgeFn(sys, flags, Out, AllNodes(sys)), es, None) && start == FirstOf(es, None)
    requires forall e :: e in es ==> ValidNode(sys, e.source)
    ensures visited == es
  {
    var itr := start;
    visited := [];
    ghost var k := 0;
    while itr.Some?
      invariant k <= |es| && visited == es[..k]
      invariant itr == if k < |es| then Some(es[k]) else None
      decreases |es| - k
    {
      PrefixSnoc(es, k);
      EdgeBehindAt(sys, flags, es, k);
      visited := visited + [itr.value];
      itr := EdgeBehind(sys, flags, itr.value);
      k := k + 1;
    }
    assert es[..|es|] == es;
  }

  /** for (Edge const& e : edges(graph)) */
  method Edges(sys: System, flags: Flags) returns (visited: seq<Edge>)
    requires WellLinked(sys)
    ensures visited == AllEdges(sys, flags)
  {
    VerticesComplete(sys);
    AllEdgesWalk(sys, flags);
    var start := FirstEdgeInRange(sys, flags, Some(ServiceNode(Root)), AllNodes(sys));
    visited := WalkEdges(sys, flags, start, AllEdges(sys, flags));
  }

  /** The size of in_edges(v) or out_edges(v), counted by iterating. */
  method EdgeCount(sys: System, flags: Flags, dir: Direction, n: Node) returns (count: nat)
    requires WellLinked(sys) && ValidNode(sys, n)
    ensures count == |Visited(sys, flags, dir, n)|
  {
    NodeEdgesWalk(sys, flags, dir, n);
    var next := (e: Edge) => AdvanceEdge(sys, flags, dir, e);
    assert Chain(next, VisitedEdgesFn(sys, flags, dir)(n), None) by {
      assert Chain(AdvanceEdgeFn(sys, flags, dir), VisitedEdgesFn(sys, flags, dir)(n), None);
    }
    count := Distance(next, FirstEdgeOf(sys, flags, dir, n), None, VisitedEdgesFn(sys, flags, dir)(n));
  }

  /** What init_graph counts, and whether each of its asserts holds. */
  datatype Checks = Checks(
    numVertices: nat, numEdges: nat, allIn: nat, allOut: nat,
    degreesMatch: bool, edgesMatch: bool)

  /** The counters after the vertices ns. */
  ghost function Tally(sys: System, flags: Flags, ns: seq<Node>): Checks {
    Checks(|ns|, Sum(ns, DegreeFn(sys, flags, Out)), Sum(ns, DegreeFn(sys, flags, In)),
           Sum(ns, DegreeFn(sys, flags, Out)), Clean(sys, flags, Out, ns) && Clean(sys, flags, In, ns), true)
  }

  method CountVertices(sys: System, flags: Flags, ghost ns: seq<Node>) returns (c: Checks)
    requires WellLinked(sys) && Chain(NextNodeFn(sys), ns, None) && FirstOf(ns, None) == Some(ServiceNode(Root))
    requires forall n :: n in ns ==> ValidNode(sys, n)
    ensures c == Tally(sys, flags, ns)
  {
    c := Checks(0, 0, 0, 0, true, true);
    var itr := new NodeIterator(sys, ServiceNode(Root));
    while itr.current.Some?
      invariant itr.sys == sys && c.numVertices <= |ns|
      invariant itr.current == if c.numVertices < |ns| then Some(ns[c.numVertices]) else None
      invariant c == Tally(sys, flags, ns[..c.numVertices])
      decreases |ns| - c.numVertices
    {
      var n := itr.current.value;
      assert n in ns;
      TallyStep(sys, flags, ns, c.numVertices);
      ChainAt(NextNodeFn(sys), ns, None, c.numVertices);
      c := CountVertex(sys, flags, n, c);
      itr.Increment();
    }
    assert ns[..|ns|] == ns;
  }

  /** The counters after one more vertex with these degrees and enumeration lengths. */
  function Counted(c: Checks, outDegree: nat, inDegree: nat, outCount: nat, inCount: nat): Checks {
    Checks(c.numVertices + 1, c.numEdges + outDegree, c.allIn + inDegree, c.allOut + outDegree,
           c.degreesMatch && inCount == inDegree && outCount == outDegree, c.edgesMatch)
  }

  /** The body of the vertex loop. */
  method CountVertex(sys: System, flags: Flags, n: Node, before: Checks) returns (c: Checks)
    requires WellLinked(sys) && ValidNode(sys, n)
    ensures c == TallyOne(sys, flags, n, before)
  {
    var outCount := EdgeCount(sys, flags, Out, n);
    var inCount := EdgeCount(sys, flags, In, n);
    c := Counted(before, Degree(sys, flags, Out, n), Degree(sys, flags, In, n), outCount, inCount);
  }

  ghost function TallyOne(sys: System, flags: Flags, n: Node, c: Checks): Checks {
    Counted(c, Degree(sys, flags, Out, n), Degree(sys, flags, In, n),
            |Visited(sys, flags, Out, n)|, |Visited(sys, flags, In, n)|)
  }

  lemma CleanSnoc(sys: System, flags: Flags, dir: Direction, ns: seq<Node>, n: Node)
    ensures Clean(sys, flags, dir, ns + [n]) <==>
            Clean(sys, flags, dir, ns) && |Visited(sys, flags, dir, n)| == Degree(sys, flags, dir, n)
  {
    EnumerationMeetsDegree(sys, flags, dir, n);
    assert forall m :: m in ns + [n] <==> m in ns || m == n;
  }

  lemma TallyStep(sys: System, flags: Flags, ns: seq<Node>, k: nat)
    requires k < |ns|
    ensures Tally(sys, flags, ns[..k + 1]) == TallyOne(sys, flags, ns[k], Tally(sys, flags, ns[..k]))
  {
    PrefixSnoc(ns, k);
    SumSnoc(ns[..k], ns[k], DegreeFn(sys, flags, Out));
    SumSnoc(ns[..k], ns[k], DegreeFn(sys, flags, In));
    CleanSnoc(sys, flags, Out, ns[..k], ns[k]);
    CleanSnoc(sys, flags, In, ns[..k], ns[k]);
  }

  /** init_graph with its asserts. The three totals agree for every flag set; the asserts that
      compare an enumeration with a degree hold exactly when no node misreads the usage filter. */
  method InitGraph(sys: System, flags: Flags) returns (c: Checks)
    requires WellLinked(sys)
    ensures c.numVertices == |AllNodes(sys)|
    ensures c.numEdges == c.allIn == c.allOut == |DeclaredEdges(sys, flags, Out, AllNodes(sys))|
    ensures c.degreesMatch <==> Clean(sys, flags, Out, AllNodes(sys)) && Clean(sys, flags, In, AllNodes(sys))
    ensures c.edgesMatch <==> Clean(sys, flags, Out, AllNodes(sys))
    ensures flags.filterStrong == flags.filterWeak ==> c.degreesMatch && c.edgesMatch
  {
    VerticesComplete(sys);
    c := CountVertices(sys, flags, AllNodes(sys));
    var es := Edges(sys, flags);
    c := c.(edgesMatch := c.numEdges == |es|);
    DegreeSums(sys, flags);
    MisstepsCount(sys, flags, Out, AllNodes(sys));
    NoMissteps(sys, flags, Out, AllNodes(sys));
    if flags.filterStrong == flags.filterWeak {
      forall n, dir | n in AllNodes(sys) ensures !Misstep(sys, flags, dir, n) {
        UniformFlagsNeverMisstep(sys, flags, dir, n);
      }
    }
  }

  // ----- A system on which a partial usage filter breaks the asserts -----

  const Exporter := PartRef(Child(Root, 0, 0), 0)
  const Importer := PartRef(Child(Root, 0, 1), 0)

  /** Two services below the root; the second one uses the first one weakly. */
  const WeakPair := System(
    Tree([Part(Export, [Tree([Part(Export, [], [0])]), Tree([Part(Import, [], [0])])], [])]),
    0, map[0 := Usage(Exporter, Importer, true)])

  const StrongOnly := NoFilter.(filterWeak := true)

  lemma WeakPairTree()
    ensures At(WeakPair, Exporter.owner) == Tree([Part(Export, [], [0])])
    ensures At(WeakPair, Importer.owner) == Tree([Part(Import, [], [0])])
  {
    assert At(WeakPair, Root) == WeakPair.root;
  }

  lemma {:induction false} WeakPairServices(s: Service)
    requires Valid(WeakPair, s)
    ensures s == Root || s == Exporter.owner || s == Importer.owner
  {
    WeakPairTree();
    if s.Child? {
      WeakPairServices(s.owner);
    }
  }

  lemma WeakPairWellLinked()
    ensures WellLinked(WeakPair)
  {
    WeakPairTree();
    assert Valid(WeakPair, Root);
    forall p | ValidPart(WeakPair, p) ensures ListsWell(WeakPair, p) {
      WeakPairServices(p.owner);
    }
    forall u | u in WeakPair.usages
      ensures HangsIn(WeakPair, u, UsedBy(WeakPair, u), Export) && HangsIn(WeakPair, u, UserOf(WeakPair, u), Import)
    {
      assert UsedBy(WeakPair, u) == Exporter && UserOf(WeakPair, u) == Importer;
      assert 0 in PartAt(WeakPair, Exporter).usages && 0 in PartAt(WeakPair, Importer).usages;
    }
  }

  /** With weak usages filtered out, in_edges of the importer still lists the weak usage that
      its in_degree does not count. */
  lemma PartialFilterBreaksDegree()
    ensures WellLinked(WeakPair) && ValidNode(WeakPair, ImportNode(Importer))
    ensures Degree(WeakPair, StrongOnly, In, ImportNode(Importer)) == 0
    ensures Visited(WeakPair, StrongOnly, In, ImportNode(Importer)) == [UsageNode(0)]
  {
    WeakPairWellLinked();
    WeakPairTree();
    assert Valid(WeakPair, Root);
    var n := ImportNode(Importer);
    var us := UsageSource(WeakPair, StrongOnly, In, n);
    assert us == [0] && Kept(WeakPair, StrongOnly, us[1..]) == [];
    DegreeIsDeclared(WeakPair, StrongOnly, In, n);
    assert Nearby(WeakPair, StrongOnly, In, n) == [];
  }

  /** On the same system the enumerated out-edges and in-edges are not the same edges. */
  lemma PartialFilterBreaksDuality()
    ensures multiset(VisitedEdges(WeakPair, StrongOnly, Out, AllNodes(WeakPair)))
         != multiset(VisitedEdges(WeakPair, StrongOnly, In, AllNodes(WeakPair)))
  {
    PartialFilterBreaksDegree();
    EnumerationMeetsDegree(WeakPair, StrongOnly, In, ImportNode(Importer));
    VerticesComplete(WeakPair);
    InOutDuality(WeakPair, StrongOnly);
  }
}
