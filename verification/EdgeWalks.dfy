/** Edge iteration over a sequence of nodes. The three graphs differ only in which nodes
    they run over; advance and first-edge search are the same. */
module EdgeWalks {
  import opened Sequences
  import opened Walks
  import opened ServiceTree
  import opened GraphModel
  import opened Enumeration
  import opened Duality

  /** The edges the code enumerates at one node. */
  ghost function VisitedAt(sys: System, flags: Flags, dir: Direction, n: Node): seq<Edge> {
    Map(Visited(sys, flags, dir, n), EdgeFn(dir, n))
  }

  ghost function VisitedEdgesFn(sys: System, flags: Flags, dir: Direction): Node -> seq<Edge> {
    (n: Node) => VisitedAt(sys, flags, dir, n)
  }

  ghost function VisitedEdges(sys: System, flags: Flags, dir: Direction, ns: seq<Node>): seq<Edge> {
    Flatten(ns, VisitedEdgesFn(sys, flags, dir))
  }

  /** first_edge_of */
  function FirstEdgeOf(sys: System, flags: Flags, dir: Direction, n: Node): Option<Edge> {
    var first := Begin(sys, flags, dir, n);
    if first.Some? then Some(MakeEdge(dir, n, first.value)) else None
  }

  /** advance_edge */
  function AdvanceEdge(sys: System, flags: Flags, dir: Direction, e: Edge): Option<Edge> {
    var next := Advance(sys, flags, dir, Near(dir, e), Far(dir, e));
    if next.Some? then Some(MakeEdge(dir, Near(dir, e), next.value)) else None
  }

  ghost function AdvanceEdgeFn(sys: System, flags: Flags, dir: Direction): Edge -> Option<Edge> {
    (e: Edge) => AdvanceEdge(sys, flags, dir, e)
  }

  /** Advance, or else the first edge of the nodes of ns behind the current one. */
  ghost function NextEdge(sys: System, flags: Flags, dir: Direction, ns: seq<Node>, e: Edge): Option<Edge> {
    OrElse(AdvanceEdge(sys, flags, dir, e), FirstOf(VisitedEdges(sys, flags, dir, After(ns, Near(dir, e))), None))
  }

  ghost function NextEdgeFn(sys: System, flags: Flags, dir: Direction, ns: seq<Node>): Edge -> Option<Edge> {
    (e: Edge) => NextEdge(sys, flags, dir, ns, e)
  }

  /** in_edges and out_edges of one node: the walk and where it starts. */
  lemma NodeEdgesWalk(sys: System, flags: Flags, dir: Direction, n: Node)
    requires WellLinked(sys) && ValidNode(sys, n)
    ensures var es := VisitedEdgesFn(sys, flags, dir)(n);
      FirstEdgeOf(sys, flags, dir, n) == FirstOf(es, None) && Chain(AdvanceEdgeFn(sys, flags, dir), es, None)
  {
    NodeEnumeration(sys, flags, dir, n);
    var ms, es := Visited(sys, flags, dir, n), VisitedEdgesFn(sys, flags, dir)(n);
    forall k | 0 <= k < |es| ensures AdvanceEdge(sys, flags, dir, es[k]) == Behind(es, k, None) {
      assert es[k] == MakeEdge(dir, n, ms[k]);
      ChainAt(AdvanceFn(sys, flags, dir, n), ms, None, k);
    }
  }

  /** The first edge over a list of nodes: at the first node, or else behind it. */
  lemma FirstEdgeSplit(sys: System, flags: Flags, dir: Direction, ns: seq<Node>)
    requires WellLinked(sys) && ns != [] && ValidNode(sys, ns[0])
    ensures FirstOf(VisitedEdges(sys, flags, dir, ns), None)
         == OrElse(FirstEdgeOf(sys, flags, dir, ns[0]), FirstOf(VisitedEdges(sys, flags, dir, ns[1..]), None))
  {
    NodeEdgesWalk(sys, flags, dir, ns[0]);
    FirstOfConcat(VisitedEdgesFn(sys, flags, dir)(ns[0]), VisitedEdges(sys, flags, dir, ns[1..]));
  }

  /** Iterating over any duplicate free sequence of nodes visits the edges of each in turn. */
  lemma EdgesWalk(sys: System, flags: Flags, dir: Direction, ns: seq<Node>)
    requires WellLinked(sys) && NoDup(ns) && forall n :: n in ns ==> ValidNode(sys, n)
    ensures Chain(NextEdgeFn(sys, flags, dir, ns), VisitedEdges(sys, flags, dir, ns), None)
  {
    var f, next := VisitedEdgesFn(sys, flags, dir), NextEdgeFn(sys, flags, dir, ns);
    forall k | 0 <= k < |ns| ensures Chain(next, f(ns[k]), FirstOf(Flatten(ns[k + 1..], f), None)) {
      NodeEdgesWalk(sys, flags, dir, ns[k]);
      AfterAt(ns, k);
      var es, end := f(ns[k]), FirstOf(Flatten(ns[k + 1..], f), None);
      forall i | 0 <= i < |es| ensures next(es[i]) == Behind(es, i, end) {
        ChainAt(AdvanceEdgeFn(sys, flags, dir), es, None, i);
        assert Near(dir, es[i]) == ns[k];
      }
    }
    FlattenChain(next, ns, f, None);
  }

  lemma {:induction false} NearOfVisited(sys: System, flags: Flags, dir: Direction, ns: seq<Node>, e: Edge)
    ensures e in VisitedEdges(sys, flags, dir, ns) ==> Near(dir, e) in ns
  {
    if ns != [] && e !in VisitedEdgesFn(sys, flags, dir)(ns[0]) {
      NearOfVisited(sys, flags, dir, ns[1..], e);
    }
  }

  /** No vertex misreads its usage filter. */
  ghost predicate Clean(sys: System, flags: Flags, dir: Direction, ns: seq<Node>) {
    forall n :: n in ns ==> !Misstep(sys, flags, dir, n)
  }

  ghost function MisstepFn(sys: System, flags: Flags, dir: Direction): Node -> nat {
    (n: Node) => if Misstep(sys, flags, dir, n) then 1 else 0
  }

  lemma VisitedLength(sys: System, flags: Flags, dir: Direction, n: Node)
    ensures |Visited(sys, flags, dir, n)|
         == |Declared(sys, flags, dir, n)| + MisstepFn(sys, flags, dir)(n)
  {
    var us := UsageSource(sys, flags, dir, n);
    if us != [] {
      assert |Kept(sys, flags, us)| == |Kept(sys, flags, us[1..])| + (if Keeps(sys, flags, us[0]) then 1 else 0);
    }
  }

  /** The enumeration exceeds the declared edges by one per misstep. */
  lemma {:induction false} MisstepsCount(sys: System, flags: Flags, dir: Direction, ns: seq<Node>)
    ensures |VisitedEdges(sys, flags, dir, ns)|
         == |DeclaredEdges(sys, flags, dir, ns)| + Sum(ns, MisstepFn(sys, flags, dir))
  {
    if ns != [] {
      MisstepsCount(sys, flags, dir, ns[1..]);
      VisitedLength(sys, flags, dir, ns[0]);
    }
  }

  lemma {:induction false} NoMissteps(sys: System, flags: Flags, dir: Direction, ns: seq<Node>)
    ensures Sum(ns, MisstepFn(sys, flags, dir)) == 0 <==> forall n :: n in ns ==> !Misstep(sys, flags, dir, n)
  {
    if ns != [] {
      NoMissteps(sys, flags, dir, ns[1..]);
    }
  }

  /** Without missteps the enumeration is the declared one, edge for edge. */
  lemma VisitedIsDeclared(sys: System, flags: Flags, dir: Direction, ns: seq<Node>)
    requires forall n :: n in ns ==> !Misstep(sys, flags, dir, n)
    ensures VisitedEdges(sys, flags, dir, ns) == DeclaredEdges(sys, flags, dir, ns)
  {
    var f, g := VisitedEdgesFn(sys, flags, dir), DeclaredEdgesFn(sys, flags, dir);
    forall i | 0 <= i < |ns| ensures f(ns[i]) == g(ns[i]) {
      EnumerationMeetsDegree(sys, flags, dir, ns[i]);
    }
    FlattenCongruence(ns, f, g);
  }
}
