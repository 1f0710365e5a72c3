/** The separately written in and out code describes one relation: every edge is found
    once from its source and once from its target. */
module Duality {
  import opened Sequences
  import opened Walks
  import opened ServiceTree
  import opened Traversal
  import opened GraphModel
  import opened Enumeration
  import opened Vertices

  /** What it means that the graph has an edge from a to b, said with the bits of the flags and
      the fields of the tree and of the usages. */
  predicate Linked(sys: System, flags: Flags, a: Node, b: Node) {
    match a
    case ServiceNode(s) =>
      || (b.ImportNode? && !flags.filterChildImporter && s.Child? && b.ref == PartRef(s.owner, s.part))
      || (b.ExportNode? && !flags.filterOwnerExporter && b.ref.owner == s)
    case ImportNode(p) => b.ServiceNode? && !flags.filterImporterOwner && p.owner == b.service
    case ExportNode(p) =>
      || (b.ServiceNode? && !flags.filterExporterChild && b.service.Child? && p == PartRef(b.service.owner, b.service.part))
      || (b.UsageNode? && !flags.filterExporterUsage && Passes(sys, flags, b.usage) && sys.usages[b.usage].used == p)
    case UsageNode(u) =>
      b.ImportNode? && !flags.filterUsageImporter && Passes(sys, flags, u) && sys.usages[u].user == b.ref
  }

  /** The usage exists and the bit for its kind does not remove it. */
  predicate Passes(sys: System, flags: Flags, u: UsageId) {
    u in sys.usages && if sys.usages[u].weak then !flags.filterWeak else !flags.filterStrong
  }

  // ----- Members of the pieces -----

  lemma {:induction false} PartNodesMember(sys: System, s: Service, i: nat, kind: Kind, n: Node)
    ensures n in PartNodes(sys, s, i, kind) <==>
            && (if kind == Import then n.ImportNode? else n.ExportNode?)
            && n.ref.owner == s && i <= n.ref.part < |At(sys, s).parts| && At(sys, s).parts[n.ref.part].kind == kind
    decreases |At(sys, s).parts| - i
  {
    if i < |At(sys, s).parts| {
      PartNodesMember(sys, s, i + 1, kind, n);
    }
  }

  lemma {:induction false} PartNodesNoDup(sys: System, s: Service, i: nat, kind: Kind)
    ensures NoDup(PartNodes(sys, s, i, kind))
    decreases |At(sys, s).parts| - i
  {
    if i < |At(sys, s).parts| {
      PartNodesNoDup(sys, s, i + 1, kind);
      PartNodesMember(sys, s, i + 1, kind, PartNode(sys, PartRef(s, i)));
    }
  }

  lemma {:induction false} ChildNodesMember(sys: System, p: PartRef, j: nat, n: Node)
    ensures n in ChildNodes(sys, p, j) <==>
            && n.ServiceNode? && n.service.Child? && n.service.owner == p.owner && n.service.part == p.part
            && j <= n.service.index < |PartAt(sys, p).children|
    decreases |PartAt(sys, p).children| - j
  {
    if j < |PartAt(sys, p).children| {
      ChildNodesMember(sys, p, j + 1, n);
    }
  }

  lemma {:induction false} ChildNodesNoDup(sys: System, p: PartRef, j: nat)
    ensures NoDup(ChildNodes(sys, p, j))
    decreases |PartAt(sys, p).children| - j
  {
    if j < |PartAt(sys, p).children| {
      ChildNodesNoDup(sys, p, j + 1);
      ChildNodesMember(sys, p, j + 1, ServiceNode(Child(p.owner, p.part, j)));
    }
  }

  lemma {:induction false} KeptMember(sys: System, flags: Flags, us: seq<UsageId>, u: UsageId)
    ensures u in Kept(sys, flags, us) <==> u in us && Keeps(sys, flags, u)
  {
    if us != [] {
      KeptMember(sys, flags, us[1..], u);
    }
  }

  lemma {:induction false} KeptNoDup(sys: System, flags: Flags, us: seq<UsageId>)
    requires NoDup(us)
    ensures NoDup(Kept(sys, flags, us))
  {
    if us != [] {
      KeptNoDup(sys, flags, us[1..]);
      KeptMember(sys, flags, us[1..], us[0]);
    }
  }

  lemma UsageNodesMember(us: seq<UsageId>, n: Node)
    ensures n in UsageNodes(us) <==> n.UsageNode? && n.usage in us
  {
    if n.UsageNode? && n.usage in us {
      var k :| 0 <= k < |us| && us[k] == n.usage;
      assert UsageNodes(us)[k] == n;
    }
  }

  // ----- Declared neighbours -----

  lemma NearbyMember(sys: System, flags: Flags, dir: Direction, n: Node, m: Node)
    requires WellLinked(sys) && ValidNode(sys, n)
    ensures m in Nearby(sys, flags, dir, n) <==>
            && ValidNode(sys, m) && !(m.UsageNode? && !n.UsageNode?)
            && if dir == Out then Linked(sys, flags, n, m) else Linked(sys, flags, m, n)
  {
    match n
    case ServiceNode(s) =>
      PartNodesMember(sys, s, 0, Export, m);
      PartNodesMember(sys, s, 0, Import, m);
    case ImportNode(p) => ChildNodesMember(sys, p, 0, m);
    case ExportNode(p) => ChildNodesMember(sys, p, 0, m);
    case UsageNode(u) =>
      assert HangsIn(sys, u, UsedBy(sys, u), Export) && HangsIn(sys, u, UserOf(sys, u), Import);
  }

  lemma UsageSourceMember(sys: System, flags: Flags, dir: Direction, n: Node, m: Node)
    requires WellLinked(sys) && ValidNode(sys, n)
    ensures m in UsageNodes(Kept(sys, flags, UsageSource(sys, flags, dir, n))) <==>
            && ValidNode(sys, m) && m.UsageNode? && !n.UsageNode?
            && if dir == Out then Linked(sys, flags, n, m) else Linked(sys, flags, m, n)
  {
    var us := UsageSource(sys, flags, dir, n);
    UsageNodesMember(Kept(sys, flags, us), m);
    if m.UsageNode? {
      KeptMember(sys, flags, us, m.usage);
      if m.usage in sys.usages {
        assert HangsIn(sys, m.usage, UsedBy(sys, m.usage), Export);
        assert HangsIn(sys, m.usage, UserOf(sys, m.usage), Import);
      }
      if n.ImportNode? || n.ExportNode? {
        assert ListsWell(sys, n.ref);
      }
    }
  }

  /** The declared neighbours of a node are exactly the nodes it is linked with. */
  lemma DeclaredMember(sys: System, flags: Flags, dir: Direction, n: Node, m: Node)
    requires WellLinked(sys) && ValidNode(sys, n)
    ensures m in Declared(sys, flags, dir, n) <==>
            ValidNode(sys, m) && if dir == Out then Linked(sys, flags, n, m) else Linked(sys, flags, m, n)
  {
    NearbyMember(sys, flags, dir, n, m);
    UsageSourceMember(sys, flags, dir, n, m);
  }

  lemma NearbyNoDup(sys: System, flags: Flags, dir: Direction, n: Node)
    ensures NoDup(Nearby(sys, flags, dir, n))
  {
    match n
    case ServiceNode(s) =>
      PartNodesNoDup(sys, s, 0, Export);
      PartNodesNoDup(sys, s, 0, Import);
      PartNodesMember(sys, s, 0, Export, PartNode(sys, Parent(sys, s)));
      PartNodesMember(sys, s, 0, Import, PartNode(sys, Parent(sys, s)));
    case ImportNode(p) => ChildNodesNoDup(sys, p, 0);
    case ExportNode(p) => ChildNodesNoDup(sys, p, 0);
    case UsageNode(u) =>
  }

  lemma DeclaredNoDup(sys: System, flags: Flags, dir: Direction, n: Node)
    requires WellLinked(sys) && ValidNode(sys, n)
    ensures NoDup(Declared(sys, flags, dir, n))
  {
    var us := UsageSource(sys, flags, dir, n);
    var xs, ys := Nearby(sys, flags, dir, n), UsageNodes(Kept(sys, flags, us));
    NearbyNoDup(sys, flags, dir, n);
    if n.ImportNode? || n.ExportNode? {
      assert ListsWell(sys, n.ref);
    }
    KeptNoDup(sys, flags, us);
    forall a, b | 0 <= a < |xs| && 0 <= b < |ys| ensures xs[a] != ys[b] {
      NearbyMember(sys, flags, dir, n, xs[a]);
      UsageSourceMember(sys, flags, dir, n, ys[b]);
    }
    NoDupConcat(xs, ys);
  }

  // ----- All edges -----

  function MakeEdge(dir: Direction, n: Node, m: Node): Edge {
    if dir == Out then Edge(n, m) else Edge(m, n)
  }

  ghost function EdgeFn(dir: Direction, n: Node): Node -> Edge {
    (m: Node) => MakeEdge(dir, n, m)
  }

  ghost function DeclaredAt(sys: System, flags: Flags, dir: Direction, n: Node): seq<Edge> {
    Map(Declared(sys, flags, dir, n), EdgeFn(dir, n))
  }

  ghost function DeclaredEdgesFn(sys: System, flags: Flags, dir: Direction): Node -> seq<Edge> {
    (n: Node) => DeclaredAt(sys, flags, dir, n)
  }

  /** The declared edges of all given nodes, seen in one direction. */
  ghost function DeclaredEdges(sys: System, flags: Flags, dir: Direction, ns: seq<Node>): seq<Edge> {
    Flatten(ns, DeclaredEdgesFn(sys, flags, dir))
  }

  /** The node an edge is enumerated from. */
  function Near(dir: Direction, e: Edge): Node {
    if dir == Out then e.source else e.target
  }

  function Far(dir: Direction, e: Edge): Node {
    if dir == Out then e.target else e.source
  }

  lemma EdgeToMember(dir: Direction, n: Node, ms: seq<Node>, e: Edge)
    ensures e in Map(ms, EdgeFn(dir, n)) <==> Near(dir, e) == n && Far(dir, e) in ms
  {
    if Near(dir, e) == n && Far(dir, e) in ms {
      var k :| 0 <= k < |ms| && ms[k] == Far(dir, e);
      assert Map(ms, EdgeFn(dir, n))[k] == e;
    }
  }

  lemma NodeEdgesMember(sys: System, flags: Flags, dir: Direction, n: Node, e: Edge)
    requires WellLinked(sys) && ValidNode(sys, n)
    ensures e in DeclaredEdgesFn(sys, flags, dir)(n) <==>
            Near(dir, e) == n && ValidNode(sys, Far(dir, e)) && Linked(sys, flags, e.source, e.target)
    ensures NoDup(DeclaredEdgesFn(sys, flags, dir)(n))
  {
    DeclaredMember(sys, flags, dir, n, Far(dir, e));
    DeclaredNoDup(sys, flags, dir, n);
    EdgeToMember(dir, n, Declared(sys, flags, dir, n), e);
  }

  lemma DeclaredEdgesMember(sys: System, flags: Flags, dir: Direction, ns: seq<Node>, e: Edge)
    requires WellLinked(sys) && forall n :: n in ns ==> ValidNode(sys, n)
    ensures e in DeclaredEdges(sys, flags, dir, ns) <==>
            Near(dir, e) in ns && ValidNode(sys, Far(dir, e)) && Linked(sys, flags, e.source, e.target)
  {
    var f := DeclaredEdgesFn(sys, flags, dir);
    FlattenMember(ns, f, e);
    if i :| 0 <= i < |ns| && e in f(ns[i]) {
      NodeEdgesMember(sys, flags, dir, ns[i], e);
    }
    if Near(dir, e) in ns {
      var i :| 0 <= i < |ns| && ns[i] == Near(dir, e);
      NodeEdgesMember(sys, flags, dir, ns[i], e);
    }
  }

  lemma DeclaredEdgesNoDup(sys: System, flags: Flags, dir: Direction, ns: seq<Node>)
    requires WellLinked(sys) && NoDup(ns) && forall n :: n in ns ==> ValidNode(sys, n)
    ensures NoDup(DeclaredEdges(sys, flags, dir, ns))
  {
    var f := DeclaredEdgesFn(sys, flags, dir);
    forall i | 0 <= i < |ns| ensures NoDup(f(ns[i])) {
      NodeEdgesMember(sys, flags, dir, ns[i], Edge(ns[i], ns[i]));
    }
    forall i, j | 0 <= i < j < |ns| ensures Disjoint(f(ns[i]), f(ns[j])) {
      forall a, b | 0 <= a < |f(ns[i])| && 0 <= b < |f(ns[j])| ensures f(ns[i])[a] != f(ns[j])[b] {
        NodeEdgesMember(sys, flags, dir, ns[i], f(ns[i])[a]);
        NodeEdgesMember(sys, flags, dir, ns[j], f(ns[j])[b]);
      }
    }
    FlattenNoDup(ns, f);
  }

  /** Over all vertices, the declared out-edges and in-edges are the same edges, each once. */
  lemma DeclaredDuality(sys: System, flags: Flags)
    requires WellLinked(sys)
    ensures var outs, ins := DeclaredEdges(sys, flags, Out, AllNodes(sys)), DeclaredEdges(sys, flags, In, AllNodes(sys));
      NoDup(outs) && NoDup(ins) && multiset(outs) == multiset(ins) && |outs| == |ins|
  {
    var ns := AllNodes(sys);
    VerticesComplete(sys);
    DeclaredEdgesNoDup(sys, flags, Out, ns);
    DeclaredEdgesNoDup(sys, flags, In, ns);
    var outs, ins := DeclaredEdges(sys, flags, Out, ns), DeclaredEdges(sys, flags, In, ns);
    forall e ensures e in outs <==> e in ins {
      DeclaredEdgesMember(sys, flags, Out, ns, e);
      DeclaredEdgesMember(sys, flags, In, ns, e);
    }
    NoDupPermutation(outs, ins);
  }

  ghost function DegreeFn(sys: System, flags: Flags, dir: Direction): Node -> nat {
    (n: Node) => Degree(sys, flags, dir, n)
  }

  /** The degrees of all vertices add up to the number of edges, in either direction and for
      every flag set. */
  lemma DegreeSums(sys: System, flags: Flags)
    requires WellLinked(sys)
    ensures Sum(AllNodes(sys), DegreeFn(sys, flags, Out)) == |DeclaredEdges(sys, flags, Out, AllNodes(sys))|
    ensures Sum(AllNodes(sys), DegreeFn(sys, flags, In)) == Sum(AllNodes(sys), DegreeFn(sys, flags, Out))
  {
    DeclaredDuality(sys, flags);
    DegreesCount(sys, flags, Out, AllNodes(sys));
    DegreesCount(sys, flags, In, AllNodes(sys));
  }

  lemma DegreesCount(sys: System, flags: Flags, dir: Direction, ns: seq<Node>)
    ensures Sum(ns, DegreeFn(sys, flags, dir)) == |DeclaredEdges(sys, flags, dir, ns)|
  {
    forall i | 0 <= i < |ns|
      ensures |DeclaredEdgesFn(sys, flags, dir)(ns[i])| == DegreeFn(sys, flags, dir)(ns[i])
    {
      DegreeIsDeclared(sys, flags, dir, ns[i]);
    }
    FlattenLength(ns, DeclaredEdgesFn(sys, flags, dir), DegreeFn(sys, flags, dir));
  }
}
