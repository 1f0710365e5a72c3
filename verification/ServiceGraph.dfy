/** ServiceDependencyGraph: edges grouped by the service that owns their node, and the
    quotient they project to. */
module ServiceGraph {
  import opened Sequences
  import opened Walks
  import opened ServiceTree
  import opened Traversal
  import opened GraphModel
  import opened Enumeration
  import opened Vertices
  import opened Duality
  import opened EdgeWalks

  // ----- inner_nodes -----

  /** A service, its imports, then its exports. */
  ghost function InnerNodes(sys: System, s: Service): seq<Node> {
    [ServiceNode(s)] + (PartNodes(sys, s, 0, Import) + PartNodes(sys, s, 0, Export))
  }

  ghost function InnerNodesFn(sys: System): Service -> seq<Node> {
    (s: Service) => InnerNodes(sys, s)
  }

  /** next_child_node */
  function NextInner(sys: System, n: Node): Option<Node> {
    match n
    case ServiceNode(s) => OrElse(FirstPart(sys, s, 0, Import), FirstPart(sys, s, 0, Export))
    case ImportNode(p) => OrElse(FirstPart(sys, p.owner, p.part + 1, Import), FirstPart(sys, p.owner, 0, Export))
    case ExportNode(p) => FirstPart(sys, p.owner, p.part + 1, Export)
    case UsageNode(_) => None
  }

  ghost function NextInnerFn(sys: System): Node -> Option<Node> {
    (n: Node) => NextInner(sys, n)
  }

  lemma {:induction false} PartsInnerWalk(sys: System, s: Service, i: nat, kind: Kind)
    ensures Chain(NextInnerFn(sys), PartNodes(sys, s, i, kind),
                  if kind == Import then FirstPart(sys, s, 0, Export) else None)
    decreases |At(sys, s).parts| - i
  {
    if i < |At(sys, s).parts| {
      PartsInnerWalk(sys, s, i + 1, kind);
      FirstPartIs(sys, s, i + 1, kind);
      if At(sys, s).parts[i].kind == kind {
        ChainConcat(NextInnerFn(sys), [PartNode(sys, PartRef(s, i))], PartNodes(sys, s, i + 1, kind),
                    if kind == Import then FirstPart(sys, s, 0, Export) else None);
      }
    }
  }

  lemma InnerNodesWalk(sys: System, s: Service)
    ensures Chain(NextInnerFn(sys), InnerNodes(sys, s), None)
  {
    var imports, exports := PartNodes(sys, s, 0, Import), PartNodes(sys, s, 0, Export);
    PartsInnerWalk(sys, s, 0, Import);
    PartsInnerWalk(sys, s, 0, Export);
    FirstPartIs(sys, s, 0, Import);
    FirstPartIs(sys, s, 0, Export);
    ChainConcat(NextInnerFn(sys), imports, exports, None);
    ChainConcat(NextInnerFn(sys), [ServiceNode(s)], imports + exports, None);
  }

  lemma InnerNodesMember(sys: System, s: Service, n: Node)
    requires Valid(sys, s)
    ensures n in InnerNodes(sys, s) <==> ValidNode(sys, n) && !n.UsageNode? && OwnerOf(sys, n) == s
    ensures NoDup(InnerNodes(sys, s))
  {
    PartNodesMember(sys, s, 0, Import, n);
    PartNodesMember(sys, s, 0, Export, n);
    var imports, exports := PartNodes(sys, s, 0, Import), PartNodes(sys, s, 0, Export);
    PartNodesNoDup(sys, s, 0, Import);
    PartNodesNoDup(sys, s, 0, Export);
    forall a, b | 0 <= a < |imports| && 0 <= b < |exports| ensures imports[a] != exports[b] {
      PartNodesMember(sys, s, 0, Import, imports[a]);
      PartNodesMember(sys, s, 0, Export, exports[b]);
    }
    NoDupConcat(imports, exports);
    PartNodesMember(sys, s, 0, Import, ServiceNode(s));
    PartNodesMember(sys, s, 0, Export, ServiceNode(s));
    NoDupConcat([ServiceNode(s)], imports + exports);
  }

  // ----- Nodes and edges of a list of services -----

  ghost function NodesOf(sys: System, ss: seq<Service>): seq<Node> {
    Flatten(ss, InnerNodesFn(sys))
  }

  ghost predicate AllValid(sys: System, ss: seq<Service>) {
    forall s :: s in ss ==> Valid(sys, s)
  }

  lemma NodesOfMember(sys: System, ss: seq<Service>, n: Node)
    requires AllValid(sys, ss)
    ensures n in NodesOf(sys, ss) <==> ValidNode(sys, n) && !n.UsageNode? && OwnerOf(sys, n) in ss
  {
    var f := InnerNodesFn(sys);
    FlattenMember(ss, f, n);
    if i :| 0 <= i < |ss| && n in f(ss[i]) {
      InnerNodesMember(sys, ss[i], n);
    }
    if OwnerOf(sys, n) in ss {
      var i :| 0 <= i < |ss| && ss[i] == OwnerOf(sys, n);
      InnerNodesMember(sys, ss[i], n);
    }
  }

  lemma NodesOfNoDup(sys: System, ss: seq<Service>)
    requires AllValid(sys, ss) && NoDup(ss)
    ensures NoDup(NodesOf(sys, ss))
  {
    var f := InnerNodesFn(sys);
    forall i | 0 <= i < |ss| ensures NoDup(f(ss[i])) {
      InnerNodesMember(sys, ss[i], ServiceNode(ss[i]));
    }
    forall i, j | 0 <= i < j < |ss| ensures Disjoint(f(ss[i]), f(ss[j])) {
      forall a, b | 0 <= a < |f(ss[i])| && 0 <= b < |f(ss[j])| ensures f(ss[i])[a] != f(ss[j])[b] {
        InnerNodesMember(sys, ss[i], f(ss[i])[a]);
        InnerNodesMember(sys, ss[j], f(ss[j])[b]);
      }
    }
    FlattenNoDup(ss, f);
  }

  lemma AllServicesValid(sys: System)
    ensures AllValid(sys, Services(sys)) && NoDup(Services(sys))
  {
    TransitiveServicesComplete(sys);
  }

  /** The edges enumerated at the given services. out_edges(v) and in_edges(v) of the service
      graph are those of [v]; edges(graph) are the out edges of all services. */
  ghost function OuterEdges(sys: System, flags: Flags, dir: Direction, ss: seq<Service>): seq<Edge> {
    VisitedEdges(sys, flags, dir, NodesOf(sys, ss))
  }

  ghost function DeclaredOuter(sys: System, flags: Flags, dir: Direction, ss: seq<Service>): seq<Edge> {
    DeclaredEdges(sys, flags, dir, NodesOf(sys, ss))
  }

  /** advance_outer_edge and the jump to the following services visit the edges of every
      given service in turn. */
  lemma OuterEdgesWalk(sys: System, flags: Flags, dir: Direction, ss: seq<Service>)
    requires WellLinked(sys) && AllValid(sys, ss) && NoDup(ss)
    ensures Chain(NextEdgeFn(sys, flags, dir, NodesOf(sys, ss)), OuterEdges(sys, flags, dir, ss), None)
  {
    NodesOfNoDup(sys, ss);
    forall n | n in NodesOf(sys, ss) ensures ValidNode(sys, n) {
      NodesOfMember(sys, ss, n);
    }
    EdgesWalk(sys, flags, dir, NodesOf(sys, ss));
  }

  lemma DeclaredOuterMember(sys: System, flags: Flags, dir: Direction, ss: seq<Service>, e: Edge)
    requires WellLinked(sys) && AllValid(sys, ss)
    ensures e in DeclaredOuter(sys, flags, dir, ss) <==>
            && ValidNode(sys, e.source) && ValidNode(sys, e.target) && Linked(sys, flags, e.source, e.target)
            && !Near(dir, e).UsageNode? && OwnerOf(sys, Near(dir, e)) in ss
  {
    forall n | n in NodesOf(sys, ss) ensures ValidNode(sys, n) {
      NodesOfMember(sys, ss, n);
    }
    DeclaredEdgesMember(sys, flags, dir, NodesOf(sys, ss), e);
    NodesOfMember(sys, ss, Near(dir, e));
  }

  lemma DeclaredOuterNoDup(sys: System, flags: Flags, dir: Direction, ss: seq<Service>)
    requires WellLinked(sys) && AllValid(sys, ss) && NoDup(ss)
    ensures NoDup(DeclaredOuter(sys, flags, dir, ss))
  {
    forall n | n in NodesOf(sys, ss) ensures ValidNode(sys, n) {
      NodesOfMember(sys, ss, n);
    }
    NodesOfNoDup(sys, ss);
    DeclaredEdgesNoDup(sys, flags, dir, NodesOf(sys, ss));
  }

  // ----- The quotient -----

  /** source(e, graph): a usage stands for the owner of the export it uses. */
  function EdgeSource(sys: System, e: Edge): Service {
    OwnerOf(sys, e.source)
  }

  /** target(e, graph): a usage stands for the owner of the import that uses it. */
  function EdgeTarget(sys: System, e: Edge): Service {
    if e.target.UsageNode? then UserOf(sys, e.target.usage).owner else OwnerOf(sys, e.target)
  }

  /** The ends of every linked edge: a child and the owner of its import, the owner of an export
      and its child, a service and itself for the edges inside it, and for a usage, seen from
      either half, the owner of what is used and the owner of what uses it. */
  lemma ProjectedEnds(sys: System, flags: Flags, e: Edge)
    requires Linked(sys, flags, e.source, e.target)
    ensures var ends := (EdgeSource(sys, e), EdgeTarget(sys, e));
      && (e.source.ServiceNode? && e.target.ImportNode? ==>
            e.source.service.Child? && ends == (e.source.service, e.source.service.owner))
      && (e.source.ServiceNode? && e.target.ExportNode? ==> ends == (e.source.service, e.source.service))
      && (e.source.ImportNode? ==> ends == (e.source.ref.owner, e.source.ref.owner))
      && (e.source.ExportNode? && e.target.ServiceNode? ==> ends == (e.source.ref.owner, e.target.service))
      && (forall u :: UsageNode(u) in {e.source, e.target} ==>
            u in sys.usages && ends == (sys.usages[u].used.owner, sys.usages[u].user.owner))
  {}

  /** The in-edge that stands for the same dependency as an out-edge: a usage is reached from
      its export on the way out and from its import on the way in. */
  function Cross(sys: System, e: Edge): Edge {
    if e.target.UsageNode? then Edge(e.target, ImportNode(UserOf(sys, e.target.usage))) else e
  }

  ghost function CrossFn(sys: System): Edge -> Edge {
    (e: Edge) => Cross(sys, e)
  }

  lemma CrossKeepsEnds(sys: System, flags: Flags, e: Edge)
    requires Linked(sys, flags, e.source, e.target)
    ensures EdgeSource(sys, Cross(sys, e)) == EdgeSource(sys, e)
    ensures EdgeTarget(sys, Cross(sys, e)) == EdgeTarget(sys, e)
  {}

  /** Flags that keep both halves of a usage, or neither. */
  predicate UsageHalvesAgree(flags: Flags) {
    flags.HasExporterUsage() == flags.HasUsageImporter()
  }

  /** Over all services, an edge is enumerated in a direction unless its near end is a usage. */
  lemma DeclaredOfAllMember(sys: System, flags: Flags, dir: Direction, e: Edge)
    requires WellLinked(sys)
    ensures e in DeclaredOuter(sys, flags, dir, Services(sys)) <==>
            && ValidNode(sys, e.source) && ValidNode(sys, e.target) && Linked(sys, flags, e.source, e.target)
            && !Near(dir, e).UsageNode?
  {
    AllServicesValid(sys);
    DeclaredOuterMember(sys, flags, dir, Services(sys), e);
    if ValidNode(sys, Near(dir, e)) {
      OwnerValid(sys, Near(dir, e));
      TransitiveServicesComplete(sys);
    }
  }

  lemma CrossForward(sys: System, flags: Flags, e: Edge)
    requires WellLinked(sys) && UsageHalvesAgree(flags)
    ensures e in DeclaredOuter(sys, flags, Out, Services(sys)) ==> Cross(sys, e) in DeclaredOuter(sys, flags, In, Services(sys))
  {
    DeclaredOfAllMember(sys, flags, Out, e);
    DeclaredOfAllMember(sys, flags, In, Cross(sys, e));
    if e.target.UsageNode? && e.target.usage in sys.usages {
      assert HangsIn(sys, e.target.usage, UserOf(sys, e.target.usage), Import);
    }
  }

  /** The out-edge that crosses over to the given in-edge. */
  function CrossBack(sys: System, e: Edge): Edge {
    if e.source.UsageNode? then Edge(ExportNode(UsedBy(sys, e.source.usage)), e.source) else e
  }

  lemma CrossBackward(sys: System, flags: Flags, e: Edge)
    requires WellLinked(sys) && UsageHalvesAgree(flags)
    ensures e in DeclaredOuter(sys, flags, In, Services(sys)) ==>
              CrossBack(sys, e) in DeclaredOuter(sys, flags, Out, Services(sys)) && Cross(sys, CrossBack(sys, e)) == e
  {
    DeclaredOfAllMember(sys, flags, In, e);
    DeclaredOfAllMember(sys, flags, Out, CrossBack(sys, e));
    if e.source.UsageNode? && e.source.usage in sys.usages {
      assert HangsIn(sys, e.source.usage, UsedBy(sys, e.source.usage), Export);
    }
  }

  lemma CrossInjective(sys: System, flags: Flags, e: Edge, e': Edge)
    requires WellLinked(sys) && Cross(sys, e) == Cross(sys, e')
    ensures e in DeclaredOuter(sys, flags, Out, Services(sys)) && e' in DeclaredOuter(sys, flags, Out, Services(sys)) ==> e == e'
  {
    DeclaredOfAllMember(sys, flags, Out, e);
    DeclaredOfAllMember(sys, flags, Out, e');
  }

  lemma CrossedNoDup(sys: System, flags: Flags)
    requires WellLinked(sys)
    ensures NoDup(Map(DeclaredOuter(sys, flags, Out, Services(sys)), CrossFn(sys)))
  {
    var outs := DeclaredOuter(sys, flags, Out, Services(sys));
    var crossed := Map(outs, CrossFn(sys));
    AllServicesValid(sys);
    DeclaredOuterNoDup(sys, flags, Out, Services(sys));
    forall i, j | 0 <= i < j < |crossed| ensures crossed[i] != crossed[j] {
      if crossed[i] == crossed[j] {
        CrossInjective(sys, flags, outs[i], outs[j]);
      }
    }
  }

  lemma CrossedMember(sys: System, flags: Flags, e: Edge)
    requires WellLinked(sys) && UsageHalvesAgree(flags)
    ensures e in Map(DeclaredOuter(sys, flags, Out, Services(sys)), CrossFn(sys))
       <==> e in DeclaredOuter(sys, flags, In, Services(sys))
  {
    var outs := DeclaredOuter(sys, flags, Out, Services(sys));
    var crossed := Map(outs, CrossFn(sys));
    if e in crossed {
      var i :| 0 <= i < |crossed| && crossed[i] == e;
      CrossForward(sys, flags, outs[i]);
    }
    if e in DeclaredOuter(sys, flags, In, Services(sys)) {
      CrossBackward(sys, flags, e);
      var i :| 0 <= i < |outs| && outs[i] == CrossBack(sys, e);
      assert crossed[i] == e;
    }
  }

  /** Crossing over turns the declared out-edges of all services into the declared in-edges. */
  lemma CrossPermutesDeclared(sys: System, flags: Flags)
    requires WellLinked(sys) && UsageHalvesAgree(flags)
    ensures multiset(Map(DeclaredOuter(sys, flags, Out, Services(sys)), CrossFn(sys)))
         == multiset(DeclaredOuter(sys, flags, In, Services(sys)))
  {
    var crossed := Map(DeclaredOuter(sys, flags, Out, Services(sys)), CrossFn(sys));
    var ins := DeclaredOuter(sys, flags, In, Services(sys));
    CrossedNoDup(sys, flags);
    AllServicesValid(sys);
    DeclaredOuterNoDup(sys, flags, In, Services(sys));
    forall e ensures e in crossed <==> e in ins {
      CrossedMember(sys, flags, e);
    }
    NoDupPermutation(crossed, ins);
  }

  ghost function EndsFn(sys: System): Edge -> (Service, Service) {
    (e: Edge) => (EdgeSource(sys, e), EdgeTarget(sys, e))
  }

  /** Declared out-edges and in-edges of all services agree on everything that depends on the
      projected ends only. */
  lemma QuotientBy<K>(sys: System, flags: Flags, key: Edge -> K)
    requires WellLinked(sys) && UsageHalvesAgree(flags)
    requires forall e, e' :: EndsFn(sys)(e) == EndsFn(sys)(e') ==> key(e) == key(e')
    ensures var outs, ins := DeclaredOuter(sys, flags, Out, Services(sys)), DeclaredOuter(sys, flags, In, Services(sys));
      multiset(Map(outs, key)) == multiset(Map(ins, key)) && |outs| == |ins|
  {
    var outs, ins := DeclaredOuter(sys, flags, Out, Services(sys)), DeclaredOuter(sys, flags, In, Services(sys));
    var crossed := Map(outs, CrossFn(sys));
    CrossPermutesDeclared(sys, flags);
    MapPermutation(crossed, ins, key);
    AllServicesValid(sys);
    forall i | 0 <= i < |outs| ensures key(crossed[i]) == key(outs[i]) {
      DeclaredOuterMember(sys, flags, Out, Services(sys), outs[i]);
      CrossKeepsEnds(sys, flags, outs[i]);
      assert EndsFn(sys)(crossed[i]) == EndsFn(sys)(outs[i]);
    }
    assert Map(crossed, key) == Map(outs, key);
    assert |multiset(crossed)| == |multiset(ins)|;
  }

  lemma {:induction false} SetSize<T>(xs: seq<T>)
    requires NoDup(xs)
    ensures |set x | x in xs| == |xs|
  {
    if xs != [] {
      SetSize(xs[1..]);
      assert (set x | x in xs) == (set x | x in xs[1..]) + {xs[0]};
    }
  }

  lemma SubsetSize<T(!new)>(xs: seq<T>, ys: seq<T>)
    requires NoDup(xs) && NoDup(ys) && forall x :: x in xs ==> x in ys
    ensures |xs| <= |ys| && ((exists y :: y in ys && y !in xs) ==> |xs| < |ys|)
  {
    SetSize(xs);
    SetSize(ys);
    var a, b := set x | x in xs, set y | y in ys;
    assert a <= b;
    assert |b| == |a| + |b - a| by {
      assert b == a + (b - a);
    }
    if y :| y in ys && y !in xs {
      assert y in b - a;
    }
  }

  /** The flags without any usage edge. */
  function NoUsages(flags: Flags): Flags {
    flags.(filterExporterUsage := true, filterUsageImporter := true)
  }

  /** The half of a usage that the enumerations of a direction reach. */
  predicate HasOwnHalf(flags: Flags, dir: Direction) {
    if dir == Out then flags.HasExporterUsage() else flags.HasUsageImporter()
  }

  lemma LinkedWithoutUsages(sys: System, flags: Flags, a: Node, b: Node)
    requires ValidNode(sys, a) && ValidNode(sys, b) && Linked(sys, NoUsages(flags), a, b)
    ensures Linked(sys, flags, a, b)
  {
  }

  lemma FewerWithoutUsages(sys: System, flags: Flags, dir: Direction, e: Edge)
    requires WellLinked(sys)
    ensures e in DeclaredOuter(sys, NoUsages(flags), dir, Services(sys)) ==> e in DeclaredOuter(sys, flags, dir, Services(sys))
  {
    if e in DeclaredOuter(sys, NoUsages(flags), dir, Services(sys)) {
      DeclaredOfAllMember(sys, NoUsages(flags), dir, e);
      LinkedWithoutUsages(sys, flags, e.source, e.target);
      DeclaredOfAllMember(sys, flags, dir, e);
    }
  }

  lemma LinkedSameWithoutUsages(sys: System, flags: Flags, dir: Direction, a: Node, b: Node)
    requires ValidNode(sys, a) && ValidNode(sys, b) && Linked(sys, flags, a, b)
    requires !(if dir == Out then a else b).UsageNode?
    requires !HasOwnHalf(flags, dir) || forall u :: u in sys.usages ==> !Keeps(sys, flags, u)
    ensures Linked(sys, NoUsages(flags), a, b)
  {
  }

  lemma SameWithoutUsageEdge(sys: System, flags: Flags, dir: Direction, e: Edge)
    requires WellLinked(sys)
    requires !HasOwnHalf(flags, dir) || forall u :: u in sys.usages ==> !Keeps(sys, flags, u)
    ensures e in DeclaredOuter(sys, flags, dir, Services(sys)) ==> e in DeclaredOuter(sys, NoUsages(flags), dir, Services(sys))
  {
    if e in DeclaredOuter(sys, flags, dir, Services(sys)) {
      DeclaredOfAllMember(sys, flags, dir, e);
      LinkedSameWithoutUsages(sys, flags, dir, e.source, e.target);
      DeclaredOfAllMember(sys, NoUsages(flags), dir, e);
    }
  }

  /** Removing the usage edges changes nothing where their half is filtered or none is kept. */
  lemma SameWithoutUsages(sys: System, flags: Flags, dir: Direction)
    requires WellLinked(sys)
    requires !HasOwnHalf(flags, dir) || forall u :: u in sys.usages ==> !Keeps(sys, flags, u)
    ensures multiset(DeclaredOuter(sys, flags, dir, Services(sys)))
         == multiset(DeclaredOuter(sys, NoUsages(flags), dir, Services(sys)))
  {
    AllServicesValid(sys);
    DeclaredOuterNoDup(sys, flags, dir, Services(sys));
    DeclaredOuterNoDup(sys, NoUsages(flags), dir, Services(sys));
    forall e ensures e in DeclaredOuter(sys, flags, dir, Services(sys)) <==> e in DeclaredOuter(sys, NoUsages(flags), dir, Services(sys)) {
      FewerWithoutUsages(sys, flags, dir, e);
      SameWithoutUsageEdge(sys, flags, dir, e);
    }
    NoDupPermutation(DeclaredOuter(sys, flags, dir, Services(sys)), DeclaredOuter(sys, NoUsages(flags), dir, Services(sys)));
  }

  /** A kept usage whose half is not filtered adds an edge. */
  lemma UsageAddsEdge(sys: System, flags: Flags, dir: Direction, u: UsageId)
    requires WellLinked(sys) && HasOwnHalf(flags, dir) && u in sys.usages && Keeps(sys, flags, u)
    ensures |DeclaredOuter(sys, NoUsages(flags), dir, Services(sys))| < |DeclaredOuter(sys, flags, dir, Services(sys))|
  {
    AllServicesValid(sys);
    DeclaredOuterNoDup(sys, flags, dir, Services(sys));
    DeclaredOuterNoDup(sys, NoUsages(flags), dir, Services(sys));
    forall e ensures e in DeclaredOuter(sys, NoUsages(flags), dir, Services(sys)) ==> e in DeclaredOuter(sys, flags, dir, Services(sys)) {
      FewerWithoutUsages(sys, flags, dir, e);
    }
    UsageEdge(sys, flags, dir, u);
    SubsetSize(DeclaredOuter(sys, NoUsages(flags), dir, Services(sys)), DeclaredOuter(sys, flags, dir, Services(sys)));
  }

  lemma UsageEdge(sys: System, flags: Flags, dir: Direction, u: UsageId)
    requires WellLinked(sys) && u in sys.usages && Keeps(sys, flags, u)
    requires HasOwnHalf(flags, dir)
    ensures var e := if dir == Out then Edge(ExportNode(UsedBy(sys, u)), UsageNode(u)) else Edge(UsageNode(u), ImportNode(UserOf(sys, u)));
      e in DeclaredOuter(sys, flags, dir, Services(sys)) && e !in DeclaredOuter(sys, NoUsages(flags), dir, Services(sys))
  {
    var e := if dir == Out then Edge(ExportNode(UsedBy(sys, u)), UsageNode(u)) else Edge(UsageNode(u), ImportNode(UserOf(sys, u)));
    assert ValidNode(sys, e.source) && ValidNode(sys, e.target) by {
      assert HangsIn(sys, u, UsedBy(sys, u), Export) && HangsIn(sys, u, UserOf(sys, u), Import);
    }
    DeclaredOfAllMember(sys, flags, dir, e);
    DeclaredOfAllMember(sys, NoUsages(flags), dir, e);
  }

  /** With one half filtered, a kept usage is in the other of the two views only. */
  lemma HalfViewSmaller(sys: System, flags: Flags, dir: Direction, other: Direction, u: UsageId)
    requires WellLinked(sys) && dir != other
    requires HasOwnHalf(flags, dir) && !HasOwnHalf(flags, other)
    requires u in sys.usages && Keeps(sys, flags, u)
    ensures |DeclaredOuter(sys, flags, other, Services(sys))| < |DeclaredOuter(sys, flags, dir, Services(sys))|
  {
    QuotientBy(sys, NoUsages(flags), EndsFn(sys));
    UsageAddsEdge(sys, flags, dir, u);
    SameWithoutUsages(sys, flags, other);
    assert |multiset(DeclaredOuter(sys, flags, other, Services(sys)))| == |multiset(DeclaredOuter(sys, NoUsages(flags), other, Services(sys)))|;
  }

  /** The flags keep both halves of a usage, or neither, or no usage passes the filter at all. */
  ghost predicate ViewsAgree(sys: System, flags: Flags) {
    UsageHalvesAgree(flags) || forall u :: u in sys.usages ==> !Keeps(sys, flags, u)
  }

  /** The declared edges of both directions then project to the same. */
  lemma AgreeingQuotient<K>(sys: System, flags: Flags, key: Edge -> K)
    requires WellLinked(sys) && ViewsAgree(sys, flags)
    requires forall e, e' :: EndsFn(sys)(e) == EndsFn(sys)(e') ==> key(e) == key(e')
    ensures var outs, ins := DeclaredOuter(sys, flags, Out, Services(sys)), DeclaredOuter(sys, flags, In, Services(sys));
      multiset(Map(outs, key)) == multiset(Map(ins, key)) && |outs| == |ins|
  {
    if UsageHalvesAgree(flags) {
      QuotientBy(sys, flags, key);
    } else {
      var outs, ins := DeclaredOuter(sys, flags, Out, Services(sys)), DeclaredOuter(sys, flags, In, Services(sys));
      QuotientBy(sys, NoUsages(flags), key);
      SameWithoutUsages(sys, flags, Out);
      SameWithoutUsages(sys, flags, In);
      MapPermutation(outs, DeclaredOuter(sys, NoUsages(flags), Out, Services(sys)), key);
      MapPermutation(ins, DeclaredOuter(sys, NoUsages(flags), In, Services(sys)), key);
      assert |outs| == |Map(outs, key)| == |multiset(Map(outs, key))|;
      assert |ins| == |Map(ins, key)| == |multiset(Map(ins, key))|;
    }
  }

  /** Every edge enumerated at a service projects to that service at the near end. */
  lemma NearEndIsService(sys: System, flags: Flags, dir: Direction, s: Service, e: Edge)
    ensures e in OuterEdges(sys, flags, dir, [s]) ==> s == if dir == Out then EdgeSource(sys, e) else EdgeTarget(sys, e)
  {
    NearInServices(sys, flags, dir, [s], e);
    if !Near(dir, e).UsageNode? {
      NearEnd(sys, dir, e);
    }
  }

  lemma NearInServices(sys: System, flags: Flags, dir: Direction, ss: seq<Service>, e: Edge)
    ensures e in OuterEdges(sys, flags, dir, ss) ==> !Near(dir, e).UsageNode? && OwnerOf(sys, Near(dir, e)) in ss
  {
    NearOfVisited(sys, flags, dir, NodesOf(sys, ss), e);
    FlattenMember(ss, InnerNodesFn(sys), Near(dir, e));
    if i :| 0 <= i < |ss| && Near(dir, e) in InnerNodesFn(sys)(ss[i]) {
      InnerOwner(sys, ss[i], Near(dir, e));
    }
  }

  lemma InnerOwner(sys: System, s: Service, n: Node)
    requires n in InnerNodes(sys, s)
    ensures !n.UsageNode? && OwnerOf(sys, n) == s
  {
    PartNodesMember(sys, s, 0, Import, n);
    PartNodesMember(sys, s, 0, Export, n);
  }

  lemma NearEnd(sys: System, dir: Direction, e: Edge)
    requires !Near(dir, e).UsageNode?
    ensures OwnerOf(sys, Near(dir, e)) == if dir == Out then EdgeSource(sys, e) else EdgeTarget(sys, e)
  {}

  // ----- Degrees -----

  /** out_degree / in_degree of a service: the sum over its inner nodes. */
  ghost function ServiceDegree(sys: System, flags: Flags, dir: Direction, s: Service): nat {
    Sum(InnerNodes(sys, s), DegreeFn(sys, flags, dir))
  }

  ghost function ServiceDegreeFn(sys: System, flags: Flags, dir: Direction): Service -> nat {
    (s: Service) => ServiceDegree(sys, flags, dir, s)
  }

  lemma {:induction false} DegreesOfServices(sys: System, flags: Flags, dir: Direction, ss: seq<Service>)
    ensures Sum(ss, ServiceDegreeFn(sys, flags, dir)) == |DeclaredOuter(sys, flags, dir, ss)|
  {
    if ss != [] {
      DegreesOfServices(sys, flags, dir, ss[1..]);
      FlattenConcat(InnerNodes(sys, ss[0]), NodesOf(sys, ss[1..]), DeclaredEdgesFn(sys, flags, dir));
      DegreesCount(sys, flags, dir, InnerNodes(sys, ss[0]));
    }
  }

  /** The per vertex asserts of init_graph: the edges that out_edges(s) and in_edges(s) enumerate
      are as many as the degree exactly if no inner node of s misreads its usage filter. */
  lemma ServiceDegreeExactly(sys: System, flags: Flags, dir: Direction, s: Service)
    ensures |OuterEdges(sys, flags, dir, [s])| == ServiceDegree(sys, flags, dir, s) <==> Clean(sys, flags, dir, InnerNodes(sys, s))
  {
    FlattenSingle(s, InnerNodesFn(sys));
    EnumeratedDegree(sys, flags, dir, InnerNodes(sys, s));
  }

  lemma EnumeratedDegree(sys: System, flags: Flags, dir: Direction, ns: seq<Node>)
    ensures |VisitedEdges(sys, flags, dir, ns)| == Sum(ns, DegreeFn(sys, flags, dir)) <==> Clean(sys, flags, dir, ns)
  {
    MisstepsCount(sys, flags, dir, ns);
    NoMissteps(sys, flags, dir, ns);
    DegreesCount(sys, flags, dir, ns);
  }

  /** The asserts of init_graph for the service graph, each with its exact condition. */
  lemma ServiceGraphTotals(sys: System, flags: Flags)
    requires WellLinked(sys)
    ensures Sum(Services(sys), ServiceDegreeFn(sys, flags, Out)) == Sum(Services(sys), ServiceDegreeFn(sys, flags, In))
       <==> ViewsAgree(sys, flags)
    ensures |OuterEdges(sys, flags, Out, Services(sys))| == Sum(Services(sys), ServiceDegreeFn(sys, flags, Out))
       <==> Clean(sys, flags, Out, NodesOf(sys, Services(sys)))
    ensures flags.filterStrong == flags.filterWeak ==> Clean(sys, flags, Out, NodesOf(sys, Services(sys)))
  {
    DegreesOfServices(sys, flags, Out, Services(sys));
    DegreesOfServices(sys, flags, In, Services(sys));
    MisstepsCount(sys, flags, Out, NodesOf(sys, Services(sys)));
    NoMissteps(sys, flags, Out, NodesOf(sys, Services(sys)));
    ViewSizesExactly(sys, flags);
    if flags.filterStrong == flags.filterWeak {
      forall n | n in NodesOf(sys, Services(sys)) ensures !Misstep(sys, flags, Out, n) {
        UniformFlagsNeverMisstep(sys, flags, Out, n);
      }
    }
  }

  lemma ViewSizesExactly(sys: System, flags: Flags)
    requires WellLinked(sys)
    ensures |DeclaredOuter(sys, flags, Out, Services(sys))| == |DeclaredOuter(sys, flags, In, Services(sys))|
       <==> ViewsAgree(sys, flags)
  {
    if ViewsAgree(sys, flags) {
      AgreeingQuotient(sys, flags, EndsFn(sys));
    } else {
      var u :| u in sys.usages && Keeps(sys, flags, u);
      if HasOwnHalf(flags, Out) {
        HalfViewSmaller(sys, flags, Out, In, u);
      } else {
        HalfViewSmaller(sys, flags, In, Out, u);
      }
    }
  }
}
