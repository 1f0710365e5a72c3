/** Per node enumeration: iterating advance from begin against the declared neighbours of
    a node, for every node kind, direction and flag set. */
module Enumeration {
  import opened Sequences
  import opened Walks
  import opened ServiceTree
  import opened GraphModel

  // ----- The declared neighbours -----

  ghost function PartNodes(sys: System, s: Service, i: nat, kind: Kind): seq<Node>
    decreases |At(sys, s).parts| - i
  {
    if i >= |At(sys, s).parts| then []
    else (if At(sys, s).parts[i].kind == kind then [PartNode(sys, PartRef(s, i))] else [])
         + PartNodes(sys, s, i + 1, kind)
  }

  ghost function ChildNodes(sys: System, p: PartRef, j: nat): seq<Node>
    decreases |PartAt(sys, p).children| - j
  {
    if j >= |PartAt(sys, p).children| then []
    else [ServiceNode(Child(p.owner, p.part, j))] + ChildNodes(sys, p, j + 1)
  }

  ghost function UsageFn(): UsageId -> Node {
    (u: UsageId) => UsageNode(u)
  }

  ghost function UsageNodes(us: seq<UsageId>): seq<Node> {
    Map(us, UsageFn())
  }

  ghost function Kept(sys: System, flags: Flags, us: seq<UsageId>): seq<UsageId> {
    if us == [] then []
    else (if Keeps(sys, flags, us[0]) then [us[0]] else []) + Kept(sys, flags, us[1..])
  }

  ghost function ParentNodes(sys: System, s: Service, kind: Kind, allowed: bool): seq<Node> {
    if HasParentEdge(sys, s, kind, allowed) then [PartNode(sys, Parent(sys, s))] else []
  }

  /** The neighbours a node has by the meaning of its edges, in the order of the lists. */
  ghost function Declared(sys: System, flags: Flags, dir: Direction, n: Node): seq<Node> {
    Nearby(sys, flags, dir, n) + UsageNodes(Kept(sys, flags, UsageSource(sys, flags, dir, n)))
  }

  /** The neighbours that are not usages reached from a part. */
  ghost function Nearby(sys: System, flags: Flags, dir: Direction, n: Node): seq<Node> {
    match n
    case ServiceNode(s) =>
      if dir == Out then
        ParentNodes(sys, s, Import, flags.HasChildImporter())
        + (if flags.HasOwnerExporter() then PartNodes(sys, s, 0, Export) else [])
      else
        ParentNodes(sys, s, Export, flags.HasExporterChild())
        + (if flags.HasImporterOwner() then PartNodes(sys, s, 0, Import) else [])
    case ImportNode(p) =>
      if dir == Out then if flags.HasImporterOwner() then [ServiceNode(p.owner)] else []
      else if flags.HasChildImporter() then ChildNodes(sys, p, 0) else []
    case ExportNode(p) =>
      if dir == Out then if flags.HasExporterChild() then ChildNodes(sys, p, 0) else []
      else if flags.HasOwnerExporter() then [ServiceNode(p.owner)] else []
    case UsageNode(u) =>
      if dir == Out then
        if flags.HasUsageImporter() && Keeps(sys, flags, u) then [ImportNode(UserOf(sys, u))] else []
      else
        if flags.HasExporterUsage() && Keeps(sys, flags, u) then [ExportNode(UsedBy(sys, u))] else []
  }

  /** The usage list a node's edges in this direction come from. */
  ghost function UsageSource(sys: System, flags: Flags, dir: Direction, n: Node): seq<UsageId> {
    match n
    case ExportNode(p) => if dir == Out && flags.HasExporterUsage() then PartAt(sys, p).usages else []
    case ImportNode(p) => if dir == In && flags.HasUsageImporter() then PartAt(sys, p).usages else []
    case _ => []
  }

  // ----- What the code visits -----

  /** Whether the code takes the first usage of the list without asking the filter. */
  ghost predicate TakesFirstUnfiltered(sys: System, flags: Flags, dir: Direction, n: Node) {
    if dir == Out then n.ExportNode? && Nearby(sys, flags, dir, n) != []
    else n.ImportNode? && Nearby(sys, flags, dir, n) == []
  }

  ghost function VisitedUsages(sys: System, flags: Flags, dir: Direction, n: Node): seq<UsageId> {
    var us := UsageSource(sys, flags, dir, n);
    if us != [] && TakesFirstUnfiltered(sys, flags, dir, n) then [us[0]] + Kept(sys, flags, us[1..])
    else Kept(sys, flags, us)
  }

  ghost function Visited(sys: System, flags: Flags, dir: Direction, n: Node): seq<Node> {
    Nearby(sys, flags, dir, n) + UsageNodes(VisitedUsages(sys, flags, dir, n))
  }

  /** The first usage is taken although its kind is filtered out. */
  ghost predicate Misstep(sys: System, flags: Flags, dir: Direction, n: Node) {
    var us := UsageSource(sys, flags, dir, n);
    us != [] && TakesFirstUnfiltered(sys, flags, dir, n) && !Keeps(sys, flags, us[0])
  }

  ghost function AdvanceFn(sys: System, flags: Flags, dir: Direction, n: Node): Node -> Option<Node> {
    (itr: Node) => Advance(sys, flags, dir, n, itr)
  }

  // ----- Pieces -----

  lemma {:induction false} FirstPartIs(sys: System, s: Service, i: nat, kind: Kind)
    ensures FirstPart(sys, s, i, kind) == FirstOf(PartNodes(sys, s, i, kind), None)
    ensures CountParts(sys, s, i, kind) == |PartNodes(sys, s, i, kind)|
    decreases |At(sys, s).parts| - i
  {
    if i < |At(sys, s).parts| {
      FirstPartIs(sys, s, i + 1, kind);
    }
  }

  lemma {:induction false} FirstKeptIs(sys: System, flags: Flags, us: seq<UsageId>)
    ensures FirstKept(sys, flags, us) == FirstOf(UsageNodes(Kept(sys, flags, us)), None)
    ensures KeptCount(sys, flags, us) == |Kept(sys, flags, us)|
  {
    if us != [] {
      FirstKeptIs(sys, flags, us[1..]);
    }
  }

  lemma {:induction false} KeptAll(sys: System, flags: Flags, us: seq<UsageId>)
    requires flags.HasAllUsage()
    ensures Kept(sys, flags, us) == us
  {
    if us != [] {
      KeptAll(sys, flags, us[1..]);
    }
  }

  /** What both usage branches of the code compute: the first kept usage. */
  lemma UsageBranch(sys: System, flags: Flags, us: seq<UsageId>)
    ensures (if flags.HasAllUsage() then FirstUsage(us) else FirstKept(sys, flags, us))
         == FirstOf(UsageNodes(Kept(sys, flags, us)), None)
    ensures (if flags.HasAllUsage() then |us| else KeptCount(sys, flags, us)) == |Kept(sys, flags, us)|
  {
    FirstKeptIs(sys, flags, us);
    if flags.HasAllUsage() {
      KeptAll(sys, flags, us);
    }
  }

  lemma {:induction false} PartNodesChain(sys: System, flags: Flags, dir: Direction, s: Service, i: nat)
    requires if dir == Out then flags.HasOwnerExporter() else flags.HasImporterOwner()
    ensures Chain(AdvanceFn(sys, flags, dir, ServiceNode(s)),
                  PartNodes(sys, s, i, if dir == Out then Export else Import), None)
    decreases |At(sys, s).parts| - i
  {
    if i < |At(sys, s).parts| {
      var kind := if dir == Out then Export else Import;
      PartNodesChain(sys, flags, dir, s, i + 1);
      FirstPartIs(sys, s, i + 1, kind);
      if At(sys, s).parts[i].kind == kind {
        ChainConcat(AdvanceFn(sys, flags, dir, ServiceNode(s)), [PartNode(sys, PartRef(s, i))],
                    PartNodes(sys, s, i + 1, kind), None);
      }
    }
  }

  /** The node of part p whose edges in this direction go to children and usages. */
  function Holder(dir: Direction, p: PartRef): Node {
    if dir == Out then ExportNode(p) else ImportNode(p)
  }

  lemma {:induction false} ChildNodesChain(sys: System, flags: Flags, dir: Direction, p: PartRef, j: nat, end: Option<Node>)
    requires j < |PartAt(sys, p).children|
    requires Advance(sys, flags, dir, Holder(dir, p),
                     ServiceNode(Child(p.owner, p.part, |PartAt(sys, p).children| - 1))) == end
    ensures Chain(AdvanceFn(sys, flags, dir, Holder(dir, p)), ChildNodes(sys, p, j), end)
    decreases |PartAt(sys, p).children| - j
  {
    var c := ServiceNode(Child(p.owner, p.part, j));
    if j + 1 < |PartAt(sys, p).children| {
      ChildNodesChain(sys, flags, dir, p, j + 1, end);
      assert ChildNodes(sys, p, j + 1)[0] == ServiceNode(Child(p.owner, p.part, j + 1));
      ChainConcat(AdvanceFn(sys, flags, dir, Holder(dir, p)), [c], ChildNodes(sys, p, j + 1), end);
    } else {
      assert ChildNodes(sys, p, j) == [c];
    }
  }

  /** A part lists usages whose end on its side it is. */
  ghost predicate Lists(sys: System, dir: Direction, p: PartRef) {
    && NoDup(PartAt(sys, p).usages)
    && forall u :: u in PartAt(sys, p).usages ==> EndOf(sys, u, if dir == Out then Export else Import) == p
  }

  /** One advance from a usage leads to the first kept usage behind it. */
  lemma UsageStep(sys: System, flags: Flags, dir: Direction, p: PartRef, k: nat)
    requires Lists(sys, dir, p) && k < |PartAt(sys, p).usages|
    ensures Advance(sys, flags, dir, Holder(dir, p), UsageNode(PartAt(sys, p).usages[k]))
         == FirstOf(UsageNodes(Kept(sys, flags, PartAt(sys, p).usages[k + 1..])), None)
  {
    var us := PartAt(sys, p).usages;
    assert us[k] in us;
    AfterAt(us, k);
    UsageBranch(sys, flags, us[k + 1..]);
  }

  /** Advancing through the usages of a part visits the kept ones from index k on. */
  lemma {:induction false} UsageChain(sys: System, flags: Flags, dir: Direction, p: PartRef, k: nat)
    requires Lists(sys, dir, p) && k <= |PartAt(sys, p).usages|
    ensures Chain(AdvanceFn(sys, flags, dir, Holder(dir, p)),
                  UsageNodes(Kept(sys, flags, PartAt(sys, p).usages[k..])), None)
    decreases |PartAt(sys, p).usages| - k
  {
    var us, next := PartAt(sys, p).usages, AdvanceFn(sys, flags, dir, Holder(dir, p));
    if k < |us| {
      UsageChain(sys, flags, dir, p, k + 1);
      assert us[k..][1..] == us[k + 1..];
      if Keeps(sys, flags, us[k]) {
        UsageStep(sys, flags, dir, p, k);
        PrependUsage(next, us[k], Kept(sys, flags, us[k + 1..]));
      } else {
        assert Kept(sys, flags, us[k..]) == Kept(sys, flags, us[k + 1..]);
      }
    }
  }

  lemma UsageNodesCons(u: UsageId, rest: seq<UsageId>)
    ensures UsageNodes([u] + rest) == [UsageNode(u)] + UsageNodes(rest)
  {}

  lemma PrependUsage(next: Node -> Option<Node>, u: UsageId, rest: seq<UsageId>)
    requires Chain(next, UsageNodes(rest), None) && next(UsageNode(u)) == FirstOf(UsageNodes(rest), None)
    ensures Chain(next, UsageNodes([u] + rest), None)
  {
    var first := [UsageNode(u)];
    assert Chain(next, first, FirstOf(UsageNodes(rest), None));
    ChainConcat(next, first, UsageNodes(rest), None);
    UsageNodesCons(u, rest);
  }

  /** The visited usages of a part form a walk of their own. */
  lemma VisitedUsagesChain(sys: System, flags: Flags, dir: Direction, p: PartRef)
    requires Lists(sys, dir, p)
    ensures Chain(AdvanceFn(sys, flags, dir, Holder(dir, p)),
                  UsageNodes(VisitedUsages(sys, flags, dir, Holder(dir, p))), None)
  {
    var n, us := Holder(dir, p), PartAt(sys, p).usages;
    if UsageSource(sys, flags, dir, n) != [] {
      UsageChain(sys, flags, dir, p, 0);
      assert us[0..] == us;
      UsageChain(sys, flags, dir, p, 1);
      UsageStep(sys, flags, dir, p, 0);
      PrependUsage(AdvanceFn(sys, flags, dir, n), us[0], Kept(sys, flags, us[1..]));
    }
  }

  /** Where the code goes when there are no children, or behind the last child. */
  lemma UsageEntry(sys: System, flags: Flags, dir: Direction, p: PartRef)
    ensures var n := Holder(dir, p);
      var first := FirstOf(UsageNodes(VisitedUsages(sys, flags, dir, n)), None);
      if Nearby(sys, flags, dir, n) == [] then Begin(sys, flags, dir, n) == first
      else
        && PartAt(sys, p).children != []
        && Nearby(sys, flags, dir, n) == ChildNodes(sys, p, 0)
        && Begin(sys, flags, dir, n) == Some(ServiceNode(Child(p.owner, p.part, 0)))
        && Advance(sys, flags, dir, n, ServiceNode(Child(p.owner, p.part, |PartAt(sys, p).children| - 1))) == first
  {
    var us := PartAt(sys, p).usages;
    UsageBranch(sys, flags, us);
    if us != [] {
      assert UsageNodes([us[0]] + Kept(sys, flags, us[1..]))[0] == UsageNode(us[0]);
    }
    assert PartAt(sys, p).children != [] ==> ChildNodes(sys, p, 0) != [];
  }

  /** The children and usages of a part, in the direction in which it has them. */
  lemma HolderEnumeration(sys: System, flags: Flags, dir: Direction, p: PartRef)
    requires Lists(sys, dir, p)
    ensures Begin(sys, flags, dir, Holder(dir, p)) == FirstOf(Visited(sys, flags, dir, Holder(dir, p)), None)
    ensures Chain(AdvanceFn(sys, flags, dir, Holder(dir, p)), Visited(sys, flags, dir, Holder(dir, p)), None)
  {
    var n := Holder(dir, p);
    var near, used := Nearby(sys, flags, dir, n), UsageNodes(VisitedUsages(sys, flags, dir, n));
    VisitedUsagesChain(sys, flags, dir, p);
    UsageEntry(sys, flags, dir, p);
    if near != [] {
      ChildNodesChain(sys, flags, dir, p, 0, FirstOf(used, None));
      ChainConcat(AdvanceFn(sys, flags, dir, n), near, used, None);
    } else {
      assert near + used == used;
    }
  }

  lemma ServiceEnumeration(sys: System, flags: Flags, dir: Direction, s: Service)
    ensures Begin(sys, flags, dir, ServiceNode(s)) == FirstOf(Visited(sys, flags, dir, ServiceNode(s)), None)
    ensures Chain(AdvanceFn(sys, flags, dir, ServiceNode(s)), Visited(sys, flags, dir, ServiceNode(s)), None)
  {
    var n, kind := ServiceNode(s), if dir == Out then Export else Import;
    assert Visited(sys, flags, dir, n) == Nearby(sys, flags, dir, n);
    FirstPartIs(sys, s, 0, kind);
    var parent := ParentNodes(sys, s, if dir == Out then Import else Export,
                              if dir == Out then flags.HasChildImporter() else flags.HasExporterChild());
    if if dir == Out then flags.HasOwnerExporter() else flags.HasImporterOwner() {
      PartNodesChain(sys, flags, dir, s, 0);
      ChainConcat(AdvanceFn(sys, flags, dir, n), parent, PartNodes(sys, s, 0, kind), None);
    } else {
      assert Nearby(sys, flags, dir, n) == parent;
    }
  }

  /** Iterating advance from begin visits exactly Visited, for every node of the system. */
  lemma NodeEnumeration(sys: System, flags: Flags, dir: Direction, n: Node)
    requires WellLinked(sys) && ValidNode(sys, n)
    ensures Begin(sys, flags, dir, n) == FirstOf(Visited(sys, flags, dir, n), None)
    ensures Chain(AdvanceFn(sys, flags, dir, n), Visited(sys, flags, dir, n), None)
  {
    match n
    case ServiceNode(s) => ServiceEnumeration(sys, flags, dir, s);
    case ImportNode(p) =>
      if dir == In {
        assert ListsWell(sys, p);
        HolderEnumeration(sys, flags, dir, p);
      }
    case ExportNode(p) =>
      if dir == Out {
        assert ListsWell(sys, p);
        HolderEnumeration(sys, flags, dir, p);
      }
    case UsageNode(u) =>
  }

  // ----- degree -----

  lemma {:induction false} ChildNodesLength(sys: System, p: PartRef, j: nat)
    requires j <= |PartAt(sys, p).children|
    ensures |ChildNodes(sys, p, j)| == |PartAt(sys, p).children| - j
    decreases |PartAt(sys, p).children| - j
  {
    if j < |PartAt(sys, p).children| {
      ChildNodesLength(sys, p, j + 1);
    }
  }

  /** degree counts the declared neighbours, whatever the flags. */
  lemma DegreeIsDeclared(sys: System, flags: Flags, dir: Direction, n: Node)
    ensures Degree(sys, flags, dir, n) == |Declared(sys, flags, dir, n)|
  {
    match n
    case ServiceNode(s) =>
      FirstPartIs(sys, s, 0, Import);
      FirstPartIs(sys, s, 0, Export);
    case ImportNode(p) =>
      ChildNodesLength(sys, p, 0);
      UsageBranch(sys, flags, PartAt(sys, p).usages);
    case ExportNode(p) =>
      ChildNodesLength(sys, p, 0);
      UsageBranch(sys, flags, PartAt(sys, p).usages);
    case UsageNode(u) =>
  }

  /** The enumeration of a node has as many edges as its degree, and is the declared one,
      exactly when the first usage was not taken against the filter. */
  lemma EnumerationMeetsDegree(sys: System, flags: Flags, dir: Direction, n: Node)
    ensures |Visited(sys, flags, dir, n)| == Degree(sys, flags, dir, n) <==> !Misstep(sys, flags, dir, n)
    ensures Visited(sys, flags, dir, n) == Declared(sys, flags, dir, n) <==> !Misstep(sys, flags, dir, n)
  {
    DegreeIsDeclared(sys, flags, dir, n);
    var us := UsageSource(sys, flags, dir, n);
    if us != [] {
      assert |Kept(sys, flags, us)| == |Kept(sys, flags, us[1..])| + (if Keeps(sys, flags, us[0]) then 1 else 0);
    }
  }

  /** Flag sets that keep both usage kinds, or neither, never misstep. */
  lemma UniformFlagsNeverMisstep(sys: System, flags: Flags, dir: Direction, n: Node)
    requires flags.filterStrong == flags.filterWeak
    ensures !Misstep(sys, flags, dir, n)
  {}
}
