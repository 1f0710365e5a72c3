/** node_iterator: every vertex of the node level graph exactly once. */
module Vertices {
  import opened Sequences
  import opened Walks
  import opened ServiceTree
  import opened Traversal
  import opened GraphModel
  import opened Enumeration

  /** A part followed by the usages listed on it, if it is an export. */
  ghost function PartBlock(sys: System, p: PartRef): seq<Node> {
    [PartNode(sys, p)] + (if PartAt(sys, p).kind == Export then UsageNodes(PartAt(sys, p).usages) else [])
  }

  ghost function PartBlocks(sys: System, s: Service, i: nat): seq<Node>
    decreases |At(sys, s).parts| - i
  {
    if i >= |At(sys, s).parts| then [] else PartBlock(sys, PartRef(s, i)) + PartBlocks(sys, s, i + 1)
  }

  ghost function NodeBlock(sys: System, s: Service): seq<Node> {
    [ServiceNode(s)] + PartBlocks(sys, s, 0)
  }

  ghost function NodeBlockFn(sys: System): Service -> seq<Node> {
    (s: Service) => NodeBlock(sys, s)
  }

  /** All vertices in the order of vertices(graph). */
  ghost function AllNodes(sys: System): seq<Node> {
    Flatten(Services(sys), NodeBlockFn(sys))
  }

  // ----- The walk -----

  /** Where the iterator goes behind a part and its usages. */
  function BehindPart(sys: System, p: PartRef): Option<Node> {
    OrElse(PartFrom(sys, p.owner, p.part + 1), NextService(sys, p.owner))
  }

  lemma UsageNodesWalk(sys: System, p: PartRef)
    requires ListsWell(sys, p) && PartAt(sys, p).kind == Export
    ensures Chain(NextNodeFn(sys), UsageNodes(PartAt(sys, p).usages), BehindPart(sys, p))
  {
    var us, end := PartAt(sys, p).usages, BehindPart(sys, p);
    var ns := UsageNodes(us);
    forall k | 0 <= k < |ns| ensures NextNode(sys, ns[k]) == Behind(ns, k, end) {
      assert us[k] in us;
      AfterAt(us, k);
    }
  }

  lemma PartBlockWalk(sys: System, p: PartRef)
    requires WellLinked(sys) && ValidPart(sys, p)
    ensures Chain(NextNodeFn(sys), PartBlock(sys, p), BehindPart(sys, p))
  {
    assert ListsWell(sys, p);
    if PartAt(sys, p).kind == Export {
      UsageNodesWalk(sys, p);
      ChainConcat(NextNodeFn(sys), [PartNode(sys, p)], UsageNodes(PartAt(sys, p).usages), BehindPart(sys, p));
    }
  }

  lemma PartBlocksFirst(sys: System, s: Service, i: nat, end: Option<Node>)
    ensures FirstOf(PartBlocks(sys, s, i), end) == OrElse(PartFrom(sys, s, i), end)
  {}

  lemma {:induction false} PartBlocksWalk(sys: System, s: Service, i: nat)
    requires WellLinked(sys) && Valid(sys, s)
    ensures Chain(NextNodeFn(sys), PartBlocks(sys, s, i), NextService(sys, s))
    decreases |At(sys, s).parts| - i
  {
    if i < |At(sys, s).parts| {
      var p := PartRef(s, i);
      PartBlockWalk(sys, p);
      PartBlocksWalk(sys, s, i + 1);
      PartBlocksFirst(sys, s, i + 1, NextService(sys, s));
      assert BehindPart(sys, p) == FirstOf(PartBlocks(sys, s, i + 1), NextService(sys, s));
      ChainConcat(NextNodeFn(sys), PartBlock(sys, p), PartBlocks(sys, s, i + 1), NextService(sys, s));
    }
  }

  lemma NodeBlockWalk(sys: System, s: Service)
    requires WellLinked(sys) && Valid(sys, s)
    ensures Chain(NextNodeFn(sys), NodeBlock(sys, s), NextService(sys, s))
  {
    PartBlocksWalk(sys, s, 0);
    PartBlocksFirst(sys, s, 0, NextService(sys, s));
    ChainConcat(NextNodeFn(sys), [ServiceNode(s)], PartBlocks(sys, s, 0), NextService(sys, s));
  }

  // ----- Membership -----

  /** The part a node belongs to; a usage belongs to the export it uses. */
  function PartOf(sys: System, n: Node): PartRef
    requires !n.ServiceNode?
  {
    match n
    case ImportNode(p) => p
    case ExportNode(p) => p
    case UsageNode(u) => UsedBy(sys, u)
  }

  function OwnerOf(sys: System, n: Node): Service {
    if n.ServiceNode? then n.service else PartOf(sys, n).owner
  }

  lemma PartBlockMember(sys: System, p: PartRef, n: Node)
    requires WellLinked(sys) && ValidPart(sys, p)
    ensures n in PartBlock(sys, p) <==> ValidNode(sys, n) && !n.ServiceNode? && PartOf(sys, n) == p
    ensures NoDup(PartBlock(sys, p))
  {
    var us := PartAt(sys, p).usages;
    assert ListsWell(sys, p);
    if n in UsageNodes(us) {
      var k :| 0 <= k < |us| && UsageNodes(us)[k] == n;
      assert us[k] in us;
    }
    if ValidNode(sys, n) && n.UsageNode? && UsedBy(sys, n.usage) == p {
      assert HangsIn(sys, n.usage, p, Export);
      var k :| 0 <= k < |us| && us[k] == n.usage;
      assert UsageNodes(us)[k] == n;
    }
  }

  lemma {:induction false} PartBlocksMember(sys: System, s: Service, i: nat, n: Node)
    requires WellLinked(sys) && Valid(sys, s)
    ensures n in PartBlocks(sys, s, i) <==>
            ValidNode(sys, n) && !n.ServiceNode? && PartOf(sys, n).owner == s && PartOf(sys, n).part >= i
    decreases |At(sys, s).parts| - i
  {
    if i < |At(sys, s).parts| {
      PartBlockMember(sys, PartRef(s, i), n);
      PartBlocksMember(sys, s, i + 1, n);
    } else if ValidNode(sys, n) && n.UsageNode? {
      assert HangsIn(sys, n.usage, UsedBy(sys, n.usage), Export);
    }
  }

  lemma {:induction false} PartBlocksNoDup(sys: System, s: Service, i: nat)
    requires WellLinked(sys) && Valid(sys, s)
    ensures NoDup(PartBlocks(sys, s, i))
    decreases |At(sys, s).parts| - i
  {
    if i < |At(sys, s).parts| {
      var xs, ys := PartBlock(sys, PartRef(s, i)), PartBlocks(sys, s, i + 1);
      PartBlocksNoDup(sys, s, i + 1);
      PartBlockMember(sys, PartRef(s, i), ServiceNode(s));
      forall a, b | 0 <= a < |xs| && 0 <= b < |ys| ensures xs[a] != ys[b] {
        PartBlockMember(sys, PartRef(s, i), xs[a]);
        PartBlocksMember(sys, s, i + 1, ys[b]);
      }
      NoDupConcat(xs, ys);
    }
  }

  lemma NodeBlockMember(sys: System, s: Service, n: Node)
    requires WellLinked(sys) && Valid(sys, s)
    ensures n in NodeBlock(sys, s) <==> ValidNode(sys, n) && OwnerOf(sys, n) == s
  {
    PartBlocksMember(sys, s, 0, n);
  }

  lemma NodeBlockNoDup(sys: System, s: Service)
    requires WellLinked(sys) && Valid(sys, s)
    ensures NoDup(NodeBlock(sys, s))
  {
    var ys := PartBlocks(sys, s, 0);
    PartBlocksNoDup(sys, s, 0);
    forall b | 0 <= b < |ys| ensures ys[b] != ServiceNode(s) {
      PartBlocksMember(sys, s, 0, ys[b]);
    }
    NoDupConcat([ServiceNode(s)], ys);
  }

  lemma OwnerValid(sys: System, n: Node)
    requires WellLinked(sys) && ValidNode(sys, n)
    ensures Valid(sys, OwnerOf(sys, n))
  {
    if n.UsageNode? {
      assert HangsIn(sys, n.usage, UsedBy(sys, n.usage), Export);
    }
  }

  lemma NodesMember(sys: System, n: Node)
    requires WellLinked(sys)
    ensures n in AllNodes(sys) <==> ValidNode(sys, n)
  {
    var xs, f := Services(sys), NodeBlockFn(sys);
    TransitiveServicesComplete(sys);
    FlattenMember(xs, f, n);
    if i :| 0 <= i < |xs| && n in f(xs[i]) {
      assert xs[i] in xs;
      NodeBlockMember(sys, xs[i], n);
    }
    if ValidNode(sys, n) {
      OwnerValid(sys, n);
      assert OwnerOf(sys, n) in xs;
      var i :| 0 <= i < |xs| && xs[i] == OwnerOf(sys, n);
      NodeBlockMember(sys, xs[i], n);
    }
  }

  lemma NodesNoDup(sys: System)
    requires WellLinked(sys)
    ensures NoDup(AllNodes(sys))
  {
    var xs, f := Services(sys), NodeBlockFn(sys);
    TransitiveServicesComplete(sys);
    forall i | 0 <= i < |xs| ensures NoDup(f(xs[i])) {
      assert xs[i] in xs;
      NodeBlockNoDup(sys, xs[i]);
    }
    forall i, j | 0 <= i < j < |xs| ensures Disjoint(f(xs[i]), f(xs[j])) {
      assert xs[i] in xs && xs[j] in xs;
      forall a, b | 0 <= a < |f(xs[i])| && 0 <= b < |f(xs[j])| ensures f(xs[i])[a] != f(xs[j])[b] {
        NodeBlockMember(sys, xs[i], f(xs[i])[a]);
        NodeBlockMember(sys, xs[j], f(xs[j])[b]);
      }
    }
    FlattenNoDup(xs, f);
  }

  lemma NodesWalk(sys: System)
    requires WellLinked(sys)
    ensures Chain(NextNodeFn(sys), AllNodes(sys), None)
    ensures FirstOf(AllNodes(sys), None) == Some(ServiceNode(Root))
  {
    var xs, f := Services(sys), NodeBlockFn(sys);
    TransitiveServicesComplete(sys);
    forall k | 0 <= k < |xs| ensures Chain(NextNodeFn(sys), f(xs[k]), FirstOf(Flatten(xs[k + 1..], f), None)) {
      assert xs[k] in xs;
      NodeBlockWalk(sys, xs[k]);
      ChainAt(NextFn(sys, All), xs, None, k);
      if k + 1 < |xs| {
        assert xs[k + 1..][0] == xs[k + 1];
        assert NodeBlock(sys, xs[k + 1])[0] == ServiceNode(xs[k + 1]);
      }
    }
    FlattenChain(NextNodeFn(sys), xs, f, None);
    assert NodeBlock(sys, xs[0])[0] == ServiceNode(Root);
  }

  /** vertices(graph) visits every service, part and usage of the system exactly once and
      then ends. */
  lemma VerticesComplete(sys: System)
    requires WellLinked(sys)
    ensures Chain(NextNodeFn(sys), AllNodes(sys), None)
    ensures FirstOf(AllNodes(sys), None) == Some(ServiceNode(Root))
    ensures NoDup(AllNodes(sys))
    ensures forall n :: n in AllNodes(sys) <==> ValidNode(sys, n)
  {
    NodesWalk(sys);
    NodesNoDup(sys);
    forall n ensures n in AllNodes(sys) <==> ValidNode(sys, n) {
      NodesMember(sys, n);
    }
  }
}
