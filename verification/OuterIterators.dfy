/** The edge iterators of the service and cluster graphs as they run. */
module OuterIterators {
  import opened Sequences
  import opened Walks
  import opened ServiceTree
  import opened Traversal
  import opened Iterators
  import opened GraphModel
  import opened Enumeration
  import opened Vertices
  import opened Duality
  import opened EdgeWalks
  import opened ServiceGraph
  import opened ClusterGraph

  /** The search loop over inner nodes; rest lists the ones still ahead. */
  method FirstEdgeOfInner(sys: System, flags: Flags, dir: Direction, start: Option<Node>, ghost rest: seq<Node>)
    returns (first: Option<Edge>)
    requires WellLinked(sys) && Chain(NextInnerFn(sys), rest, None) && start == FirstOf(rest, None)
    requires forall n :: n in rest ==> ValidNode(sys, n)
    ensures first == FirstOf(VisitedEdges(sys, flags, dir, rest), None)
  {
    var current := start;
    ghost var ns := rest;
    while current.Some?
      invariant Chain(NextInnerFn(sys), ns, None) && current == FirstOf(ns, None)
      invariant forall n :: n in ns ==> ValidNode(sys, n)
      invariant FirstOf(VisitedEdges(sys, flags, dir, rest), None) == FirstOf(VisitedEdges(sys, flags, dir, ns), None)
      decreases |ns|
    {
      FirstEdgeSplit(sys, flags, dir, ns);
      first := FirstEdgeOf(sys, flags, dir, current.value);
      if first.Some? {
        return;
      }
      ChainAt(NextInnerFn(sys), ns, None, 0);
      current := NextInner(sys, current.value);
      ChainSuffix(NextInnerFn(sys), ns, None, 1);
      ns := ns[1..];
    }
    first := None;
  }

  lemma InnerValid(sys: System, s: Service)
    requires Valid(sys, s)
    ensures forall n :: n in InnerNodes(sys, s) ==> ValidNode(sys, n)
  {
    forall n | n in InnerNodes(sys, s) ensures ValidNode(sys, n) {
      InnerNodesMember(sys, s, n);
    }
  }

  /** first_outer_edge_of */
  method FirstOuterEdgeOf(sys: System, flags: Flags, dir: Direction, s: Service) returns (first: Option<Edge>)
    requires WellLinked(sys) && Valid(sys, s)
    ensures first == FirstOf(VisitedEdges(sys, flags, dir, InnerNodes(sys, s)), None)
  {
    InnerNodesWalk(sys, s);
    InnerValid(sys, s);
    first := FirstEdgeOfInner(sys, flags, dir, Some(ServiceNode(s)), InnerNodes(sys, s));
  }

  lemma RestOfInner(sys: System, n: Node)
    requires ValidNode(sys, n) && !n.UsageNode?
    ensures var rest := After(InnerNodes(sys, OwnerOf(sys, n)), n);
      && Chain(NextInnerFn(sys), rest, None) && NextInner(sys, n) == FirstOf(rest, None)
      && forall m :: m in rest ==> ValidNode(sys, m)
  {
    var s := OwnerOf(sys, n);
    var ns := InnerNodes(sys, s);
    InnerNodesWalk(sys, s);
    InnerNodesMember(sys, s, n);
    WalkBehind(NextInnerFn(sys), ns, None, n);
    InnerValid(sys, s);
    forall m | m in After(ns, n) ensures ValidNode(sys, m) {
      AfterMember(ns, n, m);
    }
  }

  /** advance_outer_edge: the next edge enumerated at the same service. */
  method AdvanceOuterEdge(sys: System, flags: Flags, dir: Direction, e: Edge) returns (next: Option<Edge>)
    requires WellLinked(sys) && ValidNode(sys, Near(dir, e)) && !Near(dir, e).UsageNode?
    ensures next == NextEdge(sys, flags, dir, InnerNodes(sys, OwnerOf(sys, Near(dir, e))), e)
  {
    next := AdvanceEdge(sys, flags, dir, e);
    if next.None? {
      var n := Near(dir, e);
      RestOfInner(sys, n);
      next := FirstEdgeOfInner(sys, flags, dir, NextInner(sys, n), After(InnerNodes(sys, OwnerOf(sys, n)), n));
    }
  }

  // ----- Splitting a walk over several services at the current one -----

  lemma {:induction false} AfterInNodes(sys: System, ss: seq<Service>, n: Node)
    requires AllValid(sys, ss) && ValidNode(sys, n) && !n.UsageNode? && OwnerOf(sys, n) in ss
    ensures After(NodesOf(sys, ss), n)
         == After(InnerNodes(sys, OwnerOf(sys, n)), n) + NodesOf(sys, After(ss, OwnerOf(sys, n)))
  {
    InnerNodesMember(sys, ss[0], n);
    AfterConcat(InnerNodes(sys, ss[0]), NodesOf(sys, ss[1..]), n);
    if ss[0] != OwnerOf(sys, n) {
      AfterInNodes(sys, ss[1..], n);
    }
  }

  /** The next edge over several services: the next one at the current service, or else the
      first one at the services behind it. */
  lemma NextEdgeSplit(sys: System, flags: Flags, dir: Direction, ss: seq<Service>, e: Edge)
    requires AllValid(sys, ss) && ValidNode(sys, Near(dir, e)) && !Near(dir, e).UsageNode?
    requires OwnerOf(sys, Near(dir, e)) in ss
    ensures var s := OwnerOf(sys, Near(dir, e));
      NextEdge(sys, flags, dir, NodesOf(sys, ss), e)
      == OrElse(NextEdge(sys, flags, dir, InnerNodes(sys, s), e),
                FirstOf(OuterEdges(sys, flags, dir, After(ss, s)), None))
  {
    var n, s := Near(dir, e), OwnerOf(sys, Near(dir, e));
    AfterInNodes(sys, ss, n);
    FlattenConcat(After(InnerNodes(sys, s), n), NodesOf(sys, After(ss, s)), VisitedEdgesFn(sys, flags, dir));
    FirstOfConcat(VisitedEdges(sys, flags, dir, After(InnerNodes(sys, s), n)), OuterEdges(sys, flags, dir, After(ss, s)));
  }

  lemma OuterEdgesCons(sys: System, flags: Flags, dir: Direction, ss: seq<Service>)
    requires ss != []
    ensures OuterEdges(sys, flags, dir, ss)
         == VisitedEdges(sys, flags, dir, InnerNodes(sys, ss[0])) + OuterEdges(sys, flags, dir, ss[1..])
  {
    FlattenConcat(InnerNodes(sys, ss[0]), NodesOf(sys, ss[1..]), VisitedEdgesFn(sys, flags, dir));
  }

  /** first_outer_edge_in_range over the services that follow in the given scope, up to end. */
  method FirstOuterEdgeInRange(sys: System, flags: Flags, dir: Direction, scope: Scope,
                               start: Option<Service>, end: Option<Service>, ghost rest: seq<Service>)
    returns (first: Option<Edge>)
    requires WellLinked(sys) && Range(NextFn(sys, scope), rest, end) && start == FirstOf(rest, end)
    requires AllValid(sys, rest)
    ensures first == FirstOf(OuterEdges(sys, flags, dir, rest), None)
  {
    var current := start;
    ghost var ss := rest;
    while current != end
      invariant Range(NextFn(sys, scope), ss, end) && current == FirstOf(ss, end) && AllValid(sys, ss)
      invariant FirstOf(OuterEdges(sys, flags, dir, rest), None) == FirstOf(OuterEdges(sys, flags, dir, ss), None)
      decreases |ss|
    {
      OuterEdgesCons(sys, flags, dir, ss);
      first := FirstOuterEdgeOf(sys, flags, dir, current.value);
      if first.Some? {
        return;
      }
      ChainAt(NextFn(sys, scope), ss, end, 0);
      current := NextChildOrUp(sys, current.value, scope);
      RangeTail(NextFn(sys, scope), ss, end);
      ss := ss[1..];
    }
    first := None;
  }

  /** service_edge_iterator and cluster_edge_iterator: both walk all services. */
  class ServiceEdgeIterator {
    const sys: System
    const flags: Flags
    var current: Option<Edge>

    constructor (sys: System, flags: Flags, start: Option<Edge>)
      ensures this.sys == sys && this.flags == flags && current == start
    {
      this.sys := sys;
      this.flags := flags;
      current := start;
    }

    method Increment()
      requires WellLinked(sys) && current.Some?
      requires ValidNode(sys, current.value.source) && !current.value.source.UsageNode?
      modifies this
      ensures current == NextEdge(sys, flags, Out, NodesOf(sys, Services(sys)), old(current).value)
    {
      var e := current.value;
      current := AdvanceOuterEdge(sys, flags, Out, e);
      ghost var rest := ServicesBehind(sys, flags, e);
      if current.None? {
        var owner := OwnerOf(sys, e.source);
        var next := NextChildOrUp(sys, owner, All);
        current := FirstOuterEdgeInRange(sys, flags, Out, All, next, None, rest);
      }
    }
  }

  lemma ServicesBehind(sys: System, flags: Flags, e: Edge) returns (rest: seq<Service>)
    requires WellLinked(sys) && ValidNode(sys, e.source) && !e.source.UsageNode?
    ensures rest == After(Services(sys), OwnerOf(sys, e.source)) && AllValid(sys, rest)
    ensures Range(NextFn(sys, All), rest, None) && Next(sys, OwnerOf(sys, e.source), All) == FirstOf(rest, None)
    ensures NextEdge(sys, flags, Out, NodesOf(sys, Services(sys)), e)
         == OrElse(NextEdge(sys, flags, Out, InnerNodes(sys, OwnerOf(sys, e.source)), e),
                   FirstOf(OuterEdges(sys, flags, Out, rest), None))
  {
    var s := OwnerOf(sys, e.source);
    rest := After(Services(sys), s);
    AllServicesValid(sys);
    TransitiveServicesComplete(sys);
    assert s in Services(sys);
    NextEdgeSplit(sys, flags, Out, Services(sys), e);
    RestOfServices(sys, s);
    forall x | x in rest ensures Valid(sys, x) {
      AfterMember(Services(sys), s, x);
    }
  }

  /** cluster_out_edge_iterator and cluster_in_edge_iterator: walk the rest of the cluster. */
  class ClusterEdgeIterator {
    const sys: System
    const flags: Flags
    const dir: Direction
    var current: Option<Edge>

    constructor (sys: System, flags: Flags, dir: Direction, start: Option<Edge>)
      ensures this.sys == sys && this.flags == flags && this.dir == dir && current == start
    {
      this.sys := sys;
      this.flags := flags;
      this.dir := dir;
      current := start;
    }

    method Increment()
      requires WellLinked(sys) && current.Some?
      requires ValidNode(sys, Near(dir, current.value)) && !Near(dir, current.value).UsageNode?
      modifies this
      ensures var head := HeadOf(sys, OwnerOf(sys, Near(dir, old(current).value)));
        current == NextEdge(sys, flags, dir, NodesOf(sys, Members(sys, head)), old(current).value)
    {
      var e := current.value;
      current := AdvanceOuterEdge(sys, flags, dir, e);
      ghost var rest := MembersBehind(sys, flags, dir, e);
      if current.None? {
        var owner := OwnerOf(sys, Near(dir, e));
        var head := ClusterHeadOf(sys, owner);
        var end := NextParentOrNeighbour(sys, head, ImportsOnly);
        var next := NextChildOrUp(sys, owner, ImportsOnly);
        current := FirstOuterEdgeInRange(sys, flags, dir, ImportsOnly, next, end, rest);
      }
    }
  }

  lemma MembersBehind(sys: System, flags: Flags, dir: Direction, e: Edge) returns (rest: seq<Service>)
    requires WellLinked(sys) && ValidNode(sys, Near(dir, e)) && !Near(dir, e).UsageNode?
    ensures var s := OwnerOf(sys, Near(dir, e));
      var h := HeadOf(sys, s);
      && rest == After(Members(sys, h), s) && AllValid(sys, rest)
      && Range(NextFn(sys, ImportsOnly), rest, Up(sys, h, ImportsOnly))
      && Next(sys, s, ImportsOnly) == FirstOf(rest, Up(sys, h, ImportsOnly))
      && NextEdge(sys, flags, dir, NodesOf(sys, Members(sys, h)), e)
         == OrElse(NextEdge(sys, flags, dir, InnerNodes(sys, s), e), FirstOf(OuterEdges(sys, flags, dir, rest), None))
  {
    var s := OwnerOf(sys, Near(dir, e));
    var h := HeadOf(sys, s);
    rest := After(Members(sys, h), s);
    HeadValid(sys, s);
    MembersValid(sys, h);
    ClusterMembersRange(sys, h);
    NextEdgeSplit(sys, flags, dir, Members(sys, h), e);
    RangeBehind(NextFn(sys, ImportsOnly), Members(sys, h), Up(sys, h, ImportsOnly), s);
    forall x | x in rest ensures Valid(sys, x) {
      AfterMember(Members(sys, h), s, x);
    }
  }

  // ----- Degrees -----

  /** out_degree / in_degree of a service: the loop over its inner nodes. */
  method DegreeOfService(sys: System, flags: Flags, dir: Direction, s: Service) returns (count: nat)
    ensures count == ServiceDegree(sys, flags, dir, s)
  {
    ghost var ns := InnerNodes(sys, s);
    InnerNodesWalk(sys, s);
    count := DegreeOfNodes(sys, flags, dir, ServiceNode(s), ns);
  }

  method DegreeOfNodes(sys: System, flags: Flags, dir: Direction, start: Node, ghost ns: seq<Node>)
    returns (count: nat)
    requires Chain(NextInnerFn(sys), ns, None) && FirstOf(ns, None) == Some(start)
    ensures count == Sum(ns, DegreeFn(sys, flags, dir))
  {
    count := 0;
    var current := Some(start);
    ghost var k := 0;
    while current.Some?
      invariant k <= |ns| && current == if k < |ns| then Some(ns[k]) else None
      invariant count == Sum(ns[..k], DegreeFn(sys, flags, dir))
      decreases |ns| - k
    {
      ChainAt(NextInnerFn(sys), ns, None, k);
      PrefixSnoc(ns, k);
      SumSnoc(ns[..k], ns[k], DegreeFn(sys, flags, dir));
      count := count + Degree(sys, flags, dir, current.value);
      current := NextInner(sys, current.value);
      k := k + 1;
    }
    assert ns[..|ns|] == ns;
  }

  /** out_degree / in_degree of a cluster: the loop over cluster_members(head). */
  method DegreeOfCluster(sys: System, flags: Flags, dir: Direction, head: Service) returns (count: nat)
    requires WellRooted(sys) && Valid(sys, head) && IsClusterHead(sys, head)
    ensures count == ClusterDegree(sys, flags, dir, head)
  {
    HeadsOwnRange(sys, head);
    var members := ClusterMembers(sys, head);
    count := 0;
    for k := 0 to |members|
      invariant count == Sum(members[..k], ServiceDegreeFn(sys, flags, dir))
    {
      PrefixSnoc(members, k);
      SumSnoc(members[..k], members[k], ServiceDegreeFn(sys, flags, dir));
      var degree := DegreeOfService(sys, flags, dir, members[k]);
      count := count + degree;
    }
    assert members[..|members|] == members;
  }

  /** From the head, cluster_members covers the whole cluster. */
  lemma HeadsOwnRange(sys: System, head: Service)
    requires WellRooted(sys) && Valid(sys, head) && IsClusterHead(sys, head)
    ensures MembersFrom(sys, head) == Members(sys, head)
  {
    HeadReach(sys, head, head);
    assert Members(sys, head)[0] == head;
  }
}
