/** ClusterDependencyGraph: the same edges once more, grouped by cluster. */
module ClusterGraph {
  import opened Sequences
  import opened Walks
  import opened ServiceTree
  import opened Traversal
  import opened GraphModel
  import opened Enumeration
  import opened Vertices
  import opened Duality
  import opened EdgeWalks
  import opened ServiceGraph

  ghost function ServiceEdgesFn(sys: System, flags: Flags, dir: Direction): Service -> seq<Edge> {
    (s: Service) => VisitedEdges(sys, flags, dir, InnerNodes(sys, s))
  }

  /** The edges of a list of services are the edges of each, one after the other. */
  lemma OuterEdgesByService(sys: System, flags: Flags, dir: Direction, ss: seq<Service>)
    ensures OuterEdges(sys, flags, dir, ss) == Flatten(ss, ServiceEdgesFn(sys, flags, dir))
  {
    FlattenFlatten(ss, InnerNodesFn(sys), VisitedEdgesFn(sys, flags, dir), ServiceEdgesFn(sys, flags, dir));
  }

  /** out_edges(h) or in_edges(h) of a cluster. */
  ghost function ClusterEdges(sys: System, flags: Flags, dir: Direction, h: Service): seq<Edge> {
    OuterEdges(sys, flags, dir, Members(sys, h))
  }

  ghost function ClusterEdgesFn(sys: System, flags: Flags, dir: Direction): Service -> seq<Edge> {
    (h: Service) => ClusterEdges(sys, flags, dir, h)
  }

  lemma MembersValid(sys: System, h: Service)
    requires Valid(sys, h) && IsClusterHead(sys, h)
    ensures AllValid(sys, Members(sys, h)) && NoDup(Members(sys, h))
  {
    ClusterMembersRange(sys, h);
  }

  /** The edge iterators of a cluster visit the edges of each member in turn. */
  lemma ClusterEdgesWalk(sys: System, flags: Flags, dir: Direction, h: Service)
    requires WellLinked(sys) && Valid(sys, h) && IsClusterHead(sys, h)
    ensures Chain(NextEdgeFn(sys, flags, dir, NodesOf(sys, Members(sys, h))), ClusterEdges(sys, flags, dir, h), None)
  {
    MembersValid(sys, h);
    OuterEdgesWalk(sys, flags, dir, Members(sys, h));
  }

  /** Collected over all cluster heads, the edges of the clusters are a permutation of the
      edges collected over all services: what edges(graph) lists. */
  lemma ClusterEdgesPermuteServiceEdges(sys: System, flags: Flags, dir: Direction)
    requires WellRooted(sys)
    ensures multiset(Flatten(Heads(sys), ClusterEdgesFn(sys, flags, dir)))
         == multiset(OuterEdges(sys, flags, dir, Services(sys)))
  {
    var hs, f := Heads(sys), ServiceEdgesFn(sys, flags, dir);
    forall i | 0 <= i < |hs|
      ensures ClusterEdgesFn(sys, flags, dir)(hs[i]) == Flatten(MembersFn(sys)(hs[i]), f)
    {
      OuterEdgesByService(sys, flags, dir, Members(sys, hs[i]));
    }
    FlattenFlatten(hs, MembersFn(sys), f, ClusterEdgesFn(sys, flags, dir));
    ClusterPartition(sys);
    FlattenPermutation(Flatten(hs, MembersFn(sys)), Services(sys), f);
    OuterEdgesByService(sys, flags, dir, Services(sys));
  }

  /** out_degree / in_degree of a cluster: the sum over its members. */
  ghost function ClusterDegree(sys: System, flags: Flags, dir: Direction, h: Service): nat {
    Sum(Members(sys, h), ServiceDegreeFn(sys, flags, dir))
  }

  ghost function ClusterDegreeFn(sys: System, flags: Flags, dir: Direction): Service -> nat {
    (h: Service) => ClusterDegree(sys, flags, dir, h)
  }

  /** As many elements as the degree says. */
  ghost function Units(n: nat): (us: seq<()>)
    ensures |us| == n
  {
    seq(n, i => ())
  }

  ghost function DegreeUnitsFn(sys: System, flags: Flags, dir: Direction): Service -> seq<()> {
    (s: Service) => Units(ServiceDegree(sys, flags, dir, s))
  }

  ghost function ClusterUnits(sys: System, flags: Flags, dir: Direction, h: Service): seq<()> {
    Flatten(Members(sys, h), DegreeUnitsFn(sys, flags, dir))
  }

  ghost function ClusterUnitsFn(sys: System, flags: Flags, dir: Direction): Service -> seq<()> {
    (h: Service) => ClusterUnits(sys, flags, dir, h)
  }

  /** Cluster degrees summed over the heads are the service degrees summed over the services. */
  lemma ClusterDegreeSums(sys: System, flags: Flags, dir: Direction)
    requires WellRooted(sys)
    ensures Sum(Heads(sys), ClusterDegreeFn(sys, flags, dir)) == Sum(Services(sys), ServiceDegreeFn(sys, flags, dir))
  {
    var hs, f := Heads(sys), DegreeUnitsFn(sys, flags, dir);
    forall i | 0 <= i < |hs|
      ensures |ClusterUnitsFn(sys, flags, dir)(hs[i])| == ClusterDegreeFn(sys, flags, dir)(hs[i])
    {
      FlattenLength(Members(sys, hs[i]), f, ServiceDegreeFn(sys, flags, dir));
    }
    FlattenLength(hs, ClusterUnitsFn(sys, flags, dir), ClusterDegreeFn(sys, flags, dir));
    FlattenFlatten(hs, MembersFn(sys), f, ClusterUnitsFn(sys, flags, dir));
    ClusterPartition(sys);
    FlattenPermutation(Flatten(hs, MembersFn(sys)), Services(sys), f);
    FlattenLength(Services(sys), f, ServiceDegreeFn(sys, flags, dir));
    assert |multiset(Flatten(Flatten(hs, MembersFn(sys)), f))| == |multiset(Flatten(Services(sys), f))|;
  }

  /** The per vertex asserts of init_graph: the edges enumerated at a cluster are as many as its
      degree exactly if no inner node of a member misreads its usage filter. */
  lemma ClusterDegreeExactly(sys: System, flags: Flags, dir: Direction, h: Service)
    ensures |ClusterEdges(sys, flags, dir, h)| == ClusterDegree(sys, flags, dir, h)
       <==> Clean(sys, flags, dir, NodesOf(sys, Members(sys, h)))
  {
    DegreesOfServices(sys, flags, dir, Members(sys, h));
    MisstepsCount(sys, flags, dir, NodesOf(sys, Members(sys, h)));
    NoMissteps(sys, flags, dir, NodesOf(sys, Members(sys, h)));
  }

  /** The asserts of init_graph for the cluster graph, each with its exact condition: the sums
      over the cluster heads, against each other and against edges(), which walks services. */
  lemma ClusterGraphTotals(sys: System, flags: Flags)
    requires WellLinked(sys)
    ensures Sum(Heads(sys), ClusterDegreeFn(sys, flags, Out)) == Sum(Heads(sys), ClusterDegreeFn(sys, flags, In))
       <==> ViewsAgree(sys, flags)
    ensures |OuterEdges(sys, flags, Out, Services(sys))| == Sum(Heads(sys), ClusterDegreeFn(sys, flags, Out))
       <==> Clean(sys, flags, Out, NodesOf(sys, Services(sys)))
    ensures |Flatten(Heads(sys), ClusterEdgesFn(sys, flags, Out))| == |OuterEdges(sys, flags, Out, Services(sys))|
  {
    ServiceGraphTotals(sys, flags);
    ClusterDegreeSums(sys, flags, Out);
    ClusterDegreeSums(sys, flags, In);
    ClusterEdgesPermuteServiceEdges(sys, flags, Out);
    assert |multiset(Flatten(Heads(sys), ClusterEdgesFn(sys, flags, Out)))|
        == |multiset(OuterEdges(sys, flags, Out, Services(sys)))|;
  }

  /** Every edge enumerated at a cluster projects to that cluster's head at the near end. */
  lemma NearEndIsHead(sys: System, flags: Flags, dir: Direction, h: Service, e: Edge)
    requires WellLinked(sys) && Valid(sys, h) && IsClusterHead(sys, h)
    ensures e in ClusterEdges(sys, flags, dir, h) ==>
              h == HeadOf(sys, if dir == Out then EdgeSource(sys, e) else EdgeTarget(sys, e))
  {
    ClusterMembersRange(sys, h);
    NearInServices(sys, flags, dir, Members(sys, h), e);
    if !Near(dir, e).UsageNode? {
      NearEnd(sys, dir, e);
    }
  }
}
