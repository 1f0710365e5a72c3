/** In / out duality of what the code enumerates, not only of what is declared: the two views
    of the graph differ by the usages that are read without their filter, and by nothing else. */
module EdgeDuality {
  import opened Sequences
  import opened ServiceTree
  import opened GraphModel
  import opened Enumeration
  import opened Vertices
  import opened Duality
  import opened EdgeWalks

  // ----- Strays -----

  /** The usage that a node enumerates although its kind is filtered out, if there is one. */
  ghost function StrayNodes(sys: System, flags: Flags, dir: Direction, n: Node): seq<Node> {
    if Misstep(sys, flags, dir, n) then [UsageNode(UsageSource(sys, flags, dir, n)[0])] else []
  }

  ghost function StrayAt(sys: System, flags: Flags, dir: Direction, n: Node): seq<Edge> {
    Map(StrayNodes(sys, flags, dir, n), EdgeFn(dir, n))
  }

  ghost function StrayEdgesFn(sys: System, flags: Flags, dir: Direction): Node -> seq<Edge> {
    (n: Node) => StrayAt(sys, flags, dir, n)
  }

  ghost function StrayEdges(sys: System, flags: Flags, dir: Direction, ns: seq<Node>): seq<Edge> {
    Flatten(ns, StrayEdgesFn(sys, flags, dir))
  }

  lemma SplitMap<A, B>(xs: seq<A>, ys: seq<A>, zs: seq<A>, f: A -> B)
    requires multiset(xs) == multiset(ys) + multiset(zs)
    ensures multiset(Map(xs, f)) == multiset(Map(ys, f)) + multiset(Map(zs, f))
  {
    assert multiset(ys + zs) == multiset(xs);
    MapPermutation(xs, ys + zs, f);
    assert Map(ys + zs, f) == Map(ys, f) + Map(zs, f);
  }

  lemma {:induction false} SplitFlatten<A, B>(xs: seq<A>, f: A -> seq<B>, g: A -> seq<B>, h: A -> seq<B>)
    requires forall x :: x in xs ==> multiset(f(x)) == multiset(g(x)) + multiset(h(x))
    ensures multiset(Flatten(xs, f)) == multiset(Flatten(xs, g)) + multiset(Flatten(xs, h))
  {
    if xs != [] {
      SplitFlatten(xs[1..], f, g, h);
      assert xs[0] in xs;
    }
  }

  lemma KeptBehindStray(sys: System, flags: Flags, us: seq<UsageId>)
    requires us != [] && !Keeps(sys, flags, us[0])
    ensures Kept(sys, flags, us) == Kept(sys, flags, us[1..])
  {}

  lemma InsertStray(near: seq<Node>, u: UsageId, kept: seq<UsageId>)
    ensures multiset(near + UsageNodes([u] + kept)) == multiset(near + UsageNodes(kept)) + multiset([UsageNode(u)])
  {
    UsageNodesCons(u, kept);
  }

  lemma StrayShape(sys: System, flags: Flags, dir: Direction, n: Node)
    requires Misstep(sys, flags, dir, n)
    ensures var us := UsageSource(sys, flags, dir, n);
      && Visited(sys, flags, dir, n) == Nearby(sys, flags, dir, n) + UsageNodes([us[0]] + Kept(sys, flags, us))
      && Declared(sys, flags, dir, n) == Nearby(sys, flags, dir, n) + UsageNodes(Kept(sys, flags, us))
  {
    KeptBehindStray(sys, flags, UsageSource(sys, flags, dir, n));
  }

  /** A node enumerates what it declares and its stray, each once. */
  lemma VisitedSplit(sys: System, flags: Flags, dir: Direction, n: Node)
    ensures multiset(Visited(sys, flags, dir, n))
         == multiset(Declared(sys, flags, dir, n)) + multiset(StrayNodes(sys, flags, dir, n))
  {
    if Misstep(sys, flags, dir, n) {
      var us := UsageSource(sys, flags, dir, n);
      StrayShape(sys, flags, dir, n);
      InsertStray(Nearby(sys, flags, dir, n), us[0], Kept(sys, flags, us));
    } else {
      EnumerationMeetsDegree(sys, flags, dir, n);
    }
  }

  /** The edges enumerated over a list of nodes are the declared ones and the strays. */
  lemma EdgesSplit(sys: System, flags: Flags, dir: Direction, ns: seq<Node>)
    ensures multiset(VisitedEdges(sys, flags, dir, ns))
         == multiset(DeclaredEdges(sys, flags, dir, ns)) + multiset(StrayEdges(sys, flags, dir, ns))
  {
    var f, g, h := VisitedEdgesFn(sys, flags, dir), DeclaredEdgesFn(sys, flags, dir), StrayEdgesFn(sys, flags, dir);
    forall n | n in ns ensures multiset(f(n)) == multiset(g(n)) + multiset(h(n)) {
      VisitedSplit(sys, flags, dir, n);
      SplitMap(Visited(sys, flags, dir, n), Declared(sys, flags, dir, n), StrayNodes(sys, flags, dir, n), EdgeFn(dir, n));
    }
    SplitFlatten(ns, f, g, h);
  }

  lemma StrayMember(sys: System, flags: Flags, dir: Direction, ns: seq<Node>, e: Edge)
    ensures e in StrayEdges(sys, flags, dir, ns) ==>
              && Near(dir, e) in ns && Far(dir, e).UsageNode?
              && (if dir == Out then Near(dir, e).ExportNode? else Near(dir, e).ImportNode?)
              && !Keeps(sys, flags, Far(dir, e).usage)
  {
    FlattenMember(ns, StrayEdgesFn(sys, flags, dir), e);
  }

  /** There is no stray exactly if no node misreads its usage filter. */
  lemma {:induction false} StraysIffClean(sys: System, flags: Flags, dir: Direction, ns: seq<Node>)
    ensures StrayEdges(sys, flags, dir, ns) == [] <==> Clean(sys, flags, dir, ns)
  {
    if ns != [] {
      StraysIffClean(sys, flags, dir, ns[1..]);
      assert forall n :: n in ns <==> n == ns[0] || n in ns[1..];
    }
  }

  // ----- Duality -----

  /** m is the usage that n enumerates although its kind is filtered out. */
  ghost predicate Stray(sys: System, flags: Flags, dir: Direction, n: Node, m: Node) {
    m in StrayNodes(sys, flags, dir, n)
  }

  lemma VisitedCount(sys: System, flags: Flags, dir: Direction, n: Node, m: Node)
    requires WellLinked(sys) && ValidNode(sys, n) && ValidNode(sys, m)
    ensures multiset(Visited(sys, flags, dir, n))[m]
         == if (if dir == Out then Linked(sys, flags, n, m) else Linked(sys, flags, m, n)) || Stray(sys, flags, dir, n, m)
            then 1 else 0
  {
    VisitedSplit(sys, flags, dir, n);
    DeclaredMember(sys, flags, dir, n, m);
    DeclaredNoDup(sys, flags, dir, n);
    NoDupCount(Declared(sys, flags, dir, n), m);
    NoDupCount(StrayNodes(sys, flags, dir, n), m);
  }

  /** With the default flags every parent, part and usage is enumerated as a link, once. */
  lemma NoFilterLinks(sys: System, a: Node, b: Node)
    requires WellLinked(sys) && ValidNode(sys, a) && ValidNode(sys, b)
    ensures multiset(Visited(sys, NoFilter, Out, a))[b] == multiset(Visited(sys, NoFilter, In, b))[a]
         == if Joined(sys, a, b) then 1 else 0
  {
    VisitedCount(sys, NoFilter, Out, a, b);
    VisitedCount(sys, NoFilter, In, b, a);
    UniformFlagsNeverMisstep(sys, NoFilter, Out, a);
    UniformFlagsNeverMisstep(sys, NoFilter, In, b);
  }

  /** All links of a system: from a child to its import and from an export to its child, from an
      import to its owner and from an owner to its export, from an export to a usage of it and
      from there to the import that uses it. */
  predicate Joined(sys: System, a: Node, b: Node) {
    match (a, b)
    case (ServiceNode(s), ImportNode(p)) => s.Child? && s.owner == p.owner && s.part == p.part
    case (ExportNode(p), ServiceNode(s)) => s.Child? && s.owner == p.owner && s.part == p.part
    case (ImportNode(p), ServiceNode(s)) => p.owner == s
    case (ServiceNode(s), ExportNode(p)) => p.owner == s
    case (ExportNode(p), UsageNode(u)) => u in sys.usages && sys.usages[u].used == p
    case (UsageNode(u), ImportNode(p)) => u in sys.usages && sys.usages[u].user == p
    case _ => false
  }

  /** Enumerated from its source and from its target, an edge is found at most once; it is found
      from both or from neither if and only if it is a stray of neither. */
  lemma EdgeSeenFromBothEnds(sys: System, flags: Flags, a: Node, b: Node)
    requires WellLinked(sys) && ValidNode(sys, a) && ValidNode(sys, b)
    ensures var atSource, atTarget := multiset(Visited(sys, flags, Out, a))[b], multiset(Visited(sys, flags, In, b))[a];
      && atSource <= 1 && atTarget <= 1
      && (atSource == atTarget <==> !Stray(sys, flags, Out, a, b) && !Stray(sys, flags, In, b, a))
      && (Linked(sys, flags, a, b) ==> atSource == atTarget == 1)
  {
    VisitedCount(sys, flags, Out, a, b);
    VisitedCount(sys, flags, In, b, a);
    StrayFacts(sys, flags, Out, a, b);
    StrayFacts(sys, flags, In, b, a);
  }

  /** A stray leads from an export, or to an import, and is no declared edge. */
  lemma StrayFacts(sys: System, flags: Flags, dir: Direction, n: Node, m: Node)
    ensures Stray(sys, flags, dir, n, m) ==>
              && m.UsageNode? && (if dir == Out then n.ExportNode? else n.ImportNode?)
              && !(if dir == Out then Linked(sys, flags, n, m) else Linked(sys, flags, m, n))
  {}

  /** In / out duality: over all vertices, the enumerated out-edges and in-edges are the same
      edges, each found once, if and only if no vertex misreads its usage filter. */
  lemma InOutDuality(sys: System, flags: Flags)
    requires WellLinked(sys)
    ensures multiset(VisitedEdges(sys, flags, Out, AllNodes(sys))) == multiset(VisitedEdges(sys, flags, In, AllNodes(sys)))
       <==> Clean(sys, flags, Out, AllNodes(sys)) && Clean(sys, flags, In, AllNodes(sys))
    ensures flags.filterStrong == flags.filterWeak ==>
              Clean(sys, flags, Out, AllNodes(sys)) && Clean(sys, flags, In, AllNodes(sys))
  {
    var ns := AllNodes(sys);
    var outs, ins := StrayEdges(sys, flags, Out, ns), StrayEdges(sys, flags, In, ns);
    DeclaredDuality(sys, flags);
    EdgesSplit(sys, flags, Out, ns);
    EdgesSplit(sys, flags, In, ns);
    StraysIffClean(sys, flags, Out, ns);
    StraysIffClean(sys, flags, In, ns);
    StraysDisjoint(sys, flags, ns);
    AlwaysClean(sys, flags, Out, ns);
    AlwaysClean(sys, flags, In, ns);
    CancelCommon(VisitedEdges(sys, flags, Out, ns), VisitedEdges(sys, flags, In, ns),
                 multiset(DeclaredEdges(sys, flags, Out, ns)), outs, ins);
  }

  lemma CancelCommon<T>(xs: seq<T>, ys: seq<T>, common: multiset<T>, outs: seq<T>, ins: seq<T>)
    requires multiset(xs) == common + multiset(outs) && multiset(ys) == common + multiset(ins)
    requires forall e :: e in outs ==> e !in ins
    ensures multiset(xs) == multiset(ys) <==> outs == [] && ins == []
  {
    assert multiset(xs) - common == multiset(outs) && multiset(ys) - common == multiset(ins);
    if outs != [] {
      assert outs[0] in outs && outs[0] in multiset(outs) && outs[0] !in ins;
    } else if ins != [] {
      assert ins[0] in multiset(ins);
    }
  }

  lemma StraysDisjoint(sys: System, flags: Flags, ns: seq<Node>)
    ensures forall e :: e in StrayEdges(sys, flags, Out, ns) ==> e !in StrayEdges(sys, flags, In, ns)
  {
    forall e | e in StrayEdges(sys, flags, Out, ns) ensures e !in StrayEdges(sys, flags, In, ns) {
      StrayMember(sys, flags, Out, ns, e);
      StrayMember(sys, flags, In, ns, e);
    }
  }

  lemma AlwaysClean(sys: System, flags: Flags, dir: Direction, ns: seq<Node>)
    ensures flags.filterStrong == flags.filterWeak ==> Clean(sys, flags, dir, ns)
  {
    if flags.filterStrong == flags.filterWeak {
      forall n | n in ns ensures !Misstep(sys, flags, dir, n) {
        UniformFlagsNeverMisstep(sys, flags, dir, n);
      }
    }
  }

  /** Every enumeration over different vertices lists each edge once. */
  lemma EdgesOnce(sys: System, flags: Flags, dir: Direction, ns: seq<Node>)
    requires WellLinked(sys) && NoDup(ns) && forall n :: n in ns ==> ValidNode(sys, n)
    ensures NoDup(VisitedEdges(sys, flags, dir, ns))
  {
    var f := VisitedEdgesFn(sys, flags, dir);
    forall i | 0 <= i < |ns| ensures NoDup(f(ns[i])) {
      VisitedNoDup(sys, flags, dir, ns[i]);
      MakeEdgeNoDup(dir, ns[i], Visited(sys, flags, dir, ns[i]));
    }
    forall i, j | 0 <= i < j < |ns| ensures Disjoint(f(ns[i]), f(ns[j])) {
      PiecesDisjoint(dir, ns[i], ns[j], Visited(sys, flags, dir, ns[i]), Visited(sys, flags, dir, ns[j]));
    }
    FlattenNoDup(ns, f);
  }

  lemma PiecesDisjoint(dir: Direction, n: Node, m: Node, ns: seq<Node>, ms: seq<Node>)
    requires n != m
    ensures Disjoint(Map(ns, EdgeFn(dir, n)), Map(ms, EdgeFn(dir, m)))
  {
    var xs, ys := Map(ns, EdgeFn(dir, n)), Map(ms, EdgeFn(dir, m));
    forall a, b | 0 <= a < |xs| && 0 <= b < |ys| ensures xs[a] != ys[b] {
      assert Near(dir, xs[a]) == n && Near(dir, ys[b]) == m;
    }
  }

  lemma MakeEdgeNoDup(dir: Direction, n: Node, ms: seq<Node>)
    requires NoDup(ms)
    ensures NoDup(Map(ms, EdgeFn(dir, n)))
  {
    var es := Map(ms, EdgeFn(dir, n));
    forall i, j | 0 <= i < j < |es| ensures es[i] != es[j] {
      assert Far(dir, es[i]) == ms[i] && Far(dir, es[j]) == ms[j];
    }
  }

  lemma VisitedNoDup(sys: System, flags: Flags, dir: Direction, n: Node)
    requires WellLinked(sys) && ValidNode(sys, n)
    ensures NoDup(Visited(sys, flags, dir, n))
  {
    forall m ensures multiset(Visited(sys, flags, dir, n))[m] <= 1 {
      VisitedAtMostOnce(sys, flags, dir, n, m);
    }
    CountsNoDup(Visited(sys, flags, dir, n));
  }

  lemma VisitedAtMostOnce(sys: System, flags: Flags, dir: Direction, n: Node, m: Node)
    requires WellLinked(sys) && ValidNode(sys, n)
    ensures multiset(Visited(sys, flags, dir, n))[m] <= 1
  {
    VisitedSplit(sys, flags, dir, n);
    DeclaredNoDup(sys, flags, dir, n);
    NoDupCount(Declared(sys, flags, dir, n), m);
    NoDupCount(StrayNodes(sys, flags, dir, n), m);
    if Stray(sys, flags, dir, n, m) {
      StrayNotDeclared(sys, flags, dir, n, m);
    }
  }

  lemma CountsNoDup<T(!new)>(xs: seq<T>)
    requires forall x :: multiset(xs)[x] <= 1
    ensures NoDup(xs)
  {
    forall i, j | 0 <= i < j < |xs| ensures xs[i] != xs[j] {
      if xs[i] == xs[j] {
        TwiceCount(xs, i, j);
      }
    }
  }

  lemma StrayNotDeclared(sys: System, flags: Flags, dir: Direction, n: Node, m: Node)
    requires WellLinked(sys) && ValidNode(sys, n) && Stray(sys, flags, dir, n, m)
    ensures m !in Declared(sys, flags, dir, n)
  {
    DeclaredMember(sys, flags, dir, n, m);
  }

  lemma TwiceCount<T>(xs: seq<T>, i: nat, j: nat)
    requires i < j < |xs| && xs[i] == xs[j]
    ensures multiset(xs)[xs[i]] >= 2
  {
    assert xs == xs[..j] + xs[j..];
    assert xs[..j][i] == xs[i] && xs[j..][0] == xs[i];
    assert multiset(xs) == multiset(xs[..j]) + multiset(xs[j..]);
    assert xs[i] in multiset(xs[..j]) && xs[i] in multiset(xs[j..]);
  }

  /** The degrees against the enumerated edges: in-degrees and out-degrees have one sum for
      every flag set, and edges() exceeds it by the number of strays. */
  lemma DegreesAndEdges(sys: System, flags: Flags, dir: Direction)
    requires WellLinked(sys)
    ensures Sum(AllNodes(sys), DegreeFn(sys, flags, Out)) == Sum(AllNodes(sys), DegreeFn(sys, flags, In))
    ensures |VisitedEdges(sys, flags, dir, AllNodes(sys))|
         == Sum(AllNodes(sys), DegreeFn(sys, flags, dir)) + |StrayEdges(sys, flags, dir, AllNodes(sys))|
    ensures NoDup(VisitedEdges(sys, flags, dir, AllNodes(sys)))
  {
    var ns := AllNodes(sys);
    VerticesComplete(sys);
    DegreeSums(sys, flags);
    DegreesCount(sys, flags, dir, ns);
    EdgesSplit(sys, flags, dir, ns);
    EdgesOnce(sys, flags, dir, ns);
    assert |multiset(VisitedEdges(sys, flags, dir, ns))| == |VisitedEdges(sys, flags, dir, ns)|;
    assert |multiset(StrayEdges(sys, flags, dir, ns))| == |StrayEdges(sys, flags, dir, ns)|;
    assert |multiset(DeclaredEdges(sys, flags, dir, ns))| == |DeclaredEdges(sys, flags, dir, ns)|;
  }
}
