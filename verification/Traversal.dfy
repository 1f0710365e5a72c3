/** What the stackless iterators visit: membership and uniqueness of the listings, cluster
    ranges and their sentinels, the cluster partition, and postorder with the exact
    condition under which it ends. */
module Traversal {
  import opened Sequences
  import opened Walks
  import opened ServiceTree

  // ----- Position of a service relative to another one -----

  /** x lies at or below s and every part on the way is in scope. */
  predicate Reach(sys: System, x: Service, s: Service, scope: Scope) {
    x == s || (x.Child? && scope.Includes(PartAt(sys, Parent(sys, x)).kind) && Reach(sys, x.owner, s, scope))
  }

  /** The part and child index taken below s on the way to x. */
  function Branch(x: Service, s: Service): Option<(nat, nat)> {
    match x
    case Root => None
    case Child(o, i, j) => if o == s then Some((i, j)) else Branch(o, s)
  }

  function Depth(s: Service): nat {
    match s
    case Root => 0
    case Child(o, _, _) => Depth(o) + 1
  }

  lemma {:induction false} ReachDepth(sys: System, x: Service, s: Service, scope: Scope)
    requires Reach(sys, x, s, scope)
    ensures Depth(s) <= Depth(x)
    ensures x != s ==> Branch(x, s).Some?
  {
    if x != s {
      ReachDepth(sys, x.owner, s, scope);
    }
  }

  lemma {:induction false} BranchDepth(x: Service, s: Service)
    requires Branch(x, s).Some?
    ensures Depth(s) < Depth(x)
  {
    if x.owner != s {
      BranchDepth(x.owner, s);
    }
  }

  /** Lying at or below a child of s is lying below s on that child's branch. */
  lemma {:induction false} BranchReach(sys: System, x: Service, s: Service, i: nat, j: nat, scope: Scope)
    requires scope.Includes(PartAt(sys, PartRef(s, i)).kind)
    ensures Reach(sys, x, Child(s, i, j), scope) <==> Reach(sys, x, s, scope) && Branch(x, s) == Some((i, j))
  {
    if x.Child? {
      BranchReach(sys, x.owner, s, i, j, scope);
      if x.owner == s {
        if Reach(sys, s, Child(s, i, j), scope) {
          ReachDepth(sys, s, Child(s, i, j), scope);
        }
      } else if Branch(x, s).Some? {
        BranchDepth(x, s);
      }
    }
  }

  /** The branch taken towards a valid service below s leads through a valid child of s in scope. */
  lemma {:induction false} BranchValid(sys: System, x: Service, s: Service, scope: Scope)
    requires Valid(sys, x) && Reach(sys, x, s, scope) && Branch(x, s).Some?
    ensures Valid(sys, Child(s, Branch(x, s).value.0, Branch(x, s).value.1))
    ensures scope.Includes(PartAt(sys, PartRef(s, Branch(x, s).value.0)).kind)
  {
    BranchDepth(x, s);
    if x.owner != s {
      BranchValid(sys, x.owner, s, scope);
    }
  }

  predicate AtOrAfter(b: (nat, nat), i: nat, j: nat) {
    b.0 > i || (b.0 == i && b.1 >= j)
  }

  predicate InForest(sys: System, x: Service, s: Service, i: nat, j: nat, scope: Scope) {
    && Valid(sys, x) && Reach(sys, x, s, scope)
    && Branch(x, s).Some? && AtOrAfter(Branch(x, s).value, i, j)
  }

  // ----- Membership and uniqueness -----

  lemma {:induction false} ForestMember(sys: System, s: Service, i: nat, j: nat, scope: Scope, x: Service)
    requires Valid(sys, s)
    ensures x in Forest(At(sys, s), s, i, j, scope) <==> InForest(sys, x, s, i, j, scope)
    decreases At(sys, s), |At(sys, s).parts| - i,
              if i < |At(sys, s).parts| then |At(sys, s).parts[i].children| - j else 0
  {
    var t := At(sys, s);
    if InForest(sys, x, s, i, j, scope) {
      BranchValid(sys, x, s, scope);
    }
    if i < |t.parts| {
      if scope.Includes(t.parts[i].kind) && j < |t.parts[i].children| {
        ListingMember(sys, Child(s, i, j), scope, x);
        BranchReach(sys, x, s, i, j, scope);
        ForestMember(sys, s, i, j + 1, scope, x);
      } else {
        ForestMember(sys, s, i + 1, 0, scope, x);
      }
    }
  }

  /** A listing contains exactly the services reached through parts in scope. */
  lemma {:induction false} ListingMember(sys: System, s: Service, scope: Scope, x: Service)
    requires Valid(sys, s)
    ensures x in Listing(sys, s, scope) <==> Valid(sys, x) && Reach(sys, x, s, scope)
    decreases At(sys, s), |At(sys, s).parts| + 1, 0
  {
    ForestMember(sys, s, 0, 0, scope, x);
    if Reach(sys, x, s, scope) {
      ReachDepth(sys, x, s, scope);
    }
  }

  lemma {:induction false} ForestNoDup(sys: System, s: Service, i: nat, j: nat, scope: Scope)
    requires Valid(sys, s)
    ensures NoDup(Forest(At(sys, s), s, i, j, scope))
    decreases At(sys, s), |At(sys, s).parts| - i,
              if i < |At(sys, s).parts| then |At(sys, s).parts[i].children| - j else 0
  {
    var t := At(sys, s);
    if i < |t.parts| {
      if scope.Includes(t.parts[i].kind) && j < |t.parts[i].children| {
        var c := Child(s, i, j);
        var xs, ys := Listing(sys, c, scope), Forest(t, s, i, j + 1, scope);
        ListingNoDup(sys, c, scope);
        ForestNoDup(sys, s, i, j + 1, scope);
        forall a, b | 0 <= a < |xs| && 0 <= b < |ys| ensures xs[a] != ys[b] {
          ListingMember(sys, c, scope, xs[a]);
          BranchReach(sys, xs[a], s, i, j, scope);
          ForestMember(sys, s, i, j + 1, scope, ys[b]);
        }
        NoDupConcat(xs, ys);
      } else {
        ForestNoDup(sys, s, i + 1, 0, scope);
      }
    }
  }

  lemma {:induction false} ListingNoDup(sys: System, s: Service, scope: Scope)
    requires Valid(sys, s)
    ensures NoDup(Listing(sys, s, scope))
    decreases At(sys, s), |At(sys, s).parts| + 1, 0
  {
    var ys := Forest(At(sys, s), s, 0, 0, scope);
    ForestNoDup(sys, s, 0, 0, scope);
    forall b | 0 <= b < |ys| ensures ys[b] != s {
      ForestMember(sys, s, 0, 0, scope, ys[b]);
      BranchDepth(ys[b], s);
    }
    NoDupConcat([s], ys);
  }

  /** All services of the system, in the order of transitive_services(root). */
  ghost function Services(sys: System): seq<Service> {
    Listing(sys, Root, All)
  }

  lemma {:induction false} ReachRoot(sys: System, x: Service)
    ensures Reach(sys, x, Root, All)
  {
    if x.Child? {
      ReachRoot(sys, x.owner);
    }
  }

  /** transitive_services(root) visits every service of the system exactly once, in
      recursive preorder, and then ends. */
  lemma TransitiveServicesComplete(sys: System)
    ensures Chain(NextFn(sys, All), Services(sys), None)
    ensures NoDup(Services(sys))
    ensures forall x :: x in Services(sys) <==> Valid(sys, x)
    ensures Services(sys) != [] && Services(sys)[0] == Root
  {
    PreorderChain(sys, Root, All);
    ListingNoDup(sys, Root, All);
    forall x ensures x in Services(sys) <==> Valid(sys, x) {
      ListingMember(sys, Root, All, x);
      ReachRoot(sys, x);
    }
  }

  // ----- Clusters -----

  /** The members of the cluster headed by h, in the order of cluster_members(h). */
  ghost function Members(sys: System, h: Service): seq<Service> {
    Listing(sys, h, ImportsOnly)
  }

  ghost function MembersFn(sys: System): Service -> seq<Service> {
    (h: Service) => Members(sys, h)
  }

  lemma {:induction false} HeadReach(sys: System, x: Service, h: Service)
    requires Valid(sys, x) && IsClusterHead(sys, h)
    ensures Reach(sys, x, h, ImportsOnly) <==> HeadOf(sys, x) == h
  {
    if x.Child? && x != h {
      HeadReach(sys, x.owner, h);
    }
  }

  lemma {:induction false} HeadValid(sys: System, x: Service)
    requires WellRooted(sys) && Valid(sys, x)
    ensures Valid(sys, HeadOf(sys, x)) && IsClusterHead(sys, HeadOf(sys, x))
  {
    if x.Child? {
      HeadValid(sys, x.owner);
    }
  }

  /** Where next_parent_or_neighbour leads is never below the service it started from. */
  lemma UpOutside(sys: System, s: Service, scope: Scope, any: Scope)
    ensures Up(sys, s, scope).Some? ==> !Reach(sys, Up(sys, s, scope).value, s, any)
  {
    UpShallow(sys, s, scope);
    if Up(sys, s, scope).Some? && Reach(sys, Up(sys, s, scope).value, s, any) {
      ReachDepth(sys, Up(sys, s, scope).value, s, any);
      BranchDepth(Up(sys, s, scope).value, s);
    }
  }

  lemma {:induction false} FirstChildShape(t: Tree, s: Service, i: nat, scope: Scope)
    ensures var c := FirstChild(t, s, i, scope);
      c.Some? ==>
        && c.value.Child? && c.value.owner == s && i <= c.value.part < |t.parts| && c.value.index == 0
        && t.parts[c.value.part].children != [] && scope.Includes(t.parts[c.value.part].kind)
    decreases |t.parts| - i
  {
    if i < |t.parts| {
      FirstChildShape(t, s, i + 1, scope);
    }
  }

  /** Going up or right never goes deeper, and never stays. */
  lemma {:induction false} UpShallow(sys: System, s: Service, scope: Scope)
    ensures var u := Up(sys, s, scope); u.Some? ==> Depth(u.value) <= Depth(s) && u.value != s
  {
    if s.Child? {
      UpShallow(sys, s.owner, scope);
      FirstChildShape(At(sys, s.owner), s.owner, s.part + 1, scope);
    }
  }

  /** cluster_members of a head: the increments visit exactly the members of its cluster,
      the precomputed end is where they arrive next, and it is not itself a member. */
  lemma ClusterMembersRange(sys: System, h: Service)
    requires Valid(sys, h) && IsClusterHead(sys, h)
    ensures Chain(NextFn(sys, ImportsOnly), Members(sys, h), Up(sys, h, ImportsOnly))
    ensures forall k :: 0 <= k < |Members(sys, h)| ==> Some(Members(sys, h)[k]) != Up(sys, h, ImportsOnly)
    ensures NoDup(Members(sys, h))
    ensures forall x :: x in Members(sys, h) <==> Valid(sys, x) && HeadOf(sys, x) == h
  {
    PreorderChain(sys, h, ImportsOnly);
    ListingNoDup(sys, h, ImportsOnly);
    UpOutside(sys, h, ImportsOnly, ImportsOnly);
    forall x ensures x in Members(sys, h) <==> Valid(sys, x) && HeadOf(sys, x) == h {
      ListingMember(sys, h, ImportsOnly, x);
      if Valid(sys, x) {
        HeadReach(sys, x, h);
      }
    }
    forall k | 0 <= k < |Members(sys, h)| ensures Some(Members(sys, h)[k]) != Up(sys, h, ImportsOnly) {
      ListingMember(sys, h, ImportsOnly, Members(sys, h)[k]);
    }
  }

  /** What cluster_members(x) visits: the rest of the cluster from x on. */
  ghost function MembersFrom(sys: System, x: Service): seq<Service> {
    [x] + After(Members(sys, HeadOf(sys, x)), x)
  }

  /** cluster_members of any member, head or not, is a suffix of its cluster's members. */
  lemma ClusterMembersSuffix(sys: System, x: Service)
    requires WellRooted(sys) && Valid(sys, x)
    ensures MembersFrom(sys, x)[0] == x
    ensures var ms, xs := Members(sys, HeadOf(sys, x)), MembersFrom(sys, x);
      |xs| <= |ms| && ms[|ms| - |xs|..] == xs
    ensures Chain(NextFn(sys, ImportsOnly), MembersFrom(sys, x), Up(sys, HeadOf(sys, x), ImportsOnly))
    ensures forall k :: 0 <= k < |MembersFrom(sys, x)| ==>
              Some(MembersFrom(sys, x)[k]) != Up(sys, HeadOf(sys, x), ImportsOnly)
  {
    var h := HeadOf(sys, x);
    HeadValid(sys, x);
    ClusterMembersRange(sys, h);
    var ms, xs := Members(sys, h), MembersFrom(sys, x);
    ChainFrom(NextFn(sys, ImportsOnly), ms, Up(sys, h, ImportsOnly), x);
    forall k | 0 <= k < |xs| ensures Some(xs[k]) != Up(sys, h, ImportsOnly) {
      assert xs[k] == ms[|ms| - |xs| + k];
    }
  }

  ghost function IfHeadFn(sys: System): Service -> seq<Service> {
    (s: Service) => if IsClusterHead(sys, s) then [s] else []
  }

  /** The cluster heads of the system, in the order of clusters(root). */
  ghost function Heads(sys: System): seq<Service> {
    Flatten(Services(sys), IfHeadFn(sys))
  }

  /** cluster_iterator::increment: the next service in preorder that heads a cluster. */
  ghost function NextHead(sys: System, s: Service): Option<Service> {
    FirstOf(Flatten(After(Services(sys), s), IfHeadFn(sys)), None)
  }

  ghost function NextHeadFn(sys: System): Service -> Option<Service> {
    (s: Service) => NextHead(sys, s)
  }

  lemma HeadsMember(sys: System, h: Service)
    ensures h in Heads(sys) <==> Valid(sys, h) && IsClusterHead(sys, h)
  {
    TransitiveServicesComplete(sys);
    FlattenMember(Services(sys), IfHeadFn(sys), h);
    if Valid(sys, h) {
      assert h in Services(sys);
      var i :| 0 <= i < |Services(sys)| && Services(sys)[i] == h;
    }
  }

  /** clusters(root) visits every cluster head of the system exactly once and then ends. */
  lemma ClustersComplete(sys: System)
    requires WellRooted(sys)
    ensures Chain(NextHeadFn(sys), Heads(sys), None)
    ensures NoDup(Heads(sys))
    ensures forall h :: h in Heads(sys) <==> Valid(sys, h) && IsClusterHead(sys, h)
    ensures FirstOf(Heads(sys), None) == Some(Root)
  {
    TransitiveServicesComplete(sys);
    var xs, f := Services(sys), IfHeadFn(sys);
    forall k | 0 <= k < |xs| ensures Chain(NextHeadFn(sys), f(xs[k]), FirstOf(Flatten(xs[k + 1..], f), None)) {
      AfterAt(xs, k);
    }
    FlattenChain(NextHeadFn(sys), xs, f, None);
    FlattenNoDup(xs, f);
    forall h ensures h in Heads(sys) <==> Valid(sys, h) && IsClusterHead(sys, h) {
      HeadsMember(sys, h);
    }
    assert f(xs[0]) == [Root];
  }

  /** The clusters partition the system: their members, head by head, are a permutation
      of all services. */
  lemma ClusterPartition(sys: System)
    requires WellRooted(sys)
    ensures multiset(Flatten(Heads(sys), MembersFn(sys))) == multiset(Services(sys))
    ensures NoDup(Flatten(Heads(sys), MembersFn(sys)))
  {
    TransitiveServicesComplete(sys);
    ClustersComplete(sys);
    var hs, f := Heads(sys), MembersFn(sys);
    forall i | 0 <= i < |hs| ensures NoDup(f(hs[i])) {
      ClusterMembersRange(sys, hs[i]);
    }
    forall i, j | 0 <= i < j < |hs| ensures Disjoint(f(hs[i]), f(hs[j])) {
      assert hs[i] in hs && hs[j] in hs;
      ClusterMembersRange(sys, hs[i]);
      ClusterMembersRange(sys, hs[j]);
      forall a, b | 0 <= a < |f(hs[i])| && 0 <= b < |f(hs[j])| ensures f(hs[i])[a] != f(hs[j])[b] {
        assert f(hs[i])[a] in Members(sys, hs[i]) && f(hs[j])[b] in Members(sys, hs[j]);
      }
    }
    FlattenNoDup(hs, f);
    forall x ensures x in Flatten(hs, f) <==> x in Services(sys) {
      FlattenMember(hs, f, x);
      if i :| 0 <= i < |hs| && x in f(hs[i]) {
        ClusterMembersRange(sys, hs[i]);
      }
      if Valid(sys, x) {
        HeadValid(sys, x);
        var h := HeadOf(sys, x);
        assert h in hs;
        var i :| 0 <= i < |hs| && hs[i] == h;
        ClusterMembersRange(sys, h);
      }
    }
    NoDupPermutation(Flatten(hs, f), Services(sys));
  }
}
