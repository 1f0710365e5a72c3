/** The iterators of iterators.cpp as they run: loops that move one Service pointer, and
    iterator objects whose increment overwrites it. */
module Iterators {
  import opened Sequences
  import opened Walks
  import opened ServiceTree
  import opened Traversal
  import opened Postorder

  /** next_child_of_parts: the loop over the parts of s from index `from` on. */
  method NextChildOfParts(t: Tree, s: Service, from: nat, scope: Scope) returns (next: Option<Service>)
    ensures next == FirstChild(t, s, from, scope)
  {
    var i := from;
    while i < |t.parts|
      invariant from <= i
      invariant FirstChild(t, s, from, scope) == FirstChild(t, s, i, scope)
    {
      var part := t.parts[i];
      if scope.Includes(part.kind) && part.children != [] {
        return Some(Child(s, i, 0));
      }
      i := i + 1;
    }
    return None;
  }

  method NextNeighbourOrChild(sys: System, s: Service, scope: Scope) returns (next: Option<Service>)
    ensures next == NeighbourOrChild(sys, s, scope)
  {
    match s
    case Root =>
      next := NextChildOfParts(sys.root, Root, sys.rootParent + 1, scope);
    case Child(o, i, j) =>
      var t := At(sys, o);
      if i < |t.parts| && j + 1 < |t.parts[i].children| {
        next := Some(Child(o, i, j + 1));
      } else {
        next := NextChildOfParts(t, o, i + 1, scope);
      }
  }

  /** next_parent_or_neighbour: climb until something lies to the right. */
  method NextParentOrNeighbour(sys: System, s: Service, scope: Scope) returns (next: Option<Service>)
    ensures next == Up(sys, s, scope)
  {
    var current := s;
    while current.Child?
      invariant Up(sys, s, scope) == Up(sys, current, scope)
      decreases current
    {
      next := NextNeighbourOrChild(sys, current, scope);
      if next.Some? {
        return;
      }
      current := current.owner;
    }
    next := None;
  }

  method NextChildOrUp(sys: System, s: Service, scope: Scope) returns (next: Option<Service>)
    ensures next == Next(sys, s, scope)
  {
    next := NextChildOfParts(At(sys, s), s, 0, scope);
    if next.None? {
      next := NextParentOrNeighbour(sys, s, scope);
    }
  }

  /** The descent loop shared by the postorder increment and its starting point. */
  method DescendToFirstLeaf(sys: System, s: Service) returns (leaf: Service)
    requires Valid(sys, s)
    ensures leaf == Deepest(At(sys, s), s)
  {
    leaf := s;
    var actual := NextChildOfParts(At(sys, s), s, 0, All);
    while actual.Some?
      invariant Valid(sys, leaf)
      invariant actual == FirstChild(At(sys, leaf), leaf, 0, All)
      invariant Deepest(At(sys, leaf), leaf) == Deepest(At(sys, s), s)
      decreases At(sys, leaf)
    {
      FirstChildShape(At(sys, leaf), leaf, 0, All);
      leaf := actual.value;
      actual := NextChildOfParts(At(sys, leaf), leaf, 0, All);
    }
  }

  /** get_cluster_head_of: the last of the cluster_parent_services. */
  method ClusterHeadOf(sys: System, s: Service) returns (head: Service)
    requires WellRooted(sys)
    ensures head == HeadOf(sys, s)
  {
    head := s;
    while head.Child? && PartAt(sys, Parent(sys, head)).kind == Import
      invariant HeadOf(sys, head) == HeadOf(sys, s)
      decreases head
    {
      head := head.owner;
    }
  }

  class TransitiveServiceIterator {
    const sys: System
    var current: Option<Service>

    constructor (sys: System, start: Service)
      ensures this.sys == sys && current == Some(start)
    {
      this.sys := sys;
      current := Some(start);
    }

    method Increment()
      requires current.Some? && Valid(sys, current.value)
      modifies this
      ensures current == FirstOf(After(Services(sys), old(current).value), None)
      ensures current == Next(sys, old(current).value, All)
    {
      RestOfServices(sys, current.value);
      current := NextChildOrUp(sys, current.value, All);
    }
  }

  class PostorderServiceIterator {
    const sys: System
    var current: Option<Service>

    constructor (sys: System, start: Service)
      ensures this.sys == sys && current == Some(start)
    {
      this.sys := sys;
      current := Some(start);
    }

    method Increment()
      requires current.Some? && Valid(sys, current.value)
      modifies this
      ensures current == PostNext(sys, old(current).value)
    {
      var right := NextNeighbourOrChild(sys, current.value, All);
      if right.Some? {
        RightIsValid(sys, current.value);
        var leaf := DescendToFirstLeaf(sys, right.value);
        current := Some(leaf);
      } else if current.value.Root? {
        current := None;
      } else {
        current := Some(current.value.owner);
      }
    }
  }

  lemma RightIsValid(sys: System, s: Service)
    requires Valid(sys, s) && NeighbourOrChild(sys, s, All).Some?
    ensures Valid(sys, NeighbourOrChild(sys, s, All).value)
  {
    match s
    case Root => FirstChildShape(sys.root, Root, sys.rootParent + 1, All);
    case Child(o, i, j) => FirstChildShape(At(sys, o), o, i + 1, All);
  }

  class ClusterServiceIterator {
    const sys: System
    var current: Option<Service>

    constructor (sys: System, start: Service)
      ensures this.sys == sys && current == Some(start)
    {
      this.sys := sys;
      current := Some(start);
    }

    method Increment()
      requires current.Some?
      modifies this
      ensures current == Next(sys, old(current).value, ImportsOnly)
    {
      current := NextChildOrUp(sys, current.value, ImportsOnly);
    }
  }

  class ClusterIterator {
    const sys: System
    var current: Option<Service>

    constructor (sys: System, start: Service)
      ensures this.sys == sys && current == Some(start)
    {
      this.sys := sys;
      current := Some(start);
    }

    /** Steps through the whole tree until the next cluster head. */
    method Increment()
      requires current.Some? && Valid(sys, current.value)
      modifies this
      ensures current == NextHead(sys, old(current).value)
    {
      ghost var rest := After(Services(sys), current.value);
      assert Chain(NextFn(sys, All), rest, None) && Next(sys, current.value, All) == FirstOf(rest, None) by {
        RestOfServices(sys, current.value);
      }
      current := NextChildOrUp(sys, current.value, All);
      current := SkipToHead(sys, current, rest);
    }
  }

  lemma RestOfServices(sys: System, s: Service)
    requires Valid(sys, s)
    ensures var rest := After(Services(sys), s);
      Chain(NextFn(sys, All), rest, None) && Next(sys, s, All) == FirstOf(rest, None)
  {
    TransitiveServicesComplete(sys);
    WalkBehind(NextFn(sys, All), Services(sys), None, s);
  }

  /** The loop of cluster_iterator::increment; rest lists the services still ahead. */
  method SkipToHead(sys: System, start: Option<Service>, ghost rest: seq<Service>) returns (head: Option<Service>)
    requires Chain(NextFn(sys, All), rest, None) && start == FirstOf(rest, None)
    ensures head == FirstOf(Flatten(rest, IfHeadFn(sys)), None)
  {
    head := start;
    ghost var xs := rest;
    while head.Some? && !IsClusterHead(sys, head.value)
      invariant Chain(NextFn(sys, All), xs, None) && head == FirstOf(xs, None)
      invariant FirstOf(Flatten(rest, IfHeadFn(sys)), None) == FirstOf(Flatten(xs, IfHeadFn(sys)), None)
      decreases |xs|
    {
      ChainAt(NextFn(sys, All), xs, None, 0);
      head := NextChildOrUp(sys, head.value, All);
      ChainSuffix(NextFn(sys, All), xs, None, 1);
      xs := xs[1..];
    }
  }

  // ----- Whole ranges -----

  /** for (Service& s : transitive_services(start)); xs is what the range should visit. */
  method WalkTransitive(sys: System, start: Service, ghost xs: seq<Service>) returns (visited: seq<Service>)
    requires Chain(NextFn(sys, All), xs, None) && FirstOf(xs, None) == Some(start)
    requires forall x :: x in xs ==> Valid(sys, x)
    ensures visited == xs
  {
    var itr := new TransitiveServiceIterator(sys, start);
    visited := [];
    while itr.current.Some?
      invariant itr.sys == sys && |visited| <= |xs| && visited == xs[..|visited|]
      invariant itr.current == if |visited| < |xs| then Some(xs[|visited|]) else None
      decreases |xs| - |visited|
    {
      PrefixSnoc(xs, |visited|);
      ChainAt(NextFn(sys, All), xs, None, |visited|);
      visited := visited + [itr.current.value];
      itr.Increment();
    }
    assert xs[..|xs|] == xs;
  }

  method WalkPostorder(sys: System, start: Service, ghost xs: seq<Service>) returns (visited: seq<Service>)
    requires Chain(PostNextFn(sys), xs, None) && FirstOf(xs, None) == Some(start)
    requires forall x :: x in xs ==> Valid(sys, x)
    ensures visited == xs
  {
    var itr := new PostorderServiceIterator(sys, start);
    visited := [];
    while itr.current.Some?
      invariant itr.sys == sys && |visited| <= |xs| && visited == xs[..|visited|]
      invariant itr.current == if |visited| < |xs| then Some(xs[|visited|]) else None
      decreases |xs| - |visited|
    {
      PrefixSnoc(xs, |visited|);
      ChainAt(PostNextFn(sys), xs, None, |visited|);
      visited := visited + [itr.current.value];
      itr.Increment();
    }
    assert xs[..|xs|] == xs;
  }

  method WalkMembers(sys: System, start: Service, end: Option<Service>, ghost xs: seq<Service>)
    returns (visited: seq<Service>)
    requires Range(NextFn(sys, ImportsOnly), xs, end) && FirstOf(xs, end) == Some(start)
    ensures visited == xs
  {
    var itr := new ClusterServiceIterator(sys, start);
    visited := [];
    while itr.current != end
      invariant itr.sys == sys && |visited| <= |xs| && visited == xs[..|visited|]
      invariant itr.current == if |visited| < |xs| then Some(xs[|visited|]) else end
      decreases |xs| - |visited|
    {
      PrefixSnoc(xs, |visited|);
      ChainAt(NextFn(sys, ImportsOnly), xs, end, |visited|);
      visited := visited + [itr.current.value];
      itr.Increment();
    }
    assert xs[..|xs|] == xs;
  }

  method WalkClusters(sys: System, start: Service, ghost xs: seq<Service>) returns (visited: seq<Service>)
    requires Chain(NextHeadFn(sys), xs, None) && FirstOf(xs, None) == Some(start)
    requires forall x :: x in xs ==> Valid(sys, x)
    ensures visited == xs
  {
    var itr := new ClusterIterator(sys, start);
    visited := [];
    while itr.current.Some?
      invariant itr.sys == sys && |visited| <= |xs| && visited == xs[..|visited|]
      invariant itr.current == if |visited| < |xs| then Some(xs[|visited|]) else None
      decreases |xs| - |visited|
    {
      PrefixSnoc(xs, |visited|);
      ChainAt(NextHeadFn(sys), xs, None, |visited|);
      visited := visited + [itr.current.value];
      itr.Increment();
    }
    assert xs[..|xs|] == xs;
  }

  /** transitive_services(root) lists the recursive preorder. */
  method TransitiveServices(sys: System) returns (visited: seq<Service>)
    ensures visited == Services(sys)
  {
    TransitiveServicesComplete(sys);
    visited := WalkTransitive(sys, Root, Services(sys));
  }

  /** transitive_postorder_services(root) lists the recursive postorder. */
  method PostorderServices(sys: System) returns (visited: seq<Service>)
    requires NothingBehindRootParent(sys)
    ensures visited == Post(sys.root, Root)
  {
    PostorderEndsExactly(sys);
    TransitiveServicesComplete(sys);
    var start := DescendToFirstLeaf(sys, Root);
    assert forall x :: x in Post(sys.root, Root) ==> x in multiset(Services(sys));
    visited := WalkPostorder(sys, start, Post(sys.root, Root));
  }

  /** cluster_members(s): from s up to the sentinel computed from the cluster head. */
  method ClusterMembers(sys: System, s: Service) returns (visited: seq<Service>)
    requires WellRooted(sys) && Valid(sys, s)
    ensures visited == MembersFrom(sys, s)
  {
    ClusterMembersSuffix(sys, s);
    var head := ClusterHeadOf(sys, s);
    var end := NextParentOrNeighbour(sys, head, ImportsOnly);
    visited := WalkMembers(sys, s, end, MembersFrom(sys, s));
  }

  /** clusters(root) lists the cluster heads. */
  method Clusters(sys: System) returns (visited: seq<Service>)
    requires WellRooted(sys)
    ensures visited == Heads(sys)
  {
    ClustersComplete(sys);
    visited := WalkClusters(sys, Root, Heads(sys));
  }
}
