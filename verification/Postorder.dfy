/** transitive_postorder_services: the stackless postorder walk and the exact condition
    under which it ends. */
module Postorder {
  import opened Sequences
  import opened Walks
  import opened ServiceTree
  import opened Traversal

  /** The recursive postorder listing of the tree t standing at s. */
  ghost function Post(t: Tree, s: Service): seq<Service>
    decreases t, |t.parts| + 1, 0
  {
    PostForest(t, s, 0, 0) + [s]
  }

  /** The postorder listing of the children of s from child j of part i on. */
  ghost function PostForest(t: Tree, s: Service, i: nat, j: nat): seq<Service>
    decreases t, |t.parts| - i, if i < |t.parts| then |t.parts[i].children| - j else 0
  {
    if i >= |t.parts| then []
    else if j < |t.parts[i].children| then
      Post(t.parts[i].children[j], Child(s, i, j)) + PostForest(t, s, i, j + 1)
    else PostForest(t, s, i + 1, 0)
  }

  /** The descent loop: keep stepping into the first child. */
  function Deepest(t: Tree, s: Service): Service {
    var c := FirstChild(t, s, 0, All);
    FirstChildShape(t, s, 0, All);
    if c.None? then s else Deepest(t.parts[c.value.part].children[0], c.value)
  }

  /** transitive_postorder_service_iterator::increment */
  function PostNext(sys: System, s: Service): Option<Service> {
    var c := NeighbourOrChild(sys, s, All);
    if c.Some? then Some(Deepest(At(sys, c.value), c.value))
    else if s.Root? then None
    else Some(s.owner)
  }

  ghost function PostNextFn(sys: System): Service -> Option<Service> {
    (s: Service) => PostNext(sys, s)
  }

  lemma {:induction false} PostForestFirst(t: Tree, s: Service, i: nat)
    ensures var c := FirstChild(t, s, i, All);
      if c.None? then PostForest(t, s, i, 0) == []
      else
        && c.value.Child? && c.value.part < |t.parts| && t.parts[c.value.part].children != []
        && FirstOf(PostForest(t, s, i, 0), None) == Some(Deepest(t.parts[c.value.part].children[0], c.value))
    decreases t, |t.parts| - i
  {
    if i < |t.parts| {
      if t.parts[i].children != [] {
        var c := Child(s, i, 0);
        PostFirst(t.parts[i].children[0], c);
        assert PostForest(t, s, i, 0) == Post(t.parts[i].children[0], c) + PostForest(t, s, i, 1);
      } else {
        PostForestFirst(t, s, i + 1);
      }
    }
  }

  /** A postorder listing starts at the end of the descent. */
  lemma {:induction false} PostFirst(t: Tree, s: Service)
    ensures Post(t, s)[0] == Deepest(t, s)
    decreases t, |t.parts| + 1
  {
    PostForestFirst(t, s, 0);
  }

  lemma {:induction false} PostForestChain(sys: System, s: Service, i: nat, j: nat)
    requires Valid(sys, s)
    ensures Chain(PostNextFn(sys), PostForest(At(sys, s), s, i, j), Some(s))
    decreases At(sys, s), |At(sys, s).parts| - i,
              if i < |At(sys, s).parts| then |At(sys, s).parts[i].children| - j else 0
  {
    var t := At(sys, s);
    if i < |t.parts| {
      if j < |t.parts[i].children| {
        var c := Child(s, i, j);
        PostChain(sys, c);
        PostForestChain(sys, s, i, j + 1);
        var rest := PostForest(t, s, i, j + 1);
        assert PostNext(sys, c) == FirstOf(rest, Some(s)) by {
          if j + 1 < |t.parts[i].children| {
            var d := Child(s, i, j + 1);
            PostFirst(At(sys, d), d);
            assert rest == Post(At(sys, d), d) + PostForest(t, s, i, j + 2);
          } else {
            assert rest == PostForest(t, s, i + 1, 0);
            PostForestFirst(t, s, i + 1);
            FirstChildShape(t, s, i + 1, All);
          }
        }
        ChainConcat(PostNextFn(sys), Post(At(sys, c), c), rest, Some(s));
      } else {
        PostForestChain(sys, s, i + 1, 0);
      }
    }
  }

  /** Started at the end of the descent from s, the increments visit exactly the recursive
      postorder listing below s, s last. */
  lemma {:induction false} PostChain(sys: System, s: Service)
    requires Valid(sys, s)
    ensures Chain(PostNextFn(sys), Post(At(sys, s), s), PostNext(sys, s))
    decreases At(sys, s), |At(sys, s).parts| + 1, 0
  {
    PostForestChain(sys, s, 0, 0);
    ChainConcat(PostNextFn(sys), PostForest(At(sys, s), s, 0, 0), [s], PostNext(sys, s));
  }

  lemma {:induction false} PostForestPermutation(t: Tree, s: Service, i: nat, j: nat)
    ensures multiset(PostForest(t, s, i, j)) == multiset(Forest(t, s, i, j, All))
    decreases t, |t.parts| - i, if i < |t.parts| then |t.parts[i].children| - j else 0
  {
    if i < |t.parts| {
      if j < |t.parts[i].children| {
        PostPermutation(t.parts[i].children[j], Child(s, i, j));
        PostForestPermutation(t, s, i, j + 1);
      } else {
        PostForestPermutation(t, s, i + 1, 0);
      }
    }
  }

  /** Postorder visits the same services as preorder. */
  lemma {:induction false} PostPermutation(t: Tree, s: Service)
    ensures multiset(Post(t, s)) == multiset(Preorder(t, s, All))
    decreases t, |t.parts| + 1, 0
  {
    PostForestPermutation(t, s, 0, 0);
  }

  // ----- When the walk ends -----

  /** The position after n increments; None once the walk has ended. */
  ghost function Iterate<T>(next: T -> Option<T>, x: Option<T>, n: nat): Option<T>
    decreases n
  {
    if n == 0 || x.None? then x else Iterate(next, next(x.value), n - 1)
  }

  lemma {:induction false} ChainEnds<T>(next: T -> Option<T>, xs: seq<T>, end: Option<T>)
    requires Chain(next, xs, end)
    ensures Iterate(next, FirstOf(xs, end), |xs|) == end
  {
    if xs != [] {
      ChainSuffix(next, xs, end, 1);
      ChainEnds(next, xs[1..], end);
    }
  }

  /** A walk whose end is one of its own positions never ends. */
  lemma {:induction false} CycleNeverEnds<T>(next: T -> Option<T>, xs: seq<T>, back: nat, k: nat, n: nat)
    requires back < |xs| && k < |xs| && Chain(next, xs, Some(xs[back]))
    ensures Iterate(next, Some(xs[k]), n).Some?
    decreases n
  {
    if n > 0 {
      CycleNeverEnds(next, xs, back, if k + 1 < |xs| then k + 1 else back, n - 1);
    }
  }

  /** No part behind the root's own parent part has children. */
  predicate NothingBehindRootParent(sys: System) {
    forall i :: sys.rootParent < i < |sys.root.parts| ==> sys.root.parts[i].children == []
  }

  lemma {:induction false} FirstChildNone(t: Tree, s: Service, i: nat)
    ensures FirstChild(t, s, i, All).None? <==> forall k :: i <= k < |t.parts| ==> t.parts[k].children == []
    decreases |t.parts| - i
  {
    if i < |t.parts| {
      FirstChildNone(t, s, i + 1);
    }
  }

  lemma {:induction false} DeepestValid(sys: System, s: Service)
    requires Valid(sys, s)
    ensures Valid(sys, Deepest(At(sys, s), s))
    decreases At(sys, s)
  {
    var c := FirstChild(At(sys, s), s, 0, All);
    FirstChildShape(At(sys, s), s, 0, All);
    if c.Some? {
      DeepestValid(sys, c.value);
    }
  }

  /** transitive_postorder_services(root) ends if and only if no part behind the root's
      parent part has children. Then it lists the whole system in recursive postorder; in
      every other system it enters a service it has already visited and never ends. */
  lemma PostorderEndsExactly(sys: System)
    ensures var start := Some(Deepest(sys.root, Root));
      (exists n :: Iterate(PostNextFn(sys), start, n) == None) <==> NothingBehindRootParent(sys)
    ensures NothingBehindRootParent(sys) ==> Chain(PostNextFn(sys), Post(sys.root, Root), None)
    ensures !NothingBehindRootParent(sys) ==>
              PostNext(sys, Root).Some? && PostNext(sys, Root).value in Post(sys.root, Root)
    ensures Post(sys.root, Root)[0] == Deepest(sys.root, Root)
    ensures multiset(Post(sys.root, Root)) == multiset(Services(sys))
  {
    var xs, next := Post(sys.root, Root), PostNextFn(sys);
    PostChain(sys, Root);
    PostFirst(sys.root, Root);
    PostPermutation(sys.root, Root);
    FirstChildNone(sys.root, Root, sys.rootParent + 1);
    ChainEnds(next, xs, PostNext(sys, Root));
    if !NothingBehindRootParent(sys) {
      BackIntoListing(sys);
      var back :| 0 <= back < |xs| && xs[back] == PostNext(sys, Root).value;
      forall n ensures Iterate(next, Some(xs[0]), n).Some? {
        CycleNeverEnds(next, xs, back, 0, n);
      }
    }
  }

  lemma BackIntoListing(sys: System)
    requires !NothingBehindRootParent(sys)
    ensures PostNext(sys, Root).Some? && PostNext(sys, Root).value in Post(sys.root, Root)
  {
    var c := NeighbourOrChild(sys, Root, All);
    FirstChildNone(sys.root, Root, sys.rootParent + 1);
    FirstChildShape(sys.root, Root, sys.rootParent + 1, All);
    DeepestValid(sys, c.value);
    TransitiveServicesComplete(sys);
    PostPermutation(sys.root, Root);
    assert PostNext(sys, Root).value in multiset(Services(sys));
  }
}
