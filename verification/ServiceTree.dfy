/** The system as the iterators and graphs see it: a tree of services, each owning an
    ordered list of import and export parts, each part owning ordered children, plus the
    usages that link exports to imports. */
module ServiceTree {
  import opened Sequences
  import opened Walks

  /** Part::Kind; an Interface is an Export for every lookup made here. */
  datatype Kind = Import | Export

  type UsageId = nat

  /** A part with its children, and its usages: the dependent users of an export, or the
      resolved usages of an import. */
  datatype Part = Part(kind: Kind, children: seq<Tree>, usages: seq<UsageId>)
  datatype Tree = Tree(parts: seq<Part>)

  /** A Service pointer, read as its parent chain up to the root context. */
  datatype Service = Root | Child(owner: Service, part: nat, index: nat)

  /** One end of a usage. */
  datatype PartRef = PartRef(owner: Service, part: nat)
  datatype Usage = Usage(used: PartRef, user: PartRef, weak: bool)

  /** A context: its tree, which of the root's own parts is the root's parent, and the usages. */
  datatype System = System(root: Tree, rootParent: nat, usages: map<UsageId, Usage>)

  /** iteration_flags_t: which kinds of parts an iterator steps into. */
  datatype Scope = Scope(imports: bool, exports: bool) {
    predicate Includes(kind: Kind) {
      match kind
      case Import => imports
      case Export => exports
    }
  }

  const All := Scope(true, true)
  const ImportsOnly := Scope(true, false)

  // ----- Reading the tree -----

  /** The parts and children of a service; a dangling pointer reads as a bare service. */
  function At(sys: System, s: Service): Tree {
    match s
    case Root => sys.root
    case Child(o, i, j) =>
      var t := At(sys, o);
      if i < |t.parts| && j < |t.parts[i].children| then t.parts[i].children[j] else Tree([])
  }

  predicate Valid(sys: System, s: Service) {
    match s
    case Root => true
    case Child(o, i, j) =>
      Valid(sys, o) && i < |At(sys, o).parts| && j < |At(sys, o).parts[i].children|
  }

  predicate ValidPart(sys: System, p: PartRef) {
    Valid(sys, p.owner) && p.part < |At(sys, p.owner).parts|
  }

  function PartAt(sys: System, p: PartRef): Part {
    var t := At(sys, p.owner);
    if p.part < |t.parts| then t.parts[p.part] else Part(Export, [], [])
  }

  /** Service::parent(); the root is owned by one of its own parts. */
  function Parent(sys: System, s: Service): PartRef {
    match s
    case Root => PartRef(Root, sys.rootParent)
    case Child(o, i, _) => PartRef(o, i)
  }

  /** The root context inherits from its own Container, an export. */
  predicate WellRooted(sys: System) {
    sys.rootParent < |sys.root.parts| && sys.root.parts[sys.rootParent].kind == Export
  }

  predicate IsClusterHead(sys: System, s: Service) {
    PartAt(sys, Parent(sys, s)).kind == Export
  }

  /** get_cluster_head_of: climb while the parent is an import. */
  function HeadOf(sys: System, s: Service): Service {
    match s
    case Root => Root
    case Child(o, i, _) => if PartAt(sys, PartRef(o, i)).kind == Import then HeadOf(sys, o) else s
  }

  // ----- The stackless moves -----

  /** next_child_of_parts over the parts from index i on. */
  function FirstChild(t: Tree, s: Service, i: nat, scope: Scope): Option<Service>
    decreases |t.parts| - i
  {
    if i >= |t.parts| then None
    else if scope.Includes(t.parts[i].kind) && t.parts[i].children != [] then Some(Child(s, i, 0))
    else FirstChild(t, s, i + 1, scope)
  }

  /** next_neighbour_or_child. The root is in no children list, but its parent part has
      neighbours: the root's own parts behind it. */
  function NeighbourOrChild(sys: System, s: Service, scope: Scope): Option<Service> {
    match s
    case Root => FirstChild(sys.root, Root, sys.rootParent + 1, scope)
    case Child(o, i, j) =>
      var t := At(sys, o);
      if i < |t.parts| && j + 1 < |t.parts[i].children| then Some(Child(o, i, j + 1))
      else FirstChild(t, o, i + 1, scope)
  }

  /** next_parent_or_neighbour */
  function Up(sys: System, s: Service, scope: Scope): Option<Service> {
    match s
    case Root => None
    case Child(o, _, _) => OrElse(NeighbourOrChild(sys, s, scope), Up(sys, o, scope))
  }

  /** next_child_or_up */
  function Next(sys: System, s: Service, scope: Scope): Option<Service> {
    OrElse(FirstChild(At(sys, s), s, 0, scope), Up(sys, s, scope))
  }

  ghost function NextFn(sys: System, scope: Scope): Service -> Option<Service> {
    (s: Service) => Next(sys, s, scope)
  }

  // ----- The recursive reading -----

  /** The preorder listing of the tree t standing at s, stepping only into parts in scope. */
  ghost function Preorder(t: Tree, s: Service, scope: Scope): seq<Service>
    decreases t, |t.parts| + 1, 0
  {
    [s] + Forest(t, s, 0, 0, scope)
  }

  /** The listing of the children of s from child j of part i on. */
  ghost function Forest(t: Tree, s: Service, i: nat, j: nat, scope: Scope): seq<Service>
    decreases t, |t.parts| - i, if i < |t.parts| then |t.parts[i].children| - j else 0
  {
    if i >= |t.parts| then []
    else if scope.Includes(t.parts[i].kind) && j < |t.parts[i].children| then
      Preorder(t.parts[i].children[j], Child(s, i, j), scope) + Forest(t, s, i, j + 1, scope)
    else Forest(t, s, i + 1, 0, scope)
  }

  /** All services at or below s reached through parts in scope, in preorder. */
  ghost function Listing(sys: System, s: Service, scope: Scope): seq<Service> {
    Preorder(At(sys, s), s, scope)
  }

  // ----- Stackless moves follow the recursive listing -----

  /** The part of the forest still to be visited starts where the code looks next. */
  lemma {:induction false} ForestFirst(t: Tree, s: Service, i: nat, scope: Scope, end: Option<Service>)
    ensures FirstOf(Forest(t, s, i, 0, scope), end) == OrElse(FirstChild(t, s, i, scope), end)
    decreases |t.parts| - i
  {
    if i < |t.parts| && !(scope.Includes(t.parts[i].kind) && t.parts[i].children != []) {
      ForestFirst(t, s, i + 1, scope, end);
    }
  }

  /** Behind the subtree of a child, going up or right leads to the rest of the forest. */
  lemma ForestBehind(sys: System, s: Service, i: nat, j: nat, scope: Scope)
    requires i < |At(sys, s).parts| && scope.Includes(At(sys, s).parts[i].kind) && j < |At(sys, s).parts[i].children|
    ensures Up(sys, Child(s, i, j), scope) == FirstOf(Forest(At(sys, s), s, i, j + 1, scope), Up(sys, s, scope))
  {
    var t := At(sys, s);
    var rest := Forest(t, s, i, j + 1, scope);
    if j + 1 < |t.parts[i].children| {
      var d := Child(s, i, j + 1);
      assert rest == Preorder(t.parts[i].children[j + 1], d, scope) + Forest(t, s, i, j + 2, scope);
      assert Preorder(t.parts[i].children[j + 1], d, scope)[0] == d;
    } else {
      assert rest == Forest(t, s, i + 1, 0, scope);
      ForestFirst(t, s, i + 1, scope, Up(sys, s, scope));
    }
  }

  lemma {:induction false} ForestChain(sys: System, s: Service, i: nat, j: nat, scope: Scope)
    requires Valid(sys, s)
    ensures Chain(NextFn(sys, scope), Forest(At(sys, s), s, i, j, scope), Up(sys, s, scope))
    decreases At(sys, s), |At(sys, s).parts| - i,
              if i < |At(sys, s).parts| then |At(sys, s).parts[i].children| - j else 0
  {
    var t := At(sys, s);
    if i < |t.parts| {
      if scope.Includes(t.parts[i].kind) && j < |t.parts[i].children| {
        var c := Child(s, i, j);
        PreorderChain(sys, c, scope);
        ForestChain(sys, s, i, j + 1, scope);
        ForestBehind(sys, s, i, j, scope);
        ChainConcat(NextFn(sys, scope), Preorder(At(sys, c), c, scope), Forest(t, s, i, j + 1, scope),
                    Up(sys, s, scope));
      } else {
        ForestChain(sys, s, i + 1, 0, scope);
      }
    }
  }

  /** Started at any service, next_child_or_up visits exactly the recursive preorder listing
      and then stands where next_parent_or_neighbour leads. */
  lemma {:induction false} PreorderChain(sys: System, s: Service, scope: Scope)
    requires Valid(sys, s)
    ensures Chain(NextFn(sys, scope), Listing(sys, s, scope), Up(sys, s, scope))
    decreases At(sys, s), |At(sys, s).parts| + 1, 0
  {
    var t := At(sys, s);
    ForestChain(sys, s, 0, 0, scope);
    ForestFirst(t, s, 0, scope, Up(sys, s, scope));
    assert Chain(NextFn(sys, scope), [s], FirstOf(Forest(t, s, 0, 0, scope), Up(sys, s, scope)));
    ChainConcat(NextFn(sys, scope), [s], Forest(t, s, 0, 0, scope), Up(sys, s, scope));
  }
}
