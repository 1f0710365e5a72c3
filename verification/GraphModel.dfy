/** The node level dependency graph of graph.cpp: nodes, flags, and the hand written
    begin / advance / degree code of every node kind in both directions. */
module GraphModel {
  import opened Sequences
  import opened Walks
  import opened ServiceTree

  datatype Node =
    | ServiceNode(service: Service)
    | ImportNode(ref: PartRef)
    | ExportNode(ref: PartRef)
    | UsageNode(usage: UsageId)

  datatype Edge = Edge(source: Node, target: Node)

  datatype Direction = Out | In

  /** GraphFlags: each bit removes one kind of edge. */
  datatype Flags = Flags(
    filterChildImporter: bool, filterOwnerExporter: bool, filterExporterChild: bool,
    filterExporterUsage: bool, filterImporterOwner: bool, filterUsageImporter: bool,
    filterStrong: bool, filterWeak: bool)
  {
    predicate HasChildImporter() { !filterChildImporter }
    predicate HasOwnerExporter() { !filterOwnerExporter }
    predicate HasExporterChild() { !filterExporterChild }
    predicate HasExporterUsage() { !filterExporterUsage && HasAnyUsage() }
    predicate HasImporterOwner() { !filterImporterOwner }
    predicate HasUsageImporter() { !filterUsageImporter && HasAnyUsage() }
    predicate HasAnyUsage() { !(filterStrong && filterWeak) }
    predicate HasAllUsage() { !filterStrong && !filterWeak }
  }

  const NoFilter := Flags(false, false, false, false, false, false, false, false)

  function IsWeak(sys: System, u: UsageId): bool {
    u in sys.usages && sys.usages[u].weak
  }

  /** The strong and weak bits let this usage through. */
  predicate Keeps(sys: System, flags: Flags, u: UsageId) {
    (!flags.filterWeak || !IsWeak(sys, u)) && (!flags.filterStrong || IsWeak(sys, u))
  }

  // ----- Lookups in the intrusive lists -----

  function UsedBy(sys: System, u: UsageId): PartRef {
    if u in sys.usages then sys.usages[u].used else PartRef(Root, 0)
  }

  function UserOf(sys: System, u: UsageId): PartRef {
    if u in sys.usages then sys.usages[u].user else PartRef(Root, 0)
  }

  function PartNode(sys: System, p: PartRef): Node {
    if PartAt(sys, p).kind == Import then ImportNode(p) else ExportNode(p)
  }

  /** The first part of the given kind from index i on, as a node. */
  function FirstPart(sys: System, s: Service, i: nat, kind: Kind): Option<Node>
    decreases |At(sys, s).parts| - i
  {
    if i >= |At(sys, s).parts| then None
    else if At(sys, s).parts[i].kind == kind then Some(PartNode(sys, PartRef(s, i)))
    else FirstPart(sys, s, i + 1, kind)
  }

  function ChildFrom(sys: System, p: PartRef, j: nat): Option<Node> {
    if j < |PartAt(sys, p).children| then Some(ServiceNode(Child(p.owner, p.part, j))) else None
  }

  function FirstUsage(us: seq<UsageId>): Option<Node> {
    if us == [] then None else Some(UsageNode(us[0]))
  }

  /** range | filter_usages(flags) */
  function FirstKept(sys: System, flags: Flags, us: seq<UsageId>): Option<Node> {
    if us == [] then None
    else if Keeps(sys, flags, us[0]) then Some(UsageNode(us[0]))
    else FirstKept(sys, flags, us[1..])
  }

  function KeptCount(sys: System, flags: Flags, us: seq<UsageId>): nat {
    if us == [] then 0
    else (if Keeps(sys, flags, us[0]) then 1 else 0) + KeptCount(sys, flags, us[1..])
  }

  function CountParts(sys: System, s: Service, i: nat, kind: Kind): nat
    decreases |At(sys, s).parts| - i
  {
    if i >= |At(sys, s).parts| then 0
    else (if At(sys, s).parts[i].kind == kind then 1 else 0) + CountParts(sys, s, i + 1, kind)
  }

  // ----- edge_trait_t -----

  /** has_parent_edge in either direction: the parent is a part of the given kind. */
  predicate HasParentEdge(sys: System, s: Service, kind: Kind, allowed: bool) {
    s.Child? && PartAt(sys, Parent(sys, s)).kind == kind && allowed
  }

  function BeginOut(sys: System, flags: Flags, n: Node): Option<Node> {
    match n
    case ServiceNode(s) =>
      if HasParentEdge(sys, s, Import, flags.HasChildImporter()) then Some(ImportNode(Parent(sys, s)))
      else if flags.HasOwnerExporter() then FirstPart(sys, s, 0, Export)
      else None
    case ImportNode(p) => if flags.HasImporterOwner() then Some(ServiceNode(p.owner)) else None
    case ExportNode(p) =>
      var us := PartAt(sys, p).usages;
      if flags.HasExporterChild() && PartAt(sys, p).children != [] then ChildFrom(sys, p, 0)
      else if flags.HasExporterUsage() then
        if flags.HasAllUsage() then FirstUsage(us) else FirstKept(sys, flags, us)
      else None
    case UsageNode(u) =>
      if flags.HasUsageImporter() && Keeps(sys, flags, u) then Some(ImportNode(UserOf(sys, u))) else None
  }

  function AdvanceOut(sys: System, flags: Flags, n: Node, itr: Node): Option<Node> {
    match n
    case ServiceNode(s) =>
      if flags.HasOwnerExporter() then
        match itr
        case ImportNode(_) => FirstPart(sys, s, 0, Export)
        case ExportNode(p) => FirstPart(sys, p.owner, p.part + 1, Export)
        case _ => None
      else None
    case ImportNode(_) => None
    case ExportNode(p) =>
      (match itr
       case ServiceNode(c) =>
         var next := if c.Child? then ChildFrom(sys, PartRef(c.owner, c.part), c.index + 1) else None;
         if next.Some? then next
         else if flags.HasExporterUsage() then FirstUsage(PartAt(sys, p).usages)
         else None
       case UsageNode(u) =>
         var rest := After(PartAt(sys, UsedBy(sys, u)).usages, u);
         if flags.HasAllUsage() then FirstUsage(rest) else FirstKept(sys, flags, rest)
       case _ => None)
    case UsageNode(_) => None
  }

  function DegreeOut(sys: System, flags: Flags, n: Node): nat {
    match n
    case ServiceNode(s) =>
      (if HasParentEdge(sys, s, Import, flags.HasChildImporter()) then 1 else 0)
      + (if flags.HasOwnerExporter() then CountParts(sys, s, 0, Export) else 0)
    case ImportNode(_) => if flags.HasImporterOwner() then 1 else 0
    case ExportNode(p) =>
      var us := PartAt(sys, p).usages;
      (if flags.HasExporterChild() then |PartAt(sys, p).children| else 0)
      + (if flags.HasExporterUsage() then
           if flags.HasAllUsage() then |us| else KeptCount(sys, flags, us)
         else 0)
    case UsageNode(u) => if flags.HasUsageImporter() && Keeps(sys, flags, u) then 1 else 0
  }

  function BeginIn(sys: System, flags: Flags, n: Node): Option<Node> {
    match n
    case ServiceNode(s) =>
      if HasParentEdge(sys, s, Export, flags.HasExporterChild()) then Some(ExportNode(Parent(sys, s)))
      else if flags.HasImporterOwner() then FirstPart(sys, s, 0, Import)
      else None
    case ImportNode(p) =>
      if flags.HasChildImporter() && PartAt(sys, p).children != [] then ChildFrom(sys, p, 0)
      else if flags.HasUsageImporter() then FirstUsage(PartAt(sys, p).usages)
      else None
    case ExportNode(p) => if flags.HasOwnerExporter() then Some(ServiceNode(p.owner)) else None
    case UsageNode(u) =>
      if flags.HasExporterUsage() && Keeps(sys, flags, u) then Some(ExportNode(UsedBy(sys, u))) else None
  }

  function AdvanceIn(sys: System, flags: Flags, n: Node, itr: Node): Option<Node> {
    match n
    case ServiceNode(s) =>
      if flags.HasImporterOwner() then
        match itr
        case ExportNode(_) => FirstPart(sys, s, 0, Import)
        case ImportNode(p) => FirstPart(sys, p.owner, p.part + 1, Import)
        case _ => None
      else None
    case ImportNode(p) =>
      (match itr
       case ServiceNode(c) =>
         var next := if c.Child? then ChildFrom(sys, PartRef(c.owner, c.part), c.index + 1) else None;
         var us := PartAt(sys, p).usages;
         if next.Some? then next
         else if flags.HasUsageImporter() then
           if flags.HasAllUsage() then FirstUsage(us) else FirstKept(sys, flags, us)
         else None
       case UsageNode(u) =>
         var rest := After(PartAt(sys, UserOf(sys, u)).usages, u);
         if flags.HasAllUsage() then FirstUsage(rest) else FirstKept(sys, flags, rest)
       case _ => None)
    case ExportNode(_) => None
    case UsageNode(_) => None
  }

  function DegreeIn(sys: System, flags: Flags, n: Node): nat {
    match n
    case ServiceNode(s) =>
      (if HasParentEdge(sys, s, Export, flags.HasExporterChild()) then 1 else 0)
      + (if flags.HasImporterOwner() then CountParts(sys, s, 0, Import) else 0)
    case ImportNode(p) =>
      var us := PartAt(sys, p).usages;
      (if flags.HasChildImporter() then |PartAt(sys, p).children| else 0)
      + (if flags.HasUsageImporter() then
           if flags.HasAllUsage() then |us| else KeptCount(sys, flags, us)
         else 0)
    case ExportNode(_) => if flags.HasOwnerExporter() then 1 else 0
    case UsageNode(u) => if flags.HasExporterUsage() && Keeps(sys, flags, u) then 1 else 0
  }

  function Begin(sys: System, flags: Flags, dir: Direction, n: Node): Option<Node> {
    if dir == Out then BeginOut(sys, flags, n) else BeginIn(sys, flags, n)
  }

  function Advance(sys: System, flags: Flags, dir: Direction, n: Node, itr: Node): Option<Node> {
    if dir == Out then AdvanceOut(sys, flags, n, itr) else AdvanceIn(sys, flags, n, itr)
  }

  /** node_degree */
  function Degree(sys: System, flags: Flags, dir: Direction, n: Node): nat {
    if dir == Out then DegreeOut(sys, flags, n) else DegreeIn(sys, flags, n)
  }

  // ----- node_iterator -----

  function PartFrom(sys: System, s: Service, i: nat): Option<Node> {
    if i < |At(sys, s).parts| then Some(PartNode(sys, PartRef(s, i))) else None
  }

  /** set_next_from_service */
  function NextService(sys: System, s: Service): Option<Node> {
    var next := Next(sys, s, All);
    if next.Some? then Some(ServiceNode(next.value)) else None
  }

  /** node_iterator::increment: a service, its parts, the usages on its exports, the next service. */
  function NextNode(sys: System, n: Node): Option<Node> {
    match n
    case ServiceNode(s) => OrElse(PartFrom(sys, s, 0), NextService(sys, s))
    case ImportNode(p) => OrElse(PartFrom(sys, p.owner, p.part + 1), NextService(sys, p.owner))
    case ExportNode(p) =>
      OrElse(FirstUsage(PartAt(sys, p).usages),
             OrElse(PartFrom(sys, p.owner, p.part + 1), NextService(sys, p.owner)))
    case UsageNode(u) =>
      var p := UsedBy(sys, u);
      OrElse(FirstUsage(After(PartAt(sys, p).usages, u)),
             OrElse(PartFrom(sys, p.owner, p.part + 1), NextService(sys, p.owner)))
  }

  ghost function NextNodeFn(sys: System): Node -> Option<Node> {
    (n: Node) => NextNode(sys, n)
  }

  // ----- Well-formed systems -----

  /** The end of a usage that a part of this kind holds. */
  function EndOf(sys: System, u: UsageId, kind: Kind): PartRef {
    if kind == Export then UsedBy(sys, u) else UserOf(sys, u)
  }

  /** Every usage hangs in exactly the list of its export and the list of its import. */
  ghost predicate WellLinked(sys: System) {
    && WellRooted(sys)
    && (forall p {:trigger PartAt(sys, p)} :: ValidPart(sys, p) ==> ListsWell(sys, p))
    && (forall u {:trigger u in sys.usages} :: u in sys.usages ==>
          HangsIn(sys, u, UsedBy(sys, u), Export) && HangsIn(sys, u, UserOf(sys, u), Import))
  }

  ghost predicate ListsWell(sys: System, p: PartRef) {
    var part := PartAt(sys, p);
    NoDup(part.usages) && forall u :: u in part.usages ==> u in sys.usages && EndOf(sys, u, part.kind) == p
  }

  predicate HangsIn(sys: System, u: UsageId, p: PartRef, kind: Kind) {
    ValidPart(sys, p) && PartAt(sys, p).kind == kind && u in PartAt(sys, p).usages
  }

  predicate ValidNode(sys: System, n: Node) {
    match n
    case ServiceNode(s) => Valid(sys, s)
    case ImportNode(p) => ValidPart(sys, p) && PartAt(sys, p).kind == Import
    case ExportNode(p) => ValidPart(sys, p) && PartAt(sys, p).kind == Export
    case UsageNode(u) => u in sys.usages
  }
}
