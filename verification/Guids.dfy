/** Guids: their packing, the recycler of low parts, and the allocation along service init
    and destroy. */
module Guids {
  import opened Sequences
  import opened ServiceTree
  import opened Traversal

  // ----- Packing -----

  const LOWS: nat := 0x100_0000_0000
  const HIGHS: nat := 0x1_0000
  const ORDINALS: nat := 0x100
  const VALUES: nat := 0x1_0000_0000_0000_0000

  /** The three bit fields. */
  datatype Guid = Guid(low: nat, high: nat, ordinal: nat) {
    predicate Fits() {
      low < LOWS && high < HIGHS && ordinal < ORDINALS
    }

    /** value(): the fields side by side in 64 bits. */
    function Value(): nat {
      ordinal * (HIGHS * LOWS) + high * LOWS + low
    }

    function Cluster(): Guid { Guid(low, 0, 0) }
    function Owner(): Guid { Guid(low, high, 0) }
  }

  function FromValue(value: nat): Guid {
    Guid(value % LOWS, value / LOWS % HIGHS, value / (HIGHS * LOWS) % ORDINALS)
  }

  /** fromValue undoes value, and the value fits 64 bits. */
  lemma UnpackPack(g: Guid)
    requires g.Fits()
    ensures g.Value() < VALUES && FromValue(g.Value()) == g
  {
    var v := g.Value();
    assert v / LOWS == g.ordinal * HIGHS + g.high;
    assert v / (HIGHS * LOWS) == g.ordinal;
  }

  /** value undoes fromValue on every 64 bit value. */
  lemma PackUnpack(value: nat)
    requires value < VALUES
    ensures FromValue(value).Fits() && FromValue(value).Value() == value
  {
    assert value / LOWS / HIGHS == value / (HIGHS * LOWS);
  }

  /** Where the fields lie: 40 bits of low guid, 16 bits of high guid above them, and the ordinal
      in the topmost 8 bits. */
  lemma Layout(g: Guid)
    requires g.Fits()
    ensures g.Value() == g.low + 0x100_0000_0000 * g.high + 0x100_0000_0000_0000 * g.ordinal
    ensures g.Value() % 0x100_0000_0000 == g.low
    ensures g.Value() / 0x100_0000_0000 % 0x1_0000 == g.high
    ensures g.Value() / 0x100_0000_0000_0000 == g.ordinal
  {
    UnpackPack(g);
  }

  // ----- The recycler of low guids -----

  /** id_recycler: a counter and the ids below it that were given back. */
  class IdRecycler {
    var current: nat
    var recycled: set<nat>

    /** Given back ids lie below the counter, and the topmost id below it is in use. */
    ghost predicate Valid()
      reads this
    {
      && current < LOWS
      && (forall i :: i in recycled ==> i < current)
      && (current > 0 ==> current - 1 !in recycled)
    }

    predicate InUse(id: nat)
      reads this
    {
      id < current && id !in recycled
    }

    constructor ()
      ensures Valid() && forall i :: !InUse(i)
    {
      current, recycled := 0, {};
    }

    /** Never an id in use; the counter overflows only when all ids below 2^40 - 1 are. */
    method Allocate() returns (id: nat)
      requires Valid() && exists i: nat :: i < LOWS - 1 && !InUse(i)
      modifies this
      ensures Valid() && id < LOWS - 1 && !old(InUse(id))
      ensures forall i :: InUse(i) <==> old(InUse(i)) || i == id
      ensures if old(recycled) == {} then id == old(current)
              else id in old(recycled) && forall i :: i in old(recycled) ==> i <= id
    {
      if recycled == {} {
        ghost var i: nat :| i < LOWS - 1 && !InUse(i);
        id := current;
        current := current + 1;
      } else {
        id := Greatest(recycled);
        recycled := recycled - {id};
      }
    }

    method Recycle(id: nat)
      requires Valid() && InUse(id)
      modifies this
      ensures Valid() && forall i :: InUse(i) <==> old(InUse(i)) && i != id
    {
      recycled := recycled + {id};
      var settled := false;
      while recycled != {} && !settled
        invariant current < LOWS && forall i :: i in recycled ==> i < current
        invariant forall i :: InUse(i) <==> old(InUse(i)) && i != id
        invariant settled ==> Valid()
        decreases current, !settled
      {
        var top := Greatest(recycled);
        if top != current - 1 {
          settled := true;
        } else {
          recycled := recycled - {top};
          current := current - 1;
        }
      }
    }
  }

  /** The last element of the flat set. */
  method Greatest(s: set<nat>) returns (m: nat)
    requires s != {}
    ensures m in s && forall x :: x in s ==> x <= m
  {
    var rest := s;
    m :| m in rest;
    rest := rest - {m};
    while rest != {}
      invariant m in s && rest <= s && forall x :: x in s ==> x <= m || x in rest
      decreases rest
    {
      var x :| x in rest;
      if x > m {
        m := x;
      }
      rest := rest - {x};
    }
  }

  // ----- Allocation along init and destroy -----

  /** cluster_->guid_ : the low part, and the high part given out last. */
  datatype Cluster = Cluster(low: nat, last: nat)

  /** The initialized services with their high parts, and the clusters of their heads. */
  datatype State = State(high: map<Service, nat>, clusters: map<Service, Cluster>) {
    predicate Live(s: Service) {
      s in high
    }
  }

  predicate IsMember(sys: System, s: Service) {
    s.Child? && PartAt(sys, Parent(sys, s)).kind == Import
  }

  datatype Event = InitHead(s: Service, low: nat) | InitMember(s: Service) | Destroy(s: Service)

  ghost function LowsInUse(st: State): set<nat> {
    set h | h in st.clusters :: st.clusters[h].low
  }

  /** A service is initialized below a live owner and destroyed after everything below it. A
      head gets an unused low guid; a cluster hands out fewer than 2^16 high guids. */
  ghost predicate Enabled(sys: System, st: State, e: Event) {
    match e
    case InitHead(s, low) =>
      && !st.Live(s) && !IsMember(sys, s) && (s.Child? ==> st.Live(s.owner))
      && low < LOWS - 1 && low !in LowsInUse(st)
    case InitMember(s) =>
      && !st.Live(s) && IsMember(sys, s) && st.Live(s.owner)
      && HeadOf(sys, s) in st.clusters && st.clusters[HeadOf(sys, s)].last + 1 < HIGHS
    case Destroy(s) => st.Live(s) && forall c :: st.Live(c) && c.Child? ==> c.owner != s
  }

  /** The guid part of Service::init and Service::destroy. */
  function NextState(sys: System, st: State, e: Event): State {
    match e
    case InitHead(s, low) => State(st.high[s := 0], st.clusters[s := Cluster(low, 0)])
    case InitMember(s) =>
      var h := HeadOf(sys, s);
      if h in st.clusters then
        var next := (st.clusters[h].last + 1) % HIGHS;
        State(st.high[s := next], st.clusters[h := st.clusters[h].(last := next)])
      else st
    case Destroy(s) =>
      State(st.high - {s}, if IsMember(sys, s) then st.clusters else st.clusters - {s})
  }

  /** A live service has a live owner and a high guid handed out by its cluster; zero is the head's. */
  predicate ServiceOk(sys: System, st: State, s: Service) {
    s in st.high ==>
      && (s.Child? ==> s.owner in st.high)
      && HeadOf(sys, s) in st.clusters && st.high[s] <= st.clusters[HeadOf(sys, s)].last
      && (st.high[s] == 0 <==> !IsMember(sys, s))
  }

  /** The clusters are those of the live heads. */
  predicate ClusterOk(sys: System, st: State, h: Service) {
    && (h in st.clusters <==> h in st.high && !IsMember(sys, h))
    && (h in st.clusters ==> st.clusters[h].low < LOWS - 1 && st.clusters[h].last < HIGHS)
  }

  /** No low guid in two clusters, no high guid twice in one. */
  predicate PairOk(sys: System, st: State, s: Service, r: Service) {
    && (s in st.clusters && r in st.clusters && st.clusters[s].low == st.clusters[r].low ==> s == r)
    && (s in st.high && r in st.high && HeadOf(sys, s) == HeadOf(sys, r) && st.high[s] == st.high[r] ==> s == r)
  }

  ghost predicate Inv(sys: System, st: State) {
    && (forall s :: ServiceOk(sys, st, s))
    && (forall h :: ClusterOk(sys, st, h))
    && (forall s, r :: PairOk(sys, st, s, r))
  }

  lemma {:induction false} HeadOfHead(sys: System, s: Service)
    ensures !IsMember(sys, s) ==> HeadOf(sys, s) == s
    ensures IsMember(sys, s) ==> HeadOf(sys, s) == HeadOf(sys, s.owner)
    ensures !IsMember(sys, HeadOf(sys, s))
  {
    match s
    case Root =>
    case Child(o, _, _) => HeadOfHead(sys, o);
  }

  /** A service that is not alive heads nothing alive. */
  lemma NotAliveHeadsNothing(sys: System, st: State, n: Service, s: Service)
    requires Inv(sys, st) && n !in st.high && s in st.high
    ensures HeadOf(sys, s) != n
  {
    assert ServiceOk(sys, st, s);
    assert ClusterOk(sys, st, HeadOf(sys, s));
  }

  lemma InitHeadKeepsInv(sys: System, st: State, e: Event)
    requires Inv(sys, st) && Enabled(sys, st, e) && e.InitHead?
    ensures Inv(sys, NextState(sys, st, e))
  {
    var st', n := NextState(sys, st, e), e.s;
    HeadOfHead(sys, n);
    forall s ensures ServiceOk(sys, st', s) {
      assert ServiceOk(sys, st, s);
      if s in st.high {
        NotAliveHeadsNothing(sys, st, n, s);
      }
    }
    forall h ensures ClusterOk(sys, st', h) {
      assert ClusterOk(sys, st, h);
    }
    forall s, r ensures PairOk(sys, st', s, r) {
      assert PairOk(sys, st, s, r);
      if s in st.high { NotAliveHeadsNothing(sys, st, n, s); }
      if r in st.high { NotAliveHeadsNothing(sys, st, n, r); }
      if s in st.clusters { assert st.clusters[s].low in LowsInUse(st); }
      if r in st.clusters { assert st.clusters[r].low in LowsInUse(st); }
    }
  }

  lemma InitMemberKeepsInv(sys: System, st: State, e: Event)
    requires Inv(sys, st) && Enabled(sys, st, e) && e.InitMember?
    ensures Inv(sys, NextState(sys, st, e))
  {
    var st', n := NextState(sys, st, e), e.s;
    HeadOfHead(sys, n);
    forall s ensures ServiceOk(sys, st', s) {
      assert ServiceOk(sys, st, s);
    }
    forall h ensures ClusterOk(sys, st', h) {
      assert ClusterOk(sys, st, h);
    }
    forall s, r ensures PairOk(sys, st', s, r) {
      assert PairOk(sys, st, s, r) && ServiceOk(sys, st, s) && ServiceOk(sys, st, r);
    }
  }

  lemma DestroyKeepsInv(sys: System, st: State, e: Event)
    requires Inv(sys, st) && Enabled(sys, st, e) && e.Destroy?
    ensures Inv(sys, NextState(sys, st, e))
  {
    var st', d := NextState(sys, st, e), e.s;
    forall s ensures ServiceOk(sys, st', s) {
      assert ServiceOk(sys, st, s);
      if s in st'.high {
        MembersDieFirst(sys, st, d, s);
      }
    }
    forall h ensures ClusterOk(sys, st', h) {
      assert ClusterOk(sys, st, h);
    }
    forall s, r ensures PairOk(sys, st', s, r) {
      assert PairOk(sys, st, s, r);
    }
  }

  /** While anything below a service is alive it is alive itself, so a service without live
      children is the head of nothing but itself. */
  lemma {:induction false} MembersDieFirst(sys: System, st: State, d: Service, s: Service)
    requires Inv(sys, st) && Enabled(sys, st, Destroy(d)) && s in st.high && s != d
    ensures HeadOf(sys, s) != d
    decreases s
  {
    HeadOfHead(sys, s);
    assert ServiceOk(sys, st, s);
    if IsMember(sys, s) {
      assert st.Live(s);
      MembersDieFirst(sys, st, d, s.owner);
    }
  }

  lemma StepKeepsInv(sys: System, st: State, e: Event)
    requires Inv(sys, st) && Enabled(sys, st, e)
    ensures Inv(sys, NextState(sys, st, e))
  {
    match e
    case InitHead(_, _) => InitHeadKeepsInv(sys, st, e);
    case InitMember(_) => InitMemberKeepsInv(sys, st, e);
    case Destroy(_) => DestroyKeepsInv(sys, st, e);
  }

  // ----- Guid::of -----

  /** A service or one of its parts. */
  datatype Entity = Whole(service: Service) | PartOf(service: Service, index: nat)

  predicate LiveEntity(sys: System, st: State, x: Entity) {
    st.Live(x.service) && (x.PartOf? ==> x.index < |At(sys, x.service).parts|)
  }

  /** Guid::of: the cluster's low part, the service's high part, and for a part its offset,
      which is one byte wide and counts from one. */
  function GuidOf(sys: System, st: State, x: Entity): Guid {
    var h := HeadOf(sys, x.service);
    Guid(if h in st.clusters then st.clusters[h].low else 0,
         if x.service in st.high then st.high[x.service] else 0,
         if x.PartOf? then (x.index + 1) % ORDINALS else 0)
  }

  ghost predicate FewParts(sys: System) {
    forall s {:trigger At(sys, s)} :: |At(sys, s).parts| < ORDINALS
  }

  /** In every state with the invariant, different live services and parts have different guids. */
  lemma GuidsInjective(sys: System, st: State, x: Entity, y: Entity)
    requires Inv(sys, st) && FewParts(sys)
    requires LiveEntity(sys, st, x) && LiveEntity(sys, st, y)
    requires GuidOf(sys, st, x) == GuidOf(sys, st, y)
    ensures x == y
  {
    var hx, hy := HeadOf(sys, x.service), HeadOf(sys, y.service);
    assert ServiceOk(sys, st, x.service) && ServiceOk(sys, st, y.service);
    assert PairOk(sys, st, hx, hy) && PairOk(sys, st, x.service, y.service);
    assert |At(sys, x.service).parts| < ORDINALS;
  }

  // ----- Whole runs -----

  const Nothing := State(map[], map[])

  /** Part::partOffset: the distance from the front of the owner's part list, counted, plus one. */
  method PartOffset(sys: System, p: PartRef) returns (offset: nat)
    requires p.part < |At(sys, p.owner).parts| < 0xFF
    ensures offset == p.part + 1
  {
    var size, itr := 0, PartRef(p.owner, 0);
    while itr != p
      invariant itr == PartRef(p.owner, size) && size <= p.part
      decreases p.part - size
    {
      itr := PartRef(itr.owner, itr.part + 1);
      size := size + 1;
    }
    offset := size + 1;
  }

  /** Guid::of(Part) */
  method GuidOfPart(sys: System, st: State, p: PartRef) returns (guid: Guid)
    requires p.part < |At(sys, p.owner).parts| < 0xFF
    ensures guid == GuidOf(sys, st, PartOf(p.owner, p.part))
  {
    var owner := GuidOf(sys, st, Whole(p.owner));
    var offset := PartOffset(sys, p);
    guid := Guid(owner.low, owner.high, offset);
  }

  /** The fields of a guid: the low part is the one under which the registry holds the cluster
      head, the high part the one that init handed out, and the parts of a service count from one. */
  lemma GuidFields(sys: System, st: State, services: map<nat, Service>, x: Entity)
    requires Inv(sys, st) && Registry(st, services) && LiveEntity(sys, st, x)
    ensures var g := GuidOf(sys, st, x);
      && g.low in services && services[g.low] == HeadOf(sys, x.service)
      && g.high == st.high[x.service] && g.Fits()
      && (x.Whole? ==> g.ordinal == 0)
      && (x.PartOf? && |At(sys, x.service).parts| < 0xFF ==> g.ordinal == x.index + 1)
  {
    assert ServiceOk(sys, st, x.service);
    assert ClusterOk(sys, st, HeadOf(sys, x.service));
  }

  /** While a service lives, its guid and those of its parts stay as they are. */
  lemma StepKeepsGuids(sys: System, st: State, e: Event, x: Entity)
    requires Inv(sys, st) && Enabled(sys, st, e) && LiveEntity(sys, st, x)
    ensures LiveEntity(sys, NextState(sys, st, e), x) <==> e != Destroy(x.service)
    ensures e != Destroy(x.service) ==> GuidOf(sys, NextState(sys, st, e), x) == GuidOf(sys, st, x)
  {
    var h := HeadOf(sys, x.service);
    assert ServiceOk(sys, st, x.service);
    if e.Destroy? && e.s == h && h != x.service {
      MembersDieFirst(sys, st, e.s, x.service);
    }
    assert ClusterOk(sys, st, e.s);
  }

  /** owner() and cluster() of a guid are the guids of the owning service and its head. */
  lemma OwnerAndCluster(sys: System, st: State, x: Entity)
    requires Inv(sys, st) && LiveEntity(sys, st, x)
    ensures GuidOf(sys, st, x).Owner() == GuidOf(sys, st, Whole(x.service))
    ensures LiveEntity(sys, st, Whole(HeadOf(sys, x.service)))
    ensures GuidOf(sys, st, x).Cluster() == GuidOf(sys, st, Whole(HeadOf(sys, x.service)))
  {
    var h := HeadOf(sys, x.service);
    assert ServiceOk(sys, st, x.service);
    assert ClusterOk(sys, st, h) && ServiceOk(sys, st, h);
    HeadOfHead(sys, x.service);
    HeadOfHead(sys, h);
  }

  ghost predicate IsRun(sys: System, st: State, es: seq<Event>)
    decreases |es|
  {
    es == [] || (Enabled(sys, st, es[0]) && IsRun(sys, NextState(sys, st, es[0]), es[1..]))
  }

  ghost function Run(sys: System, st: State, es: seq<Event>): State
    decreases |es|
  {
    if es == [] then st else Run(sys, NextState(sys, st, es[0]), es[1..])
  }

  lemma {:induction false} RunKeepsInv(sys: System, st: State, es: seq<Event>)
    requires Inv(sys, st) && IsRun(sys, st, es)
    ensures Inv(sys, Run(sys, st, es))
    decreases |es|
  {
    if es != [] {
      StepKeepsInv(sys, st, es[0]);
      RunKeepsInv(sys, NextState(sys, st, es[0]), es[1..]);
    }
  }

  /** How many members of the cluster of h were initialized since h was, n of them before. */
  ghost function InitsSince(sys: System, es: seq<Event>, h: Service, n: nat): nat
    decreases |es|
  {
    if es == [] then n
    else
      match es[0]
      case InitHead(s, _) => InitsSince(sys, es[1..], h, if s == h then 0 else n)
      case InitMember(s) => InitsSince(sys, es[1..], h, if HeadOf(sys, s) == h then n + 1 else n)
      case Destroy(_) => InitsSince(sys, es[1..], h, n)
  }

  lemma {:induction false} RunCounts(sys: System, st: State, es: seq<Event>, h: Service, n: nat)
    requires Inv(sys, st) && IsRun(sys, st, es) && (h in st.clusters ==> n == st.clusters[h].last)
    ensures h in Run(sys, st, es).clusters ==> Run(sys, st, es).clusters[h].last == InitsSince(sys, es, h, n)
    decreases |es|
  {
    if es != [] {
      StepKeepsInv(sys, st, es[0]);
      var n' := match es[0]
        case InitHead(s, _) => if s == h then 0 else n
        case InitMember(s) => if HeadOf(sys, s) == h then n + 1 else n
        case Destroy(_) => n;
      RunCounts(sys, NextState(sys, st, es[0]), es[1..], h, n');
    }
  }

  /** Over every run, the high guids of a cluster count its inits: the head has zero, and the
      next member gets one more than the number of members initialized since the head was. */
  lemma HighsCountInits(sys: System, es: seq<Event>, s: Service)
    requires IsRun(sys, Nothing, es) && Enabled(sys, Run(sys, Nothing, es), InitMember(s))
    ensures NextState(sys, Run(sys, Nothing, es), InitMember(s)).high[s] == InitsSince(sys, es, HeadOf(sys, s), 0) + 1
  {
    assert Inv(sys, Nothing);
    RunKeepsInv(sys, Nothing, es);
    RunCounts(sys, Nothing, es, HeadOf(sys, s), 0);
  }

  /** Over every run of inits and destroys, Guid::of is injective on everything alive. */
  lemma GuidsUniqueOverEveryRun(sys: System, es: seq<Event>, x: Entity, y: Entity)
    requires FewParts(sys) && IsRun(sys, Nothing, es)
    requires LiveEntity(sys, Run(sys, Nothing, es), x) && LiveEntity(sys, Run(sys, Nothing, es), y)
    ensures GuidOf(sys, Run(sys, Nothing, es), x) == GuidOf(sys, Run(sys, Nothing, es), y) ==> x == y
  {
    RunKeepsInv(sys, Nothing, es);
    if GuidOf(sys, Run(sys, Nothing, es), x) == GuidOf(sys, Run(sys, Nothing, es), y) {
      GuidsInjective(sys, Run(sys, Nothing, es), x, y);
    }
  }

  /** Over every run, when a low guid is given back no member of its cluster is left. */
  lemma LowRecycledAfterMembers(sys: System, es: seq<Event>, h: Service, s: Service)
    requires IsRun(sys, Nothing, es) && Enabled(sys, Run(sys, Nothing, es), Destroy(h)) && !IsMember(sys, h)
    requires s in NextState(sys, Run(sys, Nothing, es), Destroy(h)).high
    ensures HeadOf(sys, s) != h
  {
    RunKeepsInv(sys, Nothing, es);
    MembersDieFirst(sys, Run(sys, Nothing, es), h, s);
  }

  /** A cluster that hands out 2^16 high guids starts over: the next member collides with the head. */
  lemma HighWrapCollides(sys: System, st: State, s: Service)
    requires Inv(sys, st) && IsMember(sys, s) && s !in st.high && HeadOf(sys, s) in st.clusters
    requires st.clusters[HeadOf(sys, s)].last == HIGHS - 1
    ensures var st' := NextState(sys, st, InitMember(s)); GuidOf(sys, st', Whole(s)) == GuidOf(sys, st', Whole(HeadOf(sys, s)))
  {
    HeadOfHead(sys, s);
    HeadOfHead(sys, HeadOf(sys, s));
    assert ClusterOk(sys, st, HeadOf(sys, s)) && ServiceOk(sys, st, HeadOf(sys, s));
  }

  // ----- The recursion of Service::init and Service::destroy -----

  /** A service alive keeps everything above it alive. */
  lemma {:induction false} DeadSubtree(sys: System, st: State, s: Service, x: Service)
    requires Inv(sys, st) && s !in st.high && Reach(sys, x, s, All)
    ensures x !in st.high
    decreases x
  {
    assert ServiceOk(sys, st, x);
    if x != s {
      DeadSubtree(sys, st, s, x.owner);
    }
  }

  /** The registry lists exactly the heads of the live clusters by their low guids. */
  ghost predicate Registry(st: State, services: map<nat, Service>) {
    && (forall h :: h in st.clusters ==> st.clusters[h].low in services && services[st.clusters[h].low] == h)
    && (forall l :: l in services ==> services[l] in st.clusters && st.clusters[services[l]].low == l)
  }

  /** Services went away, and what is left has kept its guid. */
  ghost predicate Shrunk(before: State, after: State) {
    && (forall x :: x in after.high ==> x in before.high && after.high[x] == before.high[x])
    && (forall h :: h in after.clusters ==> h in before.clusters && after.clusters[h] == before.clusters[h])
  }

  class Context {
    const sys: System
    const recycler: IdRecycler
    var services: map<nat, Service>
    var state: State

    constructor (sys: System)
      ensures this.sys == sys && state == Nothing && Valid() && fresh(recycler)
    {
      this.sys := sys;
      recycler := new IdRecycler();
      services := map[];
      state := Nothing;
    }

    /** The recycler hands out exactly the low guids of the live clusters. */
    ghost predicate Valid()
      reads this, recycler
    {
      && recycler.Valid() && Inv(sys, state) && Registry(state, services)
      && (forall i: nat :: recycler.InUse(i) <==> i in LowsInUse(state))
      && (forall x :: x in state.high ==> ServiceTree.Valid(sys, x))
    }

    /** The guid part of Service::init: a member takes the next high guid of its cluster, a head
        a low guid of its own. */
    method InitSelf(s: Service)
      requires Valid() && ServiceTree.Valid(sys, s) && s !in state.high && (s.Child? ==> s.owner in state.high)
      requires IsMember(sys, s) ==>
                 HeadOf(sys, s) in state.clusters && state.clusters[HeadOf(sys, s)].last + 1 < HIGHS
      requires !IsMember(sys, s) ==> exists i: nat :: i < LOWS - 1 && !recycler.InUse(i)
      modifies this, recycler
      ensures Valid()
      ensures if IsMember(sys, s) then state == NextState(sys, old(state), InitMember(s))
              else s in state.clusters && Enabled(sys, old(state), InitHead(s, state.clusters[s].low))
                   && state == NextState(sys, old(state), InitHead(s, state.clusters[s].low))
    {
      if IsMember(sys, s) {
        JoinCluster(s);
      } else {
        OpenCluster(s);
      }
    }

    /** The next high guid of the cluster. */
    method JoinCluster(s: Service)
      requires Valid() && ServiceTree.Valid(sys, s) && Enabled(sys, state, InitMember(s))
      modifies this
      ensures Valid() && state == NextState(sys, old(state), InitMember(s))
    {
      StepKeepsInv(sys, state, InitMember(s));
      var h := HeadOf(sys, s);
      var next := (state.clusters[h].last + 1) % HIGHS;
      ghost var before := state;
      state := State(state.high[s := next], state.clusters[h := state.clusters[h].(last := next)]);
      SameLows(before, state, h);
    }

    /** A low guid from the recycler, under which the head is registered. */
    method OpenCluster(s: Service)
      requires Valid() && ServiceTree.Valid(sys, s) && s !in state.high && !IsMember(sys, s)
      requires (s.Child? ==> s.owner in state.high) && exists i: nat :: i < LOWS - 1 && !recycler.InUse(i)
      modifies this, recycler
      ensures Valid() && s in state.clusters && Enabled(sys, old(state), InitHead(s, state.clusters[s].low))
      ensures state == NextState(sys, old(state), InitHead(s, state.clusters[s].low))
    {
      var low := recycler.Allocate();
      assert low !in LowsInUse(state);
      StepKeepsInv(sys, state, InitHead(s, low));
      assert s !in state.clusters by {
        assert ClusterOk(sys, state, s);
      }
      ghost var before := state;
      services := services[low := s];
      state := State(state.high[s := 0], state.clusters[s := Cluster(low, 0)]);
      LowAdded(before, state, s);
    }

    /** Service::destroy: exports first, then imports, then the service itself; a head gives its
        low guid back. Nothing below the service is alive by then, and nothing else dies. */
    method Destroy(s: Service)
      requires Valid() && ServiceTree.Valid(sys, s)
      modifies this, recycler
      ensures Valid() && Shrunk(old(state), state)
      ensures forall x :: x in old(state).high ==> (x in state.high <==> !Reach(sys, x, s, All))
      decreases At(sys, s), 2
    {
      if s in state.high {
        DestroyParts(s, Export);
        DestroyParts(s, Import);
        DestroySelf(s);
      }
      forall x | Reach(sys, x, s, All) ensures x !in state.high {
        DeadSubtree(sys, state, s, x);
      }
    }

    /** onPartDestroy for all parts of one kind. */
    method DestroyParts(s: Service, kind: Kind)
      requires Valid() && ServiceTree.Valid(sys, s)
      modifies this, recycler
      ensures Valid() && Shrunk(old(state), state)
      ensures forall x :: x in old(state).high && (x == s || !Reach(sys, x, s, All)) ==> x in state.high
      ensures forall c :: c in state.high && c.Child? && c.owner == s ==> PartAt(sys, Parent(sys, c)).kind != kind
      decreases At(sys, s), 1
    {
      var parts := At(sys, s).parts;
      for i := 0 to |parts|
        invariant Valid() && Shrunk(old(state), state)
        invariant forall x :: x in old(state).high && (x == s || !Reach(sys, x, s, All)) ==> x in state.high
        invariant forall c :: c in state.high && c.Child? && c.owner == s && c.part < i ==>
                    PartAt(sys, Parent(sys, c)).kind != kind
      {
        if parts[i].kind == kind {
          DestroyChildren(s, i);
        }
      }
    }

    method DestroyChildren(s: Service, i: nat)
      requires Valid() && ServiceTree.Valid(sys, s) && i < |At(sys, s).parts|
      modifies this, recycler
      ensures Valid() && Shrunk(old(state), state)
      ensures forall x :: x in old(state).high && (x == s || !Reach(sys, x, s, All)) ==> x in state.high
      ensures forall c :: c in state.high && c.Child? && c.owner == s ==> c.part != i
      decreases At(sys, s), 0
    {
      var children := At(sys, s).parts[i].children;
      for j := 0 to |children|
        invariant Valid() && Shrunk(old(state), state)
        invariant forall x :: x in old(state).high && (x == s || !Reach(sys, x, s, All)) ==> x in state.high
        invariant forall c :: c in state.high && c.Child? && c.owner == s && c.part == i ==> c.index >= j
      {
        ghost var before := state;
        Destroy(Child(s, i, j));
        forall x | x in before.high && (x == s || !Reach(sys, x, s, All)) ensures x in state.high {
          OutsideChild(sys, s, i, j, x);
        }
      }
    }

    method DestroySelf(s: Service)
      requires Valid() && s in state.high
      requires forall c :: c in state.high && c.Child? ==> c.owner != s
      modifies this, recycler
      ensures Valid() && state == NextState(sys, old(state), Event.Destroy(s)) && Shrunk(old(state), state)
    {
      ghost var e := Event.Destroy(s);
      assert Enabled(sys, state, e);
      StepKeepsInv(sys, state, e);
      assert ClusterOk(sys, state, s);
      if !IsMember(sys, s) {
        var low := state.clusters[s].low;
        assert low in LowsInUse(state);
        ghost var before := state;
        recycler.Recycle(low);
        services := services - {low};
        state := State(state.high - {s}, state.clusters - {s});
        LowRemoved(sys, before, state, s);
      } else {
        state := State(state.high - {s}, state.clusters);
      }
    }
  }

  lemma OutsideChild(sys: System, s: Service, i: nat, j: nat, x: Service)
    requires x == s || !Reach(sys, x, s, All)
    ensures !Reach(sys, x, Child(s, i, j), All)
  {
    BranchReach(sys, x, s, i, j, All);
    if x == s && Reach(sys, s, Child(s, i, j), All) {
      ReachDepth(sys, s, Child(s, i, j), All);
    }
  }

  lemma SameLows(before: State, after: State, h: Service)
    requires h in before.clusters && h in after.clusters && after.clusters == before.clusters[h := after.clusters[h]]
    requires after.clusters[h].low == before.clusters[h].low
    ensures LowsInUse(after) == LowsInUse(before)
  {
    forall i ensures i in LowsInUse(after) <==> i in LowsInUse(before) {
      if i in LowsInUse(before) {
        var k :| k in before.clusters && before.clusters[k].low == i;
        assert after.clusters[k].low == i;
      }
      if i in LowsInUse(after) {
        var k :| k in after.clusters && after.clusters[k].low == i;
        assert before.clusters[k].low == i;
      }
    }
  }

  lemma LowAdded(before: State, after: State, s: Service)
    requires s !in before.clusters && s in after.clusters && after.clusters == before.clusters[s := after.clusters[s]]
    ensures LowsInUse(after) == LowsInUse(before) + {after.clusters[s].low}
  {
    forall i | i in LowsInUse(before) ensures i in LowsInUse(after) {
      var k :| k in before.clusters && before.clusters[k].low == i;
      assert after.clusters[k].low == i;
    }
  }

  lemma LowRemoved(sys: System, before: State, after: State, s: Service)
    requires Inv(sys, before) && s in before.clusters && after.clusters == before.clusters - {s}
    ensures LowsInUse(after) == LowsInUse(before) - {before.clusters[s].low}
  {
    forall i ensures i in LowsInUse(after) <==> i in LowsInUse(before) && i != before.clusters[s].low {
      if i in LowsInUse(after) {
        var k :| k in after.clusters && after.clusters[k].low == i;
        assert PairOk(sys, before, k, s) && before.clusters[k].low == i;
      }
      if i in LowsInUse(before) && i != before.clusters[s].low {
        var k :| k in before.clusters && before.clusters[k].low == i;
        assert after.clusters[k].low == i;
      }
    }
  }
}
