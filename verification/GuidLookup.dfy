/** Finding a service by its guid: the low part selects a cluster head, the high part is
    searched among the cluster members. */
module GuidLookup {
  import opened Sequences
  import opened ServiceTree
  import opened Traversal
  import opened Iterators
  import opened Guids

  /** The registry of cluster heads by low guid. The tree may hold services that are not alive. */
  ghost predicate Registered(sys: System, st: State, services: map<nat, Service>) {
    && WellRooted(sys) && Guids.Inv(sys, st)
    && (forall s :: s in st.high ==> ServiceTree.Valid(sys, s))
    && Registry(st, services)
  }

  function ServiceGuid(sys: System, st: State, s: Service): Guid {
    GuidOf(sys, st, Whole(s))
  }

  lemma HeadIsHead(sys: System, st: State, services: map<nat, Service>, h: Service)
    requires Registered(sys, st, services) && h in st.clusters
    ensures ServiceTree.Valid(sys, h) && IsClusterHead(sys, h) && HeadOf(sys, h) == h && h in st.high && st.high[h] == 0
  {
    assert ClusterOk(sys, st, h) && ServiceOk(sys, st, h);
    HeadOfHead(sys, h);
  }

  /** The guid of a service can only be asked for while it is alive, and a search asks every
      member of the cluster. */
  ghost predicate SearchedAlive(sys: System, st: State, services: map<nat, Service>, guid: Guid) {
    guid.high != 0 && guid.low in services ==> forall s :: s in Members(sys, services[guid.low]) ==> s in st.high
  }

  /** A service with this guid is a member of the cluster that the low part selects. */
  lemma LowSelectsCluster(sys: System, st: State, services: map<nat, Service>, s: Service)
    requires Registered(sys, st, services) && s in st.high
    ensures var low := ServiceGuid(sys, st, s).low; low in services && services[low] == HeadOf(sys, s)
    ensures ServiceGuid(sys, st, s).high == 0 <==> s == HeadOf(sys, s)
    ensures s in Members(sys, HeadOf(sys, s))
  {
    assert ServiceOk(sys, st, s);
    HeadOfHead(sys, s);
    HeadIsHead(sys, st, services, HeadOf(sys, s));
    ClusterMembersRange(sys, HeadOf(sys, s));
  }

  /** A guid with a high part names only services behind the head of their cluster's listing. */
  lemma FoundBehindHead(sys: System, st: State, services: map<nat, Service>, guid: Guid, s: Service)
    requires Registered(sys, st, services) && guid.high != 0
    requires guid.low in services && s in st.high
    ensures ServiceGuid(sys, st, s) == guid ==>
              exists i :: 1 <= i < |Members(sys, services[guid.low])| && Members(sys, services[guid.low])[i] == s
  {
    LowSelectsCluster(sys, st, services, s);
    HeadIsHead(sys, st, services, services[guid.low]);
    ClusterMembersRange(sys, services[guid.low]);
  }

  /** ContextImpl::lookupImpl: the live service with this guid, if there is one. */
  method Lookup(sys: System, st: State, services: map<nat, Service>, guid: Guid) returns (found: Option<Service>)
    requires Registered(sys, st, services) && SearchedAlive(sys, st, services, guid)
    ensures found.Some? ==> found.value in st.high && ServiceGuid(sys, st, found.value) == guid
    ensures found.None? ==> forall s :: s in st.high ==> ServiceGuid(sys, st, s) != guid
  {
    if guid.ordinal != 0 {
      return None;
    }
    if guid.low !in services {
      forall s | s in st.high ensures ServiceGuid(sys, st, s) != guid {
        LowSelectsCluster(sys, st, services, s);
      }
      return None;
    }
    var head := services[guid.low];
    HeadIsHead(sys, st, services, head);
    if guid.high == 0 {
      return Some(head);
    }
    found := SearchCluster(sys, st, services, head, guid);
  }

  /** The loop over cluster_members(head) behind the head itself. */
  method SearchCluster(sys: System, st: State, services: map<nat, Service>, head: Service, guid: Guid)
    returns (found: Option<Service>)
    requires Registered(sys, st, services) && guid.high != 0 && SearchedAlive(sys, st, services, guid)
    requires guid.low in services && services[guid.low] == head
    ensures found.Some? ==> found.value in st.high && ServiceGuid(sys, st, found.value) == guid
    ensures found.None? ==> forall s :: s in st.high ==> ServiceGuid(sys, st, s) != guid
  {
    HeadIsHead(sys, st, services, head);
    ClusterMembersRange(sys, head);
    ghost var ms := Members(sys, head);
    assert MembersFrom(sys, head) == ms by {
      assert ms[0] == head;
    }
    var members := ClusterMembers(sys, head);
    for k := 1 to |members|
      invariant forall i :: 1 <= i < k ==> ServiceGuid(sys, st, members[i]) != guid
    {
      if ServiceGuid(sys, st, members[k]) == guid {
        assert members[k] in ms;
        return Some(members[k]);
      }
    }
    forall s | s in st.high ensures ServiceGuid(sys, st, s) != guid {
      FoundBehindHead(sys, st, services, guid, s);
    }
    found := None;
  }
}
