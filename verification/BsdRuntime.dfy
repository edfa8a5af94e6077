/** The event loop on BSD hosts (runtime_bsd.go): build the targets from the static prefixes and
    the registry and synchronize the table with them, in one round and over whole runs. */
module BsdRuntime {
  import opened Addresses
  import opened Ordered
  import Interfaces
  import opened NdpHosts
  import opened NdpTable
  import opened BsdProxy
  import opened Registry
  import opened RegistryRuns
  import opened ActiveIps
  import opened Text

  /** The addresses a synchronization takes from a target set: mapped ones are left aside. */
  ghost function Managed(targets: set<NetAddr>): set<NetAddr> {
    set a | a in targets && a.Unmap().V6? :: a.Unmap()
  }

  /** What the system is for, said of the static addresses and of each source: every static
      address and every address of a source outside the internal prefixes has a proxy on the
      uplink, and nothing else is owned. */
  ghost predicate UpToDate(table: Table, owned: set<NetAddr>, uplink: string, fixed: set<NetAddr>, sources: Sources) {
    (forall a :: a in fixed && a.V6? && a.Unmap() == a ==> OnUplink(table, uplink, a))
    && (forall s, a :: s in sources && a in sources[s] && a.V6? && a.Unmap() == a && !Internal(a.v6) ==>
          OnUplink(table, uplink, a))
    && OwnsOnly(owned, fixed, sources)
  }

  /** The same, as far as the addresses can be proxied. */
  ghost predicate UpToDateInPart(table: Table, owned: set<NetAddr>, route: NetAddr -> Option<string>, uplink: string,
                                 fixed: set<NetAddr>, sources: Sources)
  {
    (forall a ::
       (a in fixed && a.V6? && a.Unmap() == a && CanProxy(table, route, uplink, a)) ==> OnUplink(table, uplink, a))
    && (forall s, a ::
          (s in sources && a in sources[s] && a.V6? && a.Unmap() == a && !Internal(a.v6)
           && CanProxy(table, route, uplink, a)) ==> OnUplink(table, uplink, a))
    && OwnsOnly(owned, fixed, sources)
  }

  ghost predicate OwnsOnly(owned: set<NetAddr>, fixed: set<NetAddr>, sources: Sources) {
    forall a :: a in owned ==>
      a.V6? && a.Unmap() == a
      && (a in fixed || (!Internal(a.v6) && exists s :: s in sources && a in sources[s]))
  }

  lemma WantedIs(fixed: set<NetAddr>, sources: Sources, a: NetAddr)
    requires a.V6? && a.Unmap() == a
    ensures a in Managed(Wanted(fixed, Union(sources))) <==>
            a in fixed || (!Internal(a.v6) && exists s :: s in sources && a in sources[s])
  {
    PolicyIsPrefixes(a.v6);
    hide Internal, NeedsAnnouncement;
    if a in Managed(Wanted(fixed, Union(sources))) {
      var b :| b in Wanted(fixed, Union(sources)) && b.Unmap() == a;
      assert b == a;
    }
    if a in Wanted(fixed, Union(sources)) {
      assert a in Managed(Wanted(fixed, Union(sources)));
    }
  }

  lemma ManagedUnmapped(targets: set<NetAddr>, a: NetAddr)
    requires a in Managed(targets)
    ensures a.V6? && a.Unmap() == a
  {
  }

  lemma SettledIsUpToDate(table: Table, owned: set<NetAddr>, uplink: string, fixed: set<NetAddr>, sources: Sources)
    requires Settled(table, owned, uplink, Managed(Wanted(fixed, Union(sources))))
    ensures UpToDate(table, owned, uplink, fixed, sources)
  {
    var wanted := Managed(Wanted(fixed, Union(sources)));
    hide Internal, Managed, Wanted, Union, OnUplink;
    forall a | a in owned
      ensures a.V6? && a.Unmap() == a
      ensures a in fixed || (!Internal(a.v6) && exists s :: s in sources && a in sources[s])
    {
      assert a in wanted;
      ManagedUnmapped(Wanted(fixed, Union(sources)), a);
      WantedIs(fixed, sources, a);
    }
    forall a: NetAddr | a.V6? && a.Unmap() == a
      ensures a in wanted <==> a in fixed || (!Internal(a.v6) && exists s :: s in sources && a in sources[s])
    {
      WantedIs(fixed, sources, a);
    }
  }

  lemma ServedIsUpToDate(table: Table, owned: set<NetAddr>, route: NetAddr -> Option<string>, uplink: string,
                         fixed: set<NetAddr>, sources: Sources)
    requires Served(table, owned, route, uplink, Managed(Wanted(fixed, Union(sources))))
    ensures UpToDateInPart(table, owned, route, uplink, fixed, sources)
  {
    var wanted := Managed(Wanted(fixed, Union(sources)));
    hide Internal, Managed, Wanted, Union, OnUplink, CanProxy;
    forall a | a in owned
      ensures a.V6? && a.Unmap() == a
      ensures a in fixed || (!Internal(a.v6) && exists s :: s in sources && a in sources[s])
    {
      assert a in wanted;
      ManagedUnmapped(Wanted(fixed, Union(sources)), a);
      WantedIs(fixed, sources, a);
    }
    forall a: NetAddr | a.V6? && a.Unmap() == a
      ensures a in wanted <==> a in fixed || (!Internal(a.v6) && exists s :: s in sources && a in sources[s])
    {
      WantedIs(fixed, sources, a);
    }
  }

  lemma FilteredTargets(targets: seq<NetAddr>)
    ensures Filter(targets) == Managed(Members(targets))
  {
  }

  /** A synchronization, by what it means for the addresses. */
  method SyncWanted(targets: seq<NetAddr>, responder: BsdProxyResponder) returns (failures: seq<Failure>)
    requires responder.Valid()
    modifies responder, responder.host
    ensures responder.Valid() && old(responder.host.log) <= responder.host.log
    ensures var wanted := Filter(targets);
            failures == [] && Quiet(responder.host.log[|old(responder.host.log)|..]) ==>
              Settled(responder.host.table, responder.owned, responder.uplink, wanted)
              && (forall a :: a in old(responder.owned) && a !in wanted ==>
                    !OnUplink(responder.host.table, responder.uplink, a))
              && (forall a :: a !in wanted && a !in old(responder.owned) ==>
                    (a in responder.host.table <==> a in old(responder.host.table))
                    && (a in responder.host.table ==> responder.host.table[a] == old(responder.host.table)[a]))
    ensures var wanted := Filter(targets);
            Working(responder.host.log[|old(responder.host.log)|..]) ==>
              Served(responder.host.table, responder.owned, responder.host.route, responder.uplink, wanted)
              && (AllCanProxy(old(responder.host.table), responder.host.route, responder.uplink, wanted) ==>
                    failures == [])
  {
    SyncSettles(responder.host.table, responder.owned, responder.uplink, Filter(targets));
    PartServes(responder.host.table, responder.owned, responder.host.route, responder.uplink, Filter(targets));
    failures := responder.Sync(targets);
  }

  /** A round that reports no failure, on a table nobody else edits, leaves a proxy on the
      uplink for exactly the wanted addresses among those it may manage: every static target
      and every active address that passes the policy has one, and no other address that was
      or is owned does. */
  method Round(ips: ActiveIps, fixed: seq<Prefix>, responder: BsdProxyResponder) returns (failures: seq<Failure>)
    requires ips.Valid() && responder.Valid()
    modifies responder, responder.host
    ensures responder.Valid() && old(responder.host.log) <= responder.host.log
    ensures var wanted := Managed(Wanted(StaticAddresses(fixed), Union(ips.sources)));
            failures == [] && Quiet(responder.host.log[|old(responder.host.log)|..]) ==>
              Settled(responder.host.table, responder.owned, responder.uplink, wanted)
              && (forall a :: a in old(responder.owned) && a !in wanted ==>
                    !OnUplink(responder.host.table, responder.uplink, a))
              && (forall a :: a !in wanted && a !in old(responder.owned) ==>
                    (a in responder.host.table <==> a in old(responder.host.table))
                    && (a in responder.host.table ==> responder.host.table[a] == old(responder.host.table)[a]))
    ensures failures == [] && Quiet(responder.host.log[|old(responder.host.log)|..]) ==>
              UpToDate(responder.host.table, responder.owned, responder.uplink,
                       set i | 0 <= i < |fixed| :: V6(fixed[i].addr), ips.sources)
    ensures Working(responder.host.log[|old(responder.host.log)|..]) ==>
              UpToDateInPart(responder.host.table, responder.owned, responder.host.route, responder.uplink,
                             set i | 0 <= i < |fixed| :: V6(fixed[i].addr), ips.sources)
    // Whatever happened before: working commands serve whatever can be proxied, and there is no
    // failure if all of it can be.
    ensures var wanted := Managed(Wanted(StaticAddresses(fixed), Union(ips.sources)));
            Working(responder.host.log[|old(responder.host.log)|..]) ==>
              Served(responder.host.table, responder.owned, responder.host.route, responder.uplink, wanted)
              && (AllCanProxy(old(responder.host.table), responder.host.route, responder.uplink, wanted) ==>
                    failures == [])
  {
    var targets := ips.BsdProxyTargets(fixed);
    FilteredTargets(targets);
    StaticSet(fixed);
    hide Settled, Served, UpToDate, UpToDateInPart, Managed, Wanted, Union, OnUplink, CanProxy, StaticAddresses;
    failures := SyncWanted(targets, responder);
    if failures == [] && Quiet(responder.host.log[|old(responder.host.log)|..]) {
      SettledIsUpToDate(responder.host.table, responder.owned, responder.uplink, StaticAddresses(fixed), ips.sources);
    }
    if Working(responder.host.log[|old(responder.host.log)|..]) {
      ServedIsUpToDate(responder.host.table, responder.owned, responder.host.route, responder.uplink,
                       StaticAddresses(fixed), ips.sources);
    }
  }

  lemma StaticSet(fixed: seq<Prefix>)
    ensures StaticAddresses(fixed) == set i | 0 <= i < |fixed| :: V6(fixed[i].addr)
  {
    var xs := AddressList(fixed);
    assert forall i :: 0 <= i < |fixed| ==> xs[i] == V6(fixed[i].addr);
    forall a | a in StaticAddresses(fixed)
      ensures exists i :: 0 <= i < |fixed| && a == V6(fixed[i].addr)
    {
      var i :| 0 <= i < |xs| && xs[i] == a;
    }
  }

  // ---------------------------------------------------------------- whole runs

  /** Synchronizes with a target set, in ascending order. */
  method SyncSet(responder: BsdProxyResponder, targets: set<NetAddr>) returns (clean: bool)
    requires responder.Valid()
    modifies responder, responder.host
    ensures responder.Valid() && old(responder.host.log) <= responder.host.log
    ensures clean && Quiet(responder.host.log[|old(responder.host.log)|..]) ==>
              Settled(responder.host.table, responder.owned, responder.uplink, Managed(targets))
    ensures Working(responder.host.log[|old(responder.host.log)|..]) ==>
              Served(responder.host.table, responder.owned, responder.host.route, responder.uplink, Managed(targets))
  {
    RankOrders();
    var list := Sort(RANK, targets);
    FilteredTargets(list);
    var failures := SyncWanted(list, responder);
    clean := failures == [];
  }

  /** The machine of the registry with the responder behind its consumer: whenever the consumer
      finishes a synchronization, the table has been synchronized with its targets. In every
      interleaving, once nothing is under way and the last synchronization reported no failure,
      a table that nobody else edited is settled with the static targets and the union of the
      sources as they are. If the commands of the run worked, whatever had happened before it, the
      table serves them as far as they can be proxied. */
  method Drive(start: State, run: seq<Action>, responder: BsdProxyResponder) returns (s: State, clean: bool)
    requires Reachable(StoreThenUnlock, start) && CanRun(StoreThenUnlock, start, run)
    requires responder.Valid()
    modifies responder, responder.host
    ensures s == Run(StoreThenUnlock, start, run)
    ensures responder.Valid() && old(responder.host.log) <= responder.host.log
    ensures Quiescent(s) && clean && Quiet(responder.host.log[|old(responder.host.log)|..]) ==>
              Settled(responder.host.table, responder.owned, responder.uplink,
                      Managed(Wanted(s.fixed, Union(s.sources))))
    ensures Quiescent(s) && Working(responder.host.log[|old(responder.host.log)|..])
            && (exists k :: 0 <= k < |run| && run[k].Synced?) ==>
              Served(responder.host.table, responder.owned, responder.host.route, responder.uplink,
                     Managed(Wanted(s.fixed, Union(s.sources))))
    ensures Quiescent(s) && clean && Quiet(responder.host.log[|old(responder.host.log)|..]) ==>
              UpToDate(responder.host.table, responder.owned, responder.uplink, s.fixed, s.sources)
    ensures Quiescent(s) && Working(responder.host.log[|old(responder.host.log)|..])
            && (exists k :: 0 <= k < |run| && run[k].Synced?) ==>
              UpToDateInPart(responder.host.table, responder.owned, responder.host.route, responder.uplink,
                             s.fixed, s.sources)
  {
    hide UpToDate, UpToDateInPart;
    hide Reachable, Settled, Served, Quiet, Apply, Enabled, Managed, AdditionsWork, DeletionsWork, Reliable;
    s, clean := start, false;
    ghost var ran := false;
    for k := 0 to |run|
      invariant Reachable(StoreThenUnlock, s) && CanRun(StoreThenUnlock, s, run[k..])
      invariant Run(StoreThenUnlock, s, run[k..]) == Run(StoreThenUnlock, start, run)
      invariant responder.Valid() && old(responder.host.log) <= responder.host.log
      invariant clean && Quiet(responder.host.log[|old(responder.host.log)|..]) ==>
                  Settled(responder.host.table, responder.owned, responder.uplink, Managed(s.synced))
      invariant ran <==> exists j :: 0 <= j < k && run[j].Synced?
      invariant ran && Working(responder.host.log[|old(responder.host.log)|..]) ==>
                  Served(responder.host.table, responder.owned, responder.host.route, responder.uplink,
                         Managed(s.synced))
    {
      assert run[k..][0] == run[k] && run[k..][1..] == run[k + 1..];
      ghost var log1 := responder.host.log;
      SyncedOnlyThen(StoreThenUnlock, s, run[k]);
      if run[k].Synced? {
        clean := SyncSet(responder, s.consumer.targets);
        ran := true;
        Since(|old(responder.host.log)|, log1, responder.host.log);
      }
      ghost var next := ReachesNext(StoreThenUnlock, s, run[k]);
      s := Apply(StoreThenUnlock, s, run[k]);
    }
    NoLostWakeUp(StoreThenUnlock, s);
    if Quiescent(s) && clean && Quiet(responder.host.log[|old(responder.host.log)|..]) {
      SettledIsUpToDate(responder.host.table, responder.owned, responder.uplink, s.fixed, s.sources);
    }
    if Quiescent(s) && ran && Working(responder.host.log[|old(responder.host.log)|..]) {
      ServedIsUpToDate(responder.host.table, responder.owned, responder.host.route, responder.uplink,
                       s.fixed, s.sources);
    }
  }

  lemma SyncedOnlyThen(o: Order, s: State, a: Action)
    requires Enabled(o, s, a)
    ensures if a.Synced? then s.consumer.Snapped? && Apply(o, s, a).synced == s.consumer.targets
            else Apply(o, s, a).synced == s.synced
  {
  }

  // ---------------------------------------------------------------- choosing the uplink

  /** The candidates that ranking the interfaces gives. */
  function Ranked(ifname: string, names: Interfaces.Host): seq<Interfaces.Candidate> {
    if names.all.None? then []
    else Interfaces.ShowAll(Interfaces.Merge(Interfaces.Matches(ifname, names, names.all.value)))
  }

  /** The interface that was asked for, if the host has it and it is usable. */
  function Asked(ifname: string, names: Interfaces.Host): Option<Interfaces.Interface> {
    if names.all.None? || !Interfaces.Asked(ifname) then None
    else
      match Interfaces.ByName(names.all.value, Trim(ifname))
      case Some(i) => if Interfaces.Usable(i) then Some(i) else None
      case None => None
  }

  lemma RequestedRanksFirst(ifname: string, names: Interfaces.Host)
    ensures Asked(ifname, names).Some? ==>
              |Ranked(ifname, names)| > 0 && Ranked(ifname, names)[0].interface == Asked(ifname, names).value
  {
    if Asked(ifname, names).Some? {
      Interfaces.RequestedFirst(ifname, names, names.all.value);
    }
  }

  method RankedCandidates(ifname: string, names: Interfaces.Host) returns (candidates: seq<Interfaces.Candidate>)
    ensures candidates == Ranked(ifname, names)
  {
    hide Interfaces.Merge, Interfaces.Matches;
    assert Interfaces.ShowAll([]) == [];
    var resolved := Interfaces.Resolve(ifname, names);
    candidates := if resolved.Ok? then resolved.value else [];
  }

  /** Ranks the interfaces and selects the first that can proxy all targets; fails only if none
      of the ranked ones can. A usable requested interface that can is always the one. */
  method SelectUplink(ifname: string, names: Interfaces.Host, host: NdpHost, usable: bool, targets: seq<NetAddr>)
      returns (r: BsdProxyResponder?, chosen: nat)
    requires host.Valid() && host.mine == {} && host.log == []
    ensures r == null ==>
              forall c :: c in Ranked(ifname, names) ==> !Suits(c, usable, host.route, targets)
    ensures r != null ==>
              chosen < |Ranked(ifname, names)|
              && Suits(Ranked(ifname, names)[chosen], usable, host.route, targets)
              && (forall i :: 0 <= i < chosen ==> !Suits(Ranked(ifname, names)[i], usable, host.route, targets))
              && r.Valid() && r.host == host && r.uplink == Ranked(ifname, names)[chosen].interface.name
              && r.owned == {} && r.base == host.table
    ensures var asked := Asked(ifname, names);
            asked.Some? && Suits(Interfaces.Candidate(asked.value, ""), usable, host.route, targets) ==>
              r != null && r.uplink == asked.value.name
  {
    RequestedRanksFirst(ifname, names);
    var candidates := RankedCandidates(ifname, names);
    hide Ranked, Asked, AllRoute;
    r, chosen := Prepare(host, candidates, usable, targets);
  }
}
