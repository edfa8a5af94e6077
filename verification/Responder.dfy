/** Selecting the Linux responder interface (responder.go): candidates are initialized in
    order, each with its own packet handle, and exactly one handle stays open. */
module Responder {
  import opened Addresses
  import opened Interfaces
  import opened Text

  /** What initializing a candidate would come to: no handle, a handle that is closed again
      because the filter or the host lookup failed, or success with or without a gateway. */
  datatype Outcome = NoSocket | NoFilter | NoHostInfo | Ready(gateway: NetAddr)

  class PacketHandle {
    var open: bool

    constructor ()
      ensures open
    {
      open := true;
    }

    method Close()
      modifies this
      ensures !open
    {
      open := false;
    }
  }

  class Runtime {
    const interface: Interface
    const gateway: NetAddr
    const reason: string
    const handle: PacketHandle

    constructor (interface: Interface, gateway: NetAddr, reason: string, handle: PacketHandle)
      ensures this.interface == interface && this.gateway == gateway
      ensures this.reason == reason && this.handle == handle
    {
      this.interface, this.gateway, this.reason, this.handle := interface, gateway, reason, handle;
    }
  }

  /** A candidate that ends the search once it is initialized. */
  predicate Decisive(c: Candidate, o: Outcome) {
    ContainsText(c.reason, Requested.Name()) || (o.Ready? && !o.gateway.Invalid?)
  }

  /** The candidate to select: the first initialized one that is requested or has a gateway,
      and otherwise the first initialized one. */
  ghost predicate Selected(candidates: seq<Candidate>, outcomes: seq<Outcome>, k: nat)
    requires |candidates| == |outcomes|
  {
    k < |candidates| && outcomes[k].Ready?
    && (if Decisive(candidates[k], outcomes[k])
        then forall i :: 0 <= i < k && outcomes[i].Ready? ==> !Decisive(candidates[i], outcomes[i])
        else (forall i :: 0 <= i < |candidates| && outcomes[i].Ready? ==> !Decisive(candidates[i], outcomes[i]))
             && (forall i :: 0 <= i < k ==> !outcomes[i].Ready?))
  }

  /** There is one candidate to select, if any can be initialized. */
  lemma SelectedUnique(candidates: seq<Candidate>, outcomes: seq<Outcome>, j: nat, k: nat)
    requires |candidates| == |outcomes| && Selected(candidates, outcomes, j) && Selected(candidates, outcomes, k)
    ensures j == k
  {
  }

  /** tryResponderCandidate: on failure the handle it handles is closed. */
  method TryCandidate(c: Candidate, outcome: Outcome) returns (rt: Runtime?, ghost handles: set<PacketHandle>)
    ensures fresh(handles)
    ensures rt != null <==> outcome.Ready?
    ensures rt != null ==>
              handles == {rt.handle} && rt.handle.open && rt.reason == c.reason
              && rt.interface == c.interface && rt.gateway == outcome.gateway
    ensures rt == null ==> forall h :: h in handles ==> !h.open
  {
    if outcome.NoSocket? {
      return null, {};
    }
    var h := new PacketHandle();
    handles := {h};
    if outcome.NoFilter? || outcome.NoHostInfo? {
      h.Close();
      return null, handles;
    }
    rt := new Runtime(c.interface, outcome.gateway, c.reason, h);
  }

  /** finalizeResponderRuntime: closes every initialized runtime but the selected one. */
  method Finalize(selected: Runtime, ready: seq<Runtime>)
    requires forall i, j :: 0 <= i < j < |ready| ==> ready[i] != ready[j] && ready[i].handle != ready[j].handle
    requires selected in ready
    modifies set r | r in ready && r != selected :: r.handle
    ensures forall r :: r in ready && r != selected ==> !r.handle.open
    ensures selected.handle.open == old(selected.handle.open)
  {
    for i := 0 to |ready|
      invariant forall j :: 0 <= j < i && ready[j] != selected ==> !ready[j].handle.open
      invariant selected.handle.open == old(selected.handle.open)
    {
      if ready[i] == selected {
        continue;
      }
      ready[i].handle.Close();
    }
  }

  /** chooseResponderRuntime: the first with a gateway, or the first. */
  method Choose(ready: seq<Runtime>) returns (rt: Runtime)
    requires |ready| > 0
    ensures rt in ready
    ensures (forall i :: 0 <= i < |ready| ==> ready[i].gateway.Invalid?) ==> rt == ready[0]
    ensures !(forall i :: 0 <= i < |ready| ==> ready[i].gateway.Invalid?) ==>
              exists i :: 0 <= i < |ready| && ready[i] == rt && !rt.gateway.Invalid?
                          && forall j :: 0 <= j < i ==> ready[j].gateway.Invalid?
  {
    for i := 0 to |ready|
      invariant forall j :: 0 <= j < i ==> ready[j].gateway.Invalid?
    {
      if !ready[i].gateway.Invalid? {
        return ready[i];
      }
    }
    return ready[0];
  }

  /** The runtime is that of the k-th candidate. */
  ghost predicate RuntimeOf(rt: Runtime, c: Candidate, o: Outcome) {
    o.Ready? && rt.interface == c.interface && rt.reason == c.reason && rt.gateway == o.gateway
  }

  /** Initialized and not selected runtimes hold their own open handles, and every other
      handle is closed. */
  ghost predicate OwnHandles(ready: seq<Runtime>, handles: set<PacketHandle>)
    reads handles
  {
    (forall i :: 0 <= i < |ready| ==> ready[i].handle in handles && ready[i].handle.open)
    && (forall i, j :: 0 <= i < j < |ready| ==> ready[i] != ready[j] && ready[i].handle != ready[j].handle)
    && (forall h :: h in handles && h.open ==> exists i :: 0 <= i < |ready| && ready[i].handle == h)
  }

  lemma OwnHandlesMore(ready: seq<Runtime>, rt: Runtime, handles: set<PacketHandle>, more: set<PacketHandle>)
    requires OwnHandles(ready, handles) && more == {rt.handle} && rt.handle !in handles && rt.handle.open
    ensures OwnHandles(ready + [rt], handles + more)
  {
    var all := ready + [rt];
    forall h | h in handles + more && h.open
      ensures exists k :: 0 <= k < |all| && all[k].handle == h
    {
      if h == rt.handle {
        assert all[|ready|].handle == h;
      } else {
        var k :| 0 <= k < |ready| && ready[k].handle == h;
        assert all[k].handle == h;
      }
    }
  }

  /** prepareResponderWith. On success the selected candidate's handle is the only open one of
      all the handles opened, and on failure none is open. */
  method Prepare(candidates: seq<Candidate>, outcomes: seq<Outcome>)
      returns (rt: Runtime?, ghost handles: set<PacketHandle>, ghost chosen: nat)
    requires |candidates| == |outcomes|
    ensures fresh(handles)
    ensures rt == null <==> forall i :: 0 <= i < |candidates| ==> !outcomes[i].Ready?
    ensures rt == null ==> forall h :: h in handles ==> !h.open
    ensures rt != null ==>
              Selected(candidates, outcomes, chosen) && RuntimeOf(rt, candidates[chosen], outcomes[chosen])
              && rt.handle in handles && forall h :: h in handles ==> (h.open <==> h == rt.handle)
  {
    hide ContainsText, Phase.Name;
    var ready: seq<Runtime> := [];
    handles, chosen := {}, 0;
    ghost var first := 0;
    for i := 0 to |candidates|
      invariant fresh(handles) && OwnHandles(ready, handles)
      invariant forall j :: 0 <= j < i && outcomes[j].Ready? ==> !Decisive(candidates[j], outcomes[j])
      invariant forall k :: 0 <= k < |ready| ==> ready[k].gateway.Invalid?
      invariant ready == [] ==> forall j :: 0 <= j < i ==> !outcomes[j].Ready?
      invariant ready != [] ==> first < i && RuntimeOf(ready[0], candidates[first], outcomes[first])
                                && forall j :: 0 <= j < first ==> !outcomes[j].Ready?
    {
      var next;
      ghost var more;
      next, more := TryCandidate(candidates[i], outcomes[i]);
      assert handles !! more;
      handles := handles + more;
      assert handles - more + more == handles;
      if next == null {
        continue;
      }
      if ready == [] {
        first := i;
      }
      OwnHandlesMore(ready, next, handles - more, more);
      ready := ready + [next];
      if ContainsText(candidates[i].reason, Requested.Name()) || !next.gateway.Invalid? {
        Finalize(next, ready);
        return next, handles, i;
      }
    }
    if ready == [] {
      return null, handles, 0;
    }
    var selected := Choose(ready);
    Finalize(selected, ready);
    return selected, handles, first;
  }

  // ---------------------------------------------------------------- with the ranked candidates

  /** Only a requested interface has "requested" in its reason text. */
  lemma RequestedReason(l: Listed)
    requires |l.phases| > 0
    ensures ContainsText(Show(l).reason, Requested.Name()) <==> Requested in l.phases
  {
    ReasonContains(l.phases, Requested);
  }

  /** After the ranking of interfaces, a usable requested interface that can be initialized is
      always the selected one. */
  lemma RequestedWins(ifname: string, host: Host, all: seq<Interface>, outcomes: seq<Outcome>, k: nat)
    requires Asked(ifname) && ByName(all, Trim(ifname)).Some? && Usable(ByName(all, Trim(ifname)).value)
    requires var candidates := ShowAll(Merge(Matches(ifname, host, all)));
             |candidates| == |outcomes| && (|outcomes| > 0 ==> outcomes[0].Ready?) && Selected(candidates, outcomes, k)
    ensures k == 0 && ShowAll(Merge(Matches(ifname, host, all)))[k].interface == ByName(all, Trim(ifname)).value
  {
    var list := Merge(Matches(ifname, host, all));
    RequestedFirst(ifname, host, all);
    MergeNonempty(Matches(ifname, host, all));
    hide Merge, Matches, ContainsText;
    RequestedReason(list[0]);
    assert Decisive(ShowAll(list)[0], outcomes[0]);
  }

  /** When no requested interface can be found, the selected candidate is decisive only by its
      gateway: the choice follows the ranking among the interfaces with a gateway. */
  lemma GatewayDecides(ifname: string, host: Host, all: seq<Interface>, outcomes: seq<Outcome>, k: nat)
    requires RequestedMatches(ifname, all) == []
    requires |Merge(Matches(ifname, host, all))| == |outcomes| && k < |outcomes|
    ensures var c := ShowAll(Merge(Matches(ifname, host, all)))[k];
            Decisive(c, outcomes[k]) <==> outcomes[k].Ready? && !outcomes[k].gateway.Invalid?
  {
    var ms := Matches(ifname, host, all);
    var list := Merge(ms);
    NoRequestedMatch(ifname, host, all);
    MatchesInOrder(ifname, host, all);
    MergeGood(ms);
    MergeNonempty(ms);
    hide Merge, Matches, ContainsText;
    RequestedReason(list[k]);
    assert GoodEntry(ms, list[k]);
  }
}
