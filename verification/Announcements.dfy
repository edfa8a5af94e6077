/** Announcements on Linux (runtime_linux.go): the bookkeeping of announceStaticTargets, by which
    each /128 target is announced once per residence, and the frames that the event loop writes
    for an active address taken off the queue. */
module Announcements {
  import opened Addresses
  import opened Ordered
  import opened Bpf
  import opened Frames
  import opened Messages

  /** The addresses to announce: the targets that are single addresses. */
  ghost function Current(targets: seq<Prefix>): set<NetAddr> {
    set p: Prefix | p in targets && p.bits == 128 :: V6(p.addr)
  }

  lemma MembersMore(xs: seq<NetAddr>, a: NetAddr)
    ensures Members(xs + [a]) == Members(xs) + {a}
  {
  }

  lemma NoneYet(addresses: seq<NetAddr>)
    ensures Ascending(RANK, []) && addresses[..0] == []
  {
  }

  method FrameOf(mac: seq<Byte>, a: NetAddr) returns (frame: Option<Packet>)
    ensures FrameFor(mac, a, frame)
  {
    AdvertisementBytes(mac, a);
    var r := UnsolicitedAdvertisement(mac, a);
    frame := if r.Ok? then Some(r.value) else None;
  }

  method CurrentAddresses(targets: seq<Prefix>) returns (current: set<NetAddr>)
    ensures current == Current(targets)
  {
    current := {};
    for i := 0 to |targets|
      invariant current == Current(targets[..i])
    {
      assert targets[..i + 1] == targets[..i] + [targets[i]];
      if targets[i].bits == 128 {
        current := current + {V6(targets[i].addr)};
      }
    }
    assert targets[..|targets|] == targets;
  }

  /** The announced set after a call: what stays current and was announced before or now. */
  ghost function After(announced: set<NetAddr>, current: set<NetAddr>, sent: set<NetAddr>): set<NetAddr> {
    set a | a in current && (a in announced || a in sent)
  }

  /** The frame written for an attempt, if one can be built: it tells all nodes that mac is the
      link address of a, with the router and override flags. */
  ghost predicate FrameFor(mac: seq<Byte>, a: NetAddr, frame: Option<Packet>) {
    (frame.Some? <==> UnsolicitedAdvertisement(mac, a).Ok?)
    && (frame.Some? ==>
          a.V6?
          && Advertises(frame.value, [0x33, 0x33, 0, 0, 0, 1], mac, As16(a.v6),
                        [0xff, 2, 0, 0, 0, 0, 0, 0, 0, 0, 0, 0, 0, 0, 0, 1], 0xa0))
  }

  lemma CurrentIs(targets: seq<Prefix>, a: NetAddr)
    ensures a in Current(targets) <==>
            exists i :: 0 <= i < |targets| && targets[i].bits == 128 && a == V6(targets[i].addr)
  {
    if i :| 0 <= i < |targets| && targets[i].bits == 128 && a == V6(targets[i].addr) {
      assert targets[i] in targets;
    }
  }

  /** What one call is given: the targets, and which writes to the packet socket succeed. */
  datatype Round = Round(targets: seq<Prefix>, writes: NetAddr -> bool)

  class Announcer {
    const mac: seq<Byte>
    var announced: set<NetAddr>

    constructor (mac: seq<Byte>)
      ensures this.mac == mac && announced == {}
    {
      this.mac, announced := mac, {};
    }

    /** announceAddress: builds the advertisement and writes it; writes says which succeed. */
    predicate Succeeds(writes: NetAddr -> bool, a: NetAddr) {
      UnsolicitedAdvertisement(mac, a).Ok? && writes(a)
    }

    ghost function Sendable(writes: NetAddr -> bool, s: set<NetAddr>): set<NetAddr> {
      set a | a in s && Succeeds(writes, a)
    }

    lemma SendableMore(writes: NetAddr -> bool, xs: seq<NetAddr>, i: nat)
      requires i < |xs|
      ensures Members(xs[..i + 1]) == Members(xs[..i]) + {xs[i]}
      ensures Sendable(writes, Members(xs[..i + 1]))
              == Sendable(writes, Members(xs[..i])) + (if Succeeds(writes, xs[i]) then {xs[i]} else {})
      ensures Sendable(writes, Members(xs[..i])) <= Members(xs[..i])
    {
      hide UnsolicitedAdvertisement;
      assert xs[..i + 1] == xs[..i] + [xs[i]];
    }

    /** Announces the current addresses not yet announced, in ascending order, remembers those
        that were sent, and forgets those that are no longer current. */
    method AnnounceStaticTargets(targets: seq<Prefix>, writes: NetAddr -> bool)
      returns (attempts: seq<NetAddr>, frames: seq<Option<Packet>>)
      modifies this
      ensures forall a :: a in attempts <==>
                a !in old(announced)
                && exists i :: 0 <= i < |targets| && targets[i].bits == 128 && a == V6(targets[i].addr)
      ensures forall a :: a in announced <==>
                (a in old(announced) || Succeeds(writes, a))
                && exists i :: 0 <= i < |targets| && targets[i].bits == 128 && a == V6(targets[i].addr)
      ensures |frames| == |attempts|
      ensures forall k :: 0 <= k < |frames| ==> FrameFor(mac, attempts[k], frames[k])
      ensures Ascending(RANK, attempts) && Members(attempts) == Current(targets) - old(announced)
      ensures announced == After(old(announced), Current(targets), Sendable(writes, Current(targets)))
    {
      var current := CurrentAddresses(targets);
      forall a
        ensures a in current <==>
                exists i :: 0 <= i < |targets| && targets[i].bits == 128 && a == V6(targets[i].addr)
      {
        CurrentIs(targets, a);
      }
      RankOrders();
      hide Current, Sendable, FrameFor, Members, Ascending;
      var addresses := Sort(RANK, current);
      attempts, frames := AnnounceNew(addresses, writes);
      announced := set a | a in announced && a in current;
      AttemptedEach(attempts, current, old(announced));
      Pruned(announced, old(announced), current, writes);
    }

    /** The loop over the addresses in ascending order. */
    method AnnounceNew(addresses: seq<NetAddr>, writes: NetAddr -> bool)
      returns (attempts: seq<NetAddr>, frames: seq<Option<Packet>>)
      requires Ascending(RANK, addresses)
      modifies this
      ensures Ascending(RANK, attempts) && Members(attempts) == Members(addresses) - old(announced)
      ensures announced == old(announced) + Sendable(writes, Members(addresses))
      ensures |frames| == |attempts|
      ensures forall k :: 0 <= k < |frames| ==> FrameFor(mac, attempts[k], frames[k])
    {
      assert Members<NetAddr>([]) == {} && Sendable(writes, {}) == {};
      NoneYet(addresses);
      hide Sendable, UnsolicitedAdvertisement, FrameFor, Members, Ascending;
      attempts, frames := [], [];
      for i := 0 to |addresses|
        invariant Members(attempts) == Members(addresses[..i]) - old(announced)
        invariant Ascending(RANK, attempts) && |frames| == |attempts|
        invariant forall k :: 0 <= k < |frames| ==> FrameFor(mac, attempts[k], frames[k])
        invariant announced == old(announced) + Sendable(writes, Members(addresses[..i]))
      {
        var a := addresses[i];
        SendableMore(writes, addresses, i);
        NotBefore(addresses, i);
        if a in announced {
          assert a in old(announced);
          continue;
        }
        AscendingMore(addresses[..i], attempts, a);
        MembersMore(attempts, a);
        var frame := FrameOf(mac, a);
        attempts, frames := attempts + [a], frames + [frame];
        if Succeeds(writes, a) {
          announced := announced + {a};
        }
      }
      assert addresses[..|addresses|] == addresses;
    }

    lemma Pruned(after: set<NetAddr>, before: set<NetAddr>, current: set<NetAddr>, writes: NetAddr -> bool)
      requires after == set a | a in before + Sendable(writes, current) && a in current
      ensures after == After(before, current, Sendable(writes, current))
      ensures forall a :: a in after <==> a in current && (a in before || Succeeds(writes, a))
    {
    }

    lemma AttemptedEach(attempts: seq<NetAddr>, current: set<NetAddr>, before: set<NetAddr>)
      requires Members(attempts) == current - before
      ensures forall a :: a in attempts <==> a in current && a !in before
    {
      assert forall a :: a in attempts <==> a in Members(attempts);
    }

    ghost function CallOf(r: Round): Call {
      Call(Current(r.targets), Sendable(r.writes, Current(r.targets)))
    }

    ghost function Calls(rounds: seq<Round>): (calls: seq<Call>)
      ensures |calls| == |rounds|
    {
      seq(|rounds|, i requires 0 <= i < |rounds| => CallOf(rounds[i]))
    }

    /** Any run of calls: each one tries the addresses that are current and not remembered from
        the calls before it, in ascending order. See AnnouncedIff and OncePerResidence. */
    method AnnounceAll(rounds: seq<Round>) returns (attempts: seq<seq<NetAddr>>)
      requires announced == {}
      modifies this
      ensures announced == Announced(Calls(rounds))
      ensures |attempts| == |rounds|
      ensures forall k :: 0 <= k < |rounds| ==>
                Ascending(RANK, attempts[k]) && Members(attempts[k]) == Attempted(Calls(rounds), k)
    {
      hide Current, After, Ascending, Members;
      attempts := [];
      ghost var calls := Calls(rounds);
      for i := 0 to |rounds|
        invariant announced == Announced(calls[..i]) && |attempts| == i
        invariant forall k :: 0 <= k < i ==>
                    Ascending(RANK, attempts[k]) && Members(attempts[k]) == Attempted(calls, k)
      {
        assert calls[..i + 1][..i] == calls[..i];
        var tried, frames := AnnounceStaticTargets(rounds[i].targets, rounds[i].writes);
        attempts := attempts + [tried];
      }
      assert calls[..|rounds|] == calls;
    }
  }

  lemma NotBefore(xs: seq<NetAddr>, i: nat)
    requires Ascending(RANK, xs) && i < |xs|
    ensures xs[i] !in Members(xs[..i]) && forall x :: x in xs[..i] ==> RANK(x) < RANK(xs[i])
  {
  }

  lemma AscendingMore(xs: seq<NetAddr>, ys: seq<NetAddr>, a: NetAddr)
    requires Ascending(RANK, ys) && Members(ys) <= Members(xs)
    requires forall x :: x in xs ==> RANK(x) < RANK(a)
    ensures Ascending(RANK, ys + [a])
  {
    forall y | y in ys
      ensures RANK(y) < RANK(a)
    {
      assert y in Members(ys);
    }
  }

  // ---------------------------------------------------------------- runs

  /** One call: the current addresses and those whose announcement would succeed. */
  datatype Call = Call(current: set<NetAddr>, sent: set<NetAddr>)

  /** The announced set after a run of calls from an empty one. */
  ghost function Announced(calls: seq<Call>): set<NetAddr> {
    if |calls| == 0 then {}
    else
      var n := |calls| - 1;
      After(Announced(calls[..n]), calls[n].current, calls[n].sent)
  }

  /** The addresses the k-th call tries to announce, and those it announces. */
  ghost function Attempted(calls: seq<Call>, k: nat): set<NetAddr>
    requires k < |calls|
  {
    calls[k].current - Announced(calls[..k])
  }

  ghost function Successful(calls: seq<Call>, k: nat): set<NetAddr>
    requires k < |calls|
  {
    Attempted(calls, k) * calls[k].sent
  }

  /** An address is remembered exactly when some announcement of it would have succeeded and
      it has been current ever since. */
  lemma {:induction false} AnnouncedIff(calls: seq<Call>, a: NetAddr)
    ensures a in Announced(calls) <==>
            exists i :: 0 <= i < |calls| && a in calls[i].sent && Resident(calls, i, |calls|, a)
  {
    if |calls| > 0 {
      var n := |calls| - 1;
      AnnouncedIff(calls[..n], a);
      if a in Announced(calls) {
        if a in Announced(calls[..n]) {
          var i :| 0 <= i < n && a in calls[..n][i].sent && Resident(calls[..n], i, n, a);
          assert calls[..n][i] == calls[i];
          ResidentPrefix(calls, n, i, a);
          assert Resident(calls, i, n + 1, a);
        } else {
          assert Resident(calls, n, n + 1, a);
        }
      }
      if i :| 0 <= i < |calls| && a in calls[i].sent && Resident(calls, i, |calls|, a) {
        assert a in calls[n].current;
        if i < n {
          ResidentPrefix(calls, n, i, a);
          assert calls[..n][i] == calls[i];
        }
      }
    }
  }

  /** a was current in every call from i up to j. */
  ghost predicate Resident(calls: seq<Call>, i: nat, j: nat, a: NetAddr)
    requires i <= j <= |calls|
  {
    forall k :: i <= k < j ==> a in calls[k].current
  }

  lemma ResidentPrefix(calls: seq<Call>, n: nat, i: nat, a: NetAddr)
    requires i <= n <= |calls|
    ensures Resident(calls[..n], i, n, a) <==> Resident(calls, i, n, a)
  {
    assert forall k :: 0 <= k < n ==> calls[..n][k] == calls[k];
  }

  /** Only current addresses are remembered; between two successful announcements of one
      address some call saw it absent; and an announcement that fails is tried again by the
      next call, unless the address has gone. */
  lemma OncePerResidence(calls: seq<Call>, i: nat, j: nat, a: NetAddr)
    requires i < j < |calls|
    ensures Announced(calls[..j + 1]) <= calls[j].current
    ensures a in Successful(calls, i) && a in Successful(calls, j) ==>
              exists k :: i < k < j && a !in calls[k].current
    ensures j == i + 1 && a in Attempted(calls, i) && a !in calls[i].sent && a in calls[j].current ==>
              a in Attempted(calls, j)
  {
    assert calls[..j + 1][..j] == calls[..j];
    if a in Successful(calls, i) && a in Successful(calls, j) {
      AnnouncedIff(calls[..j], a);
      assert calls[..j][i] == calls[i];
      ResidentPrefix(calls, j, i, a);
      assert !Resident(calls, i, j, a);
    }
    assert calls[..i + 1][..i] == calls[..i];
  }

  // ---------------------------------------------------------------- active addresses

  /** The target guard of an advertisement leaves out three prefixes, all outside the space
      that the policy for runtime addresses lets through. */
  lemma AnnounceableIff(mac: seq<Byte>, a: NetAddr)
    ensures UnsolicitedAdvertisement(mac, a).Ok? <==>
            |mac| == 6 && a.V6? && !Holds(UNSPECIFIED, a.v6) && !Holds(MULTICAST, a.v6)
            && !Holds(MAPPED_MULTICAST, a.v6)
    ensures |mac| == 6 && NeedsAnnouncement(a) ==> UnsolicitedAdvertisement(mac, a).Ok?
  {
    if a.V6? {
      HostPrefix(UNSPECIFIED, a.v6);
      MulticastPrefix(a.v6);
      MappedMulticastPrefix(a.v6);
    }
  }

  function Built(r: Result<Packet, BuildError>): seq<Packet> {
    match r
    case Ok(frame) => [frame]
    case Err(_) => []
  }

  /** What the event loop writes for an address taken off the queue; a failing write does not
      keep it from writing the next frame. */
  function QueuedFrames(mac: seq<Byte>, gateway: NetAddr, a: NetAddr, nonce: seq<Byte>): seq<Packet>
    requires |nonce| == 6 && (gateway.Invalid? || gateway.V6?)
  {
    if !NeedsAnnouncement(a) then []
    else
      var solicitation := Gratuitous(mac, a.v6, nonce);
      Built(UnsolicitedAdvertisement(mac, a)) + Built(solicitation)
      + (if solicitation.Err? || gateway.Invalid? then [] else Built(Solicit(mac, gateway.v6, a.v6)))
  }

  /** Nothing goes out for an internal address. For any other one go out an advertisement, which
      no responder's filter lets through, then a solicitation for the address itself and, if
      there is a gateway, one from the address for the gateway; a capture of either recovers
      who asked for what. */
  lemma QueuedFramesAre(mac: seq<Byte>, gateway: NetAddr, a: NetAddr, nonce: seq<Byte>)
    requires |mac| == 6 && |nonce| == 6 && (gateway.Invalid? || gateway.V6?) && a.V6? && a.Unmap() == a
    ensures var frames := QueuedFrames(mac, gateway, a, nonce);
            |frames| == (if Internal(a.v6) then 0 else if gateway.Invalid? then 2 else 3)
            && (frames != [] ==>
                  FrameFor(mac, a, Some(frames[0])) && !Accepts(frames[0])
                  && Solicits(frames[1], [0x33, 0x33, 0xff] + As16(a.v6)[13..], mac, As16(0),
                              [0xff, 2, 0, 0, 0, 0, 0, 0, 0, 0, 0, 1, 0xff] + As16(a.v6)[13..], As16(a.v6), 14, nonce)
                  && Accepts(frames[1])
                  && Capture(frames[1]) == Some(NeighSolicitation(mac, V6(0), V6(SolicitedNode(a.v6)), a)))
            && (|frames| == 3 ==>
                  Solicits(frames[2], [0x33, 0x33, 0xff] + As16(gateway.v6)[13..], mac, As16(a.v6),
                           [0xff, 2, 0, 0, 0, 0, 0, 0, 0, 0, 0, 1, 0xff] + As16(gateway.v6)[13..],
                           As16(gateway.v6), 1, mac)
                  && Accepts(frames[2])
                  && Capture(frames[2])
                     == Some(NeighSolicitation(mac, a, V6(SolicitedNode(gateway.v6)), gateway.Unmap())))
  {
    hide Accepts, Capture, Internal, NeedsAnnouncement, SolicitedNode, Holds;
    hide UnsolicitedAdvertisement, Gratuitous, Solicit, Respond, As16, Solicits, Advertises;
    AdvertisementBytes(mac, a);
    GratuitousBytes(mac, a.v6, nonce);
    PolicyIsPrefixes(a.v6);
    AnnounceableIff(mac, a);
    AdvertisementsFiltered(mac, a, NeighSolicitation(mac, a, a, a));
    GratuitousRoundTrip(mac, a.v6, nonce);
    if gateway.V6? {
      SolicitRoundTrip(mac, gateway.v6, a.v6);
      SolicitBytes(mac, gateway.v6, a.v6);
    }
  }
}
