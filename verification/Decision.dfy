/** The response decision on Linux (solicitationTargetReason and the event loop of
    runtime_linux.go), down to the sources, the static targets and the captured packet. */
module Decision {
  import opened Addresses
  import opened Bpf
  import opened Frames
  import opened Messages
  import opened Registry
  import opened RegistryRuns
  import opened StaticTargets

  datatype Reason = Runtime | Static

  /** Runtime addresses count only if the policy lets them through; static ones always. */
  function SolicitationTargetReason(target: NetAddr, runtime: Set, fixed: IpSet): (r: Option<Reason>)
    ensures r.Some? ==> target.V6?
  {
    if target in runtime && NeedsAnnouncement(target) then Some(Runtime)
    else if Contains(fixed, target) then Some(Static)
    else None
  }

  /** What the event loop writes for a captured solicitation. */
  function Answer(ns: NeighSolicitation, mac: seq<Byte>, runtime: Set, fixed: IpSet): (answer: Option<Packet>)
    requires ns.Valid()
    ensures answer.Some? ==> ns.Answerable() && |answer.value| == 86
  {
    if SolicitationTargetReason(ns.target, runtime, fixed) == None then None
    else
      match Respond(ns, mac)
      case Ok(frame) => Some(frame)
      case Err(_) => None
  }

  /** The target is covered by a command-line prefix or by a prefix of the target file, or the
      last published refresh of some source found it and it is outside ::, ::1, ff00::/8,
      fe80::/10 and fc00::/7. */
  ghost predicate ToAnswer(s: State, cli: seq<Prefix>, file: seq<Prefix>, target: NetAddr) {
    Covered(cli, target) || Covered(file, target)
    || (target.V6? && !Internal(target.v6) && Learned(PublishedRefreshes(s), target))
  }

  /** The decision, in every reachable state of the registry: the loop loads the published set
      without the mutex, and may do so while a producer holds it. With the mutex free every
      refresh has been published. */
  lemma AnsweredIff(s: State, cli: seq<Prefix>, file: seq<Prefix>, fixed: IpSet, target: NetAddr)
    requires Reachable(StoreThenUnlock, s)
    requires forall a :: Contains(fixed, a) <==> Covered(cli + file, a)
    ensures SolicitationTargetReason(target, s.published, fixed).Some? <==> ToAnswer(s, cli, file, target)
    ensures SolicitationTargetReason(target, s.published, fixed) == Some(Runtime) <==>
            target.V6? && !Internal(target.v6) && Learned(PublishedRefreshes(s), target)
    ensures s.mutex == None ==> PublishedRefreshes(s) == s.history.refreshes
  {
    assert !target.V6? ==> !NeedsAnnouncement(target);
    hide Reachable, Covered, Contains, Holds, Internal, NeedsAnnouncement, Union, Learned;
    CoveredByEither(cli, file, target);
    PublishedAtAnyTime(s);
    if Learned(PublishedRefreshes(s), target) {
      LearnedUnmapped(s, target);
    }
    if target.V6? {
      PolicyIsPrefixes(target.v6);
    }
  }

  /** The answer to a packet: there is one exactly if the packet is a solicitation to answer
      and its sender is not an IPv4-mapped address. It goes back to the sender, says that this
      host's link address is that of the address asked for, is well-formed, and never passes the
      filter itself. */
  ghost predicate Answered(s: State, cli: seq<Prefix>, file: seq<Prefix>, mac: seq<Byte>, pkt: Packet,
                           answer: Option<Packet>)
  {
    (answer.Some? <==>
       Capture(pkt).Some? && Capture(pkt).value.router.V6? && ToAnswer(s, cli, file, Capture(pkt).value.target))
    && (answer.Some? ==>
          |pkt| >= 78
          && Advertises(answer.value, pkt[6..12], mac, pkt[62..78], pkt[22..38],
                        if Capture(pkt).value.dest.IsMulticast() then 0xe0 else 0xc0)
          && WellFormed(answer.value) && !Accepts(answer.value))
  }

  /** From packet to packet. */
  lemma PacketAnswered(s: State, cli: seq<Prefix>, file: seq<Prefix>, fixed: IpSet, pkt: Packet, mac: seq<Byte>)
    requires Reachable(StoreThenUnlock, s)
    requires forall a :: Contains(fixed, a) <==> Covered(cli + file, a)
    requires Capture(pkt).Some? && |mac| == 6
    ensures Answered(s, cli, file, mac, pkt, Answer(Capture(pkt).value, mac, s.published, fixed))
  {
    var ns := Capture(pkt).value;
    assert !ns.target.V6? ==> !ToAnswer(s, cli, file, ns.target);
    hide Reachable, Capture, ToAnswer, Contains, Frame, WellFormed, Accepts, As16, Advertises, Respond;
    AnsweredIff(s, cli, file, fixed, ns.target);
    AnswerGoesBack(pkt, mac);
    if Answer(ns, mac, s.published, fixed).Some? {
      CapturedFields(pkt);
      AdvertisementsFiltered(mac, Invalid, ns);
      FrameWellFormed(ResponseParts(ns, mac));
    }
  }

  // ---------------------------------------------------------------- the event loop

  /** What wakes the loop: the reload interval, or a packet, at which it loads the published set. */
  datatype Event = Tick(file: File) | Packet(pkt: Packet, published: Set)

  /** The files read by the reloads among some events. */
  function Reloads(events: seq<Event>): seq<File> {
    if |events| == 0 then []
    else
      var e := events[|events| - 1];
      Reloads(events[..|events| - 1]) + (if e.Tick? then [e.file] else [])
  }

  method AnswerPacket(st: StaticTargetList, pkt: Packet, published: Set, mac: seq<Byte>, ghost s: State)
    returns (answer: Option<Packet>)
    requires st.Valid() && |mac| == 6 && Reachable(StoreThenUnlock, s) && published == s.published
    ensures Answered(s, st.cli, st.loaded, mac, pkt, answer)
  {
    var ns := Capture(pkt);
    if ns == None {
      return None;
    }
    PacketAnswered(s, st.cli, st.loaded, st.subnets, pkt, mac);
    answer := Answer(ns.value, mac, published, st.subnets);
  }

  lemma ReloadsMore(events: seq<Event>, k: nat)
    requires k < |events|
    ensures Reloads(events[..k + 1])
            == if events[k].Tick? then Reloads(events[..k]) + [events[k].file] else Reloads(events[..k])
  {
    assert events[..k + 1][..k] == events[..k];
  }

  /** The k-th event is handled right: a packet is answered by the command-line targets, the
      last file accepted by the reloads before it, and what the registry has published. */
  ghost predicate Handled(st: StaticTargetList, before: seq<Prefix>, events: seq<Event>, k: nat, mac: seq<Byte>,
                          s: State, answer: Option<Packet>)
    requires k < |events|
  {
    match events[k]
    case Tick(_) => answer == None
    case Packet(pkt, _) => Answered(s, st.cli, st.InForce(before, Reloads(events[..k])), mac, pkt, answer)
  }

  /** A state of the registry in which the event finds the published set. */
  ghost predicate SeenBy(e: Event, s: State) {
    Reachable(StoreThenUnlock, s) && (e.Packet? ==> e.published == s.published)
  }

  /** One round of the loop. */
  method Handle(st: StaticTargetList, events: seq<Event>, k: nat, mac: seq<Byte>,
                ghost before: seq<Prefix>, ghost s: State)
    returns (answer: Option<Packet>)
    requires k < |events| && st.Valid() && |mac| == 6 && st.loaded == st.InForce(before, Reloads(events[..k]))
    requires SeenBy(events[k], s)
    modifies st
    ensures st.Valid() && st.loaded == st.InForce(before, Reloads(events[..k + 1]))
    ensures Handled(st, before, events, k, mac, s, answer)
  {
    hide Answered, Reachable;
    ReloadsMore(events, k);
    match events[k] {
      case Tick(file) =>
        ghost var files := Reloads(events[..k]);
        assert (files + [file])[..|files|] == files;
        st.Reload(file);
        answer := None;
      case Packet(pkt, published) =>
        answer := AnswerPacket(st, pkt, published, mac, s);
    }
  }

  /** Any run of the loop, with the states of the registry as it finds them. */
  method Serve(st: StaticTargetList, events: seq<Event>, mac: seq<Byte>, ghost states: seq<State>)
      returns (answers: seq<Option<Packet>>)
    requires st.Valid() && |mac| == 6 && |states| == |events|
    requires forall k :: 0 <= k < |events| ==> SeenBy(events[k], states[k])
    modifies st
    ensures st.Valid() && st.loaded == st.InForce(old(st.loaded), Reloads(events)) && |answers| == |events|
    ensures forall k :: 0 <= k < |events| ==> Handled(st, old(st.loaded), events, k, mac, states[k], answers[k])
  {
    assert st.InForce(st.loaded, []) == st.loaded;
    hide Handled, SeenBy, StaticTargetList.Valid, StaticTargetList.InForce;
    answers := [];
    for k := 0 to |events|
      invariant st.Valid() && |answers| == k && st.loaded == st.InForce(old(st.loaded), Reloads(events[..k]))
      invariant forall j :: 0 <= j < k ==> Handled(st, old(st.loaded), events, j, mac, states[j], answers[j])
    {
      var answer := Handle(st, events, k, mac, old(st.loaded), states[k]);
      answers := answers + [answer];
    }
    assert events[..|events|] == events;
  }
}
