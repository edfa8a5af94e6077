/** The active-address registry (active_ips.go, active_ips_linux.go) with its producers and
    consumers as interleaved steps: producers replace one source under a mutex, publish the
    union, signal a one-slot channel and offer new addresses to a bounded queue; a consumer
    takes the signal, snapshots the targets and synchronizes.

    Both consumers are in one machine. On BSD hosts the offers go nowhere, and on Linux nobody
    takes the signal; what is proved about the signal says nothing about the queue, and the
    other way round. */
module Registry {
  import opened Addresses

  type Set = set<NetAddr>
  type Sources = map<string, Set>

  // ---------------------------------------------------------------- the data under the mutex

  /** The addresses of a source; a source that never reported has none. */
  function Of(sources: Sources, source: string): Set {
    if source in sources then sources[source] else {}
  }

  function Union(sources: Sources): Set {
    set s, a | s in sources && a in sources[s] :: a
  }

  /** What a refresh of a source found: a failure empties it. */
  datatype Refresh = Failed | Found(addresses: seq<NetAddr>)

  function Contents(r: Refresh): Set {
    match r
    case Failed => {}
    case Found(addresses) => Filter(addresses)
  }

  lemma UnionUnchanged(sources: Sources, source: string)
    ensures Union(sources[source := Of(sources, source)]) == Union(sources)
  {
    var s' := sources[source := Of(sources, source)];
    forall a
      ensures a in Union(s') <==> a in Union(sources)
    {
      if a in Union(s') {
        var s :| s in s' && a in s'[s];
        assert s in sources && a in sources[s];
      }
      if a in Union(sources) {
        var s :| s in sources && a in sources[s];
        assert s in s' && a in s'[s];
      }
    }
  }

  // ---------------------------------------------------------------- producers

  /** Where a call of replaceActiveIPSource stands. */
  datatype Producer =
    | Idle
    | Ready(source: string, next: Set)                       // filtered, not yet holding the mutex
    | Holding(source: string, next: Set)                     // holding the mutex
    | Built(changed: bool, added: Set, union: Set)           // source replaced and union built
    | Stored(changed: bool, added: Set)                      // union published, still holding
    | Released(changed: bool, added: Set, union: Set)        // mutex released, union not published
    | Unlocked(changed: bool, added: Set)                    // published and released
    | Offering(added: Set)                                   // signalled; these are still to be offered
  {
    predicate Holds() { Holding? || Built? || Stored? }

    /** A change that has not been signalled yet. */
    predicate Pending() { (Built? || Stored? || Released? || Unlocked?) && changed }

    /** New addresses not yet offered to the queue. */
    function Added(): Set {
      if Built? || Stored? || Released? || Unlocked? || Offering? then added else {}
    }
  }

  /** The program publishes before it releases the mutex. */
  datatype Order = StoreThenUnlock | UnlockThenStore

  // ---------------------------------------------------------------- the consumer loop on BSD hosts

  /** The addresses to proxy: the static ones and the active ones that pass the policy. */
  function Wanted(fixed: set<NetAddr>, active: Set): set<NetAddr> {
    fixed + set a | a in active && NeedsAnnouncement(a)
  }

  datatype Consumer =
    | Waiting
    | Woken                                   // has a token, or was started or ticked
    | HasStatic(fixed: set<NetAddr>)         // read the static targets
    | Snapped(targets: set<NetAddr>)          // built the target list, synchronizing

  const QUEUE_SIZE: nat := 64

  datatype State = State(
    sources: Sources,
    published: Set,
    mutex: Option<nat>,
    producers: seq<Producer>,
    token: bool,                              // activeIPsChanged holds its one value
    queue: seq<NetAddr>,                      // newActiveIP
    fixed: set<NetAddr>,
    consumer: Consumer,
    synced: set<NetAddr>,                     // the targets of the last finished synchronization
    history: History)

  /** What has happened, kept to state the properties. */
  datatype History = History(
    snapshot: Set,                            // the active addresses the consumer last read
    refreshes: seq<(string, Set)>,            // in the order in which the mutex was taken
    unions: seq<Set>,                         // the unions in that order
    stores: seq<Set>,                         // the published sets
    entered: multiset<NetAddr>,               // addresses that entered a source
    offered: multiset<NetAddr>,
    dropped: multiset<NetAddr>,
    consumed: multiset<NetAddr>)

  datatype Action =
    | Begin(p: nat, source: string, refresh: Refresh)
    | Lock(p: nat)
    | Update(p: nat)
    | Store(p: nat)
    | Unlock(p: nat)
    | Signal(p: nat)
    | Offer(p: nat, address: NetAddr)
    | Finish(p: nat)
    | Consume                                 // Linux: take one address off the queue
    | Receive                                 // BSD: take the token
    | Tick(reloaded: set<NetAddr>)            // BSD: reload the static targets
    | ReadStatic
    | Snapshot
    | Synced

  predicate Enabled(o: Order, s: State, a: Action) {
    match a
    case Begin(p, _, _) => p < |s.producers| && s.producers[p].Idle?
    case Lock(p) => p < |s.producers| && s.producers[p].Ready? && s.mutex == None
    case Update(p) => p < |s.producers| && s.producers[p].Holding?
    case Store(p) => p < |s.producers| && if o.StoreThenUnlock? then s.producers[p].Built? else s.producers[p].Released?
    case Unlock(p) => p < |s.producers| && if o.StoreThenUnlock? then s.producers[p].Stored? else s.producers[p].Built?
    case Signal(p) => p < |s.producers| && s.producers[p].Unlocked?
    case Offer(p, x) => p < |s.producers| && s.producers[p].Offering? && x in s.producers[p].added
    case Finish(p) => p < |s.producers| && s.producers[p].Offering? && s.producers[p].added == {}
    case Consume => |s.queue| > 0
    case Receive => s.consumer.Waiting? && s.token
    case Tick(_) => s.consumer.Waiting?
    case ReadStatic => s.consumer.Woken?
    case Snapshot => s.consumer.HasStatic? && s.mutex == None
    case Synced => s.consumer.Snapped?
  }

  function Goes(s: State, p: nat, next: Producer): State
    requires p < |s.producers|
  {
    s.(producers := s.producers[p := next])
  }

  /** One step. Snapshot takes the mutex, copies the sources and releases it. */
  function Apply(o: Order, s: State, a: Action): State
    requires Enabled(o, s, a)
  {
    match a
    case Begin(p, source, refresh) => Goes(s, p, Ready(source, Contents(refresh)))
    case Lock(p) => Goes(s, p, Holding(s.producers[p].source, s.producers[p].next)).(mutex := Some(p))
    case Update(p) =>
      var source, next := s.producers[p].source, s.producers[p].next;
      var previous := Of(s.sources, source);
      var sources := s.sources[source := next];
      Goes(s, p, Built(previous != next, next - previous, Union(sources))).(
        sources := sources,
        history := s.history.(refreshes := s.history.refreshes + [(source, next)],
                              unions := s.history.unions + [Union(sources)],
                              entered := s.history.entered + multiset(next - previous)))
    case Store(p) =>
      var q := s.producers[p];
      Goes(s, p, if q.Built? then Stored(q.changed, q.added) else Unlocked(q.changed, q.added)).(
        published := q.union, history := s.history.(stores := s.history.stores + [q.union]))
    case Unlock(p) =>
      var q := s.producers[p];
      Goes(s, p, if q.Stored? then Unlocked(q.changed, q.added) else Released(q.changed, q.added, q.union)).(
        mutex := None)
    case Signal(p) =>
      var q := s.producers[p];
      Goes(s, p, Offering(q.added)).(token := s.token || q.changed)
    case Offer(p, x) =>
      var h := s.history.(offered := s.history.offered + multiset{x});
      var s' := Goes(s, p, Offering(s.producers[p].added - {x}));
      if |s.queue| < QUEUE_SIZE then s'.(queue := s.queue + [x], history := h)
      else s'.(history := h.(dropped := h.dropped + multiset{x}))
    case Finish(p) => Goes(s, p, Idle)
    case Consume =>
      s.(queue := s.queue[1..], history := s.history.(consumed := s.history.consumed + multiset{s.queue[0]}))
    case Receive => s.(token := false, consumer := Woken)
    case Tick(reloaded) => s.(fixed := reloaded, consumer := Woken)
    case ReadStatic => s.(consumer := HasStatic(s.fixed))
    case Snapshot =>
      s.(consumer := Snapped(Wanted(s.consumer.fixed, Union(s.sources))),
         history := s.history.(snapshot := Union(s.sources)))
    case Synced => s.(consumer := Waiting, synced := s.consumer.targets)
  }

  /** At startup nothing is active and the consumer is about to build its first targets. */
  function Start(producers: nat, fixed: set<NetAddr>): State {
    State(map[], {}, None, seq(producers, _ => Idle), false, [], fixed, Woken, {},
          History({}, [], [], [], multiset{}, multiset{}, multiset{}, multiset{}))
  }

  // ---------------------------------------------------------------- runs

  predicate CanRun(o: Order, s: State, run: seq<Action>)
    decreases |run|
  {
    |run| == 0 || (Enabled(o, s, run[0]) && CanRun(o, Apply(o, s, run[0]), run[1..]))
  }

  function Run(o: Order, s: State, run: seq<Action>): State
    requires CanRun(o, s, run)
    decreases |run|
  {
    if |run| == 0 then s else Run(o, Apply(o, s, run[0]), run[1..])
  }

  /** The states that some interleaving reaches from startup. */
  ghost predicate Reachable(o: Order, s: State) {
    exists n: nat, fixed: set<NetAddr>, run: seq<Action> ::
      CanRun(o, Start(n, fixed), run) && Run(o, Start(n, fixed), run) == s
  }
}
