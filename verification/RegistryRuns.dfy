/** What every interleaving of the registry's steps keeps: publication in lock order, no lost
    wake-up, and conservation of the addresses offered to the announcement queue. */
module RegistryRuns {
  import opened Addresses
  import opened Registry

  // ---------------------------------------------------------------- sources as a log of refreshes

  /** The sources after a sequence of refreshes, taken in the order of the mutex. */
  function Replay(refreshes: seq<(string, Set)>): Sources {
    if |refreshes| == 0 then map[]
    else
      var (source, contents) := refreshes[|refreshes| - 1];
      Replay(refreshes[..|refreshes| - 1])[source := contents]
  }

  /** The contents of the last refresh of a source. */
  function Last(refreshes: seq<(string, Set)>, source: string): Set {
    if |refreshes| == 0 then {}
    else
      var (s, contents) := refreshes[|refreshes| - 1];
      if s == source then contents else Last(refreshes[..|refreshes| - 1], source)
  }

  /** The last refresh of some source found the address. */
  ghost predicate Learned(refreshes: seq<(string, Set)>, a: NetAddr) {
    exists source :: a in Last(refreshes, source)
  }

  lemma {:induction false} ReplayHoldsLast(refreshes: seq<(string, Set)>, source: string)
    ensures Of(Replay(refreshes), source) == Last(refreshes, source)
  {
    if |refreshes| > 0 {
      ReplayHoldsLast(refreshes[..|refreshes| - 1], source);
    }
  }

  // ---------------------------------------------------------------- publication

  /** The published sets so far are the unions after each refresh, in lock order, except that
      the holder of the mutex may have built the next one and not yet stored it. */
  ghost predicate InOrder(sources: Sources, refreshes: seq<(string, Set)>, unions: seq<Set>,
                          stores: seq<Set>, published: Set, building: Option<Set>) {
    sources == Replay(refreshes)
    && |unions| == |refreshes|
    && (forall i :: 0 <= i < |unions| ==> unions[i] == Union(Replay(refreshes[..i + 1])))
    && published == (if |stores| == 0 then {} else stores[|stores| - 1])
    && unions == (match building case None => stores case Some(u) => stores + [u])
  }

  lemma InOrderUpdate(sources: Sources, refreshes: seq<(string, Set)>, unions: seq<Set>,
                      stores: seq<Set>, published: Set, source: string, next: Set)
    requires InOrder(sources, refreshes, unions, stores, published, None)
    ensures var u := Union(sources[source := next]);
            InOrder(sources[source := next], refreshes + [(source, next)], unions + [u], stores, published, Some(u))
  {
    var r, r' := refreshes, refreshes + [(source, next)];
    assert r'[..|r|] == r;
    forall k | 0 <= k <= |r|
      ensures r'[..k] == r[..k]
    {
    }
    assert r'[..|r| + 1] == r';
  }

  lemma InOrderStore(sources: Sources, refreshes: seq<(string, Set)>, unions: seq<Set>,
                     stores: seq<Set>, published: Set, u: Set)
    requires InOrder(sources, refreshes, unions, stores, published, Some(u))
    ensures InOrder(sources, refreshes, unions, stores + [u], u, None)
  {
  }

  /** What publication in lock order says of the sets published so far. */
  lemma InOrderStores(sources: Sources, refreshes: seq<(string, Set)>, unions: seq<Set>,
                      stores: seq<Set>, published: Set, building: Option<Set>)
    requires InOrder(sources, refreshes, unions, stores, published, building)
    ensures |stores| <= |refreshes| <= |stores| + 1
    ensures building == None ==> |stores| == |refreshes|
    ensures forall i :: 0 <= i < |stores| ==> stores[i] == Union(Replay(refreshes[..i + 1]))
    ensures published == Union(Replay(refreshes[..|stores|]))
  {
    forall i | 0 <= i < |stores|
      ensures stores[i] == Union(Replay(refreshes[..i + 1]))
    {
      assert stores[i] == unions[i];
    }
    assert refreshes[..0] == [];
  }

  /** The union that the holder of the mutex has built and not yet stored. */
  function Building(s: State): Option<Set> {
    if s.mutex.Some? && s.mutex.value < |s.producers| && s.producers[s.mutex.value].Built?
    then Some(s.producers[s.mutex.value].union) else None
  }

  ghost predicate PublishedInOrder(s: State) {
    InOrder(s.sources, s.history.refreshes, s.history.unions, s.history.stores, s.published, Building(s))
  }

  ghost predicate OneHolder(s: State) {
    (s.mutex.Some? ==> s.mutex.value < |s.producers|)
    && forall p :: 0 <= p < |s.producers| ==>
      !s.producers[p].Released? && (s.producers[p].Holds() <==> s.mutex == Some(p))
  }

  ghost predicate Published(s: State) {
    OneHolder(s) && PublishedInOrder(s)
  }

  lemma PublishedAtStart(n: nat, fixed: set<NetAddr>)
    ensures Published(Start(n, fixed))
  {
    assert InOrder(map[], [], [], [], {}, None);
  }

  lemma KeepsHolder(s: State, a: Action)
    requires OneHolder(s) && Enabled(StoreThenUnlock, s, a)
    ensures OneHolder(Apply(StoreThenUnlock, s, a))
  {
    hide Union, Of, Wanted, Contents;
    var s' := Apply(StoreThenUnlock, s, a);
    forall p | 0 <= p < |s'.producers|
      ensures !s'.producers[p].Released? && (s'.producers[p].Holds() <==> s'.mutex == Some(p))
    {
      assert !s.producers[p].Released? && (s.producers[p].Holds() <==> s.mutex == Some(p));
    }
  }

  lemma KeepsPublished(s: State, a: Action)
    requires Published(s) && Enabled(StoreThenUnlock, s, a)
    ensures Published(Apply(StoreThenUnlock, s, a))
  {
    hide InOrder, Union, Of, Wanted, Contents;
    KeepsHolder(s, a);
    var h := s.history;
    if a.Update? {
      var q := s.producers[a.p];
      InOrderUpdate(s.sources, h.refreshes, h.unions, h.stores, s.published, q.source, q.next);
    } else if a.Store? {
      InOrderStore(s.sources, h.refreshes, h.unions, h.stores, s.published, s.producers[a.p].union);
    }
  }

  lemma {:induction false} RunKeepsPublished(s: State, run: seq<Action>)
    requires Published(s) && CanRun(StoreThenUnlock, s, run)
    ensures Published(Run(StoreThenUnlock, s, run))
    decreases |run|
  {
    if |run| > 0 {
      KeepsPublished(s, run[0]);
      RunKeepsPublished(Apply(StoreThenUnlock, s, run[0]), run[1..]);
    }
  }

  /** The refreshes whose union has been published. */
  ghost function PublishedRefreshes(s: State): seq<(string, Set)> {
    if |s.history.stores| <= |s.history.refreshes| then s.history.refreshes[..|s.history.stores|]
    else s.history.refreshes
  }

  /** In every reachable state, whoever holds the mutex, the published sets are the unions after
      each refresh, in the order in which the mutex was taken, but for at most the refresh that
      is under way; the published set has exactly the addresses that the last published refreshes
      of the sources found. This is what a load that takes no lock sees. */
  lemma PublishedAtAnyTime(s: State)
    requires Reachable(StoreThenUnlock, s)
    ensures |s.history.stores| <= |s.history.refreshes| <= |s.history.stores| + 1
    ensures s.mutex == None ==> |s.history.stores| == |s.history.refreshes|
    ensures forall i :: 0 <= i < |s.history.stores| ==>
              s.history.stores[i] == Union(Replay(s.history.refreshes[..i + 1]))
    ensures forall a :: a in s.published <==> Learned(PublishedRefreshes(s), a)
  {
    var n: nat, fixed, run: seq<Action> :|
      CanRun(StoreThenUnlock, Start(n, fixed), run) && Run(StoreThenUnlock, Start(n, fixed), run) == s;
    PublishedAtStart(n, fixed);
    RunKeepsPublished(Start(n, fixed), run);
    var h := s.history;
    hide InOrder, Run, CanRun, Union, Learned;
    InOrderStores(s.sources, h.refreshes, h.unions, h.stores, s.published, Building(s));
    forall a
      ensures a in s.published <==> Learned(PublishedRefreshes(s), a)
    {
      UnionHoldsLast(PublishedRefreshes(s), a);
    }
  }

  lemma UnionHoldsLast(refreshes: seq<(string, Set)>, a: NetAddr)
    ensures a in Union(Replay(refreshes)) <==> Learned(refreshes, a)
  {
    var sources := Replay(refreshes);
    if a in Union(sources) {
      var source :| source in sources && a in sources[source];
      ReplayHoldsLast(refreshes, source);
    }
    if source :| a in Last(refreshes, source) {
      ReplayHoldsLast(refreshes, source);
      assert a in Of(sources, source);
    }
  }

  /** In every reachable state with the mutex free the published set is the union of all
      sources, each source holds what its last refresh found, and the sets published so far
      are the unions after each refresh, in the order in which the mutex was taken. */
  lemma FreeMutexPublished(s: State)
    requires Reachable(StoreThenUnlock, s) && s.mutex == None
    ensures s.published == Union(s.sources)
    ensures forall source :: Of(s.sources, source) == Last(s.history.refreshes, source)
    ensures |s.history.stores| == |s.history.refreshes|
    ensures forall i :: 0 <= i < |s.history.stores| ==>
              s.history.stores[i] == Union(Replay(s.history.refreshes[..i + 1]))
  {
    var n: nat, fixed, run: seq<Action> :|
      CanRun(StoreThenUnlock, Start(n, fixed), run) && Run(StoreThenUnlock, Start(n, fixed), run) == s;
    PublishedAtStart(n, fixed);
    RunKeepsPublished(Start(n, fixed), run);
    var r := s.history.refreshes;
    assert r[..|r|] == r;
    forall source
      ensures Of(s.sources, source) == Last(r, source)
    {
      ReplayHoldsLast(r, source);
    }
  }

  // ---------------------------------------------------------------- what is in the registry

  ghost predicate AllUnmapped(s: Set) {
    forall a :: a in s ==> a.V6? && a.Unmap() == a
  }

  ghost predicate Unmapped(s: State) {
    (forall i :: 0 <= i < |s.history.refreshes| ==> AllUnmapped(s.history.refreshes[i].1))
    && forall p :: 0 <= p < |s.producers| && (s.producers[p].Ready? || s.producers[p].Holding?) ==>
      AllUnmapped(s.producers[p].next)
  }

  lemma ContentsUnmapped(r: Refresh)
    ensures AllUnmapped(Contents(r))
  {
  }

  lemma KeepsUnmapped(s: State, a: Action)
    requires Unmapped(s) && Enabled(StoreThenUnlock, s, a)
    ensures Unmapped(Apply(StoreThenUnlock, s, a))
  {
    hide AllUnmapped, Contents, Union, Of, Wanted;
    if a.Begin? {
      ContentsUnmapped(a.refresh);
    }
  }

  lemma {:induction false} RunKeepsUnmapped(s: State, run: seq<Action>)
    requires Unmapped(s) && CanRun(StoreThenUnlock, s, run)
    ensures Unmapped(Run(StoreThenUnlock, s, run))
    decreases |run|
  {
    if |run| > 0 {
      KeepsUnmapped(s, run[0]);
      RunKeepsUnmapped(Apply(StoreThenUnlock, s, run[0]), run[1..]);
    }
  }

  lemma {:induction false} LastUnmapped(refreshes: seq<(string, Set)>, source: string)
    requires forall i :: 0 <= i < |refreshes| ==> AllUnmapped(refreshes[i].1)
    ensures AllUnmapped(Last(refreshes, source))
  {
    if |refreshes| > 0 {
      assert AllUnmapped(refreshes[|refreshes| - 1].1);
      LastUnmapped(refreshes[..|refreshes| - 1], source);
    }
  }

  /** Whatever the sources report, only IPv6 addresses that are not IPv4-mapped get published. */
  lemma LearnedUnmapped(s: State, a: NetAddr)
    requires Reachable(StoreThenUnlock, s) && Learned(PublishedRefreshes(s), a)
    ensures a.V6? && a.Unmap() == a
  {
    var n: nat, fixed, run: seq<Action> :|
      CanRun(StoreThenUnlock, Start(n, fixed), run) && Run(StoreThenUnlock, Start(n, fixed), run) == s;
    RunKeepsUnmapped(Start(n, fixed), run);
    var source :| a in Last(PublishedRefreshes(s), source);
    LastUnmapped(PublishedRefreshes(s), source);
  }

  // ---------------------------------------------------------------- publishing after the unlock

  lemma {:induction false} RunExtends(o: Order, s: State, run: seq<Action>, a: Action)
    requires CanRun(o, s, run) && Enabled(o, Run(o, s, run), a)
    ensures CanRun(o, s, run + [a]) && Run(o, s, run + [a]) == Apply(o, Run(o, s, run), a)
    decreases |run|
  {
    hide Enabled, Apply;
    if |run| == 0 {
      assert run + [a] == [a] && [a][1..] == [];
      assert CanRun(o, Apply(o, s, a), []);
    } else {
      assert (run + [a])[1..] == run[1..] + [a];
      RunExtends(o, Apply(o, s, run[0]), run[1..], a);
    }
  }

  lemma ReachesNext(o: Order, s: State, a: Action) returns (s': State)
    requires Reachable(o, s) && Enabled(o, s, a)
    ensures s' == Apply(o, s, a) && Reachable(o, s')
  {
    s' := Apply(o, s, a);
    var n: nat, fixed, run: seq<Action> :| CanRun(o, Start(n, fixed), run) && Run(o, Start(n, fixed), run) == s;
    RunExtends(o, Start(n, fixed), run, a);
  }

  lemma StartReachable(o: Order, n: nat, fixed: set<NetAddr>)
    ensures Reachable(o, Start(n, fixed))
  {
    var run: seq<Action> := [];
    assert CanRun(o, Start(n, fixed), run) && Run(o, Start(n, fixed), run) == Start(n, fixed);
  }

  /** From Ready to released: what a producer of the other order does before it publishes. */
  lemma BuildLate(s: State, p: nat) returns (s': State)
    requires Reachable(UnlockThenStore, s) && p < |s.producers| && s.producers[p].Ready? && s.mutex == None
    ensures Reachable(UnlockThenStore, s') && s'.mutex == None
    ensures var q := s.producers[p];
            s'.sources == s.sources[q.source := q.next] && s'.published == s.published
            && s'.producers == s.producers[p := Released(Of(s.sources, q.source) != q.next,
                                                        q.next - Of(s.sources, q.source), Union(s'.sources))]
  {
    hide Reachable, Union, Of;
    s' := ReachesNext(UnlockThenStore, s, Lock(p));
    s' := ReachesNext(UnlockThenStore, s', Update(p));
    s' := ReachesNext(UnlockThenStore, s', Unlock(p));
  }

  /** From released to idle, when one new address is to be offered. */
  lemma FinishLate(s: State, p: nat, x: NetAddr) returns (s': State)
    requires Reachable(UnlockThenStore, s) && p < |s.producers| && s.producers[p].Released?
    requires s.producers[p].added == {x} && s.mutex == None
    ensures Reachable(UnlockThenStore, s') && s'.mutex == None
    ensures s'.sources == s.sources && s'.published == s.producers[p].union
    ensures s'.producers == s.producers[p := Idle]
  {
    hide Reachable;
    s' := ReachesNext(UnlockThenStore, s, Store(p));
    s' := ReachesNext(UnlockThenStore, s', Signal(p));
    s' := ReachesNext(UnlockThenStore, s', Offer(p, x));
    s' := ReachesNext(UnlockThenStore, s', Finish(p));
  }

  /** Publishing after the unlock would lose addresses: two refreshes that build in one order
      and publish in the other leave, with every producer idle and the mutex free, a
      published set without the address of the later refresh. */
  lemma LateStoreLosesAddresses(x: NetAddr, y: NetAddr) returns (s: State)
    requires x.V6? && x.Unmap() == x && y.V6? && y.Unmap() == y && x != y
    ensures Reachable(UnlockThenStore, s) && s.mutex == None
    ensures forall p :: 0 <= p < |s.producers| ==> s.producers[p].Idle?
    ensures y in Union(s.sources) && y !in s.published
  {
    var o := UnlockThenStore;
    StartReachable(o, 2, {});
    assert Filter([x]) == {x} && Filter([y]) == {y};
    hide Reachable, Filter;
    s := ReachesNext(o, Start(2, {}), Begin(0, "a", Found([x])));
    s := ReachesNext(o, s, Begin(1, "b", Found([y])));
    s := BuildLate(s, 0);
    assert y !in s.producers[0].union;
    s := BuildLate(s, 1);
    s := FinishLate(s, 1, y);
    s := FinishLate(s, 0, x);
    assert "b" in s.sources && y in s.sources["b"];
  }

  // ---------------------------------------------------------------- no lost wake-up

  ghost predicate SomePending(s: State) {
    exists p :: 0 <= p < |s.producers| && s.producers[p].Pending()
  }

  /** Either the consumer's last snapshot is current, or something will make it take another:
      a full channel, a producer about to signal, or the consumer itself on its way. */
  ghost predicate WillSee(s: State) {
    s.history.snapshot == Union(s.sources) || s.token || SomePending(s)
    || s.consumer.Woken? || s.consumer.HasStatic?
  }

  /** What the consumer holds at each stage of its loop. */
  ghost predicate Following(s: State) {
    match s.consumer
    case Waiting => s.synced == Wanted(s.fixed, s.history.snapshot)
    case Woken => true
    case HasStatic(fixed) => fixed == s.fixed
    case Snapped(targets) => targets == Wanted(s.fixed, s.history.snapshot)
  }

  lemma PendingStays(s: State, p: nat, next: Producer)
    requires p < |s.producers| && (s.producers[p].Pending() ==> next.Pending())
    ensures SomePending(s) ==> SomePending(Goes(s, p, next))
    ensures next.Pending() ==> SomePending(Goes(s, p, next))
  {
    var s' := Goes(s, p, next);
    if next.Pending() {
      assert s'.producers[p].Pending();
    }
    if SomePending(s) {
      var q :| 0 <= q < |s.producers| && s.producers[q].Pending();
      assert s'.producers[q].Pending();
    }
  }

  lemma KeepsFollowing(o: Order, s: State, a: Action)
    requires Following(s) && Enabled(o, s, a)
    ensures Following(Apply(o, s, a))
  {
  }

  lemma KeepsWillSee(o: Order, s: State, a: Action)
    requires WillSee(s) && Enabled(o, s, a)
    ensures WillSee(Apply(o, s, a))
  {
    hide Union;
    var s' := Apply(o, s, a);
    if a.Update? {
      var q := s.producers[a.p];
      UnionUnchanged(s.sources, q.source);
      PendingStays(s, a.p, s'.producers[a.p]);
      assert SomePending(Goes(s, a.p, s'.producers[a.p])) ==> SomePending(s');
    } else if a.Begin? || a.Lock? || a.Store? || a.Unlock? || a.Signal? || a.Offer? || a.Finish? {
      if !(a.Signal? && s.producers[a.p].Pending()) {
        PendingStays(s, a.p, s'.producers[a.p]);
        assert SomePending(Goes(s, a.p, s'.producers[a.p])) ==> SomePending(s');
      }
    } else {
      assert s'.producers == s.producers;
    }
  }

  lemma {:induction false} RunKeepsWillSee(o: Order, s: State, run: seq<Action>)
    requires WillSee(s) && Following(s) && CanRun(o, s, run)
    ensures WillSee(Run(o, s, run)) && Following(Run(o, s, run))
    decreases |run|
  {
    if |run| > 0 {
      KeepsWillSee(o, s, run[0]);
      KeepsFollowing(o, s, run[0]);
      RunKeepsWillSee(o, Apply(o, s, run[0]), run[1..]);
    }
  }

  /** Nothing is under way: no pending change, an empty channel, and a waiting consumer. */
  ghost predicate Quiescent(s: State) {
    !SomePending(s) && !s.token && s.consumer.Waiting?
  }

  /** No wake-up is lost: whatever the interleaving, WillSee holds, and so a quiescent system
      has synchronized against the static targets and the union of all sources as they are. */
  lemma NoLostWakeUp(o: Order, s: State)
    requires Reachable(o, s)
    ensures WillSee(s)
    ensures Quiescent(s) ==> s.synced == Wanted(s.fixed, Union(s.sources))
  {
    var n: nat, fixed, run: seq<Action> :| CanRun(o, Start(n, fixed), run) && Run(o, Start(n, fixed), run) == s;
    RunKeepsWillSee(o, Start(n, fixed), run);
  }

  // ---------------------------------------------------------------- conservation

  /** How many producers have yet to offer an address. */
  function Unoffered(producers: seq<Producer>, x: NetAddr): nat {
    if |producers| == 0 then 0
    else Unoffered(producers[..|producers| - 1], x) + Waits(producers[|producers| - 1], x)
  }

  function Waits(q: Producer, x: NetAddr): nat {
    if x in q.Added() then 1 else 0
  }

  /** Each time an address enters a source it is offered once, or still waits for its offer;
      and every offered address is dropped, in the queue, or consumed. */
  ghost predicate Balanced(s: State, x: NetAddr) {
    AllOffered(s.history.entered, s.history.offered, s.producers, x)
    && AllSent(s.history.offered, s.history.dropped, s.queue, s.history.consumed, x)
  }

  ghost predicate AllOffered(entered: multiset<NetAddr>, offered: multiset<NetAddr>, producers: seq<Producer>,
                             x: NetAddr)
  {
    entered[x] == offered[x] + Unoffered(producers, x)
  }

  ghost predicate AllSent(offered: multiset<NetAddr>, dropped: multiset<NetAddr>, queue: seq<NetAddr>,
                          consumed: multiset<NetAddr>, x: NetAddr) {
    offered[x] == dropped[x] + multiset(queue)[x] + consumed[x]
  }

  lemma {:induction false} UnofferedChanges(ps: seq<Producer>, p: nat, next: Producer, x: NetAddr)
    requires p < |ps|
    ensures Unoffered(ps[p := next], x) + Waits(ps[p], x) == Unoffered(ps, x) + Waits(next, x)
  {
    var n := |ps| - 1;
    if p == n {
      assert ps[p := next][..n] == ps[..n];
    } else {
      UnofferedChanges(ps[..n], p, next, x);
      assert ps[p := next][..n] == ps[..n][p := next];
    }
  }

  lemma {:induction false} NothingUnoffered(ps: seq<Producer>, x: NetAddr)
    requires forall p :: 0 <= p < |ps| ==> ps[p].Idle?
    ensures Unoffered(ps, x) == 0
  {
    if |ps| > 0 {
      NothingUnoffered(ps[..|ps| - 1], x);
    }
  }

  lemma KeepsBalance(o: Order, s: State, a: Action, x: NetAddr)
    requires Balanced(s, x) && Enabled(o, s, a)
    ensures Balanced(Apply(o, s, a), x)
  {
    hide Union, Unoffered, Of, Balanced;
    if a.Consume? {
      ConsumeBalance(o, s, a, x);
    } else if a.Offer? {
      OfferBalance(o, s, a.p, a.address, x);
    } else if a.Update? {
      UpdateBalance(o, s, a, x);
    } else {
      OtherBalance(o, s, a, x);
    }
  }

  lemma ConsumeBalance(o: Order, s: State, a: Action, x: NetAddr)
    requires Balanced(s, x) && a.Consume? && Enabled(o, s, a)
    ensures Balanced(Apply(o, s, a), x)
  {
    hide Unoffered;
    assert s.queue == [s.queue[0]] + s.queue[1..];
  }

  lemma OneOffer(entered: multiset<NetAddr>, offered: multiset<NetAddr>, producers: seq<Producer>, p: nat,
                 address: NetAddr, x: NetAddr)
    requires p < |producers| && producers[p].Offering? && address in producers[p].added
    requires AllOffered(entered, offered, producers, x)
    ensures AllOffered(entered, offered + multiset{address},
                       producers[p := Offering(producers[p].added - {address})], x)
  {
    hide Unoffered;
    UnofferedChanges(producers, p, Offering(producers[p].added - {address}), x);
  }

  lemma OneSent(offered: multiset<NetAddr>, dropped: multiset<NetAddr>, queue: seq<NetAddr>,
                consumed: multiset<NetAddr>, address: NetAddr, x: NetAddr)
    requires AllSent(offered, dropped, queue, consumed, x)
    ensures AllSent(offered + multiset{address}, dropped, queue + [address], consumed, x)
    ensures AllSent(offered + multiset{address}, dropped + multiset{address}, queue, consumed, x)
  {
  }

  lemma OfferBalance(o: Order, s: State, p: nat, address: NetAddr, x: NetAddr)
    requires Balanced(s, x) && Enabled(o, s, Offer(p, address))
    ensures Balanced(Apply(o, s, Offer(p, address)), x)
  {
    hide AllOffered, AllSent;
    var h := s.history;
    OneOffer(h.entered, h.offered, s.producers, p, address, x);
    OneSent(h.offered, h.dropped, s.queue, h.consumed, address, x);
  }

  lemma UpdateBalance(o: Order, s: State, a: Action, x: NetAddr)
    requires Balanced(s, x) && a.Update? && Enabled(o, s, a)
    ensures Balanced(Apply(o, s, a), x)
  {
    hide Unoffered, Union;
    UnofferedChanges(s.producers, a.p, Apply(o, s, a).producers[a.p], x);
  }

  lemma OtherBalance(o: Order, s: State, a: Action, x: NetAddr)
    requires Balanced(s, x) && !a.Update? && !a.Offer? && !a.Consume? && Enabled(o, s, a)
    ensures Balanced(Apply(o, s, a), x)
  {
    hide Unoffered, Union;
    if a.Begin? || a.Lock? || a.Store? || a.Unlock? || a.Signal? || a.Finish? {
      UnofferedChanges(s.producers, a.p, Apply(o, s, a).producers[a.p], x);
    }
  }

  lemma {:induction false} RunKeepsBalance(o: Order, s: State, run: seq<Action>, x: NetAddr)
    requires Balanced(s, x) && CanRun(o, s, run)
    ensures Balanced(Run(o, s, run), x)
    decreases |run|
  {
    if |run| > 0 {
      KeepsBalance(o, s, run[0], x);
      RunKeepsBalance(o, Apply(o, s, run[0]), run[1..], x);
    }
  }

  lemma {:induction false} RunKeepsQueue(o: Order, s: State, run: seq<Action>)
    requires |s.queue| <= QUEUE_SIZE && CanRun(o, s, run)
    ensures |Run(o, s, run).queue| <= QUEUE_SIZE
    decreases |run|
  {
    if |run| > 0 {
      hide Union, Of;
      RunKeepsQueue(o, Apply(o, s, run[0]), run[1..]);
    }
  }

  /** In every reachable state and for every address, entered = offered + yet to be offered
      and offered = dropped + queued + consumed; the queue holds at most 64. With no producer
      under way every entry into a source has been offered. */
  lemma OffersConserved(o: Order, s: State, x: NetAddr)
    requires Reachable(o, s)
    ensures Balanced(s, x) && |s.queue| <= 64
    ensures (forall p :: 0 <= p < |s.producers| ==> s.producers[p].Idle?) ==>
              s.history.entered[x] == s.history.dropped[x] + multiset(s.queue)[x] + s.history.consumed[x]
  {
    var n: nat, fixed, run: seq<Action> :| CanRun(o, Start(n, fixed), run) && Run(o, Start(n, fixed), run) == s;
    NothingUnoffered(Start(n, fixed).producers, x);
    RunKeepsBalance(o, Start(n, fixed), run, x);
    RunKeepsQueue(o, Start(n, fixed), run);
    if forall p :: 0 <= p < |s.producers| ==> s.producers[p].Idle? {
      NothingUnoffered(s.producers, x);
    }
  }
}
