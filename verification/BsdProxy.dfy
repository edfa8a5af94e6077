/** The BSD proxy reconciler (bsd_ndp_proxy.go): it drives an NDP table it does not own
    towards a wanted set of addresses and removes only what it created. */
module BsdProxy {
  import opened Addresses
  import opened Text
  import opened NdpTable
  import opened NdpHosts
  import Interfaces

  datatype Failure =
    | ListFailed
    | Conflict(target: NetAddr, entry: Entry)
    | NoUplink
    | NoRoute(target: NetAddr)
    | OtherRoute(target: NetAddr, ifname: string)
    | AddFailed(target: NetAddr)
    | NotCreated(target: NetAddr)
    | RemoveFailed(target: NetAddr)
    | NotRemoved(target: NetAddr)

  predicate OnUplink(table: Table, uplink: string, a: NetAddr) {
    a in table && table[a] == Entry(uplink, true)
  }

  // ---------------------------------------------------------------- what a synchronization comes to

  /** The table after every address of done has a proxy on the uplink. */
  ghost function Ensured(table: Table, uplink: string, done: set<NetAddr>): Table {
    table + map a | a in done :: Entry(uplink, true)
  }

  /** The table after the proxies on the uplink for the given addresses are removed. */
  ghost function Withdrawn(table: Table, uplink: string, gone: set<NetAddr>): Table {
    map a | a in table && !(a in gone && OnUplink(table, uplink, a)) :: table[a]
  }

  /** The first loop of a synchronization, without failures: done is proxied, and owned
      unless it had an entry before. */
  ghost predicate Ensuring(table0: Table, owned0: set<NetAddr>, table: Table, owned: set<NetAddr>,
                            uplink: string, done: set<NetAddr>)
  {
    table == Ensured(table0, uplink, done) && owned == owned0 + (done - table0.Keys)
  }

  lemma EnsuringNothing(table: Table, owned: set<NetAddr>, uplink: string)
    ensures Ensuring(table, owned, table, owned, uplink, {})
  {
    assert table == Ensured(table, uplink, {});
  }

  lemma EnsuringMore(table0: Table, owned0: set<NetAddr>, table1: Table, owned1: set<NetAddr>,
                     table2: Table, owned2: set<NetAddr>, uplink: string, done: set<NetAddr>, more: set<NetAddr>)
    requires Ensuring(table0, owned0, table1, owned1, uplink, done)
    requires Ensuring(table1, owned1, table2, owned2, uplink, more)
    ensures Ensuring(table0, owned0, table2, owned2, uplink, done + more)
  {
    EnsuredTwice(table0, uplink, done, more);
  }

  /** The loop that gives up addresses, without failures. */
  ghost predicate Withdrawing(table0: Table, owned0: set<NetAddr>, table: Table, owned: set<NetAddr>,
                               uplink: string, gone: set<NetAddr>)
  {
    table == Withdrawn(table0, uplink, gone) && owned == owned0 - gone
  }

  lemma WithdrawingNothing(table: Table, owned: set<NetAddr>, uplink: string)
    ensures Withdrawing(table, owned, table, owned, uplink, {})
  {
    assert table == Withdrawn(table, uplink, {});
  }

  lemma WithdrawingMore(table0: Table, owned0: set<NetAddr>, table1: Table, owned1: set<NetAddr>,
                        table2: Table, owned2: set<NetAddr>, uplink: string, gone: set<NetAddr>, a: NetAddr)
    requires Withdrawing(table0, owned0, table1, owned1, uplink, gone)
    requires Withdrawing(table1, owned1, table2, owned2, uplink, {a})
    ensures Withdrawing(table0, owned0, table2, owned2, uplink, gone + {a})
  {
    assert Withdrawn(Withdrawn(table0, uplink, gone), uplink, {a}) == Withdrawn(table0, uplink, gone + {a});
  }

  /** The two loops together are a synchronization. */
  lemma BothLoops(table0: Table, owned0: set<NetAddr>, table1: Table, owned1: set<NetAddr>,
                  table2: Table, owned2: set<NetAddr>, uplink: string, wanted: set<NetAddr>)
    requires Ensuring(table0, owned0, table1, owned1, uplink, wanted)
    requires Withdrawing(table1, owned1, table2, owned2, uplink, owned1 - wanted)
    ensures table2 == SyncedTable(table0, owned0, uplink, wanted) && owned2 == SyncedOwned(table0, owned0, wanted)
  {
    assert owned1 - wanted == owned0 - wanted;
  }

  /** The address already has a proxy on the uplink, or has no entry and routes through it. */
  ghost predicate CanProxy(table: Table, route: NetAddr -> Option<string>, uplink: string, a: NetAddr) {
    OnUplink(table, uplink, a) || (a !in table && uplink != "" && route(a) == Some(uplink))
  }

  /** The wanted addresses that can be proxied. */
  ghost function Proxiable(table: Table, route: NetAddr -> Option<string>, uplink: string, wanted: set<NetAddr>)
    : set<NetAddr>
  {
    set a | a in wanted && CanProxy(table, route, uplink, a)
  }

  /** The wanted addresses with an entry that is no proxy on the uplink. */
  ghost function Conflicting(table: Table, uplink: string, wanted: set<NetAddr>): set<NetAddr> {
    set a | a in wanted && a in table && !OnUplink(table, uplink, a)
  }

  ghost predicate AllCanProxy(table: Table, route: NetAddr -> Option<string>, uplink: string, wanted: set<NetAddr>) {
    forall a :: a in wanted ==> CanProxy(table, route, uplink, a)
  }

  lemma EnsuringElsewhere(table0: Table, owned0: set<NetAddr>, table: Table, owned: set<NetAddr>,
                          route: NetAddr -> Option<string>, uplink: string, done: set<NetAddr>, a: NetAddr)
    requires Ensuring(table0, owned0, table, owned, uplink, done) && a !in done
    ensures CanProxy(table, route, uplink, a) <==> CanProxy(table0, route, uplink, a)
  {
  }

  /** The first loop with working commands, whatever can be proxied: what can be is proxied,
      and what is in conflict is disowned. */
  ghost predicate EnsuringPart(table0: Table, owned0: set<NetAddr>, table: Table, owned: set<NetAddr>,
                               route: NetAddr -> Option<string>, uplink: string, done: set<NetAddr>)
  {
    table == Ensured(table0, uplink, Proxiable(table0, route, uplink, done))
    && owned == (owned0 - Conflicting(table0, uplink, done)) + (Proxiable(table0, route, uplink, done) - table0.Keys)
  }

  lemma EnsuringNoPart(table: Table, owned: set<NetAddr>, route: NetAddr -> Option<string>, uplink: string)
    ensures EnsuringPart(table, owned, table, owned, route, uplink, {})
  {
    EnsuringNothing(table, owned, uplink);
    assert Proxiable(table, route, uplink, {}) == {};
  }

  /** What one round does to a single address. */
  lemma EnsuringOne(table0: Table, owned0: set<NetAddr>, table: Table, owned: set<NetAddr>,
                    route: NetAddr -> Option<string>, uplink: string, a: NetAddr)
    requires if CanProxy(table0, route, uplink, a) then Ensuring(table0, owned0, table, owned, uplink, {a})
             else table == table0 && owned == if a in table0 then owned0 - {a} else owned0
    ensures EnsuringPart(table0, owned0, table, owned, route, uplink, {a})
  {
    EnsuringNothing(table0, owned0, uplink);
    assert Proxiable(table0, route, uplink, {a}) == if CanProxy(table0, route, uplink, a) then {a} else {};
    assert Conflicting(table0, uplink, {a}) == if a in table0 && !OnUplink(table0, uplink, a) then {a} else {};
  }

  lemma EnsuredTwice(table: Table, uplink: string, a: set<NetAddr>, b: set<NetAddr>)
    ensures Ensured(Ensured(table, uplink, a), uplink, b) == Ensured(table, uplink, a + b)
  {
  }

  /** What the rounds so far mean for an address not yet visited: nothing. */
  lemma NotYetVisited(table0: Table, owned0: set<NetAddr>, table1: Table, owned1: set<NetAddr>,
                      route: NetAddr -> Option<string>, uplink: string, done: set<NetAddr>, a: NetAddr)
    requires a !in done && EnsuringPart(table0, owned0, table1, owned1, route, uplink, done)
    ensures (a in table1 <==> a in table0) && (OnUplink(table1, uplink, a) <==> OnUplink(table0, uplink, a))
    ensures CanProxy(table1, route, uplink, a) <==> CanProxy(table0, route, uplink, a)
  {
  }

  lemma VisitOneMore(table0: Table, table1: Table, route: NetAddr -> Option<string>, uplink: string,
                     done: set<NetAddr>, a: NetAddr)
    requires (a in table1 <==> a in table0) && (OnUplink(table1, uplink, a) <==> OnUplink(table0, uplink, a))
    ensures Proxiable(table0, route, uplink, done + {a})
            == Proxiable(table0, route, uplink, done) + Proxiable(table1, route, uplink, {a})
    ensures Conflicting(table0, uplink, done + {a})
            == Conflicting(table0, uplink, done) + Conflicting(table1, uplink, {a})
    ensures Proxiable(table1, route, uplink, {a}) - table1.Keys == Proxiable(table1, route, uplink, {a}) - table0.Keys
    ensures Conflicting(table1, uplink, {a}) <= {a} && Proxiable(table0, route, uplink, done) <= done
  {
  }

  /** One more round of the first loop, whether or not its address can be proxied. */
  lemma EnsureOneMore(table0: Table, owned0: set<NetAddr>, table1: Table, owned1: set<NetAddr>,
                      table2: Table, owned2: set<NetAddr>, route: NetAddr -> Option<string>, uplink: string,
                      done: set<NetAddr>, a: NetAddr)
    requires a !in done && EnsuringPart(table0, owned0, table1, owned1, route, uplink, done)
    requires EnsuringPart(table1, owned1, table2, owned2, route, uplink, {a})
    ensures CanProxy(table1, route, uplink, a) <==> CanProxy(table0, route, uplink, a)
    ensures EnsuringPart(table0, owned0, table2, owned2, route, uplink, done + {a})
  {
    NotYetVisited(table0, owned0, table1, owned1, route, uplink, done, a);
    VisitOneMore(table0, table1, route, uplink, done, a);
    var p0, p1 := Proxiable(table0, route, uplink, done), Proxiable(table1, route, uplink, {a});
    var c0, c1 := Conflicting(table0, uplink, done), Conflicting(table1, uplink, {a});
    EnsuredTwice(table0, uplink, p0, p1);
    hide Ensured, Proxiable, Conflicting, CanProxy;
    assert ((owned0 - c0) + (p0 - table0.Keys) - c1) + (p1 - table0.Keys)
        == (owned0 - (c0 + c1)) + ((p0 + p1) - table0.Keys);
  }

  ghost predicate AllOnUplink(table: Table, uplink: string, wanted: set<NetAddr>) {
    forall a :: a in wanted ==> OnUplink(table, uplink, a)
  }

  /** The table a successful synchronization leaves: a function of what it found, whatever
      the order in which the sets were iterated. */
  ghost function SyncedTable(table: Table, owned: set<NetAddr>, uplink: string, wanted: set<NetAddr>): Table {
    Withdrawn(Ensured(table, uplink, wanted), uplink, owned - wanted)
  }

  /** The owned set it leaves: what was owned and is wanted, and what had no entry before. */
  ghost function SyncedOwned(table: Table, owned: set<NetAddr>, wanted: set<NetAddr>): set<NetAddr> {
    owned * wanted + (wanted - table.Keys)
  }

  /** The owned set left with working commands, whatever can be proxied: what was owned and is
      wanted and not in conflict, and what had no entry before and can be proxied. */
  ghost function PartlyOwned(table: Table, owned: set<NetAddr>, route: NetAddr -> Option<string>, uplink: string,
                             wanted: set<NetAddr>): set<NetAddr>
  {
    (owned * wanted - Conflicting(table, uplink, wanted)) + (Proxiable(table, route, uplink, wanted) - table.Keys)
  }

  /** As far as it can be: every wanted address that can be proxied is, and only wanted
      addresses are owned. */
  ghost predicate Served(table: Table, owned: set<NetAddr>, route: NetAddr -> Option<string>, uplink: string,
                         wanted: set<NetAddr>)
  {
    owned <= wanted && forall a :: a in wanted && CanProxy(table, route, uplink, a) ==> OnUplink(table, uplink, a)
  }

  /** What working commands leave serves the wanted addresses, and settles the table if all of
      them can be proxied. */
  lemma PartServes(table: Table, owned: set<NetAddr>, route: NetAddr -> Option<string>, uplink: string,
                   wanted: set<NetAddr>)
    ensures var t, o := SyncedTable(table, owned, uplink, Proxiable(table, route, uplink, wanted)),
                        PartlyOwned(table, owned, route, uplink, wanted);
            Served(t, o, route, uplink, wanted)
            && (AllCanProxy(table, route, uplink, wanted) ==> Settled(t, o, uplink, wanted))
  {
    var proxiable := Proxiable(table, route, uplink, wanted);
    var t := SyncedTable(table, owned, uplink, proxiable);
    forall a | a in wanted && !CanProxy(table, route, uplink, a)
      ensures !CanProxy(t, route, uplink, a)
    {
      assert a in table ==> a in t && t[a] == table[a];
      assert a !in table ==> a !in t;
    }
  }

  /** Nothing to do: every wanted address is proxied and nothing else is owned. */
  ghost predicate Settled(table: Table, owned: set<NetAddr>, uplink: string, wanted: set<NetAddr>) {
    owned <= wanted && AllOnUplink(table, uplink, wanted)
  }

  /** A successful synchronization settles the table: every wanted address has a proxy on the
      uplink, only wanted addresses are owned, and no other entry changed. Synchronizing a
      settled table again would change nothing. */
  lemma SyncSettles(table: Table, owned: set<NetAddr>, uplink: string, wanted: set<NetAddr>)
    ensures var t, o := SyncedTable(table, owned, uplink, wanted), SyncedOwned(table, owned, wanted);
            Settled(t, o, uplink, wanted)
            && (forall a :: a !in wanted && a !in owned ==>
                  (a in t <==> a in table) && (a in t ==> t[a] == table[a]))
            && (forall a :: a in owned && a !in wanted ==> !OnUplink(t, uplink, a))
            && SyncedTable(t, o, uplink, wanted) == t && SyncedOwned(t, o, wanted) == o
  {
    var t, o := SyncedTable(table, owned, uplink, wanted), SyncedOwned(table, owned, wanted);
    assert forall a :: a in wanted ==> OnUplink(t, uplink, a);
    assert o - wanted == {};
    assert Ensured(t, uplink, wanted) == t;
    assert SyncedTable(t, o, uplink, wanted) == t;
  }

  // ---------------------------------------------------------------- what this process has left behind

  /** A -s that reported success and left a proxy on the uplink. */
  ghost predicate Confirmable(e: Event, uplink: string) {
    e.SetRun? && e.ok && e.made == Some(Entry(uplink, true))
  }

  /** The addresses for which an entry was made and never adopted: an entry is adopted by a
      successful listing right after a -s that reported success, or was owned before. */
  ghost function Leaks(log: seq<Event>, uplink: string): set<NetAddr> {
    if |log| == 0 then {}
    else
      var n := |log| - 1;
      match log[n]
      case SetRun(a, _, held, _, made, _) =>
        if made.Some? && !held then Leaks(log[..n], uplink) + {a} else Leaks(log[..n], uplink)
      case Listed(ok) =>
        if ok && n > 0 && Confirmable(log[n - 1], uplink) then Leaks(log[..n - 1], uplink) else Leaks(log[..n], uplink)
      case _ => Leaks(log[..n], uplink)
  }

  /** The addresses for which an entry was made and not removed since. */
  ghost function Created(log: seq<Event>): set<NetAddr> {
    if |log| == 0 then {}
    else
      var n := |log| - 1;
      match log[n]
      case SetRun(a, _, _, _, made, _) => if made.Some? then Created(log[..n]) + {a} else Created(log[..n])
      case DeleteRun(a, _, _, gone) => if gone then Created(log[..n]) - {a} else Created(log[..n])
      case _ => Created(log[..n])
  }

  /** The last command was not an addition that waits for its confirming listing. */
  ghost predicate Confirmed(log: seq<Event>, uplink: string) {
    |log| > 0 ==> !Confirmable(log[|log| - 1], uplink)
  }

  /** Outside the entries this process made, the table is the one it started from. */
  ghost predicate Undisturbed(base: Table, table: Table, mine: set<NetAddr>) {
    table - mine == base
  }

  /** With reliable commands: the starting table plus one proxy on the uplink per owned address. */
  ghost predicate Exact(base: Table, table: Table, owned: set<NetAddr>, uplink: string) {
    owned !! base.Keys && table == base + map a | a in owned :: Entry(uplink, true)
  }

  /** What every single command keeps, whatever fails and whoever else edits the table. */
  ghost predicate Core(base: Table, table: Table, mine: set<NetAddr>, owned: set<NetAddr>,
                       log: seq<Event>, uplink: string)
  {
    mine <= table.Keys
    // A proxy on the uplink for an owned address is ours, so that deleting it is safe.
    && (forall a :: a in owned && OnUplink(table, uplink, a) ==> a in mine)
    && Safe(log)
    && (Quiet(log) ==> Undisturbed(base, table, mine) && mine == Created(log))
    && (Truthful(log) ==>
          owned !! base.Keys
          && (forall a :: a in mine ==> OnUplink(table, uplink, a))
          && mine - owned == Leaks(log, uplink))
  }

  // Each command and each change of the owned set keeps Core.

  lemma LogGrows(log: seq<Event>, e: Event)
    ensures Safe(log + [e]) <==> Safe(log) && Safe([e])
    ensures Quiet(log + [e]) <==> Quiet(log) && Quiet([e])
    ensures Truthful(log + [e]) <==> Truthful(log) && Truthful([e])
    ensures Reliable(log + [e]) <==> Reliable(log) && Reliable([e])
    ensures (log + [e])[..|log|] == log
  {
    var l := log + [e];
    assert l[|log|] == e && [e][0] == e;
    assert forall i :: 0 <= i < |log| ==> l[i] == log[i];
  }

  lemma TwoEvents(log: seq<Event>, e1: Event, e2: Event)
    ensures (log + [e1] + [e2])[|log|..] == [e1, e2]
  {
    assert log + [e1] + [e2] == log + [e1, e2];
  }

  lemma SetLog(log: seq<Event>, e: Event)
    requires e.SetRun?
    ensures (log + [e])[|log|..] == [e] && Quiet([e]) && TriedOrBlind([e], e.target)
    ensures AdditionsWork([e]) ==> e.made.Some?
    ensures Reliable([e]) && e.made.Some? ==> e.ok && e.routed
  {
    LogGrows(log, e);
    assert [e][0] == e;
  }

  lemma SetListedLog(log: seq<Event>, e: Event, listed: bool)
    requires e.SetRun?
    ensures var l := log + [e] + [Listed(listed)];
            Quiet(l[|log|..]) && TriedOrBlind(l[|log|..], e.target)
            && (AdditionsWork(l[|log|..]) ==> e.made.Some?)
            && (Reliable(l) ==> Reliable(log) && Reliable(l[|log|..]))
            && (Reliable(l[|log|..]) ==> listed && (e.made.Some? ==> e.ok && e.routed))
  {
    TwoEvents(log, e, Listed(listed));
    LogGrows(log, e);
    LogGrows(log + [e], Listed(listed));
    assert [e, Listed(listed)][0] == e && [e][0] == e && [Listed(listed)][0] == Listed(listed);
  }

  lemma KeepListed(base: Table, table: Table, mine: set<NetAddr>, owned: set<NetAddr>,
                   log: seq<Event>, uplink: string, ok: bool)
    requires Core(base, table, mine, owned, log, uplink)
    requires ok ==> Confirmed(log, uplink)
    ensures Core(base, table, mine, owned, log + [Listed(ok)], uplink)
  {
    LogGrows(log, Listed(ok));
  }

  lemma KeepAdopted(base: Table, table: Table, mine: set<NetAddr>, owned: set<NetAddr>,
                    log: seq<Event>, uplink: string, a: NetAddr)
    requires Core(base, table, mine, owned, log, uplink)
    requires |log| > 0 && Confirmable(log[|log| - 1], uplink) && log[|log| - 1].target == a
    requires log[|log| - 1].held == (a in owned)
    requires Truthful(log) ==> a !in base && a !in Leaks(log[..|log| - 1], uplink)
    requires a in mine
    ensures Core(base, table, mine, owned + {a}, log + [Listed(true)], uplink)
  {
    LogGrows(log, Listed(true));
    var l := log + [Listed(true)];
    assert l[|l| - 2] == log[|log| - 1] && l[..|l| - 2] == log[..|log| - 1];
    assert Leaks(l, uplink) == Leaks(log[..|log| - 1], uplink);
  }

  lemma KeepSet(base: Table, table: Table, mine: set<NetAddr>, owned: set<NetAddr>,
                log: seq<Event>, uplink: string, e: Event)
    requires Core(base, table, mine, owned, log, uplink)
    requires e.SetRun? && e.vacant && e.target !in table && e.held == (e.target in owned)
    requires e.routed && e.made.Some? ==> e.made.value == Entry(uplink, true)
    ensures Core(base,
                 if e.made.Some? then table[e.target := e.made.value] else table,
                 if e.made.Some? then mine + {e.target} else mine,
                 owned, log + [e], uplink)
    ensures Truthful(log) ==> e.target !in base && e.target !in Leaks(log, uplink)
  {
    LogGrows(log, e);
    var t := if e.made.Some? then table[e.target := e.made.value] else table;
    var m := if e.made.Some? then mine + {e.target} else mine;
    assert Quiet(log) ==> t - m == table - mine;
  }

  lemma KeepDelete(base: Table, table: Table, mine: set<NetAddr>, owned: set<NetAddr>,
                   log: seq<Event>, uplink: string, e: Event)
    requires Core(base, table, mine, owned, log, uplink)
    requires e.DeleteRun? && e.ours && e.target in mine && e.target in owned
    ensures Core(base,
                 if e.gone then table - {e.target} else table,
                 if e.gone then mine - {e.target} else mine,
                 owned, log + [e], uplink)
  {
    LogGrows(log, e);
    var t := if e.gone then table - {e.target} else table;
    var m := if e.gone then mine - {e.target} else mine;
    assert t - m == table - mine;
  }

  lemma KeepDisowned(base: Table, table: Table, mine: set<NetAddr>, owned: set<NetAddr>,
                     log: seq<Event>, uplink: string, a: NetAddr)
    requires Core(base, table, mine, owned, log, uplink) && !OnUplink(table, uplink, a)
    ensures Core(base, table, mine, owned - {a}, log, uplink)
    ensures Reliable(log) && owned == mine ==> a !in owned
  {
  }

  lemma KeepEdited(base: Table, table: Table, mine: set<NetAddr>, table': Table, mine': set<NetAddr>,
                   owned: set<NetAddr>, log: seq<Event>, uplink: string)
    requires Core(base, table, mine, owned, log, uplink)
    requires mine' <= table'.Keys
    requires forall a :: a in owned && OnUplink(table', uplink, a) ==> a in mine'
    ensures Core(base, table', mine', owned, log + [Edited], uplink)
    ensures !Quiet(log + [Edited])
  {
    LogGrows(log, Edited);
    assert !Quiet([Edited]) by { assert [Edited][0].Edited?; }
  }

  lemma JoinedConduct(a: seq<Event>, b: seq<Event>)
    ensures Quiet(a + b) <==> Quiet(a) && Quiet(b)
    ensures Truthful(a + b) <==> Truthful(a) && Truthful(b)
    ensures Reliable(a + b) <==> Reliable(a) && Reliable(b)
  {
    assert forall i :: 0 <= i < |a| ==> (a + b)[i] == a[i];
    assert forall i :: 0 <= i < |b| ==> (a + b)[|a| + i] == b[i];
  }

  lemma JoinedEffects(a: seq<Event>, b: seq<Event>)
    ensures OnlyListings(a + b) <==> OnlyListings(a) && OnlyListings(b)
    ensures DeletionsWork(a + b) <==> DeletionsWork(a) && DeletionsWork(b)
    ensures AdditionsWork(a + b) <==> AdditionsWork(a) && AdditionsWork(b)
    ensures NoAdditions(a + b) <==> NoAdditions(a) && NoAdditions(b)
  {
    assert forall i :: 0 <= i < |a| ==> (a + b)[i] == a[i];
    assert forall i :: 0 <= i < |b| ==> (a + b)[|a| + i] == b[i];
  }

  lemma {:induction false} JoinedMishaps(a: seq<Event>, b: seq<Event>)
    ensures Mishaps(a + b) == Mishaps(a) + Mishaps(b)
    decreases |b|
  {
    if |b| == 0 {
      assert a + b == a;
    } else {
      var n := |b| - 1;
      assert (a + b)[..|a| + n] == a + b[..n] && (a + b)[|a| + n] == b[n];
      JoinedMishaps(a, b[..n]);
    }
  }

  lemma MishapsSince(n: nat, log1: seq<Event>, log2: seq<Event>)
    requires n <= |log1| && log1 <= log2
    ensures Mishaps(log2[n..]) == Mishaps(log1[n..]) + Mishaps(log2[|log1|..])
  {
    JoinedMishaps(log1[n..], log2[|log1|..]);
    assert log2[n..] == log1[n..] + log2[|log1|..];
  }

  lemma OneMishap(log: seq<Event>, e: Event)
    ensures Mishaps((log + [e])[|log|..]) == if Mishap(e) then 1 else 0
  {
    assert (log + [e])[|log|..] == [e] && [e][..0] == [];
  }

  /** What happened since n is what happened up to log1 and what happened after it. */
  lemma Since(n: nat, log1: seq<Event>, log2: seq<Event>)
    requires n <= |log1| && log1 <= log2
    ensures Quiet(log2[n..]) <==> Quiet(log1[n..]) && Quiet(log2[|log1|..])
    ensures OnlyListings(log2[n..]) <==> OnlyListings(log1[n..]) && OnlyListings(log2[|log1|..])
    ensures DeletionsWork(log2[n..]) <==> DeletionsWork(log1[n..]) && DeletionsWork(log2[|log1|..])
    ensures AdditionsWork(log2[n..]) <==> AdditionsWork(log1[n..]) && AdditionsWork(log2[|log1|..])
    ensures NoAdditions(log2[n..]) <==> NoAdditions(log1[n..]) && NoAdditions(log2[|log1|..])
    ensures Truthful(log2[n..]) <==> Truthful(log1[n..]) && Truthful(log2[|log1|..])
    ensures Reliable(log2[n..]) <==> Reliable(log1[n..]) && Reliable(log2[|log1|..])
    ensures Quiet(log2) ==> Quiet(log1) && Quiet(log2[n..])
    ensures Truthful(log2) ==> Truthful(log1) && Truthful(log2[n..])
    ensures Reliable(log2) ==> Reliable(log1) && Reliable(log2[n..]) && Truthful(log2) && Quiet(log2)
  {
    var a, b := log1[n..], log2[|log1|..];
    JoinedConduct(a, b);
    JoinedEffects(a, b);
    JoinedConduct(log1, b);
    JoinedConduct(log2[..n], log2[n..]);
    assert log2[n..] == a + b && log2 == log1 + b && log2 == log2[..n] + log2[n..];
    assert Reliable(log2) ==> Truthful(log2) && Quiet(log2);
    hide Quiet, OnlyListings, DeletionsWork, AdditionsWork, NoAdditions, Truthful, Reliable;
  }

  /** What keeps an address from being given up: a listing failed, or a deletion of it did not
      take effect. */
  ghost predicate Hindered(log: seq<Event>, a: NetAddr) {
    Stuck(log, a) || ListingFailed(log)
  }

  ghost predicate AllHindered(log: seq<Event>, s: set<NetAddr>) {
    forall a :: a in s ==> Hindered(log, a)
  }

  /** An addition of the address was tried, or a listing failed. */
  ghost predicate TriedOrBlind(log: seq<Event>, a: NetAddr) {
    Tried(log, a) || ListingFailed(log)
  }

  lemma TriedWithin(n: nat, m: nat, log1: seq<Event>, log2: seq<Event>, a: NetAddr)
    requires n <= m <= |log1| && log1 <= log2 && TriedOrBlind(log1[m..], a)
    ensures TriedOrBlind(log2[n..], a)
  {
    var l := log1[m..];
    var i :| 0 <= i < |l| && ((l[i].SetRun? && l[i].target == a) || (l[i].Listed? && !l[i].ok));
    assert log2[n..][m - n + i] == l[i];
  }

  lemma ListedLog(log: seq<Event>, ok: bool, a: NetAddr)
    ensures var l := (log + [Listed(ok)])[|log|..];
            Quiet(l) && OnlyListings(l) && NoAdditions(l) && AdditionsWork(l) && DeletionsWork(l)
            && Truthful(l) && (Reliable(l) <==> ok) && (!ok ==> Hindered(l, a) && TriedOrBlind(l, a))
    ensures Reliable(log + [Listed(ok)]) <==> Reliable(log) && ok
  {
    LogGrows(log, Listed(ok));
    assert (log + [Listed(ok)])[|log|..] == [Listed(ok)] && [Listed(ok)][0] == Listed(ok);
  }

  lemma DeleteLog(log: seq<Event>, e: Event)
    requires e.DeleteRun?
    ensures var l := (log + [e])[|log|..];
            Quiet(l) && NoAdditions(l) && (!e.gone ==> Hindered(l, e.target) && !DeletionsWork(l))
            && (Truthful(l) ==> e.gone ==> e.ok)
    ensures Reliable(log + [e]) ==> Reliable(log)
  {
    LogGrows(log, e);
    assert (log + [e])[|log|..] == [e] && [e][0] == e;
    assert !e.gone ==> Stuck([e], e.target);
  }

  /** What hindered since m, in a shorter log, hindered since n. */
  lemma HinderedWithin(n: nat, m: nat, log1: seq<Event>, log2: seq<Event>, a: NetAddr)
    requires n <= m <= |log1| && log1 <= log2 && Hindered(log1[m..], a)
    ensures Hindered(log2[n..], a)
  {
    var l := log1[m..];
    var i :| 0 <= i < |l| && ((l[i].DeleteRun? && l[i].target == a && !l[i].gone) || (l[i].Listed? && !l[i].ok));
    assert log2[n..][m - n + i] == l[i];
  }

  /** With reliable commands a listing cannot hinder; with working deletions nothing can. */
  lemma ReliablyHindered(log: seq<Event>, s: set<NetAddr>)
    requires Reliable(log) && AllHindered(log, s)
    ensures forall a :: a in s ==> Stuck(log, a)
    ensures DeletionsWork(log) ==> s == {}
  {
    assert !ListingFailed(log);
    if a :| a in s {
      assert Hindered(log, a);
    }
  }

  /** The unwanted owned addresses are those kept after a failure and those still pending. */
  ghost predicate Parted(owned: set<NetAddr>, wanted: set<NetAddr>, kept: set<NetAddr>, pending: set<NetAddr>) {
    kept !! pending && owned - wanted == kept + pending
  }

  lemma NothingKept(owned: set<NetAddr>, wanted: set<NetAddr>)
    ensures Parted(owned, wanted, {}, owned - wanted)
  {
  }

  lemma NothingPending(owned: set<NetAddr>, wanted: set<NetAddr>, kept: set<NetAddr>)
    requires Parted(owned, wanted, kept, {})
    ensures kept == owned - wanted
  {
  }

  /** A pending address is given up, or kept. */
  lemma PendingMoves(owned: set<NetAddr>, wanted: set<NetAddr>, kept: set<NetAddr>, pending: set<NetAddr>, a: NetAddr)
    requires Parted(owned, wanted, kept, pending) && a in pending
    ensures a in owned && a !in kept && Parted(owned - {a}, wanted, kept, pending - {a})
    ensures Parted(owned, wanted, kept + {a}, pending - {a}) && |kept + {a}| == |kept| + 1
  {
  }

  /** Where the loop that gives up addresses stands, since n: done were tried, and kept among
      them failed. */
  ghost predicate GivenUp(table0: Table, owned0: set<NetAddr>, table: Table, owned: set<NetAddr>, uplink: string,
                          n: nat, log: seq<Event>, done: set<NetAddr>, kept: set<NetAddr>, failed: nat)
  {
    n <= |log| && NoAdditions(log[n..]) && failed == |kept| && failed <= Mishaps(log[n..])
    && (Truthful(log[n..]) ==> AllHindered(log[n..], kept))
    && (failed == 0 && Quiet(log[n..]) ==> Withdrawing(table0, owned0, table, owned, uplink, done))
    && (Quiet(log[n..]) ==> table - done == table0 - done)
  }

  lemma NothingGivenUp(table: Table, owned: set<NetAddr>, uplink: string, log: seq<Event>)
    ensures GivenUp(table, owned, table, owned, uplink, |log|, log, {}, {}, 0)
  {
    WithdrawingNothing(table, owned, uplink);
  }

  lemma AllGivenUp(table0: Table, owned0: set<NetAddr>, table: Table, owned: set<NetAddr>, uplink: string,
                   n: nat, log: seq<Event>, done: set<NetAddr>, kept: set<NetAddr>, failed: nat)
    requires GivenUp(table0, owned0, table, owned, uplink, n, log, done, kept, failed)
    ensures NoAdditions(log[n..]) && failed == |kept| && failed <= Mishaps(log[n..])
    ensures Truthful(log[n..]) ==> AllHindered(log[n..], kept)
    ensures failed == 0 && Quiet(log[n..]) ==> Withdrawing(table0, owned0, table, owned, uplink, done)
    ensures Quiet(log[n..]) ==> table - done == table0 - done
    ensures Reliable(log[n..]) ==> forall a :: a in kept ==> Stuck(log[n..], a)
    ensures Reliable(log[n..]) && DeletionsWork(log[n..]) ==> failed == 0
  {
    if Reliable(log[n..]) {
      ReliablyHindered(log[n..], kept);
    }
  }

  /** One more round: whatever could not be given up before is still hindered. */
  lemma GiveUpMore(table0: Table, owned0: set<NetAddr>, table1: Table, owned1: set<NetAddr>,
                   table2: Table, owned2: set<NetAddr>, uplink: string, n: nat, log1: seq<Event>, log2: seq<Event>,
                   done: set<NetAddr>, kept: set<NetAddr>, failed: nat, a: NetAddr, f: Option<Failure>)
    requires GivenUp(table0, owned0, table1, owned1, uplink, n, log1, done, kept, failed)
    requires log1 <= log2 && NoAdditions(log2[|log1|..]) && a !in kept
    requires f == None && Quiet(log2[|log1|..]) ==> Withdrawing(table1, owned1, table2, owned2, uplink, {a})
    requires Truthful(log2[|log1|..]) && f.Some? ==> Hindered(log2[|log1|..], a)
    requires Quiet(log2[|log1|..]) ==> table2 - {a} == table1 - {a}
    requires f.Some? ==> Mishaps(log2[|log1|..]) > 0
    ensures GivenUp(table0, owned0, table2, owned2, uplink, n, log2, done + {a},
                    if f.Some? then kept + {a} else kept, if f.Some? then failed + 1 else failed)
  {
    hide Hindered, Withdrawing, Mishaps;
    Since(n, log1, log2);
    MishapsSince(n, log1, log2);
    if Truthful(log2[n..]) {
      forall x | x in kept
        ensures Hindered(log2[n..], x)
      {
        HinderedWithin(n, n, log1, log2, x);
      }
      if f.Some? {
        HinderedWithin(n, |log1|, log2, log2, a);
      }
    }
    if Quiet(log2[n..]) {
      assert table2 - (done + {a}) == (table2 - {a}) - done;
      assert table0 - (done + {a}) == (table0 - done) - {a};
      assert (table1 - {a}) - done == (table1 - done) - {a};
    }
    if f == None && failed == 0 && Quiet(log2[n..]) {
      WithdrawingMore(table0, owned0, table1, owned1, table2, owned2, uplink, done, a);
    }
  }

  /** The wanted addresses without a proxy on the uplink. */
  ghost function Missing(table: Table, uplink: string, wanted: set<NetAddr>): set<NetAddr> {
    set a | a in wanted && !OnUplink(table, uplink, a)
  }

  /** One round of the first loop, whatever fails: it touches no other address, a round without
      failure leaves the proxy, and an address that could be proxied and is not was tried. */
  ghost predicate Visited(table0: Table, table: Table, route: NetAddr -> Option<string>, uplink: string,
                          log: seq<Event>, a: NetAddr, failed: bool)
  {
    table - {a} == table0 - {a} && (!failed ==> OnUplink(table, uplink, a))
    && (CanProxy(table0, route, uplink, a) && !OnUplink(table, uplink, a) ==> TriedOrBlind(log, a))
  }

  /** The rounds for the addresses done. */
  ghost predicate Visiting(table0: Table, table: Table, route: NetAddr -> Option<string>, uplink: string,
                           log: seq<Event>, done: set<NetAddr>, failed: nat)
  {
    table - done == table0 - done && |Missing(table, uplink, done)| <= failed
    && AllTried(table0, table, route, uplink, log, done)
  }

  /** Each of the addresses that could be proxied and is not was tried, or a listing failed. */
  ghost predicate AllTried(table0: Table, table: Table, route: NetAddr -> Option<string>, uplink: string,
                           log: seq<Event>, done: set<NetAddr>)
  {
    forall a :: a in done && CanProxy(table0, route, uplink, a) && !OnUplink(table, uplink, a) ==> TriedOrBlind(log, a)
  }

  lemma VisitingNothing(table: Table, route: NetAddr -> Option<string>, uplink: string)
    ensures Visiting(table, table, route, uplink, [], {}, 0)
  {
    assert Missing(table, uplink, {}) == {};
  }

  lemma SameElsewhere(table0: Table, table: Table, done: set<NetAddr>, x: NetAddr)
    requires table - done == table0 - done && x !in done
    ensures (x in table <==> x in table0) && (x in table ==> table[x] == table0[x])
  {
    assert x in table <==> x in table - done;
    assert x in table0 <==> x in table0 - done;
    if x in table {
      assert (table - done)[x] == table[x];
      assert (table0 - done)[x] == table0[x];
    }
  }

  lemma MissingMore(table1: Table, table2: Table, uplink: string, done: set<NetAddr>, a: NetAddr, failed: bool)
    requires table2 - {a} == table1 - {a} && a !in done && (!failed ==> OnUplink(table2, uplink, a))
    ensures |Missing(table2, uplink, done + {a})| <= |Missing(table1, uplink, done)| + if failed then 1 else 0
  {
    var m1, m2 := Missing(table1, uplink, done), Missing(table2, uplink, done + {a});
    forall x | x in done
      ensures OnUplink(table2, uplink, x) <==> OnUplink(table1, uplink, x)
    {
      SameElsewhere(table1, table2, {a}, x);
    }
    assert m2 == if OnUplink(table2, uplink, a) then m1 else m1 + {a};
  }

  lemma VisitingMore(table0: Table, table1: Table, table2: Table, route: NetAddr -> Option<string>, uplink: string,
                     n: nat, log1: seq<Event>, log2: seq<Event>, done: set<NetAddr>, a: NetAddr,
                     failures: nat, failed: bool)
    requires n <= |log1| && log1 <= log2 && a !in done
    requires Visiting(table0, table1, route, uplink, log1[n..], done, failures)
    requires Visited(table1, table2, route, uplink, log2[|log1|..], a, failed)
    ensures Visiting(table0, table2, route, uplink, log2[n..], done + {a}, failures + if failed then 1 else 0)
  {
    hide TriedOrBlind;
    MissingMore(table1, table2, uplink, done, a, failed);
    SameElsewhere(table0, table1, done, a);
    assert table2 - (done + {a}) == (table2 - {a}) - done;
    assert table0 - (done + {a}) == (table0 - done) - {a};
    assert (table1 - {a}) - done == (table1 - done) - {a};
    forall x | x in done + {a} && CanProxy(table0, route, uplink, x) && !OnUplink(table2, uplink, x)
      ensures TriedOrBlind(log2[n..], x)
    {
      if x == a {
        TriedWithin(n, |log1|, log2, log2, a);
      } else {
        SameElsewhere(table1, table2, {a}, x);
        TriedWithin(n, n, log1, log2, x);
      }
    }
  }

  /** Where the first loop stands: done were visited, and so many rounds failed. */
  ghost predicate FirstLoop(table0: Table, owned0: set<NetAddr>, table: Table, owned: set<NetAddr>,
                            route: NetAddr -> Option<string>, uplink: string, log: seq<Event>,
                            wanted: set<NetAddr>, done: set<NetAddr>, failed: nat)
  {
    (failed == 0 && Quiet(log) ==>
       Ensuring(table0, owned0, table, owned, uplink, done) && AllCanProxy(table0, route, uplink, done))
    && (AllOnUplink(table0, uplink, wanted) && Quiet(log) ==>
          OnlyListings(log) && table == table0 && owned == owned0)
    && (Reliable(log) && AdditionsWork(log) ==>
          (AllCanProxy(table0, route, uplink, wanted) ==> failed == 0)
          && EnsuringPart(table0, owned0, table, owned, route, uplink, done))
    && (Quiet(log) ==> Visiting(table0, table, route, uplink, log, done, failed))
  }

  /** One round of it. */
  ghost predicate FirstLoopRound(table0: Table, owned0: set<NetAddr>, table: Table, owned: set<NetAddr>,
                                 route: NetAddr -> Option<string>, uplink: string, log: seq<Event>,
                                 a: NetAddr, failed: bool)
  {
    (!failed && Quiet(log) ==>
       Ensuring(table0, owned0, table, owned, uplink, {a}) && CanProxy(table0, route, uplink, a))
    && (OnUplink(table0, uplink, a) && Quiet(log) ==> OnlyListings(log) && table == table0 && owned == owned0)
    && (Reliable(log) && AdditionsWork(log) ==>
          (CanProxy(table0, route, uplink, a) ==> !failed)
          && EnsuringPart(table0, owned0, table, owned, route, uplink, {a}))
    && (Quiet(log) ==> Visited(table0, table, route, uplink, log, a, failed))
  }

  lemma FirstLoopStarts(table: Table, owned: set<NetAddr>, route: NetAddr -> Option<string>, uplink: string,
                        wanted: set<NetAddr>)
    ensures FirstLoop(table, owned, table, owned, route, uplink, [], wanted, {}, 0)
  {
    EnsuringNothing(table, owned, uplink);
    EnsuringNoPart(table, owned, route, uplink);
    VisitingNothing(table, route, uplink);
  }

  lemma FirstLoopMore(table0: Table, owned0: set<NetAddr>, table1: Table, owned1: set<NetAddr>,
                      table2: Table, owned2: set<NetAddr>, route: NetAddr -> Option<string>, uplink: string,
                      n: nat, log1: seq<Event>, log2: seq<Event>, wanted: set<NetAddr>, done: set<NetAddr>,
                      failures: nat, a: NetAddr, failed: bool)
    requires n <= |log1| && log1 <= log2 && a in wanted && a !in done
    requires FirstLoop(table0, owned0, table1, owned1, route, uplink, log1[n..], wanted, done, failures)
    requires FirstLoopRound(table1, owned1, table2, owned2, route, uplink, log2[|log1|..], a, failed)
    ensures FirstLoop(table0, owned0, table2, owned2, route, uplink, log2[n..], wanted, done + {a},
                      failures + if failed then 1 else 0)
  {
    hide Ensuring, EnsuringPart, CanProxy, Visiting, Visited, OnUplink;
    hide Quiet, OnlyListings, AdditionsWork;
    Since(n, log1, log2);
    ReliableIsQuiet(log2[n..]);
    if Reliable(log2[n..]) && AdditionsWork(log2[n..]) {
      EnsureOneMore(table0, owned0, table1, owned1, table2, owned2, route, uplink, done, a);
    }
    if Quiet(log2[n..]) {
      VisitingMore(table0, table1, table2, route, uplink, n, log1, log2, done, a, failures, failed);
      if failures == 0 && !failed {
        EnsuringElsewhere(table0, owned0, table1, owned1, route, uplink, done, a);
        EnsuringMore(table0, owned0, table1, owned1, table2, owned2, uplink, done, {a});
      }
    }
  }

  lemma FirstLoopEnds(table0: Table, owned0: set<NetAddr>, table: Table, owned: set<NetAddr>,
                      route: NetAddr -> Option<string>, uplink: string, log: seq<Event>, wanted: set<NetAddr>,
                      failed: nat)
    requires FirstLoop(table0, owned0, table, owned, route, uplink, log, wanted, wanted, failed)
    ensures failed == 0 && Quiet(log) ==>
              Ensuring(table0, owned0, table, owned, uplink, wanted) && AllCanProxy(table0, route, uplink, wanted)
    ensures AllOnUplink(table0, uplink, wanted) && Quiet(log) ==>
              OnlyListings(log) && table == table0 && owned == owned0
    ensures Reliable(log) && AdditionsWork(log) ==>
              (AllCanProxy(table0, route, uplink, wanted) ==> failed == 0)
              && EnsuringPart(table0, owned0, table, owned, route, uplink, wanted)
    ensures Quiet(log) ==> Visiting(table0, table, route, uplink, log, wanted, failed)
  {
  }

  lemma ReliableIsQuiet(log: seq<Event>)
    ensures Reliable(log) ==> Quiet(log)
  {
  }

  /** The second loop leaves the wanted addresses as the first one left them. */
  lemma StillMissing(table0: Table, table1: Table, table2: Table, route: NetAddr -> Option<string>, uplink: string,
                     n: nat, log1: seq<Event>, log2: seq<Event>, wanted: set<NetAddr>, gone: set<NetAddr>,
                     failures: nat)
    requires n <= |log1| && log1 <= log2 && gone !! wanted && table2 - gone == table1 - gone
    requires Visiting(table0, table1, route, uplink, log1[n..], wanted, failures)
    ensures |Missing(table2, uplink, wanted)| <= failures
    ensures AllTried(table0, table2, route, uplink, log2[n..], wanted)
  {
    hide TriedOrBlind;
    forall x | x in wanted
      ensures OnUplink(table2, uplink, x) <==> OnUplink(table1, uplink, x)
      ensures CanProxy(table0, route, uplink, x) && !OnUplink(table2, uplink, x) ==> TriedOrBlind(log2[n..], x)
    {
      SameElsewhere(table1, table2, gone, x);
      if CanProxy(table0, route, uplink, x) && !OnUplink(table2, uplink, x) {
        TriedWithin(n, n, log1, log2, x);
      }
    }
    assert Missing(table2, uplink, wanted) == Missing(table1, uplink, wanted);
  }

  /** If commands have been reliable from the start every owned address has its proxy, so no
      conflict disowns one: what is partly owned is what synchronizing with the proxiable
      addresses leaves. */
  lemma ReliablyOwned(base: Table, table: Table, mine: set<NetAddr>, owned: set<NetAddr>, log: seq<Event>,
                      route: NetAddr -> Option<string>, uplink: string, wanted: set<NetAddr>)
    requires Core(base, table, mine, owned, log, uplink) && Reliable(log) && owned == mine
    ensures PartlyOwned(table, owned, route, uplink, wanted)
            == SyncedOwned(table, owned, Proxiable(table, route, uplink, wanted))
  {
    assert forall a :: a in owned ==> OnUplink(table, uplink, a);
  }

  /** The two loops with working commands: an address that cannot be proxied is left alone by
      the second loop too, whether it is wanted or not. */
  lemma BothLoopsInPart(table0: Table, owned0: set<NetAddr>, table1: Table, owned1: set<NetAddr>,
                        table2: Table, owned2: set<NetAddr>, route: NetAddr -> Option<string>,
                        uplink: string, wanted: set<NetAddr>)
    requires EnsuringPart(table0, owned0, table1, owned1, route, uplink, wanted)
    requires Withdrawing(table1, owned1, table2, owned2, uplink, owned1 - wanted)
    ensures table2 == SyncedTable(table0, owned0, uplink, Proxiable(table0, route, uplink, wanted))
    ensures owned2 == PartlyOwned(table0, owned0, route, uplink, wanted)
  {
    var proxiable := Proxiable(table0, route, uplink, wanted);
    assert owned1 - wanted == owned0 - wanted;
    forall a | a in (owned0 - proxiable) - (owned0 - wanted)
      ensures !OnUplink(table1, uplink, a)
    {
      assert a in wanted && !CanProxy(table0, route, uplink, a);
    }
    assert Withdrawn(table1, uplink, owned0 - wanted) == Withdrawn(table1, uplink, owned0 - proxiable);
  }

  /** With reliable commands the starting table is changed by exactly the owned proxies. */
  lemma ReliableIsExact(base: Table, table: Table, mine: set<NetAddr>, owned: set<NetAddr>,
                        log: seq<Event>, uplink: string)
    requires Core(base, table, mine, owned, log, uplink) && Reliable(log) && owned == mine
    ensures Exact(base, table, owned, uplink)
  {
    assert forall a :: a in table ==> a in mine || (a in base && base[a] == table[a]);
  }

  /** A leaked address stays leaked, whatever is issued later. */
  lemma {:induction false} LeaksStay(log1: seq<Event>, log2: seq<Event>, uplink: string)
    requires log1 <= log2 && Confirmed(log1, uplink)
    ensures Leaks(log1, uplink) <= Leaks(log2, uplink)
    decreases |log2|
  {
    var n := |log2| - 1;
    if |log1| < |log2| {
      LeaksStay(log1, log2[..n], uplink);
      if log2[n].Listed? && log2[n].ok && n > 0 && Confirmable(log2[n - 1], uplink) {
        assert n == |log1| ==> log1[n - 1] == log2[n - 1];
        LeaksStay(log1, log2[..n - 1], uplink);
      }
    } else {
      assert log1 == log2;
    }
  }

  /** Without further additions nothing more is leaked. */
  lemma {:induction false} LeaksKept(log1: seq<Event>, log2: seq<Event>, uplink: string)
    requires log1 <= log2 && Confirmed(log1, uplink) && NoAdditions(log2[|log1|..])
    ensures Leaks(log2, uplink) == Leaks(log1, uplink)
    decreases |log2|
  {
    var n := |log2| - 1;
    if |log1| < |log2| {
      assert log2[|log1|..][n - |log1|] == log2[n];
      assert log2[..n][|log1|..] == log2[|log1|..][..n - |log1|];
      LeaksKept(log1, log2[..n], uplink);
      if n > 0 {
        assert if n == |log1| then log2[n - 1] == log1[n - 1] else log2[n - 1] == log2[|log1|..][n - 1 - |log1|];
      }
    } else {
      assert log1 == log2;
    }
  }

  /** Without further additions what is left of the created entries is what was not deleted. */
  lemma {:induction false} CreatedAfter(log1: seq<Event>, log2: seq<Event>)
    requires log1 <= log2 && NoAdditions(log2[|log1|..])
    ensures Created(log2) == Created(log1) - DeletedIn(log2[|log1|..])
    decreases |log2|
  {
    var n := |log2| - 1;
    if |log1| < |log2| {
      var since := log2[|log1|..];
      assert since[n - |log1|] == log2[n];
      assert log2[..n][|log1|..] == since[..n - |log1|];
      CreatedAfter(log1, log2[..n]);
      assert since == since[..n - |log1|] + [log2[n]];
      DeletedMore(since[..n - |log1|], log2[n]);
    } else {
      assert log1 == log2;
    }
  }

  lemma DeletedMore(log: seq<Event>, e: Event)
    ensures DeletedIn(log + [e]) == DeletedIn(log) + (if e.DeleteRun? && e.gone then {e.target} else {})
  {
    var l := log + [e];
    assert l[|log|] == e;
    forall a
      ensures a in DeletedIn(l) <==> a in DeletedIn(log) || (e.DeleteRun? && e.gone && a == e.target)
    {
      if a in DeletedIn(log) {
        var i :| 0 <= i < |log| && log[i].DeleteRun? && log[i].gone && log[i].target == a;
        assert l[i] == log[i];
      }
    }
  }

  /** On a table nobody else edits the starting table is back after some removals exactly when
      they deleted every entry there was, even if commands lie. With truthful commands, but
      listings that may fail, that takes that nothing was leaked before. */
  lemma RestoredIff(base: Table, table: Table, mine: set<NetAddr>, owned: set<NetAddr>,
                    log1: seq<Event>, log2: seq<Event>, uplink: string)
    requires Core(base, table, mine, owned, log2, uplink) && Quiet(log2)
    requires log1 <= log2 && Confirmed(log1, uplink) && NoAdditions(log2[|log1|..])
    ensures table == base <==> Created(log1) <= DeletedIn(log2[|log1|..])
    ensures Truthful(log2) ==> (table == base <==> Leaks(log1, uplink) == {} && owned !! table.Keys)
  {
    CreatedAfter(log1, log2);
    if table == base {
      assert mine !! base.Keys by { assert base == table - mine; }
      assert mine == {};
      forall a | a in Created(log1)
        ensures a in DeletedIn(log2[|log1|..])
      {
        assert a !in Created(log1) - DeletedIn(log2[|log1|..]);
      }
    } else {
      assert table - {} == table;
      assert mine != {};
    }
    if Truthful(log2) {
      LeaksKept(log1, log2, uplink);
    }
  }

  /** An entry once leaked is never owned and never removed: with truthful commands the table
      differs from the starting one for good. */
  lemma LeakedForGood(base: Table, table: Table, mine: set<NetAddr>, owned: set<NetAddr>,
                      log1: seq<Event>, log2: seq<Event>, uplink: string, a: NetAddr)
    requires Core(base, table, mine, owned, log2, uplink) && Truthful(log2)
    requires log1 <= log2 && Confirmed(log1, uplink) && a in Leaks(log1, uplink)
    ensures a in table && a !in owned && a !in base
  {
    LeaksStay(log1, log2, uplink);
    assert a in mine - owned;
    assert base == table - mine;
  }

  /** The log of one Ensure whose -s works and whose second listing fails. */
  function LeakyLog(a: NetAddr, uplink: string): seq<Event> {
    [Listed(true), SetRun(a, true, false, true, Some(Entry(uplink, true)), true), Listed(false)]
  }

  lemma LeakyLogLeaks(log: seq<Event>, a: NetAddr, uplink: string)
    ensures Leaks(log + LeakyLog(a, uplink), uplink) == Leaks(log + [Listed(true)], uplink) + {a}
  {
    var l, n := log + LeakyLog(a, uplink), |log|;
    assert l[n + 2] == Listed(false) && l[n + 1] == LeakyLog(a, uplink)[1];
    assert l[..n + 2][..n + 1] == log + [Listed(true)];
    assert l[..n + 2][n + 1] == l[n + 1];
  }

  /** The invariant of a run allows it: a listing that fails right after a successful -s leaves
      an entry with every command truthful, nothing owned, and the table changed. */
  lemma FailedListingLeaks(base: Table, a: NetAddr, uplink: string)
    requires a !in base
    ensures Leaks(LeakyLog(a, uplink), uplink) == {a} && Truthful(LeakyLog(a, uplink))
    ensures Core(base, base[a := Entry(uplink, true)], {a}, {}, LeakyLog(a, uplink), uplink)
    ensures base[a := Entry(uplink, true)] != base
  {
    var log := LeakyLog(a, uplink);
    assert log[..2][..1] == [Listed(true)] && log[..2][..1][..0] == [];
    assert log[..2][1] == log[1];
    LogGrows([], Listed(true));
    assert [] + [Listed(true)] == log[..2][..1];
    assert Leaks(log[..2][..1], uplink) == {};
    assert Created(log[..2][..1]) == Created(log[..2][..1][..0]);
    assert Leaks(log[..2], uplink) == {a} && Created(log[..2]) == {a};
    var table := base[a := Entry(uplink, true)];
    assert table - {a} == base;
  }

  /** What the route pre-check is for: an addition for an address without entry, which installs
      a proxy where the address routes, keeps the table at the starting table plus owned
      proxies exactly when it routes through the uplink. */
  lemma RouteCheckNeeded(base: Table, table: Table, owned: set<NetAddr>, uplink: string,
                         route: NetAddr -> Option<string>, a: NetAddr, made: Entry, after: Table)
    requires Exact(base, table, owned, uplink) && a !in table && after == table[a := made]
    requires made.proxy && route(a) == Some(made.ifname)
    ensures (exists o :: Exact(base, after, o, uplink)) <==> route(a) == Some(uplink)
  {
    if made.ifname == uplink {
      assert after == base + map x | x in owned + {a} :: Entry(uplink, true);
      assert Exact(base, after, owned + {a}, uplink);
    }
    forall o | Exact(base, after, o, uplink)
      ensures made.ifname == uplink
    {
      assert a in after && a !in base;
    }
  }

  class BsdProxyResponder {
    const host: NdpHost
    const uplink: string
    var owned: set<NetAddr>
    ghost const base: Table  // the table when this process started

    /** What holds between calls. */
    ghost predicate Valid()
      reads this, host
    {
      host.Valid()
      && Core(base, host.table, host.mine, owned, host.log, uplink)
      && Confirmed(host.log, uplink)
      && (Reliable(host.log) ==> owned == host.mine)
    }

    constructor (host: NdpHost, uplink: string)
      requires host.Valid() && host.mine == {} && host.log == []
      ensures Valid() && this.host == host && this.uplink == uplink && base == host.table
      ensures owned == {}
    {
      this.host, this.uplink, this.owned, this.base := host, uplink, {}, host.table;
      new;
      assert host.table - {} == host.table;
    }

    method List() returns (ok: bool, entries: Table)
      requires host.Valid()
      modifies host`log
      ensures host.log == old(host.log) + [Listed(ok)]
      ensures ok ==> entries == host.table
    {
      var output;
      ok, output := host.RunList();
      entries := NdpEntries(host.parse, output);
    }

    /** The route pre-check: succeeds exactly when the target routes through the uplink. */
    method CheckTargetRoute(target: NetAddr) returns (f: Option<Failure>)
      ensures f == None <==> uplink != "" && host.route(target) == Some(uplink)
      ensures f.Some? ==> !f.value.Conflict?
    {
      if uplink == "" {
        return Some(NoUplink);
      }
      match host.route(target) {
        case None => f := Some(NoRoute(target));
        case Some(ifname) => f := if ifname != uplink then Some(OtherRoute(target, ifname)) else None;
      }
    }

    /** Makes sure that the target has a proxy on the uplink, without touching any entry that
        is already there. */
    method Ensure(target: NetAddr) returns (f: Option<Failure>)
      requires Valid()
      modifies this, host
      ensures Valid()
      ensures old(host.log) <= host.log && Quiet(host.log[|old(host.log)|..])
      ensures f == None ==>
                OnUplink(host.table, uplink, target)
                && host.table == Ensured(old(host.table), uplink, {target})
                && owned == old(owned) + ({target} - old(host.table).Keys)
      // It succeeds only if the address can be proxied, and then unless a command fails.
      ensures f == None ==> CanProxy(old(host.table), host.route, uplink, target)
      ensures (Reliable(host.log[|old(host.log)|..]) && AdditionsWork(host.log[|old(host.log)|..])
                  && CanProxy(old(host.table), host.route, uplink, target)) ==> f == None
      // Only the target's own entry and ownership can change, and an entry that was there stays.
      ensures host.table - {target} == old(host.table) - {target}
      ensures owned - {target} == old(owned) - {target}
      ensures target in old(host.table) ==>
                host.table == old(host.table) && OnlyListings(host.log[|old(host.log)|..])
      ensures OnUplink(old(host.table), uplink, target) ==> owned == old(owned)
      // Without a route through the uplink nothing but a listing is issued.
      ensures !CanProxy(old(host.table), host.route, uplink, target) ==>
                f.Some? && host.table == old(host.table) && OnlyListings(host.log[|old(host.log)|..])
      // An address without entry that routes through the uplink has its addition tried.
      ensures CanProxy(old(host.table), host.route, uplink, target) && !OnUplink(host.table, uplink, target) ==>
                TriedOrBlind(host.log[|old(host.log)|..], target)
      // A conflicting entry is reported, and no longer taken for ours.
      ensures target in old(host.table) && !OnUplink(old(host.table), uplink, target) ==>
                f == Some(Conflict(target, old(host.table)[target]))
                || (f == Some(ListFailed) && !Reliable(host.log[|old(host.log)|..]))
      ensures f.Some? && f.value.Conflict? ==> target in old(host.table) && !OnUplink(old(host.table), uplink, target)
      ensures f.Some? ==> owned == if f.value.Conflict? then old(owned) - {target} else old(owned)
    {
      hide Core, Leaks, Quiet, OnlyListings, AdditionsWork, DeletionsWork, NoAdditions, Truthful, Reliable, Hindered;
      hide TriedOrBlind;
      var ok, entries := List();
      KeepListed(base, host.table, host.mine, owned, old(host.log), uplink, ok);
      ListedLog(old(host.log), ok, target);
      if !ok {
        return Some(ListFailed);
      }
      if target in entries {
        var entry := entries[target];
        if entry.proxy && entry.ifname == uplink {
          assert host.table == Ensured(host.table, uplink, {target});
          return None;
        }
        KeepDisowned(base, host.table, host.mine, owned, host.log, uplink, target);
        owned := owned - {target};
        return Some(Conflict(target, entry));
      }
      f := CheckTargetRoute(target);
      if f == None {
        ghost var log1 := host.log;
        f := Add(target);
        Since(|old(host.log)|, log1, host.log);
        TriedWithin(|old(host.log)|, |log1|, host.log, host.log, target);
      }
    }

    /** An Ensure whose -s works and whose second listing fails: the entry is left and not owned.
        See also LeakedForGood. */
    method EnsureUnconfirmed(target: NetAddr) returns (f: Option<Failure>)
      requires Valid() && target !in owned
      modifies this, host
      ensures Valid()
      ensures old(host.log) <= host.log
      ensures Truthful(host.log) && host.log == old(host.log) + LeakyLog(target, uplink) ==>
                f.Some? && target !in owned && target in Leaks(host.log, uplink)
                && target in host.table && host.table != base
    {
      ghost var log0 := host.log;
      f := Ensure(target);
      if Truthful(host.log) && host.log == log0 + LeakyLog(target, uplink) {
        LeakyLogLeaks(log0, target, uplink);
        assert host.log[|log0|..] == LeakyLog(target, uplink);
        assert !OnlyListings(LeakyLog(target, uplink)) by { assert LeakyLog(target, uplink)[1].SetRun?; }
        LeakedForGood(base, host.table, host.mine, owned, host.log, host.log, uplink, target);
      }
    }

    /** The rest of Ensure: creates the entry and adopts it once a listing shows it. */
    method Add(target: NetAddr) returns (f: Option<Failure>)
      requires Valid() && target !in host.table && host.route(target) == Some(uplink)
      modifies this, host
      ensures Valid()
      ensures old(host.log) <= host.log && Quiet(host.log[|old(host.log)|..])
      ensures f == None ==>
                host.table == Ensured(old(host.table), uplink, {target}) && owned == old(owned) + {target}
      ensures host.table - {target} == old(host.table)
      ensures f.Some? ==> owned == old(owned) && !f.value.Conflict?
      ensures TriedOrBlind(host.log[|old(host.log)|..], target)
      ensures Reliable(host.log[|old(host.log)|..]) && AdditionsWork(host.log[|old(host.log)|..]) ==> f == None
    {
      hide Core, Leaks, Quiet, Reliable, AdditionsWork, TriedOrBlind;
      ghost var log0 := host.log;
      var ok;
      ghost var e;
      ok, e := host.RunSet(target, target in owned);
      KeepSet(base, old(host.table), old(host.mine), owned, log0, uplink, e);
      LogGrows(log0, e);
      SetLog(log0, e);
      assert host.table - {target} == old(host.table);
      if !ok {
        return Some(AddFailed(target));
      }
      ghost var log1 := host.log;
      var listed, entries := List();
      SetListedLog(log0, e, listed);
      if listed && target in entries && entries[target] == Entry(uplink, true) {
        KeepAdopted(base, host.table, host.mine, owned, log1, uplink, target);
        owned := owned + {target};
        assert host.table == Ensured(old(host.table), uplink, {target});
        return None;
      }
      KeepListed(base, host.table, host.mine, owned, log1, uplink, listed);
      f := if listed then Some(NotCreated(target)) else Some(ListFailed);
    }

    /** Gives up an owned address: deletes its proxy if the table still has it. */
    method Remove(target: NetAddr) returns (f: Option<Failure>)
      requires Valid() && target in owned
      modifies this, host
      ensures Valid()
      ensures old(host.log) <= host.log && Quiet(host.log[|old(host.log)|..])
      ensures f == None ==>
                host.table == Withdrawn(old(host.table), uplink, {target}) && owned == old(owned) - {target}
      ensures f.Some? ==> owned == old(owned)
      // Only the target's entry can change, and only if it is a proxy on the uplink.
      ensures host.table - {target} == old(host.table) - {target}
      ensures !OnUplink(old(host.table), uplink, target) ==> host.table == old(host.table)
      // It adds nothing, and fails only if a listing failed or the deletion did not work.
      ensures NoAdditions(host.log[|old(host.log)|..])
      ensures Truthful(host.log[|old(host.log)|..]) && f.Some? ==> Hindered(host.log[|old(host.log)|..], target)
      ensures f.Some? ==> Mishaps(host.log[|old(host.log)|..]) > 0
    {
      hide Core, Leaks, Quiet, NoAdditions, Truthful, Reliable, Hindered, Mishaps;
      ghost var log0 := host.log;
      var ok, entries := List();
      KeepListed(base, host.table, host.mine, owned, log0, uplink, ok);
      ListedLog(log0, ok, target);
      OneMishap(log0, Listed(ok));
      if !ok {
        return Some(ListFailed);
      }
      if !(target in entries && entries[target] == Entry(uplink, true)) {
        KeepDisowned(base, host.table, host.mine, owned, host.log, uplink, target);
        owned := owned - {target};
        return None;
      }
      ghost var log1 := host.log;
      f := Delete(target);
      Since(|log0|, log1, host.log);
      MishapsSince(|log0|, log1, host.log);
      if Truthful(host.log[|log0|..]) && f.Some? {
        HinderedWithin(|log0|, |log1|, host.log, host.log, target);
      }
    }

    /** The rest of Remove: deletes the proxy and drops it once a listing does not show it. */
    method Delete(target: NetAddr) returns (f: Option<Failure>)
      requires Valid() && target in owned && OnUplink(host.table, uplink, target)
      modifies this, host
      ensures Valid()
      ensures old(host.log) <= host.log && Quiet(host.log[|old(host.log)|..])
      ensures f == None ==>
                host.table == Withdrawn(old(host.table), uplink, {target}) && owned == old(owned) - {target}
      ensures f.Some? ==> owned == old(owned)
      ensures host.table - {target} == old(host.table) - {target}
      ensures NoAdditions(host.log[|old(host.log)|..])
      ensures Truthful(host.log[|old(host.log)|..]) && f.Some? ==> Hindered(host.log[|old(host.log)|..], target)
      ensures f.Some? ==> Mishaps(host.log[|old(host.log)|..]) > 0
    {
      ghost var log0 := host.log;
      assert target in host.mine;
      hide Core, Leaks, Quiet, NoAdditions, Truthful, Reliable, Hindered, Mishaps;
      var ok;
      ghost var e;
      ok, e := host.RunDelete(target);
      KeepDelete(base, old(host.table), old(host.mine), owned, log0, uplink, e);
      DeleteLog(log0, e);
      OneMishap(log0, e);
      if !ok {
        return Some(RemoveFailed(target));
      }
      ghost var log1 := host.log;
      var listed, entries := List();
      KeepListed(base, host.table, host.mine, owned, log1, uplink, listed);
      ListedLog(log1, listed, target);
      OneMishap(log1, Listed(listed));
      Since(|log0|, log1, host.log);
      MishapsSince(|log0|, log1, host.log);
      if !listed {
        HinderedWithin(|log0|, |log1|, host.log, host.log, target);
        return Some(ListFailed);
      }
      if target in entries && entries[target] == Entry(uplink, true) {
        HinderedWithin(|log0|, |log0|, log1, host.log, target);
        return Some(NotRemoved(target));
      }
      KeepDisowned(base, host.table, host.mine, owned, host.log, uplink, target);
      owned := owned - {target};
      return None;
    }

    /** Other processes run between two calls of Ensure or Remove. */
    method Interfere()
      requires Valid()
      modifies host
      ensures Valid()
      ensures old(host.log) <= host.log
      ensures NoAdditions(host.log[|old(host.log)|..])
      ensures Quiet(host.log[|old(host.log)|..]) ==> host.log == old(host.log) && host.table == old(host.table)
    {
      host.OutsideEdits(owned, uplink);
      if host.log != old(host.log) {
        KeepEdited(base, old(host.table), old(host.mine), host.table, host.mine, owned, old(host.log), uplink);
        assert host.log[|old(host.log)|..] == [Edited];
        assert [Edited][0].Edited?;
      }
    }

    /** One round of the first loop of Sync. */
    method EnsureNext(target: NetAddr) returns (f: Option<Failure>)
      requires Valid()
      modifies this, host
      ensures Valid()
      ensures old(host.log) <= host.log
      ensures f == None && Quiet(host.log[|old(host.log)|..]) ==>
                Ensuring(old(host.table), old(owned), host.table, owned, uplink, {target})
      ensures OnUplink(old(host.table), uplink, target) && Quiet(host.log[|old(host.log)|..]) ==>
                OnlyListings(host.log[|old(host.log)|..]) && host.table == old(host.table) && owned == old(owned)
      ensures f == None && Quiet(host.log[|old(host.log)|..]) ==> CanProxy(old(host.table), host.route, uplink, target)
      ensures (Reliable(host.log[|old(host.log)|..]) && AdditionsWork(host.log[|old(host.log)|..])) ==>
                (CanProxy(old(host.table), host.route, uplink, target) ==> f == None)
                && EnsuringPart(old(host.table), old(owned), host.table, owned, host.route, uplink, {target})
      // Whatever fails, no other address is affected, and this one is tried.
      ensures Quiet(host.log[|old(host.log)|..]) ==>
                Visited(old(host.table), host.table, host.route, uplink, host.log[|old(host.log)|..], target, f.Some?)
    {
      hide Core, Leaks, EnsuringPart, TriedOrBlind;
      Interfere();
      ghost var log1 := host.log;
      f := Ensure(target);
      Since(|old(host.log)|, log1, host.log);
      if Reliable(host.log[|old(host.log)|..]) && AdditionsWork(host.log[|old(host.log)|..]) {
        EnsuringOne(old(host.table), old(owned), host.table, owned, host.route, uplink, target);
      }
      if Quiet(host.log[|old(host.log)|..]) {
        assert host.log[|log1|..] == host.log[|old(host.log)|..];
      }
    }

    /** One round, with what the rounds before it came to. */
    method EnsureTracked(target: NetAddr, ghost table0: Table, ghost owned0: set<NetAddr>, ghost n: nat,
                         ghost wanted: set<NetAddr>, ghost done: set<NetAddr>, ghost failures: nat)
      returns (f: Option<Failure>)
      requires Valid() && n <= |host.log| && target in wanted && target !in done
      requires FirstLoop(table0, owned0, host.table, owned, host.route, uplink, host.log[n..], wanted, done, failures)
      modifies this, host
      ensures Valid()
      ensures old(host.log) <= host.log
      ensures FirstLoop(table0, owned0, host.table, owned, host.route, uplink, host.log[n..], wanted, done + {target},
                        failures + if f.Some? then 1 else 0)
    {
      hide Core, Leaks, Ensuring, EnsuringPart, CanProxy, Visited, FirstLoop;
      hide Quiet, OnlyListings, AdditionsWork, Reliable;
      f := EnsureNext(target);
      FirstLoopMore(table0, owned0, old(host.table), old(owned), host.table, owned, host.route, uplink, n,
                    old(host.log), host.log, wanted, done, failures, target, f.Some?);
    }

    /** The first loop of Sync, over the wanted set in any order. */
    method EnsureAll(wanted: set<NetAddr>) returns (failures: seq<Failure>)
      requires Valid()
      modifies this, host
      ensures Valid()
      ensures old(host.log) <= host.log
      ensures failures == [] && Quiet(host.log[|old(host.log)|..]) ==>
                Ensuring(old(host.table), old(owned), host.table, owned, uplink, wanted)
      ensures AllOnUplink(old(host.table), uplink, wanted) && Quiet(host.log[|old(host.log)|..]) ==>
                OnlyListings(host.log[|old(host.log)|..]) && host.table == old(host.table) && owned == old(owned)
      ensures failures == [] && Quiet(host.log[|old(host.log)|..]) ==>
                AllCanProxy(old(host.table), host.route, uplink, wanted)
      // An address that cannot be proxied does not keep the others from being proxied.
      ensures (Reliable(host.log[|old(host.log)|..]) && AdditionsWork(host.log[|old(host.log)|..])) ==>
                (AllCanProxy(old(host.table), host.route, uplink, wanted) ==> failures == [])
                && EnsuringPart(old(host.table), old(owned), host.table, owned, host.route, uplink, wanted)
      // Nor does a command that fails: there is a failure for each address without its proxy, and
      // each one that could be proxied was tried.
      ensures Quiet(host.log[|old(host.log)|..]) ==>
                Visiting(old(host.table), host.table, host.route, uplink, host.log[|old(host.log)|..], wanted,
                         |failures|)
    {
      failures := [];
      var pending := wanted;
      ghost var done: set<NetAddr>, failed, n := {}, 0, |host.log|;
      assert host.log[n..] == [];
      FirstLoopStarts(host.table, owned, host.route, uplink, wanted);
      hide Core, Leaks, FirstLoop, Confirmed;
      while pending != {}
        invariant Valid() && done !! pending && done + pending == wanted
        invariant old(host.log) <= host.log && n == |old(host.log)| && failed == |failures|
        invariant FirstLoop(old(host.table), old(owned), host.table, owned, host.route, uplink, host.log[n..], wanted,
                            done, failed)
        decreases pending
      {
        var target :| target in pending;
        var f := EnsureTracked(target, old(host.table), old(owned), n, wanted, done, failed);
        if f.Some? {
          failures := failures + [f.value];
        }
        failed := failed + if f.Some? then 1 else 0;
        pending, done := pending - {target}, done + {target};
      }
      assert done == wanted;
      FirstLoopEnds(old(host.table), old(owned), host.table, owned, host.route, uplink, host.log[n..], wanted, failed);
    }

    /** One round of the loops of Sync and Close that give up addresses. */
    method RemoveNext(target: NetAddr) returns (f: Option<Failure>)
      requires Valid() && target in owned
      modifies this, host
      ensures Valid()
      ensures old(host.log) <= host.log
      ensures owned == if f == None then old(owned) - {target} else old(owned)
      ensures f == None && Quiet(host.log[|old(host.log)|..]) ==>
                Withdrawing(old(host.table), old(owned), host.table, owned, uplink, {target})
      ensures Quiet(host.log[|old(host.log)|..]) ==> host.table - {target} == old(host.table) - {target}
      ensures NoAdditions(host.log[|old(host.log)|..])
      ensures Truthful(host.log[|old(host.log)|..]) && f.Some? ==> Hindered(host.log[|old(host.log)|..], target)
      ensures f.Some? ==> Mishaps(host.log[|old(host.log)|..]) > 0
    {
      hide Core, Leaks;
      Interfere();
      ghost var log1 := host.log;
      f := Remove(target);
      Since(|old(host.log)|, log1, host.log);
      MishapsSince(|old(host.log)|, log1, host.log);
    }

    /** One round, with what the rounds before it came to. */
    method GiveUp(target: NetAddr, ghost table0: Table, ghost owned0: set<NetAddr>, ghost n: nat,
                  ghost done: set<NetAddr>, ghost kept: set<NetAddr>, ghost failed: nat) returns (f: Option<Failure>)
      requires Valid() && target in owned && target !in kept
      requires GivenUp(table0, owned0, host.table, owned, uplink, n, host.log, done, kept, failed)
      modifies this, host
      ensures Valid()
      ensures old(host.log) <= host.log
      ensures owned == if f == None then old(owned) - {target} else old(owned)
      ensures GivenUp(table0, owned0, host.table, owned, uplink, n, host.log, done + {target},
                      if f.Some? then kept + {target} else kept, if f.Some? then failed + 1 else failed)
    {
      hide Core, Leaks, GivenUp, Withdrawing, Hindered, Mishaps;
      f := RemoveNext(target);
      GiveUpMore(table0, owned0, old(host.table), old(owned), host.table, owned, uplink, n, old(host.log), host.log,
                 done, kept, failed, target, f);
    }

    /** Gives up every owned address outside a set, in any order. */
    method RemoveExcept(wanted: set<NetAddr>) returns (failures: seq<Failure>)
      requires Valid()
      modifies this, host
      ensures Valid()
      ensures old(host.log) <= host.log
      ensures failures == [] && Quiet(host.log[|old(host.log)|..]) ==>
                Withdrawing(old(host.table), old(owned), host.table, owned, uplink, old(owned) - wanted)
      ensures old(owned) <= wanted ==> host.log == old(host.log) && host.table == old(host.table) && owned == old(owned)
      ensures Quiet(host.log[|old(host.log)|..]) ==>
                host.table - (old(owned) - wanted) == old(host.table) - (old(owned) - wanted)
      // An address that cannot be given up does not keep the others from being given up.
      ensures |failures| == |owned - wanted| && |failures| <= Mishaps(host.log[|old(host.log)|..])
      ensures NoAdditions(host.log[|old(host.log)|..])
      ensures Truthful(host.log[|old(host.log)|..]) ==> AllHindered(host.log[|old(host.log)|..], owned - wanted)
      ensures Reliable(host.log[|old(host.log)|..]) ==>
                forall a :: a in owned - wanted ==> Stuck(host.log[|old(host.log)|..], a)
      ensures Reliable(host.log[|old(host.log)|..]) && DeletionsWork(host.log[|old(host.log)|..]) ==> failures == []
    {
      failures := [];
      var pending := owned - wanted;
      ghost var unwanted, done, kept: set<NetAddr>, failed, n := pending, {}, {}, 0, |host.log|;
      NothingGivenUp(host.table, owned, uplink, host.log);
      NothingKept(owned, wanted);
      NothingKept(unwanted, {});
      hide Core, Leaks, Confirmed, Parted, GivenUp, Withdrawing, Hindered, AllHindered, Stuck, Mishaps, OnUplink;
      hide Quiet, Truthful, Reliable, DeletionsWork, NoAdditions;
      while pending != {}
        invariant Valid() && Parted(owned, wanted, kept, pending) && Parted(unwanted, {}, done, pending)
        invariant old(host.log) <= host.log && failed == |failures|
        invariant GivenUp(old(host.table), old(owned), host.table, owned, uplink, n, host.log, done, kept, failed)
        invariant unwanted == {} ==> host.log == old(host.log) && host.table == old(host.table) && owned == old(owned)
        decreases pending
      {
        var target :| target in pending;
        PendingMoves(owned, wanted, kept, pending, target);
        PendingMoves(unwanted, {}, done, pending, target);
        var f := GiveUp(target, old(host.table), old(owned), n, done, kept, failed);
        if f.Some? {
          failures := failures + [f.value];
        }
        kept, failed := if f.Some? then kept + {target} else kept, if f.Some? then failed + 1 else failed;
        pending, done := pending - {target}, done + {target};
      }
      NothingPending(owned, wanted, kept);
      NothingPending(unwanted, {}, done);
      AllGivenUp(old(host.table), old(owned), host.table, owned, uplink, n, host.log, done, kept, failed);
    }

    /** Makes the table proxy exactly the valid IPv6 targets, as far as it can. */
    method Sync(targets: seq<NetAddr>) returns (failures: seq<Failure>)
      requires Valid()
      modifies this, host
      ensures Valid()
      ensures old(host.log) <= host.log
      // Without failures and outside edits the result is a function of what was found.
      ensures failures == [] && Quiet(host.log[|old(host.log)|..]) ==>
                host.table == SyncedTable(old(host.table), old(owned), uplink, Filter(targets))
                && owned == SyncedOwned(old(host.table), old(owned), Filter(targets))
      // It succeeds only if every target can be proxied, and then unless a command fails.
      ensures failures == [] && Quiet(host.log[|old(host.log)|..]) ==>
                AllCanProxy(old(host.table), host.route, uplink, Filter(targets))
      ensures Working(host.log[|old(host.log)|..])
              && AllCanProxy(old(host.table), host.route, uplink, Filter(targets)) ==>
                failures == [] && Settled(host.table, owned, uplink, Filter(targets))
      // With working commands a target that cannot be proxied is left out, and only that one.
      ensures Working(host.log[|old(host.log)|..]) ==>
                host.table == SyncedTable(old(host.table), old(owned), uplink,
                                          Proxiable(old(host.table), host.route, uplink, Filter(targets)))
                && owned == PartlyOwned(old(host.table), old(owned), host.route, uplink, Filter(targets))
      // Whatever fails, every target and every address to be given up has its round: there is a
      // failure for each one that is not as it should be.
      ensures Quiet(host.log[|old(host.log)|..]) ==>
                |Missing(host.table, uplink, Filter(targets))| + |owned - Filter(targets)| <= |failures|
      ensures Quiet(host.log[|old(host.log)|..]) ==>
                AllTried(old(host.table), host.table, host.route, uplink, host.log[|old(host.log)|..], Filter(targets))
      // On a settled table only listings are issued.
      ensures Settled(old(host.table), old(owned), uplink, Filter(targets)) && Quiet(host.log[|old(host.log)|..]) ==>
                OnlyListings(host.log[|old(host.log)|..]) && host.table == old(host.table) && owned == old(owned)
    {
      hide Core, Leaks, Visiting, AllTried, Quiet, OnlyListings;
      var wanted := Collect(targets);
      failures := EnsureAll(wanted);
      ghost var log1, table1, owned1 := host.log, host.table, owned;
      var more := RemoveExcept(wanted);
      failures := failures + more;
      Since(|old(host.log)|, log1, host.log);
      if failures == [] && Quiet(host.log[|old(host.log)|..]) {
        BothLoops(old(host.table), old(owned), table1, owned1, host.table, owned, uplink, wanted);
      }
      if Quiet(host.log[|old(host.log)|..]) {
        StillMissing(old(host.table), table1, host.table, host.route, uplink, |old(host.log)|, log1, host.log,
                     wanted, owned1 - wanted, |failures| - |more|);
      }
      if Working(host.log[|old(host.log)|..]) {
        BothLoopsInPart(old(host.table), old(owned), table1, owned1, host.table, owned, host.route, uplink, wanted);
        PartServes(old(host.table), old(owned), host.route, uplink, wanted);
      }
      assert Settled(old(host.table), old(owned), uplink, wanted) ==> AllOnUplink(old(host.table), uplink, wanted);
    }

    /** Gives up every owned address; failures are only logged. */
    method Close()
      requires Valid()
      modifies this, host
      ensures Valid()
      ensures old(host.log) <= host.log
      // When commands are reliable and every deletion works, the starting table is restored.
      ensures NoAdditions(host.log[|old(host.log)|..])
      ensures Reliable(host.log) && DeletionsWork(host.log[|old(host.log)|..]) ==> host.table == base
      // Every address is tried, in spite of failures: each one that stays owned has a listing
      // or a deletion of its own that went wrong.
      ensures |owned| <= Mishaps(host.log[|old(host.log)|..])
      ensures Truthful(host.log[|old(host.log)|..]) ==> AllHindered(host.log[|old(host.log)|..], owned)
      ensures Reliable(host.log[|old(host.log)|..]) ==> forall a :: a in owned ==> Stuck(host.log[|old(host.log)|..], a)
      ensures Reliable(host.log[|old(host.log)|..]) && DeletionsWork(host.log[|old(host.log)|..]) ==> owned == {}
      // Without outside edits it is restored exactly if each entry of this process was deleted.
      ensures Quiet(host.log) ==>
                (host.table == base <==> Created(old(host.log)) <= DeletedIn(host.log[|old(host.log)|..]))
      // With truthful commands that takes that nothing had leaked, and an entry that had not
      // leaked stays only if something hindered its deletion.
      ensures Truthful(host.log) ==>
                (host.table == base ==> Leaks(old(host.log), uplink) == {})
                && (host.table != base && Leaks(old(host.log), uplink) == {} ==>
                      exists a :: a in owned && Hindered(host.log[|old(host.log)|..], a))
    {
      hide Leaks, Created, DeletedIn, Hindered, Stuck, Confirmable, Mishaps;
      ghost var log1 := host.log;
      var failures := RemoveExcept({});
      assert owned - {} == owned;
      Since(|log1|, log1, host.log);
      if Quiet(host.log) {
        RestoredIff(base, host.table, host.mine, owned, log1, host.log, uplink);
      }
      if Reliable(host.log) && DeletionsWork(host.log[|log1|..]) {
        assert owned == {} && host.mine == {};
        assert host.table - {} == host.table;
      }
      if Truthful(host.log) {
        if host.table != base && Leaks(log1, uplink) == {} {
          var a :| a in owned && a in host.table.Keys;
          assert Hindered(host.log[|log1|..], a);
        }
      }
    }

    /** A second synchronization with the same targets, right after a successful one and with
        no edits in between, issues nothing but listings and changes nothing. */
    method SyncTwice(targets: seq<NetAddr>) returns (first: seq<Failure>, ghost log1: seq<Event>)
      requires Valid()
      modifies this, host
      ensures Valid()
      ensures old(host.log) <= log1 <= host.log
      ensures first == [] && Quiet(host.log[|old(host.log)|..]) ==>
                OnlyListings(host.log[|log1|..])
                && Settled(host.table, owned, uplink, Filter(targets))
                && host.table == SyncedTable(old(host.table), old(owned), uplink, Filter(targets))
    {
      hide Core, Leaks, SyncedTable, SyncedOwned, Settled;
      first := Sync(targets);
      log1 := host.log;
      SyncSettles(old(host.table), old(owned), uplink, Filter(targets));
      var second := Sync(targets);
      Since(|old(host.log)|, log1, host.log);
    }

    /** runResponder on BSD hosts: a first synchronization, one more for each wake-up, and
        Close on the way out. Nothing another process made is ever touched, whatever fails and
        whoever edits the table; see also RestoredIff. */
    method Run(first: seq<NetAddr>, wakeups: seq<seq<NetAddr>>) returns (started: bool, ghost closing: seq<Event>)
      requires Valid() && host.log == [] && owned == {}
      modifies this, host
      ensures Valid()
      ensures Safe(host.log)
      ensures Quiet(host.log) ==> Undisturbed(base, host.table, host.mine)
      // The log falls into what came before Close, and Close, which adds nothing.
      ensures closing <= host.log && NoAdditions(host.log[|closing|..])
      ensures Quiet(host.log) ==> (host.table == base <==> Created(closing) <= DeletedIn(host.log[|closing|..]))
      ensures Truthful(host.log) && host.table == base ==> Leaks(closing, uplink) == {}
      ensures Truthful(host.log) && host.table != base && Leaks(closing, uplink) == {} ==>
                exists a :: a in owned && Hindered(host.log[|closing|..], a)
      ensures Truthful(host.log) ==> (host.table == base <==> Leaks(host.log, uplink) == {} && owned !! host.table.Keys)
      ensures Reliable(host.log) ==> Exact(base, host.table, owned, uplink)
      ensures Reliable(host.log) && DeletionsWork(host.log) ==> host.table == base
    {
      hide Leaks, Exact, Created, DeletedIn, Hindered, Confirmable;
      var failures := Sync(first);
      started := failures == [];
      if started {
        for i := 0 to |wakeups|
          invariant Valid()
        {
          failures := Sync(wakeups[i]);
        }
      }
      closing := host.log;
      Close();
      Since(0, closing, host.log);
      assert host.log[0..] == host.log;
      if Quiet(host.log) {
        RestoredIff(base, host.table, host.mine, owned, closing, host.log, uplink);
      }
      if Truthful(host.log) {
        LeaksKept(closing, host.log, uplink);
      }
      if Reliable(host.log) {
        ReliableIsExact(base, host.table, host.mine, owned, host.log, uplink);
      }
    }

    /** Every valid target must route through the uplink. */
    method CheckTargetRoutes(targets: seq<NetAddr>) returns (f: Option<Failure>)
      ensures f == None <==> AllRoute(host.route, uplink, Filter(targets))
    {
      var seen := {};
      for i := 0 to |targets|
        invariant seen == Filter(targets[..i])
        invariant AllRoute(host.route, uplink, seen)
      {
        var target := targets[i].Unmap();
        assert targets[..i + 1] == targets[..i] + [targets[i]];
        if !target.V6? || target in seen {
          continue;
        }
        seen := seen + {target};
        f := CheckTargetRoute(target);
        if f.Some? {
          assert target in Filter(targets);
          return;
        }
      }
      assert targets[..|targets|] == targets;
      f := None;
    }
  }

  predicate AllRoute(route: NetAddr -> Option<string>, uplink: string, targets: set<NetAddr>) {
    forall a :: a in targets ==> uplink != "" && route(a) == Some(uplink)
  }

  // ---------------------------------------------------------------- choosing the uplink

  const VIRTUAL: seq<string> := [
    "bridge", "docker", "podman", "veth", "virbr", "epair", "vether", "vnet",
    "utun", "tun", "tap", "gif", "gre", "stf", "ipsec", "wg", "wireguard",
    "vmnet", "vboxnet", "feth", "anpi", "awdl", "llw", "lo"]

  /** Interfaces that stand for a local machine, tunnel or software bridge are no uplinks. */
  predicate IsProxyUplink(ifname: string) {
    var name := Lower(Trim(ifname));
    name != "" && forall i :: 0 <= i < |VIRTUAL| ==> !HasPrefix(name, VIRTUAL[i])
  }

  /** The interface names that are no uplinks begin, in any case, with one of these. */
  lemma UplinkNames(ifname: string)
    ensures IsProxyUplink(ifname) <==>
            var n := Lower(Trim(ifname));
            n != ""
            && !("bridge" <= n) && !("docker" <= n) && !("podman" <= n) && !("veth" <= n) && !("virbr" <= n)
            && !("epair" <= n) && !("vether" <= n) && !("vnet" <= n) && !("utun" <= n) && !("tun" <= n) && !("tap" <= n)
            && !("gif" <= n) && !("gre" <= n) && !("stf" <= n) && !("ipsec" <= n) && !("wg" <= n) && !("wireguard" <= n)
            && !("vmnet" <= n) && !("vboxnet" <= n) && !("feth" <= n) && !("anpi" <= n) && !("awdl" <= n)
            && !("llw" <= n) && !("lo" <= n)
  {
    hide Lower, Trim;
    var n := Lower(Trim(ifname));
    assert |VIRTUAL| == 24;
    if n != "" && forall i :: 0 <= i < |VIRTUAL| ==> !HasPrefix(n, VIRTUAL[i]) {
      assert forall i :: 0 <= i < 24 ==> !(VIRTUAL[i] <= n);
      assert !(VIRTUAL[0] <= n) && !(VIRTUAL[1] <= n) && !(VIRTUAL[2] <= n) && !(VIRTUAL[3] <= n);
      assert !(VIRTUAL[4] <= n) && !(VIRTUAL[5] <= n) && !(VIRTUAL[6] <= n) && !(VIRTUAL[7] <= n);
      assert !(VIRTUAL[8] <= n) && !(VIRTUAL[9] <= n) && !(VIRTUAL[10] <= n) && !(VIRTUAL[11] <= n);
      assert !(VIRTUAL[12] <= n) && !(VIRTUAL[13] <= n) && !(VIRTUAL[14] <= n) && !(VIRTUAL[15] <= n);
      assert !(VIRTUAL[16] <= n) && !(VIRTUAL[17] <= n) && !(VIRTUAL[18] <= n) && !(VIRTUAL[19] <= n);
      assert !(VIRTUAL[20] <= n) && !(VIRTUAL[21] <= n) && !(VIRTUAL[22] <= n) && !(VIRTUAL[23] <= n);
    }
  }

  /** A candidate that can proxy all targets; usable says that the process is root and has an
      ndp command. */
  predicate Suits(c: Interfaces.Candidate, usable: bool, route: NetAddr -> Option<string>, targets: seq<NetAddr>) {
    IsProxyUplink(c.interface.name) && |c.interface.mac| == 6 && usable
    && AllRoute(route, c.interface.name, Filter(targets))
  }

  /** Selects the first candidate that suits, and fails only if none does. */
  method Prepare(host: NdpHost, candidates: seq<Interfaces.Candidate>, usable: bool, targets: seq<NetAddr>)
      returns (r: BsdProxyResponder?, chosen: nat)
    requires host.Valid() && host.mine == {} && host.log == []
    ensures r == null ==> forall i :: 0 <= i < |candidates| ==> !Suits(candidates[i], usable, host.route, targets)
    ensures r != null ==>
              chosen < |candidates| && Suits(candidates[chosen], usable, host.route, targets)
              && (forall i :: 0 <= i < chosen ==> !Suits(candidates[i], usable, host.route, targets))
              && r.Valid() && r.host == host && r.uplink == candidates[chosen].interface.name
              && r.owned == {} && r.base == host.table
  {
    for i := 0 to |candidates|
      invariant forall j :: 0 <= j < i ==> !Suits(candidates[j], usable, host.route, targets)
    {
      var c := candidates[i];
      if !IsProxyUplink(c.interface.name) || |c.interface.mac| != 6 || !usable {
        continue;
      }
      var responder := new BsdProxyResponder(host, c.interface.name);
      var f := responder.CheckTargetRoutes(targets);
      if f == None {
        return responder, i;
      }
    }
    r, chosen := null, 0;
  }
}
