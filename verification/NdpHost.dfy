/** The operating system seen by the BSD proxy manager: an NDP table that other processes
    edit too, a route lookup, and the three ndp commands, each of which may fail or report
    something else than it did. A log records what was issued and what it did. */
module NdpHosts {
  import opened Addresses
  import opened Text
  import opened NdpTable

  /** What one command or outside edit did. An event of a command says what it reported and,
      for the proof only, what became of the table:
      - Listed: `ndp -an`, which prints the table unless it fails;
      - SetRun: `ndp -s`, issued while the table had no entry (vacant) and while the address
        was (held) or was not in the owned set; made is the entry it left, if any;
      - DeleteRun: `ndp -d`, on an entry this process created (ours) or not; gone says
        whether the entry was removed;
      - Edited: another process changed the table. */
  datatype Event =
    | Listed(ok: bool)
    | SetRun(target: NetAddr, vacant: bool, held: bool, ok: bool, made: Option<Entry>, routed: bool)
    | DeleteRun(target: NetAddr, ours: bool, ok: bool, gone: bool)
    | Edited

  /** No command touched what another process made. */
  ghost predicate Safe(log: seq<Event>) {
    forall i :: 0 <= i < |log| ==>
      (log[i].SetRun? ==> log[i].vacant) && (log[i].DeleteRun? ==> log[i].ours)
  }

  /** Nobody else edited the table. */
  ghost predicate Quiet(log: seq<Event>) {
    forall i :: 0 <= i < |log| ==> !log[i].Edited?
  }

  /** Besides, failing commands have no effect, and -s installs a proxy on the interface the
      address routes through, or nothing. */
  ghost predicate Truthful(log: seq<Event>) {
    Quiet(log)
    && forall i :: 0 <= i < |log| ==>
      (log[i].SetRun? && log[i].made.Some? ==> log[i].ok && log[i].routed)
      && (log[i].DeleteRun? && log[i].gone ==> log[i].ok)
  }

  /** Besides, every listing succeeds. */
  ghost predicate Reliable(log: seq<Event>) {
    Truthful(log) && forall i :: 0 <= i < |log| ==> (log[i].Listed? ==> log[i].ok)
  }

  ghost predicate OnlyListings(log: seq<Event>) {
    forall i :: 0 <= i < |log| ==> log[i].Listed?
  }

  /** Every deletion issued removed its entry. */
  ghost predicate DeletionsWork(log: seq<Event>) {
    forall i :: 0 <= i < |log| ==> (log[i].DeleteRun? ==> log[i].gone)
  }

  /** A deletion of this address was issued and did not remove its entry. */
  ghost predicate Stuck(log: seq<Event>, a: NetAddr) {
    exists i :: 0 <= i < |log| && log[i].DeleteRun? && log[i].target == a && !log[i].gone
  }

  /** Commands that work: they are reliable, and additions and deletions take effect. */
  ghost predicate Working(log: seq<Event>) {
    Reliable(log) && AdditionsWork(log) && DeletionsWork(log)
  }

  /** A listing that failed, or a deletion that failed or did not take effect. */
  ghost predicate Mishap(e: Event) {
    (e.Listed? && !e.ok) || (e.DeleteRun? && !(e.ok && e.gone))
  }

  ghost function Mishaps(log: seq<Event>): nat {
    if |log| == 0 then 0 else Mishaps(log[..|log| - 1]) + if Mishap(log[|log| - 1]) then 1 else 0
  }

  /** An addition for this address was issued. */
  ghost predicate Tried(log: seq<Event>, a: NetAddr) {
    exists i :: 0 <= i < |log| && log[i].SetRun? && log[i].target == a
  }

  ghost predicate ListingFailed(log: seq<Event>) {
    exists i :: 0 <= i < |log| && log[i].Listed? && !log[i].ok
  }

  /** The addresses whose entries were removed by deletions. */
  ghost function DeletedIn(log: seq<Event>): set<NetAddr> {
    set i | 0 <= i < |log| && log[i].DeleteRun? && log[i].gone :: log[i].target
  }

  ghost predicate NoAdditions(log: seq<Event>) {
    forall i :: 0 <= i < |log| ==> !log[i].SetRun?
  }

  /** Every addition issued left an entry. */
  ghost predicate AdditionsWork(log: seq<Event>) {
    forall i :: 0 <= i < |log| ==> (log[i].SetRun? ==> log[i].made.Some?)
  }

  class NdpHost {
    const parse: AddressParser
    const text: AddressPrinter
    const route: NetAddr -> Option<string>
    var table: Table
    var mine: set<NetAddr>  // the addresses whose present entry this process created
    ghost var log: seq<Event>

    ghost predicate Valid()
      reads this
    {
      TextLaw(parse, text) && mine <= table.Keys
    }

    /** Another process starts the host; nothing in its table is ours yet. */
    constructor (parse: AddressParser, text: AddressPrinter, route: NetAddr -> Option<string>, table: Table)
      requires TextLaw(parse, text)
      ensures Valid() && this.parse == parse && this.text == text && this.route == route
      ensures this.table == table && mine == {} && log == []
    {
      this.parse, this.text, this.route := parse, text, route;
      this.table, mine, log := table, {}, [];
    }

    /** `ndp -an`: some printing of the table, or a failure. */
    method RunList() returns (ok: bool, output: string)
      requires Valid()
      modifies `log
      ensures log == old(log) + [Listed(ok)]
      ensures ok ==> ParseLines(parse, Split(output, '\n')) == table
    {
      var doc: seq<Line> := *;
      ok, output := false, "";
      if |doc| > 0 && GoodOutput(parse, text, doc) && TableOf(doc) == table {
        OutputParses(parse, text, doc);
        ok, output := true, Render(text, doc);
      }
      log := log + [Listed(ok)];
    }

    /** `ndp -s target mac proxy`: may leave any entry for the target, or nothing. */
    method RunSet(target: NetAddr, ghost held: bool) returns (ok: bool, ghost e: Event)
      requires Valid()
      modifies this
      ensures Valid()
      ensures e.SetRun? && e.target == target && e.ok == ok && e.held == held
      ensures e.vacant == (target !in old(table))
      ensures e.routed == (e.made.Some? && e.made.value.proxy && route(target) == Some(e.made.value.ifname))
      ensures log == old(log) + [e]
      ensures table == if e.made.Some? then old(table)[target := e.made.value] else old(table)
      ensures mine == if e.made.Some? then old(mine) + {target} else old(mine)
    {
      ok := *;
      var made: Option<Entry> := *;
      e := SetRun(target, target !in table, held, ok, made,
                  made.Some? && made.value.proxy && route(target) == Some(made.value.ifname));
      if made.Some? {
        table := table[target := made.value];
        mine := mine + {target};
      }
      log := log + [e];
    }

    /** `ndp -d target`: may remove the entry, or leave it. */
    method RunDelete(target: NetAddr) returns (ok: bool, ghost e: Event)
      requires Valid()
      modifies this
      ensures Valid()
      ensures e.DeleteRun? && e.target == target && e.ok == ok && e.ours == (target in old(mine))
      ensures log == old(log) + [e]
      ensures table == if e.gone then old(table) - {target} else old(table)
      ensures mine == if e.gone then old(mine) - {target} else old(mine)
    {
      ok := *;
      var gone: bool := *;
      e := DeleteRun(target, target in mine, ok, gone);
      if gone {
        table := table - {target};
        mine := mine - {target};
      }
      log := log + [e];
    }

    /** Other processes may add, drop or change any entries, except that they never put a proxy
        of their own on the uplink for an address in the owned set. */
    method OutsideEdits(owned: set<NetAddr>, uplink: string)
      requires Valid()
      modifies this
      ensures Valid()
      ensures log == old(log) || log == old(log) + [Edited]
      ensures log == old(log) ==> table == old(table) && mine == old(mine)
      ensures mine <= old(mine) && forall a :: a in mine ==> table[a] == old(table)[a]
      ensures forall a :: a in owned && a in table && table[a] == Entry(uplink, true) ==> a in mine || log == old(log)
    {
      var t: Table := *;
      var m: set<NetAddr> := *;
      if m <= mine && m <= t.Keys && (forall a :: a in m ==> t[a] == table[a])
         && (forall a :: a in owned && a in t && t[a] == Entry(uplink, true) ==> a in m)
      {
        table, mine, log := t, m, log + [Edited];
      }
    }
  }
}
