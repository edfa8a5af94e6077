/** Ranking of candidate interfaces (ifname.go): four phases of matches merged by interface
    index, with the reasons for each candidate collected in a comma-separated text. */
module Interfaces {
  import opened Addresses
  import opened Text
  import Ordered
  import opened Selections

  datatype Interface = Interface(name: string, index: int, up: bool, loopback: bool, multicast: bool, mac: seq<Byte>)

  predicate Usable(i: Interface) {
    i.up && !i.loopback && i.multicast && |i.mac| == 6
  }

  /** The phases in the order in which they run. */
  datatype Phase = Requested | DefaultRoute | HasIPv6 | Scan {
    function Order(): nat {
      match this case Requested => 0 case DefaultRoute => 1 case HasIPv6 => 2 case Scan => 3
    }

    function Name(): string {
      match this
      case Requested => "requested"
      case DefaultRoute => "default-ipv6-route"
      case HasIPv6 => "interface-ipv6-address"
      case Scan => "interface-scan"
    }
  }

  datatype Candidate = Candidate(interface: Interface, reason: string)

  // ---------------------------------------------------------------- reasons as text

  predicate Occurs(s: string, sub: string, i: nat) {
    i + |sub| <= |s| && s[i..i + |sub|] == sub
  }

  /** Substring search. */
  predicate ContainsText(s: string, sub: string) {
    exists i :: 0 <= i <= |s| && Occurs(s, sub, i)
  }

  lemma OccurrenceCharacter(s: string, sub: string, i: nat, k: nat)
    requires Occurs(s, sub, i) && k < |sub|
    ensures s[i + k] == sub[k]
  {
    assert s[i..i + |sub|][k] == s[i + k];
  }

  /** Where a word without a comma occurs in a text with a comma: before it or after it. */
  lemma OccursOnOneSide(a: string, b: string, sub: string, i: nat)
    requires ',' !in sub && sub != "" && Occurs(a + "," + b, sub, i)
    ensures if i + |sub| <= |a| then Occurs(a, sub, i) else i > |a| && Occurs(b, sub, i - |a| - 1)
  {
    var s, n := a + "," + b, |sub|;
    forall j | i <= j < i + n
      ensures s[j] != ','
    {
      OccurrenceCharacter(s, sub, i, j - i);
    }
    assert s[|a|] == ',';
    if i + n <= |a| {
      assert a[i..i + n] == s[i..i + n];
    } else {
      assert b[i - |a| - 1..i - |a| - 1 + n] == s[i..i + n];
    }
  }

  /** Such a word occurs in a joined text exactly when it occurs in one of the parts. */
  lemma ContainsJoined(a: string, b: string, sub: string)
    requires ',' !in sub && sub != ""
    ensures ContainsText(a + "," + b, sub) <==> ContainsText(a, sub) || ContainsText(b, sub)
  {
    var s, n := a + "," + b, |sub|;
    if ContainsText(s, sub) {
      var i :| 0 <= i <= |s| && Occurs(s, sub, i);
      OccursOnOneSide(a, b, sub, i);
    }
    if ContainsText(a, sub) {
      var i :| 0 <= i <= |a| && Occurs(a, sub, i);
      assert s[i..i + n] == a[i..i + n];
      assert Occurs(s, sub, i);
    }
    if ContainsText(b, sub) {
      var i :| 0 <= i <= |b| && Occurs(b, sub, i);
      assert s[|a| + 1 + i..|a| + 1 + i + n] == b[i..i + n];
      assert Occurs(s, sub, |a| + 1 + i);
    }
  }

  lemma ContainsItself(s: string)
    ensures ContainsText(s, s)
  {
    assert Occurs(s, s, 0);
  }

  /** A text that contains a word has each of the word's characters. */
  lemma MissingCharacter(s: string, sub: string, k: nat)
    requires k < |sub|
    ensures ContainsText(s, sub) ==> sub[k] in s
  {
    if ContainsText(s, sub) {
      var i :| 0 <= i <= |s| && Occurs(s, sub, i);
      OccurrenceCharacter(s, sub, i, k);
    }
  }

  /** The one pair that shares all characters: c stands at one place in the text, and at two in the word. */
  lemma ScanNotInAddress(s: string, sub: string)
    requires s == HasIPv6.Name() && sub == Scan.Name()
    ensures !ContainsText(s, sub)
  {
    forall i | 0 <= i <= |s| && Occurs(s, sub, i)
      ensures s[i + 7] == 'c' && s[i + 11] == 'c'
    {
      OccurrenceCharacter(s, sub, i, 7);
      OccurrenceCharacter(s, sub, i, 11);
    }
  }

  lemma RequestedApart(p: Phase)
    requires p != Requested
    ensures !ContainsText(p.Name(), Requested.Name())
  {
    MissingCharacter(p.Name(), "requested", 2);
  }

  lemma DefaultRouteApart(p: Phase)
    requires p != DefaultRoute
    ensures !ContainsText(p.Name(), DefaultRoute.Name())
  {
    MissingCharacter(p.Name(), "default-ipv6-route", 5);
  }

  lemma HasIPv6Apart(p: Phase)
    requires p != HasIPv6
    ensures !ContainsText(p.Name(), HasIPv6.Name())
  {
    MissingCharacter(p.Name(), "interface-ipv6-address", if p == Scan then 13 else 1);
  }

  lemma ScanApart(p: Phase)
    requires p != Scan
    ensures !ContainsText(p.Name(), Scan.Name())
  {
    if p == HasIPv6 {
      ScanNotInAddress(p.Name(), Scan.Name());
    } else {
      MissingCharacter(p.Name(), "interface-scan", 7);
    }
  }

  /** No phase name is part of another one. */
  lemma NamesApart(p: Phase, q: Phase)
    ensures ContainsText(p.Name(), q.Name()) <==> p == q
  {
    hide ContainsText;
    if p == q {
      ContainsItself(p.Name());
    } else {
      match q {
        case Requested => RequestedApart(p);
        case DefaultRoute => DefaultRouteApart(p);
        case HasIPv6 => HasIPv6Apart(p);
        case Scan => ScanApart(p);
      }
    }
  }

  lemma NamesHaveNoComma(q: Phase)
    ensures ',' !in q.Name() && q.Name() != ""
  {
  }

  /** The reason text of a candidate that matched in these phases. */
  function ReasonText(phases: seq<Phase>): string {
    if |phases| == 0 then ""
    else if |phases| == 1 then phases[0].Name()
    else ReasonText(phases[..|phases| - 1]) + "," + phases[|phases| - 1].Name()
  }

  /** Searching the reason text for a phase name finds exactly the phases that matched. */
  lemma {:induction false} ReasonContains(phases: seq<Phase>, p: Phase)
    requires |phases| > 0
    ensures ContainsText(ReasonText(phases), p.Name()) <==> p in phases
  {
    hide ContainsText, Phase.Name;
    var n := |phases| - 1;
    NamesApart(phases[n], p);
    if n > 0 {
      ReasonContains(phases[..n], p);
      NamesHaveNoComma(p);
      ContainsJoined(ReasonText(phases[..n]), phases[n].Name(), p.Name());
      assert phases == phases[..n] + [phases[n]];
    }
  }

  // ---------------------------------------------------------------- merging matches

  datatype Match = Match(interface: Interface, phase: Phase)

  /** A candidate with the phases behind its reason text. */
  datatype Listed = Listed(interface: Interface, phases: seq<Phase>)

  function Show(l: Listed): Candidate {
    Candidate(l.interface, ReasonText(l.phases))
  }

  function ShowAll(list: seq<Listed>): seq<Candidate> {
    seq(|list|, i requires 0 <= i < |list| => Show(list[i]))
  }

  /** The position of the candidate with an index, or the length if there is none. */
  function Position(list: seq<Listed>, index: int): (k: nat)
    ensures k <= |list|
    ensures k < |list| ==> list[k].interface.index == index
    ensures forall i :: 0 <= i < k ==> list[i].interface.index != index
  {
    if |list| == 0 || list[0].interface.index == index then 0 else 1 + Position(list[1..], index)
  }

  /** Adding a match extends the candidate with the same index, or appends a new one. */
  function AddMatch(list: seq<Listed>, m: Match): seq<Listed> {
    var k := Position(list, m.interface.index);
    if k == |list| then list + [Listed(m.interface, [m.phase])]
    else if m.phase in list[k].phases then list
    else list[k := Listed(list[k].interface, list[k].phases + [m.phase])]
  }

  function Merge(ms: seq<Match>): seq<Listed> {
    if |ms| == 0 then [] else AddMatch(Merge(ms[..|ms| - 1]), ms[|ms| - 1])
  }

  /** Adding a match, on the texts. */
  lemma AddOnTexts(list: seq<Listed>, m: Match)
    requires forall i :: 0 <= i < |list| ==> |list[i].phases| > 0
    ensures var k := Position(list, m.interface.index);
            ShowAll(AddMatch(list, m))
            == if k == |list| then ShowAll(list) + [Candidate(m.interface, m.phase.Name())]
               else if ContainsText(Show(list[k]).reason, m.phase.Name()) then ShowAll(list)
               else ShowAll(list)[k := Show(list[k]).(reason := Show(list[k]).reason + "," + m.phase.Name())]
  {
    hide ContainsText, Phase.Name;
    var k := Position(list, m.interface.index);
    if k < |list| {
      ReasonContains(list[k].phases, m.phase);
      var phases := list[k].phases;
      assert (phases + [m.phase])[..|phases|] == phases;
    }
  }

  lemma PositionIs(list: seq<Listed>, index: int, k: nat)
    requires k <= |list| && forall i :: 0 <= i < k ==> list[i].interface.index != index
    requires k < |list| ==> list[k].interface.index == index
    ensures Position(list, index) == k
  {
  }

  class CandidateList {
    var items: seq<Candidate>

    constructor ()
      ensures items == []
    {
      items := [];
    }

    /** addInterfaceCandidate, on the texts: it searches the reason for the phase's name. */
    method Add(interface: Interface, phase: Phase, ghost list: seq<Listed>)
      requires items == ShowAll(list) && forall i :: 0 <= i < |list| ==> |list[i].phases| > 0
      modifies this
      ensures items == ShowAll(AddMatch(list, Match(interface, phase)))
    {
      hide ContainsText, AddMatch, ReasonText, Phase.Name;
      ghost var m := Match(interface, phase);
      for i := 0 to |items|
        invariant items == ShowAll(list)
        invariant forall j :: 0 <= j < i ==> list[j].interface.index != interface.index
      {
        if items[i].interface.index != interface.index {
          continue;
        }
        PositionIs(list, interface.index, i);
        AddOnTexts(list, m);
        if !ContainsText(items[i].reason, phase.Name()) {
          items := items[i := items[i].(reason := items[i].reason + "," + phase.Name())];
        }
        return;
      }
      PositionIs(list, interface.index, |list|);
      AddOnTexts(list, m);
      items := items + [Candidate(interface, phase.Name())];
    }
  }

  // ---------------------------------------------------------------- what the merge amounts to

  function Indexes(ms: seq<Match>): seq<int> {
    seq(|ms|, i requires 0 <= i < |ms| => ms[i].interface.index)
  }

  function ListedIndexes(list: seq<Listed>): seq<int> {
    seq(|list|, i requires 0 <= i < |list| => list[i].interface.index)
  }

  /** The first occurrence of each element, in order. */
  function Dedup(xs: seq<int>): seq<int> {
    if |xs| == 0 then []
    else
      var before, x := Dedup(xs[..|xs| - 1]), xs[|xs| - 1];
      if x in before then before else before + [x]
  }

  lemma {:induction false} DedupMembers(xs: seq<int>)
    ensures forall x :: x in Dedup(xs) <==> x in xs
    ensures forall i, j :: 0 <= i < j < |Dedup(xs)| ==> Dedup(xs)[i] != Dedup(xs)[j]
  {
    if |xs| > 0 {
      DedupMembers(xs[..|xs| - 1]);
      assert xs == xs[..|xs| - 1] + [xs[|xs| - 1]];
    }
  }

  /** The phases in which an interface index matched. */
  ghost predicate Matched(ms: seq<Match>, index: int, p: Phase) {
    exists i :: 0 <= i < |ms| && ms[i].interface.index == index && ms[i].phase == p
  }

  /** The first match of an index. */
  ghost predicate FirstMatch(ms: seq<Match>, i: int, index: int) {
    0 <= i < |ms| && ms[i].interface.index == index && forall j :: 0 <= j < i ==> ms[j].interface.index != index
  }

  ghost predicate InPhaseOrder(ms: seq<Match>) {
    forall i, j :: 0 <= i < j < |ms| ==> ms[i].phase.Order() <= ms[j].phase.Order()
  }

  ghost predicate StrictPhases(phases: seq<Phase>) {
    forall i, j :: 0 <= i < j < |phases| ==> phases[i].Order() < phases[j].Order()
  }

  /** An entry of the merged list: the interface of the first match of its index, and the
      phases in which that index matched, each once and in order. */
  ghost predicate GoodEntry(ms: seq<Match>, l: Listed) {
    (exists i :: FirstMatch(ms, i, l.interface.index) && ms[i].interface == l.interface)
    && |l.phases| > 0 && StrictPhases(l.phases)
    && forall p :: p in l.phases <==> Matched(ms, l.interface.index, p)
  }

  lemma PositionIn(list: seq<Listed>, index: int)
    ensures Position(list, index) < |list| <==> index in ListedIndexes(list)
  {
    var k := Position(list, index);
    if k < |list| {
      assert ListedIndexes(list)[k] == index;
    }
  }

  /** The candidates are the first occurrences of the matched indexes, in order. */
  lemma {:induction false} MergeIndexes(ms: seq<Match>)
    ensures ListedIndexes(Merge(ms)) == Dedup(Indexes(ms))
  {
    if |ms| > 0 {
      var n := |ms| - 1;
      MergeIndexes(ms[..n]);
      PositionIn(Merge(ms[..n]), ms[n].interface.index);
      assert Indexes(ms)[..n] == Indexes(ms[..n]);
    }
  }

  /** One more match, in an index already seen or a new one. */
  lemma GoodEntryMore(ms: seq<Match>, m: Match, l: Listed)
    requires InPhaseOrder(ms + [m]) && GoodEntry(ms, l)
    ensures GoodEntry(ms + [m], if l.interface.index != m.interface.index || m.phase in l.phases then l
                                else Listed(l.interface, l.phases + [m.phase]))
  {
    var all := ms + [m];
    var i :| FirstMatch(ms, i, l.interface.index) && ms[i].interface == l.interface;
    assert FirstMatch(all, i, l.interface.index) && all[i].interface == l.interface;
    forall p
      ensures Matched(all, l.interface.index, p) <==>
              Matched(ms, l.interface.index, p) || (m.interface.index == l.interface.index && m.phase == p)
    {
      MatchedMore(ms, m, l.interface.index, p);
    }
    if l.interface.index == m.interface.index && m.phase !in l.phases {
      forall k | 0 <= k < |l.phases|
        ensures l.phases[k].Order() < m.phase.Order()
      {
        assert Matched(ms, l.interface.index, l.phases[k]);
        var j :| 0 <= j < |ms| && ms[j].interface.index == l.interface.index && ms[j].phase == l.phases[k];
        assert all[j] == ms[j] && all[|ms|] == m;
        assert l.phases[k] != m.phase;
      }
    }
  }

  lemma MatchedMore(ms: seq<Match>, m: Match, index: int, p: Phase)
    ensures Matched(ms + [m], index, p) <==> Matched(ms, index, p) || (m.interface.index == index && m.phase == p)
  {
    var all := ms + [m];
    assert all[|ms|] == m;
    if Matched(ms, index, p) {
      var i :| 0 <= i < |ms| && ms[i].interface.index == index && ms[i].phase == p;
      assert all[i] == ms[i];
    }
  }

  lemma GoodEntryNew(ms: seq<Match>, m: Match)
    requires m.interface.index !in Indexes(ms)
    ensures GoodEntry(ms + [m], Listed(m.interface, [m.phase]))
  {
    var all := ms + [m];
    assert forall i :: 0 <= i < |ms| ==> all[i] == ms[i] && Indexes(ms)[i] == ms[i].interface.index;
    assert FirstMatch(all, |ms|, m.interface.index);
    forall p
      ensures Matched(all, m.interface.index, p) <==> p == m.phase
    {
      MatchedMore(ms, m, m.interface.index, p);
    }
  }

  /** One step of the merge, entry by entry. */
  lemma AddMatchGood(ms: seq<Match>, m: Match, list: seq<Listed>, k: nat)
    requires InPhaseOrder(ms + [m])
    requires ListedIndexes(list) == Dedup(Indexes(ms))
    requires forall i :: 0 <= i < |list| ==> GoodEntry(ms, list[i])
    requires k < |AddMatch(list, m)|
    ensures GoodEntry(ms + [m], AddMatch(list, m)[k])
  {
    hide GoodEntry, Dedup;
    DedupMembers(Indexes(ms));
    PositionIn(list, m.interface.index);
    if k < |list| {
      GoodEntryMore(ms, m, list[k]);
      SamePosition(list, m.interface.index, k);
    } else {
      GoodEntryNew(ms, m);
    }
  }

  lemma {:induction false} MergeGood(ms: seq<Match>)
    requires InPhaseOrder(ms)
    ensures forall k :: 0 <= k < |Merge(ms)| ==> GoodEntry(ms, Merge(ms)[k])
  {
    hide GoodEntry, AddMatch, Dedup;
    if |ms| > 0 {
      var before, m := ms[..|ms| - 1], ms[|ms| - 1];
      assert ms == before + [m];
      MergeGood(before);
      MergeIndexes(before);
      forall k | 0 <= k < |Merge(ms)|
        ensures GoodEntry(ms, Merge(ms)[k])
      {
        AddMatchGood(before, m, Merge(before), k);
      }
    }
  }

  /** Indexes are not repeated in a merged list, so an index has one position. */
  lemma SamePosition(list: seq<Listed>, index: int, k: nat)
    requires forall i, j :: 0 <= i < j < |ListedIndexes(list)| ==> ListedIndexes(list)[i] != ListedIndexes(list)[j]
    requires k < |list|
    ensures list[k].interface.index == index <==> k == Position(list, index)
  {
    assert forall i :: 0 <= i < |list| ==> ListedIndexes(list)[i] == list[i].interface.index;
  }

  // ---------------------------------------------------------------- the four phases

  /** What the host reports: all interfaces, or a failure to list them; the indexes of the
      default IPv6 routes, or none; interfaces by index; and which have an IPv6 address. */
  datatype Host = Host(all: Option<seq<Interface>>, routes: Option<seq<int>>,
                       byIndex: int -> Option<Interface>, hasIPv6: Interface -> bool)

  datatype ResolveError = CannotList | NoneUsable

  /** A name was asked for, other than the word that asks for detection. */
  predicate Asked(ifname: string) {
    Trim(ifname) != "" && Lower(Trim(ifname)) != "auto"
  }

  function ByName(all: seq<Interface>, name: string): Option<Interface> {
    if |all| == 0 then None
    else if all[0].name == name then Some(all[0])
    else ByName(all[1..], name)
  }

  function RequestedMatches(ifname: string, all: seq<Interface>): seq<Match> {
    if !Asked(ifname) then []
    else
      match ByName(all, Trim(ifname))
      case None => []
      case Some(i) => if Usable(i) then [Match(i, Requested)] else []
  }

  function RouteMatches(byIndex: int -> Option<Interface>, routes: seq<int>): seq<Match> {
    if |routes| == 0 then []
    else
      var index := routes[|routes| - 1];
      RouteMatches(byIndex, routes[..|routes| - 1])
      + (if index > 0 && byIndex(index).Some? && Usable(byIndex(index).value)
         then [Match(byIndex(index).value, DefaultRoute)] else [])
  }

  function AddressMatches(hasIPv6: Interface -> bool, all: seq<Interface>): seq<Match> {
    if |all| == 0 then []
    else
      var i := all[|all| - 1];
      AddressMatches(hasIPv6, all[..|all| - 1]) + (if Usable(i) && hasIPv6(i) then [Match(i, HasIPv6)] else [])
  }

  function ScanMatches(all: seq<Interface>): seq<Match> {
    if |all| == 0 then []
    else
      var i := all[|all| - 1];
      ScanMatches(all[..|all| - 1]) + (if Usable(i) then [Match(i, Scan)] else [])
  }

  /** All matches, phase by phase. */
  function Matches(ifname: string, host: Host, all: seq<Interface>): seq<Match> {
    RequestedMatches(ifname, all)
    + RouteMatches(host.byIndex, if host.routes.Some? then host.routes.value else [])
    + AddressMatches(host.hasIPv6, all)
    + ScanMatches(all)
  }

  ghost predicate FirstNamed(all: seq<Interface>, name: string, k: int) {
    0 <= k < |all| && all[k].name == name && forall j :: 0 <= j < k ==> all[j].name != name
  }

  /** The interface found by name is the first of that name. */
  lemma {:induction false} ByNameIs(all: seq<Interface>, name: string)
    ensures match ByName(all, name)
            case None => forall k :: 0 <= k < |all| ==> all[k].name != name
            case Some(i) => exists k :: FirstNamed(all, name, k) && all[k] == i
  {
    if |all| > 0 {
      if all[0].name == name {
        assert FirstNamed(all, name, 0);
      } else {
        ByNameIs(all[1..], name);
        assert forall k :: 0 < k < |all| ==> all[k] == all[1..][k - 1];
        if ByName(all[1..], name).Some? {
          var k :| FirstNamed(all[1..], name, k) && all[1..][k] == ByName(all, name).value;
          assert FirstNamed(all, name, k + 1);
        }
      }
    }
  }

  lemma OneFirstNamed(all: seq<Interface>, name: string, j: int, k: int)
    requires FirstNamed(all, name, j) && FirstNamed(all, name, k)
    ensures j == k
  {
  }

  /** The requested phase takes the first interface of that name, if one is asked for and it is
      usable, and nothing otherwise. */
  lemma RequestedTakes(ifname: string, all: seq<Interface>)
    ensures var r := RequestedMatches(ifname, all);
            (forall k :: FirstNamed(all, Trim(ifname), k) && Asked(ifname)
                         && all[k].up && !all[k].loopback && all[k].multicast && |all[k].mac| == 6 ==>
               r == [Match(all[k], Requested)])
            && (r != [] ==>
                  exists k :: FirstNamed(all, Trim(ifname), k) && Asked(ifname)
                              && all[k].up && !all[k].loopback && all[k].multicast && |all[k].mac| == 6)
  {
    ByNameIs(all, Trim(ifname));
    hide Trim, Lower, ByName;
    forall j, k | FirstNamed(all, Trim(ifname), j) && FirstNamed(all, Trim(ifname), k)
      ensures j == k
    {
      OneFirstNamed(all, Trim(ifname), j, k);
    }
  }

  /** A name is asked for unless it is blank or the word auto in any case. */
  lemma AskedIs(ifname: string)
    ensures !Asked(ifname) <==>
            var t := Trim(ifname);
            t == "" || (|t| == 4 && t[0] in "aA" && t[1] in "uU" && t[2] in "tT" && t[3] in "oO")
  {
    var t, l := Trim(ifname), Lower(Trim(ifname));
    if |t| == 4 {
      assert forall i :: 0 <= i < 4 ==> l[i] == if 'A' <= t[i] <= 'Z' then t[i] - 'A' + 'a' else t[i];
      assert l == [l[0], l[1], l[2], l[3]];
      assert l == "auto" <==> l[0] == 'a' && l[1] == 'u' && l[2] == 't' && l[3] == 'o';
      assert l[0] == 'a' <==> t[0] in "aA";
      assert l[1] == 'u' <==> t[1] in "uU";
      assert l[2] == 't' <==> t[2] in "tT";
      assert l[3] == 'o' <==> t[3] in "oO";
    }
  }

  /** What each of the last three phases takes from one element: a usable interface. */
  function FromRoute(byIndex: int -> Option<Interface>): int -> Option<Match> {
    (x: int) =>
      match byIndex(x)
      case None => None
      case Some(i) =>
        if x > 0 && i.up && !i.loopback && i.multicast && |i.mac| == 6 then Some(Match(i, DefaultRoute)) else None
  }

  function FromAddress(hasIPv6: Interface -> bool): Interface -> Option<Match> {
    (i: Interface) =>
      if i.up && !i.loopback && i.multicast && |i.mac| == 6 && hasIPv6(i) then Some(Match(i, HasIPv6)) else None
  }

  function FromScan(): Interface -> Option<Match> {
    (i: Interface) => if i.up && !i.loopback && i.multicast && |i.mac| == 6 then Some(Match(i, Scan)) else None
  }

  lemma {:induction false} RoutesTake(byIndex: int -> Option<Interface>, routes: seq<int>)
    ensures Taken(routes, FromRoute(byIndex), RouteMatches(byIndex, routes))
  {
    hide Taken;
    if |routes| == 0 {
      TakenNothing(FromRoute(byIndex));
    } else {
      var n := |routes| - 1;
      RoutesTake(byIndex, routes[..n]);
      TakenMore(routes[..n], FromRoute(byIndex), RouteMatches(byIndex, routes[..n]), routes[n]);
      assert routes == routes[..n] + [routes[n]];
      assert RouteMatches(byIndex, routes[..n]) + [] == RouteMatches(byIndex, routes[..n]);
    }
  }

  lemma {:induction false} AddressesTake(hasIPv6: Interface -> bool, all: seq<Interface>)
    ensures Taken(all, FromAddress(hasIPv6), AddressMatches(hasIPv6, all))
  {
    hide Taken;
    if |all| == 0 {
      TakenNothing(FromAddress(hasIPv6));
    } else {
      var n := |all| - 1;
      AddressesTake(hasIPv6, all[..n]);
      TakenMore(all[..n], FromAddress(hasIPv6), AddressMatches(hasIPv6, all[..n]), all[n]);
      assert all == all[..n] + [all[n]];
      assert AddressMatches(hasIPv6, all[..n]) + [] == AddressMatches(hasIPv6, all[..n]);
    }
  }

  lemma {:induction false} ScanTakes(all: seq<Interface>)
    ensures Taken(all, FromScan(), ScanMatches(all))
  {
    hide Taken;
    if |all| == 0 {
      TakenNothing(FromScan());
    } else {
      var n := |all| - 1;
      ScanTakes(all[..n]);
      TakenMore(all[..n], FromScan(), ScanMatches(all[..n]), all[n]);
      assert all == all[..n] + [all[n]];
      assert ScanMatches(all[..n]) + [] == ScanMatches(all[..n]);
    }
  }

  /** The matches are those of the four phases, one phase after the other: the requested one, then
      in order the usable interfaces that routes name, that have an IPv6 address, and all. */
  lemma PhasesTake(ifname: string, host: Host, all: seq<Interface>)
    ensures var routes := if host.routes.Some? then host.routes.value else [];
            var r, d, h, s := RequestedMatches(ifname, all), RouteMatches(host.byIndex, routes),
                              AddressMatches(host.hasIPv6, all), ScanMatches(all);
            Matches(ifname, host, all) == r + d + h + s
            && Taken(routes, FromRoute(host.byIndex), d) && Taken(all, FromAddress(host.hasIPv6), h)
            && Taken(all, FromScan(), s)
  {
    var routes := if host.routes.Some? then host.routes.value else [];
    RoutesTake(host.byIndex, routes);
    AddressesTake(host.hasIPv6, all);
    ScanTakes(all);
    hide Taken, RequestedMatches, RouteMatches, AddressMatches, ScanMatches;
  }

  /** The list under construction. */
  ghost predicate Building(items: seq<Candidate>, ms: seq<Match>) {
    items == ShowAll(Merge(ms))
  }

  lemma MergeNonempty(ms: seq<Match>)
    ensures forall k :: 0 <= k < |Merge(ms)| ==> |Merge(ms)[k].phases| > 0
    ensures Merge(ms) == [] <==> ms == []
  {
    if |ms| > 0 {
      MergeNonempty(ms[..|ms| - 1]);
    }
  }

  method AddTo(list: CandidateList, interface: Interface, phase: Phase, ghost ms: seq<Match>)
    requires Building(list.items, ms)
    modifies list
    ensures Building(list.items, ms + [Match(interface, phase)])
  {
    MergeNonempty(ms);
    var m := Match(interface, phase);
    assert (ms + [m])[..|ms|] == ms;
    list.Add(interface, phase, Merge(ms));
  }

  /** resolveInterfaceCandidates: the merge of the four phases, unless it is empty. */
  method Resolve(ifname: string, host: Host) returns (r: Result<seq<Candidate>, ResolveError>)
    ensures host.all.None? ==> r == Err(CannotList)
    ensures host.all.Some? ==>
              var list := Merge(Matches(ifname, host, host.all.value));
              r == if list == [] then Err(NoneUsable) else Ok(ShowAll(list))
  {
    if host.all.None? {
      return Err(CannotList);
    }
    var all := host.all.value;
    var list := new CandidateList();
    assert Building([], []) by { assert ShowAll(Merge([])) == []; }
    hide Building;
    ghost var ms: seq<Match> := [];
    if Asked(ifname) {
      var i := ByName(all, Trim(ifname));
      if i.Some? && Usable(i.value) {
        AddTo(list, i.value, Requested, ms);
        ms := ms + [Match(i.value, Requested)];
      }
    }
    assert ms == RequestedMatches(ifname, all);
    var routes := if host.routes.Some? then host.routes.value else [];
    AddRoutes(list, host.byIndex, routes, ms);
    ms := ms + RouteMatches(host.byIndex, routes);
    AddAddresses(list, host.hasIPv6, all, ms);
    ms := ms + AddressMatches(host.hasIPv6, all);
    AddScan(list, all, ms);
    ms := ms + ScanMatches(all);
    assert ms == Matches(ifname, host, all);
    r := Finish(list, ms);
  }

  method Finish(list: CandidateList, ghost ms: seq<Match>) returns (r: Result<seq<Candidate>, ResolveError>)
    requires Building(list.items, ms)
    ensures r == if Merge(ms) == [] then Err(NoneUsable) else Ok(ShowAll(Merge(ms)))
  {
    if |list.items| == 0 {
      return Err(NoneUsable);
    }
    return Ok(list.items);
  }

  method AddRoutes(list: CandidateList, byIndex: int -> Option<Interface>, routes: seq<int>, ghost ms: seq<Match>)
    requires Building(list.items, ms)
    modifies list
    ensures Building(list.items, ms + RouteMatches(byIndex, routes))
  {
    hide Building;
    assert ms + [] == ms;
    for n := 0 to |routes|
      invariant Building(list.items, ms + RouteMatches(byIndex, routes[..n]))
    {
      assert routes[..n + 1][..n] == routes[..n];
      ghost var before := ms + RouteMatches(byIndex, routes[..n]);
      if routes[n] <= 0 {
        assert ms + RouteMatches(byIndex, routes[..n + 1]) == before;
        continue;
      }
      var i := byIndex(routes[n]);
      if i.Some? && Usable(i.value) {
        AddTo(list, i.value, DefaultRoute, before);
        assert ms + RouteMatches(byIndex, routes[..n + 1]) == before + [Match(i.value, DefaultRoute)];
      } else {
        assert ms + RouteMatches(byIndex, routes[..n + 1]) == before;
      }
    }
    assert routes[..|routes|] == routes;
  }

  method AddAddresses(list: CandidateList, hasIPv6: Interface -> bool, all: seq<Interface>, ghost ms: seq<Match>)
    requires Building(list.items, ms)
    modifies list
    ensures Building(list.items, ms + AddressMatches(hasIPv6, all))
  {
    hide Building;
    assert ms + [] == ms;
    for n := 0 to |all|
      invariant Building(list.items, ms + AddressMatches(hasIPv6, all[..n]))
    {
      assert all[..n + 1][..n] == all[..n];
      ghost var before := ms + AddressMatches(hasIPv6, all[..n]);
      if Usable(all[n]) && hasIPv6(all[n]) {
        AddTo(list, all[n], HasIPv6, before);
        assert ms + AddressMatches(hasIPv6, all[..n + 1]) == before + [Match(all[n], HasIPv6)];
      } else {
        assert ms + AddressMatches(hasIPv6, all[..n + 1]) == before;
      }
    }
    assert all[..|all|] == all;
  }

  method AddScan(list: CandidateList, all: seq<Interface>, ghost ms: seq<Match>)
    requires Building(list.items, ms)
    modifies list
    ensures Building(list.items, ms + ScanMatches(all))
  {
    hide Building;
    assert ms + [] == ms;
    for n := 0 to |all|
      invariant Building(list.items, ms + ScanMatches(all[..n]))
    {
      assert all[..n + 1][..n] == all[..n];
      ghost var before := ms + ScanMatches(all[..n]);
      if Usable(all[n]) {
        AddTo(list, all[n], Scan, before);
        assert ms + ScanMatches(all[..n + 1]) == before + [Match(all[n], Scan)];
      } else {
        assert ms + ScanMatches(all[..n + 1]) == before;
      }
    }
    assert all[..|all|] == all;
  }

  // ---------------------------------------------------------------- the candidate list

  ghost predicate PhaseMatches(ms: seq<Match>, p: Phase) {
    forall i :: 0 <= i < |ms| ==> ms[i].phase == p && Usable(ms[i].interface)
  }

  lemma {:induction false} RoutePhase(byIndex: int -> Option<Interface>, routes: seq<int>)
    ensures PhaseMatches(RouteMatches(byIndex, routes), DefaultRoute)
  {
    if |routes| > 0 {
      RoutePhase(byIndex, routes[..|routes| - 1]);
    }
  }

  lemma {:induction false} AddressPhase(hasIPv6: Interface -> bool, all: seq<Interface>)
    ensures PhaseMatches(AddressMatches(hasIPv6, all), HasIPv6)
  {
    if |all| > 0 {
      AddressPhase(hasIPv6, all[..|all| - 1]);
    }
  }

  /** The last phase matches exactly the usable interfaces. */
  lemma {:induction false} ScanPhase(all: seq<Interface>)
    ensures PhaseMatches(ScanMatches(all), Scan)
    ensures forall i :: i in all && Usable(i) ==> Match(i, Scan) in ScanMatches(all)
  {
    if |all| > 0 {
      var n := |all| - 1;
      ScanPhase(all[..n]);
      assert all == all[..n] + [all[n]];
    }
  }

  lemma PhasesJoin(a: seq<Match>, b: seq<Match>, c: seq<Match>, d: seq<Match>)
    requires PhaseMatches(a, Requested) && PhaseMatches(b, DefaultRoute)
    requires PhaseMatches(c, HasIPv6) && PhaseMatches(d, Scan)
    ensures InPhaseOrder(a + b + c + d)
    ensures forall m :: m in a + b + c + d ==> Usable(m.interface)
    ensures forall i :: |a| <= i < |a + b + c + d| ==> (a + b + c + d)[i].phase != Requested
  {
    var ms := a + b + c + d;
    forall i | 0 <= i < |ms|
      ensures Usable(ms[i].interface)
      ensures ms[i].phase == if i < |a| then Requested else if i < |a| + |b| then DefaultRoute
                             else if i < |a| + |b| + |c| then HasIPv6 else Scan
    {
      if i < |a| { assert ms[i] == a[i]; }
      else if i < |a| + |b| { assert ms[i] == b[i - |a|]; }
      else if i < |a| + |b| + |c| { assert ms[i] == c[i - |a| - |b|]; }
      else { assert ms[i] == d[i - |a| - |b| - |c|]; }
    }
  }

  lemma MatchesInOrder(ifname: string, host: Host, all: seq<Interface>)
    ensures InPhaseOrder(Matches(ifname, host, all))
    ensures forall m :: m in Matches(ifname, host, all) ==> Usable(m.interface)
    ensures forall i :: i in all && Usable(i) ==> Match(i, Scan) in Matches(ifname, host, all)
  {
    var routes := if host.routes.Some? then host.routes.value else [];
    RoutePhase(host.byIndex, routes);
    AddressPhase(host.hasIPv6, all);
    ScanPhase(all);
    PhasesJoin(RequestedMatches(ifname, all), RouteMatches(host.byIndex, routes),
               AddressMatches(host.hasIPv6, all), ScanMatches(all));
  }

  /** The candidate list is the first-occurrence de-duplication by index of requested,
      default-route, IPv6-address and all usable interfaces: no index is repeated, every
      candidate is usable, every usable interface's index is listed, and each candidate has
      the interface of its first match and exactly the phases that matched, in order. */
  lemma CandidatesAre(ifname: string, host: Host, all: seq<Interface>)
    ensures var ms := Matches(ifname, host, all);
            var list := Merge(ms);
            ListedIndexes(list) == Dedup(Indexes(ms))
            && (forall i, j :: 0 <= i < j < |list| ==> list[i].interface.index != list[j].interface.index)
            && (forall k :: 0 <= k < |list| ==> GoodEntry(ms, list[k]) && Usable(list[k].interface))
            && (forall i :: i in all && Usable(i) ==> i.index in ListedIndexes(list))
  {
    var ms := Matches(ifname, host, all);
    var list := Merge(ms);
    MatchesInOrder(ifname, host, all);
    hide Matches;
    MergeIndexes(ms);
    DedupMembers(Indexes(ms));
    MergeGood(ms);
    forall k | 0 <= k < |list|
      ensures Usable(list[k].interface)
    {
      assert GoodEntry(ms, list[k]);
      var i :| FirstMatch(ms, i, list[k].interface.index) && ms[i].interface == list[k].interface;
      assert ms[i] in ms;
    }
    assert forall k :: 0 <= k < |list| ==> ListedIndexes(list)[k] == list[k].interface.index;
    forall i | i in all && Usable(i)
      ensures i.index in ListedIndexes(list)
    {
      var k :| 0 <= k < |ms| && ms[k] == Match(i, Scan);
      assert Indexes(ms)[k] == i.index;
    }
  }

  /** These conditions leave no choice: a list that meets them is the merged list. */
  lemma CandidatesUnique(ms: seq<Match>, list: seq<Listed>)
    requires InPhaseOrder(ms) && ListedIndexes(list) == Dedup(Indexes(ms))
    requires forall k :: 0 <= k < |list| ==> GoodEntry(ms, list[k])
    ensures list == Merge(ms)
  {
    MergeIndexes(ms);
    MergeGood(ms);
    var other := Merge(ms);
    assert |list| == |other| by { assert |ListedIndexes(list)| == |ListedIndexes(other)|; }
    forall k | 0 <= k < |list|
      ensures list[k] == other[k]
    {
      assert ListedIndexes(list)[k] == ListedIndexes(other)[k];
      SameEntry(ms, list[k], other[k]);
    }
  }

  lemma SameEntry(ms: seq<Match>, l: Listed, m: Listed)
    requires GoodEntry(ms, l) && GoodEntry(ms, m) && l.interface.index == m.interface.index
    ensures l == m
  {
    var i :| FirstMatch(ms, i, l.interface.index) && ms[i].interface == l.interface;
    var j :| FirstMatch(ms, j, m.interface.index) && ms[j].interface == m.interface;
    assert i == j;
    StrictPhasesUnique(l.phases, m.phases);
  }

  lemma {:induction false} StrictPhasesUnique(p: seq<Phase>, q: seq<Phase>)
    requires StrictPhases(p) && StrictPhases(q) && forall x :: x in p <==> x in q
    ensures p == q
  {
    var rank := (x: Phase) => x.Order();
    assert Ordered.Members(p) == Ordered.Members(q);
    Ordered.AscendingUnique(rank, p, q);
  }

  /** A usable requested interface is the first candidate, and the only one with that reason. */
  lemma RequestedFirst(ifname: string, host: Host, all: seq<Interface>)
    requires Asked(ifname) && ByName(all, Trim(ifname)).Some? && Usable(ByName(all, Trim(ifname)).value)
    ensures var list := Merge(Matches(ifname, host, all));
            |list| > 0 && list[0].interface == ByName(all, Trim(ifname)).value
            && forall k :: 0 <= k < |list| ==> (Requested in list[k].phases <==> k == 0)
  {
    var wanted := ByName(all, Trim(ifname)).value;
    var ms := Matches(ifname, host, all);
    var list := Merge(ms);
    CandidatesAre(ifname, host, all);
    RequestedMatch(ifname, host, all);
    hide Matches;
    DedupFirst(Indexes(ms));
    assert ListedIndexes(list)[0] == wanted.index;
    assert FirstMatch(ms, 0, wanted.index);
    forall k | 0 <= k < |list|
      ensures Requested in list[k].phases <==> k == 0
    {
      assert GoodEntry(ms, list[k]);
      assert Matched(ms, list[k].interface.index, Requested) <==> list[k].interface.index == wanted.index by {
        assert ms[0].interface.index == wanted.index && ms[0].phase == Requested;
      }
    }
  }

  /** Only the first match can be the requested interface. */
  lemma RequestedMatch(ifname: string, host: Host, all: seq<Interface>)
    requires Asked(ifname) && ByName(all, Trim(ifname)).Some? && Usable(ByName(all, Trim(ifname)).value)
    ensures var ms := Matches(ifname, host, all);
            |ms| > 0 && ms[0] == Match(ByName(all, Trim(ifname)).value, Requested)
            && forall i :: 0 < i < |ms| ==> ms[i].phase != Requested
  {
    var routes := if host.routes.Some? then host.routes.value else [];
    RoutePhase(host.byIndex, routes);
    AddressPhase(host.hasIPv6, all);
    ScanPhase(all);
    PhasesJoin(RequestedMatches(ifname, all), RouteMatches(host.byIndex, routes),
               AddressMatches(host.hasIPv6, all), ScanMatches(all));
  }

  /** Without a usable requested interface no match is of that phase. */
  lemma NoRequestedMatch(ifname: string, host: Host, all: seq<Interface>)
    requires RequestedMatches(ifname, all) == []
    ensures forall i :: 0 <= i < |Matches(ifname, host, all)| ==> Matches(ifname, host, all)[i].phase != Requested
  {
    var routes := if host.routes.Some? then host.routes.value else [];
    RoutePhase(host.byIndex, routes);
    AddressPhase(host.hasIPv6, all);
    ScanPhase(all);
    PhasesJoin([], RouteMatches(host.byIndex, routes), AddressMatches(host.hasIPv6, all), ScanMatches(all));
  }

  lemma {:induction false} DedupFirst(xs: seq<int>)
    requires |xs| > 0
    ensures |Dedup(xs)| > 0 && Dedup(xs)[0] == xs[0]
  {
    if |xs| > 1 {
      DedupFirst(xs[..|xs| - 1]);
    }
  }
}
