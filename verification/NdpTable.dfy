/** The parser of `ndp -an` output (ndp_proxy.go), and the tables it reads back. The text of
    an address is a pair of functions parse and text; TextLaw says what is assumed of them. */
module NdpTable {
  import opened Addresses
  import opened Text

  datatype Entry = Entry(ifname: string, proxy: bool)

  type Table = map<NetAddr, Entry>

  type AddressParser = string -> Option<NetAddr>
  type AddressPrinter = Bits128 -> string

  /** Printing an IPv6 address gives one word without a zone, and parsing it gives it back. */
  ghost predicate TextLaw(parse: AddressParser, text: AddressPrinter) {
    forall a: Bits128 :: parse(text(a)) == Some(V6(a)) && IsWord(text(a)) && '%' !in text(a)
  }

  // ---------------------------------------------------------------- the flags column

  predicate IsLetter(c: char) { 'A' <= c <= 'Z' || 'a' <= c <= 'z' }

  predicate IsDigit(c: char) { '0' <= c <= '9' }

  predicate IsFlag(c: char) { c == 'R' || c == 'P' || c == 'W' || c == 'l' || c == 'p' }

  predicate AllFlags(s: string) { forall i :: 0 <= i < |s| ==> IsFlag(s[i]) }

  predicate AllDigits(s: string) { forall i :: 0 <= i < |s| ==> IsDigit(s[i]) }

  /** A proxy flag word: flag letters with the announce flag p among them, then a probe count
      of any number of digits. */
  predicate ProxyWord(w: string) {
    exists k :: 0 <= k <= |w| && AllFlags(w[..k]) && 'p' in w[..k] && AllDigits(w[k..])
  }

  ghost predicate FlagsThenDigits(w: string, k: nat)
    requires k <= |w|
  {
    (forall i :: 0 <= i < k ==> w[i] in "RPWlp") && (exists i :: 0 <= i < k && w[i] == 'p')
    && forall i :: k <= i < |w| ==> '0' <= w[i] <= '9'
  }

  /** The flag words, character by character. */
  lemma ProxyWordIs(w: string)
    ensures ProxyWord(w) <==> exists k :: 0 <= k <= |w| && FlagsThenDigits(w, k)
  {
    forall k | 0 <= k <= |w|
      ensures FlagsThenDigits(w, k) <==> AllFlags(w[..k]) && 'p' in w[..k] && AllDigits(w[k..])
    {
      assert forall i :: 0 <= i < k ==> w[..k][i] == w[i];
      assert forall i :: k <= i < |w| ==> w[k..][i - k] == w[i];
      assert forall c: char :: IsFlag(c) <==> c in "RPWlp";
    }
    if k :| 0 <= k <= |w| && FlagsThenDigits(w, k) {
      assert AllFlags(w[..k]) && 'p' in w[..k] && AllDigits(w[k..]);
    }
  }

  method IsNdpProxyFlag(field: string) returns (b: bool)
    ensures b <==> ProxyWord(field)
  {
    var letterEnd := 0;
    while letterEnd < |field| && IsLetter(field[letterEnd])
      invariant 0 <= letterEnd <= |field|
      invariant forall i :: 0 <= i < letterEnd ==> IsLetter(field[i])
    {
      letterEnd := letterEnd + 1;
    }
    // Any split into flags and digits must be at the end of the letters.
    forall k | 0 <= k <= |field| && AllFlags(field[..k]) && 'p' in field[..k] && AllDigits(field[k..])
      ensures k == letterEnd
    {
      assert k < |field| ==> field[k..][0] == field[k];
      assert forall i :: 0 <= i < k ==> field[..k][i] == field[i];
    }
    for i := 0 to letterEnd
      invariant AllFlags(field[..i])
    {
      if !IsFlag(field[i]) {
        assert field[..letterEnd][i] == field[i];
        return false;
      }
    }
    for i := letterEnd to |field|
      invariant forall j :: letterEnd <= j < i ==> IsDigit(field[j])
    {
      if !IsDigit(field[i]) {
        assert field[letterEnd..][i - letterEnd] == field[i];
        return false;
      }
    }
    assert AllDigits(field[letterEnd..]);
    b := 'p' in field[..letterEnd];
  }

  // ---------------------------------------------------------------- parsing

  /** What one line of output says, if it is an entry for an IPv6 address: at least three
      columns, the first an address up to its zone, the third the interface. */
  ghost function ParseLine(parse: AddressParser, line: string): Option<(NetAddr, Entry)> {
    var fields := Fields(line);
    if |fields| < 3 then None
    else
      var address := parse(Split(fields[0], '%')[0]);
      if address.None? || !address.value.V6? then None
      else Some((address.value.Unmap(), Entry(fields[2], exists i :: 3 <= i < |fields| && ProxyWord(fields[i]))))
  }

  ghost function AddLine(parse: AddressParser, entries: Table, line: string): Table {
    match ParseLine(parse, line)
    case None => entries
    case Some((address, entry)) => entries[address := entry]
  }

  /** Later lines replace earlier ones. */
  ghost function ParseLines(parse: AddressParser, lines: seq<string>): Table {
    if |lines| == 0 then map[]
    else AddLine(parse, ParseLines(parse, lines[..|lines| - 1]), lines[|lines| - 1])
  }

  method NdpEntries(parse: AddressParser, output: string) returns (entries: Table)
    ensures entries == ParseLines(parse, Split(output, '\n'))
  {
    entries := map[];
    var lines := Split(output, '\n');
    for n := 0 to |lines|
      invariant entries == ParseLines(parse, lines[..n])
    {
      assert lines[..n + 1][..n] == lines[..n];
      var fields := Fields(lines[n]);
      if |fields| < 3 {
        continue;
      }
      var address := parse(Split(fields[0], '%')[0]);
      if address.None? || !address.value.V6? {
        continue;
      }
      var entry := Entry(fields[2], false);
      for i := 3 to |fields|
        invariant entry == Entry(fields[2], false)
        invariant forall j :: 3 <= j < i ==> !ProxyWord(fields[j])
      {
        var flag := IsNdpProxyFlag(fields[i]);
        if flag {
          entry := entry.(proxy := true);
          break;
        }
      }
      entries := entries[address.value.Unmap() := entry];
    }
    assert lines[..|lines|] == lines;
  }

  // ---------------------------------------------------------------- printing

  /** One printed entry. The expiry and state columns may be blank, the probe count is attached to the
      flags, and both may be empty; other columns may follow. */
  datatype Row = Row(address: Bits128, zone: string, lladdr: string, ifname: string, expire: Option<string>,
                     state: Option<string>, flags: string, probes: string, others: seq<string>,
                     lead: string, gaps: seq<string>)

  /** A printed table holds entries, a header and anything else the parser has to skip. */
  datatype Line = Junk(line: string) | Shown(row: Row)

  function Columns(row: Row): seq<string> {
    (match row.expire case None => [] case Some(s) => [s])
    + (match row.state case None => [] case Some(s) => [s])
    + (if row.flags + row.probes == "" then [] else [row.flags + row.probes])
    + row.others
  }

  function Words(text: AddressPrinter, row: Row): seq<string> {
    [text(row.address) + row.zone, row.lladdr, row.ifname] + Columns(row)
  }

  /** A row as ndp prints it: an unmapped address, words without white space, flag letters and
      digits in the flags column, and no proxy flag word in any other column. */
  predicate GoodRow(text: AddressPrinter, row: Row) {
    V6(row.address).Unmap().V6?
    && (row.zone == "" || row.zone[0] == '%')
    && AllFlags(row.flags) && AllDigits(row.probes)
    && (row.expire.Some? ==> !ProxyWord(row.expire.value)) && (row.state.Some? ==> !ProxyWord(row.state.value))
    && (forall i :: 0 <= i < |row.others| ==> !ProxyWord(row.others[i]))
    && SeparatedBy(Words(text, row), row.gaps)
    && AllSpace(row.lead)
    && '\n' !in RowText(text, row)
  }

  function RowText(text: AddressPrinter, row: Row): string {
    var words := Words(text, row);
    if |words| == |row.gaps| then row.lead + Layout(words, row.gaps) else ""
  }

  /** Lines that are not entries: too few columns, or a first column that is no IPv6 address. */
  predicate GoodLine(parse: AddressParser, text: AddressPrinter, l: Line) {
    match l
    case Junk(s) =>
      '\n' !in s
      && (|Fields(s)| < 3 || parse(Split(Fields(s)[0], '%')[0]).None? || !parse(Split(Fields(s)[0], '%')[0]).value.V6?)
    case Shown(row) => GoodRow(text, row)
  }

  predicate GoodOutput(parse: AddressParser, text: AddressPrinter, doc: seq<Line>) {
    |doc| > 0 && forall i :: 0 <= i < |doc| ==> GoodLine(parse, text, doc[i])
  }

  function LineText(text: AddressPrinter, l: Line): string {
    match l
    case Junk(s) => s
    case Shown(row) => RowText(text, row)
  }

  function Texts(text: AddressPrinter, doc: seq<Line>): seq<string> {
    seq(|doc|, i requires 0 <= i < |doc| => LineText(text, doc[i]))
  }

  function Render(text: AddressPrinter, doc: seq<Line>): string
    requires |doc| > 0
  {
    Join(Texts(text, doc), "\n")
  }

  /** The table a printed listing stands for. An address may be shown again, as a link-local one
      is for each zone it is in; the last row counts. */
  function TableOf(doc: seq<Line>): Table {
    if |doc| == 0 then map[]
    else
      var before, last := TableOf(doc[..|doc| - 1]), doc[|doc| - 1];
      if last.Junk? then before
      else before[V6(last.row.address) := Entry(last.row.ifname, 'p' in last.row.flags)]
  }

  // ---------------------------------------------------------------- reading back what was printed

  lemma FlagsColumn(flags: string, probes: string)
    requires AllFlags(flags) && AllDigits(probes)
    ensures ProxyWord(flags + probes) <==> 'p' in flags
  {
    var w := flags + probes;
    if 'p' in flags {
      assert w[..|flags|] == flags && w[|flags|..] == probes;
    }
    if ProxyWord(w) {
      var k :| 0 <= k <= |w| && AllFlags(w[..k]) && 'p' in w[..k] && AllDigits(w[k..]);
      var i :| 0 <= i < k && w[i] == 'p';
      assert forall j :: |flags| <= j < |w| ==> w[j] == probes[j - |flags|];
    }
  }

  /** Some column is a proxy flag word exactly when the flags hold p. */
  lemma ColumnsFlag(row: Row)
    requires AllFlags(row.flags) && AllDigits(row.probes)
    requires (row.expire.Some? ==> !ProxyWord(row.expire.value)) && (row.state.Some? ==> !ProxyWord(row.state.value))
    requires forall i :: 0 <= i < |row.others| ==> !ProxyWord(row.others[i])
    ensures (exists i :: 0 <= i < |Columns(row)| && ProxyWord(Columns(row)[i])) <==> 'p' in row.flags
  {
    FlagsColumn(row.flags, row.probes);
    var cs := Columns(row);
    assert forall c :: c in cs ==> (row.expire.Some? && c == row.expire.value)
                                   || (row.state.Some? && c == row.state.value)
                                   || c == row.flags + row.probes || c in row.others;
    if 'p' in row.flags {
      assert row.flags + row.probes in cs;
    }
  }

  lemma FirstColumn(parse: AddressParser, text: AddressPrinter, row: Row)
    requires TextLaw(parse, text) && (row.zone == "" || row.zone[0] == '%')
    ensures Split(text(row.address) + row.zone, '%')[0] == text(row.address)
  {
    var a := text(row.address);
    if row.zone == "" {
      assert a + row.zone == a;
      SplitNothing(a, '%');
    } else {
      assert a + row.zone == a + ['%'] + row.zone[1..];
      SplitFirst(a, '%', row.zone[1..]);
    }
  }

  lemma FieldsOfRow(text: AddressPrinter, row: Row)
    requires GoodRow(text, row)
    ensures Fields(RowText(text, row)) == Words(text, row)
  {
    var words := Words(text, row);
    FieldsSkipSpace(row.lead, Layout(words, row.gaps));
    FieldsOfLayout(words, row.gaps);
  }

  lemma LaterColumns(words: seq<string>, columns: seq<string>)
    requires |words| >= 3 && words[3..] == columns
    ensures (exists i :: 3 <= i < |words| && ProxyWord(words[i]))
            <==> (exists i :: 0 <= i < |columns| && ProxyWord(columns[i]))
  {
    assert forall i :: 3 <= i < |words| ==> words[i] == columns[i - 3];
    assert forall i :: 0 <= i < |columns| ==> columns[i] == words[i + 3];
  }

  lemma RowParses(parse: AddressParser, text: AddressPrinter, row: Row)
    requires TextLaw(parse, text) && GoodRow(text, row)
    ensures ParseLine(parse, RowText(text, row))
            == Some((V6(row.address), Entry(row.ifname, 'p' in row.flags)))
  {
    hide Fields, Layout, RowText, ProxyWord, AllFlags, AllDigits, AllSpace, SeparatedBy, Split;
    FieldsOfRow(text, row);
    FirstColumn(parse, text, row);
    ColumnsFlag(row);
    WordsOfRow(text, row);
    hide Words, Columns, GoodRow, TextLaw;
    LaterColumns(Words(text, row), Columns(row));
  }

  lemma WordsOfRow(text: AddressPrinter, row: Row)
    ensures var words := Words(text, row);
            |words| >= 3 && words[3..] == Columns(row)
            && words[0] == text(row.address) + row.zone && words[2] == row.ifname
  {
    hide ProxyWord;
  }

  lemma {:induction false} LinesParse(parse: AddressParser, text: AddressPrinter, doc: seq<Line>)
    requires TextLaw(parse, text)
    requires forall i :: 0 <= i < |doc| ==> GoodLine(parse, text, doc[i])
    ensures ParseLines(parse, Texts(text, doc)) == TableOf(doc)
  {
    if |doc| > 0 {
      var n := |doc| - 1;
      LinesParse(parse, text, doc[..n]);
      assert Texts(text, doc)[..n] == Texts(text, doc[..n]);
      if doc[n].Shown? {
        RowParses(parse, text, doc[n].row);
      }
    }
  }

  /** Parsing the printed output gives exactly the printed table. */
  lemma OutputParses(parse: AddressParser, text: AddressPrinter, doc: seq<Line>)
    requires TextLaw(parse, text) && GoodOutput(parse, text, doc)
    ensures ParseLines(parse, Split(Render(text, doc), '\n')) == TableOf(doc)
  {
    var lines := Texts(text, doc);
    SplitOfJoin(lines, '\n');
    LinesParse(parse, text, doc);
  }

  /** With distinct addresses the table holds each printed row, and nothing else. */
  lemma {:induction false} TableHoldsRows(doc: seq<Line>)
    requires forall i, j :: 0 <= i < j < |doc| && doc[i].Shown? && doc[j].Shown? ==>
                              doc[i].row.address != doc[j].row.address
    ensures forall i :: 0 <= i < |doc| && doc[i].Shown? ==>
              var row := doc[i].row;
              V6(row.address) in TableOf(doc)
              && TableOf(doc)[V6(row.address)] == Entry(row.ifname, 'p' in row.flags)
    ensures forall a :: a in TableOf(doc) ==> exists i :: 0 <= i < |doc| && doc[i].Shown? && a == V6(doc[i].row.address)
  {
    if |doc| > 0 {
      var n := |doc| - 1;
      TableHoldsRows(doc[..n]);
      assert forall i :: 0 <= i < n ==> doc[..n][i] == doc[i];
    }
  }
}
