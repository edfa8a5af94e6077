/** Static targets (main.go): command-line prefixes and a file that is reloaded as a whole or
    not at all. Parsing of address text is a pair of functions. */
module StaticTargets {
  import opened Addresses
  import opened Text
  import opened Selections

  /** A prefix as its text gives it, before the IPv6 check; lengths are within the address. */
  datatype RawParsed = RawParsed(addr: NetAddr, bits: nat)
  type Parsed = p: RawParsed | p.addr.V6? ==> p.bits <= 128 witness RawParsed(Invalid, 0)

  datatype Parser = Parser(prefix: string -> Option<Parsed>, address: string -> Option<NetAddr>)

  datatype TargetError = NotIPv6 | BadTarget

  /** parseStaticTarget: a prefix with its host bits cleared, or a single address. */
  function ParseStaticTarget(parser: Parser, text: string): Result<Prefix, TargetError> {
    var value := Trim(text);
    match parser.prefix(value)
    case Some(p) => if !p.addr.V6? then Err(NotIPv6) else Ok(Masked(RawPrefix(p.addr.v6, p.bits)))
    case None =>
      match parser.address(value)
      case Some(V6(a)) => Ok(RawPrefix(a, 128))
      case _ => Err(BadTarget)
  }

  /** A single address holds itself and nothing else. */
  lemma AddressTarget(parser: Parser, text: string, a: Bits128)
    requires parser.prefix(Trim(text)) == None && parser.address(Trim(text)) == Some(V6(a))
    ensures ParseStaticTarget(parser, text).Ok?
    ensures forall x: Bits128 :: Holds(ParseStaticTarget(parser, text).value, x) <==> x == a
  {
    forall x: Bits128
      ensures Holds(ParseStaticTarget(parser, text).value, x) <==> x == a
    {
      HostPrefix(ParseStaticTarget(parser, text).value, x);
    }
  }

  /** A prefix keeps its length, has its host bits cleared, and holds what its leading bits say. */
  lemma PrefixTarget(parser: Parser, text: string, a: Bits128, bits: nat)
    requires bits <= 128 && parser.prefix(Trim(text)) == Some(RawParsed(V6(a), bits))
    ensures var r, unit := ParseStaticTarget(parser, text), Pow2(128 - bits);
            r.Ok? && r.value.bits == bits && r.value.addr == (a / unit) * unit
            && forall x: Bits128 :: Holds(r.value, x) <==> x / unit == a / unit
  {
    var p: Prefix := RawPrefix(a, bits);
    var unit := Pow2(128 - bits);
    DivisionSplits(a, unit);
    forall x: Bits128
      ensures Holds(Masked(p), x) <==> x / unit == a / unit
    {
      RangeIsPrefix(p, x);
    }
  }

  lemma DivisionSplits(a: nat, unit: nat)
    requires unit > 0
    ensures a - a % unit == (a / unit) * unit
  {
  }

  /** Nothing else is a target. */
  lemma TargetErrors(parser: Parser, text: string)
    ensures var prefix, address := parser.prefix(Trim(text)), parser.address(Trim(text));
            var r := ParseStaticTarget(parser, text);
            (r == Err(NotIPv6) <==> prefix.Some? && !prefix.value.addr.V6?)
            && (r == Err(BadTarget) <==> prefix.None? && (address.None? || !address.value.V6?))
  {
    hide Trim;
  }

  // ---------------------------------------------------------------- reading a file

  /** What opening and scanning the file gives. */
  datatype File = Missing | Unreadable | Lines(lines: seq<string>, broken: bool)

  datatype FileError = FileMissing | OpenFailed | BadLine(line: nat) | ReadFailed

  /** Blank lines and comments say nothing. */
  predicate Significant(line: string) {
    var value := Trim(line);
    value != "" && value[0] != '#'
  }

  predicate GoodLine(parser: Parser, line: string) {
    Significant(line) ==> ParseStaticTarget(parser, Trim(line)).Ok?
  }

  predicate AllGood(parser: Parser, lines: seq<string>) {
    forall i :: 0 <= i < |lines| ==> GoodLine(parser, lines[i])
  }

  /** The prefixes of the significant lines, in order. */
  function Prefixes(parser: Parser, lines: seq<string>): seq<Prefix>
    requires AllGood(parser, lines)
  {
    if |lines| == 0 then []
    else
      var n := |lines| - 1;
      assert GoodLine(parser, lines[n]);
      Prefixes(parser, lines[..n])
      + (if Significant(lines[n]) then [ParseStaticTarget(parser, Trim(lines[n])).value] else [])
  }

  lemma NoLines(parser: Parser)
    ensures AllGood(parser, []) && Prefixes(parser, []) == []
  {
  }

  lemma OneMoreLine(parser: Parser, lines: seq<string>, i: nat)
    requires i < |lines| && AllGood(parser, lines[..i])
    ensures AllGood(parser, lines[..i + 1]) <==> GoodLine(parser, lines[i])
    ensures GoodLine(parser, lines[i]) ==>
              Prefixes(parser, lines[..i + 1])
              == Prefixes(parser, lines[..i])
                 + (if Significant(lines[i]) then [ParseStaticTarget(parser, Trim(lines[i])).value] else [])
  {
    hide ParseStaticTarget;
    var l := lines[..i + 1];
    assert l[..i] == lines[..i] && l[i] == lines[i];
    assert forall j :: 0 <= j < i ==> l[j] == lines[..i][j];
  }

  /** A file that loads: it can be read to its end and every significant line is a target. */
  predicate Loads(parser: Parser, file: File) {
    file.Lines? && !file.broken && AllGood(parser, file.lines)
  }

  method ReadStaticTargetFile(parser: Parser, file: File) returns (r: Result<seq<Prefix>, FileError>)
    ensures r.Ok? <==> Loads(parser, file)
    ensures r.Ok? ==> r.value == Prefixes(parser, file.lines)
    ensures r == Err(FileMissing) <==> file.Missing?
    ensures r == Err(OpenFailed) <==> file.Unreadable?
    ensures r == Err(ReadFailed) <==> file.Lines? && file.broken && AllGood(parser, file.lines)
    ensures r.Err? && r.error.BadLine? ==>
              file.Lines? && 1 <= r.error.line <= |file.lines|
              && !GoodLine(parser, file.lines[r.error.line - 1])
              && AllGood(parser, file.lines[..r.error.line - 1])
  {
    if file.Missing? {
      return Err(FileMissing);
    }
    if file.Unreadable? {
      return Err(OpenFailed);
    }
    hide ParseStaticTarget, Prefixes;
    var prefixes: seq<Prefix> := [];
    NoLines(parser);
    for i := 0 to |file.lines|
      invariant AllGood(parser, file.lines[..i]) && prefixes == Prefixes(parser, file.lines[..i])
    {
      OneMoreLine(parser, file.lines, i);
      var value := Trim(file.lines[i]);
      if value == "" || value[0] == '#' {
        continue;
      }
      var target := ParseStaticTarget(parser, value);
      if target.Err? {
        return Err(BadLine(i + 1));
      }
      prefixes := prefixes + [target.value];
    }
    assert file.lines[..|file.lines|] == file.lines;
    if file.broken {
      return Err(ReadFailed);
    }
    return Ok(prefixes);
  }

  // ---------------------------------------------------------------- coverage

  /** An address is covered by the prefixes that hold it. */
  predicate Covered(prefixes: seq<Prefix>, a: NetAddr) {
    a.V6? && exists i :: 0 <= i < |prefixes| && Holds(prefixes[i], a.v6)
  }

  lemma CoveredByEither(p: seq<Prefix>, q: seq<Prefix>, a: NetAddr)
    ensures Covered(p + q, a) <==> Covered(p, a) || Covered(q, a)
  {
    if Covered(p, a) {
      var i :| 0 <= i < |p| && Holds(p[i], a.v6);
      assert (p + q)[i] == p[i];
    }
    if Covered(q, a) {
      var i :| 0 <= i < |q| && Holds(q[i], a.v6);
      assert (p + q)[|p| + i] == q[i];
    }
  }

  /** The set built from prefixes holds exactly the addresses they cover. */
  method BuildSet(prefixes: seq<Prefix>) returns (s: IpSet)
    ensures forall a :: Contains(s, a) <==> Covered(prefixes, a)
  {
    s := [];
    for i := 0 to |prefixes|
      invariant |s| == i && forall j :: 0 <= j < i ==> s[j] == RangeOf(prefixes[j])
    {
      s := s + [RangeOf(prefixes[i])];
    }
    forall a
      ensures Contains(s, a) <==> Covered(prefixes, a)
    {
      if a.V6? {
        forall j | 0 <= j < |prefixes|
          ensures InRange(s[j], a.v6) <==> Holds(prefixes[j], a.v6)
        {
          RangeIsPrefix(prefixes[j], a.v6);
        }
      }
    }
  }

  /** On hosts with one proxy entry per target only single addresses are allowed. */
  predicate PlatformAllows(bsd: bool, prefixes: seq<Prefix>) {
    bsd ==> forall i :: 0 <= i < |prefixes| ==> prefixes[i].bits == 128
  }

  /** A load that is taken over: the file loads and the platform allows the merged targets. */
  predicate Accepted(parser: Parser, bsd: bool, cli: seq<Prefix>, file: File) {
    Loads(parser, file) && PlatformAllows(bsd, cli + Prefixes(parser, file.lines))
  }

  /** The prefixes of the last accepted load among some reloads, or the ones from before. */
  function LastAccepted(parser: Parser, bsd: bool, cli: seq<Prefix>, before: seq<Prefix>, files: seq<File>): seq<Prefix>
  {
    if |files| == 0 then before
    else
      var n := |files| - 1;
      if Accepted(parser, bsd, cli, files[n]) then Prefixes(parser, files[n].lines)
      else LastAccepted(parser, bsd, cli, before, files[..n])
  }

  predicate ArgumentsParse(parser: Parser, args: seq<string>) {
    forall i :: 0 <= i < |args| ==> ParseStaticTarget(parser, args[i]).Ok?
  }

  function CliPrefixes(parser: Parser, args: seq<string>): seq<Prefix>
    requires ArgumentsParse(parser, args)
  {
    seq(|args|, i requires 0 <= i < |args| => ParseStaticTarget(parser, args[i]).value)
  }

  class StaticTargetList {
    const parser: Parser
    const bsd: bool
    const cli: seq<Prefix>
    const hasFile: bool
    var targets: seq<Prefix>
    var subnets: IpSet
    ghost var loaded: seq<Prefix>  // the prefixes of the last accepted load

    /** The targets are the command-line ones followed by the last accepted load, and the
        address set holds exactly the addresses they cover. */
    ghost predicate Valid()
      reads this
    {
      targets == cli + loaded
      && (forall a :: Contains(subnets, a) <==> Covered(targets, a))
      && PlatformAllows(bsd, targets)
      && (!hasFile ==> loaded == [])
    }

    constructor (parser: Parser, bsd: bool, cli: seq<Prefix>, hasFile: bool, prefixes: seq<Prefix>, subnets: IpSet)
      requires PlatformAllows(bsd, cli + prefixes) && (!hasFile ==> prefixes == [])
      requires forall a :: Contains(subnets, a) <==> Covered(cli + prefixes, a)
      ensures Valid() && this.parser == parser && this.bsd == bsd && this.cli == cli
      ensures this.hasFile == hasFile && loaded == prefixes
    {
      this.parser, this.bsd, this.cli, this.hasFile := parser, bsd, cli, hasFile;
      this.targets, this.subnets, this.loaded := cli + prefixes, subnets, prefixes;
    }

    /** The Before hook: starts exactly when every argument parses, the file, if one is named,
        loads, and the platform allows the targets. */
    static method Start(parser: Parser, bsd: bool, args: seq<string>, file: Option<File>)
      returns (st: StaticTargetList?)
      ensures st != null <==>
              ArgumentsParse(parser, args)
              && (file.Some? ==> Loads(parser, file.value))
              && PlatformAllows(bsd, CliPrefixes(parser, args)
                                     + if file.Some? then Prefixes(parser, file.value.lines) else [])
      ensures ArgumentsParse(parser, args) && (file.Some? ==> Loads(parser, file.value)) && st == null ==>
                var targets := CliPrefixes(parser, args)
                               + if file.Some? then Prefixes(parser, file.value.lines) else [];
                bsd && exists i :: 0 <= i < |targets| && targets[i].bits != 128
      ensures st != null ==>
                st.Valid() && st.parser == parser && st.bsd == bsd && st.hasFile == file.Some?
                && st.cli == CliPrefixes(parser, args)
                && (bsd ==> forall i :: 0 <= i < |st.targets| ==> st.targets[i].bits == 128)
                && st.loaded == if file.Some? then Prefixes(parser, file.value.lines) else []
    {
      var cli: seq<Prefix> := [];
      for i := 0 to |args|
        invariant |cli| == i
        invariant forall j :: 0 <= j < i ==> ParseStaticTarget(parser, args[j]) == Ok(cli[j])
      {
        var prefix := ParseStaticTarget(parser, args[i]);
        if prefix.Err? {
          return null;
        }
        cli := cli + [prefix.value];
      }
      assert cli == CliPrefixes(parser, args);
      var prefixes: seq<Prefix> := [];
      if file.Some? {
        var read := ReadStaticTargetFile(parser, file.value);
        if read.Err? {
          return null;
        }
        prefixes := read.value;
      }
      if !PlatformAllows(bsd, cli + prefixes) {
        return null;
      }
      var subnets := BuildSet(cli + prefixes);
      st := new StaticTargetList(parser, bsd, cli, file.Some?, prefixes, subnets);
    }

    /** reloadStaticTargetFile: takes over an accepted load as a whole, and otherwise changes
        nothing. */
    method Reload(file: File)
      requires Valid()
      modifies this
      ensures Valid()
      ensures loaded ==
              if hasFile && Accepted(parser, bsd, cli, file) then Prefixes(parser, file.lines) else old(loaded)
      ensures !(hasFile && Accepted(parser, bsd, cli, file)) ==> targets == old(targets) && subnets == old(subnets)
      // Where one proxy entry stands for one target, only single addresses are allowed.
      ensures hasFile && Loads(parser, file) && targets != cli + Prefixes(parser, file.lines) ==>
                bsd && exists i :: 0 <= i < |cli + Prefixes(parser, file.lines)|
                                   && (cli + Prefixes(parser, file.lines))[i].bits != 128
      ensures bsd ==> forall i :: 0 <= i < |targets| ==> targets[i].bits == 128
    {
      if !hasFile {
        return;
      }
      var read := ReadStaticTargetFile(parser, file);
      if read.Err? {
        return;
      }
      var merged := cli + read.value;
      if !PlatformAllows(bsd, merged) {
        return;
      }
      var s := BuildSet(merged);
      subnets, targets, loaded := s, merged, read.value;
    }

    /** The prefixes in force after some reloads; without a file name there are none to reload. */
    ghost function InForce(before: seq<Prefix>, files: seq<File>): seq<Prefix> {
      if hasFile then LastAccepted(parser, bsd, cli, before, files) else before
    }

    /** Over any run of reloads the targets are the command-line ones followed by the last
        accepted load. */
    method ReloadAll(files: seq<File>)
      requires Valid()
      modifies this
      ensures Valid()
      ensures loaded == InForce(old(loaded), files) && targets == cli + InForce(old(loaded), files)
    {
      for i := 0 to |files|
        invariant Valid() && loaded == InForce(old(loaded), files[..i])
      {
        assert files[..i + 1][..i] == files[..i];
        Reload(files[i]);
      }
      assert files[..|files|] == files;
    }
  }

  /** A line says something exactly if its first character that is no white space exists and is
      not a hash sign. */
  lemma SignificantIff(line: string)
    ensures Significant(line) <==>
            exists k :: 0 <= k < |line| && AllSpace(line[..k]) && !IsSpace(line[k]) && line[k] != '#'
  {
    var before, after := TrimIs(line);
    var t := Trim(line);
    if t != "" {
      assert line[|before|] == t[0] && line[..|before|] == before;
    }
    forall k | 0 <= k < |line| && AllSpace(line[..k]) && !IsSpace(line[k])
      ensures t != "" && k == |before|
    {
      assert forall i :: 0 <= i < k ==> line[..k][i] == line[i];
      assert forall i :: 0 <= i < |before| ==> before[i] == line[i];
      assert forall i :: 0 <= i < |after| ==> after[i] == line[|before| + |t| + i];
    }
  }

  function FromLine(parser: Parser): string -> Option<Prefix> {
    (line: string) =>
      if !Significant(line) then None
      else match ParseStaticTarget(parser, Trim(line)) case Ok(p) => Some(p) case Err(_) => None
  }

  /** The prefixes of a file are the targets of its significant lines, in their order. */
  lemma {:induction false} PrefixesInOrder(parser: Parser, lines: seq<string>)
    requires AllGood(parser, lines)
    ensures Taken(lines, FromLine(parser), Prefixes(parser, lines))
  {
    hide Significant, ParseStaticTarget, Trim, Taken;
    if |lines| == 0 {
      TakenNothing(FromLine(parser));
    } else {
      var n := |lines| - 1;
      PrefixesInOrder(parser, lines[..n]);
      assert GoodLine(parser, lines[n]);
      TakenMore(lines[..n], FromLine(parser), Prefixes(parser, lines[..n]), lines[n]);
      assert lines == lines[..n] + [lines[n]];
      assert Prefixes(parser, lines[..n]) + [] == Prefixes(parser, lines[..n]);
    }
  }

  /** The load in force is that of the last accepted file, or the one from before if none was. */
  lemma {:induction false} LastAcceptedIs(parser: Parser, bsd: bool, cli: seq<Prefix>, before: seq<Prefix>,
                                          files: seq<File>) returns (k: int)
    ensures -1 <= k < |files|
    ensures forall j :: k < j < |files| ==> !Accepted(parser, bsd, cli, files[j])
    ensures if k < 0 then LastAccepted(parser, bsd, cli, before, files) == before
            else Accepted(parser, bsd, cli, files[k])
                 && LastAccepted(parser, bsd, cli, before, files) == Prefixes(parser, files[k].lines)
  {
    hide Prefixes, PlatformAllows;
    if |files| == 0 {
      k := -1;
    } else if Accepted(parser, bsd, cli, files[|files| - 1]) {
      k := |files| - 1;
    } else {
      k := LastAcceptedIs(parser, bsd, cli, before, files[..|files| - 1]);
    }
  }

  /** The prefixes of a file are the targets of its significant lines and no others. */
  lemma {:induction false} PrefixesAreTargets(parser: Parser, lines: seq<string>, q: Prefix)
    requires AllGood(parser, lines)
    ensures q in Prefixes(parser, lines) <==>
            exists i :: 0 <= i < |lines| && Significant(lines[i]) && ParseStaticTarget(parser, Trim(lines[i])) == Ok(q)
  {
    hide ParseStaticTarget, Trim;
    if |lines| > 0 {
      var n := |lines| - 1;
      PrefixesAreTargets(parser, lines[..n], q);
      assert GoodLine(parser, lines[n]);
      assert forall i :: 0 <= i < n ==> lines[..n][i] == lines[i];
    }
  }
}
