/** BasicSourceLineResolver::Module: loading STACK CFI records and finding the rules for an address. */
module SymbolModules {
  import opened Addresses
  import opened Options
  import opened Text
  import opened CfiRules
  import RangeMaps

  const FIELD_BREAKS: string := " \r\n"
  const LINE_BREAKS: string := "\r\n"
  const MAX_ERRORS: int := 100

  datatype Delta = Delta(address: Address, text: string)

  /** The rule sets of INIT records by range, and of the other records by address, in order of address. */
  datatype Tables = Tables(initial: seq<RangeMaps.Range<string>>, deltas: seq<Delta>)

  const NO_TABLES: Tables := Tables([], [])

  /** cfi_delta_rules_[address] = text. */
  function PutDelta(ds: seq<Delta>, a: Address, text: string): seq<Delta> {
    if ds == [] || a < ds[0].address then [Delta(a, text)] + ds
    else if a == ds[0].address then [Delta(a, text)] + ds[1..]
    else [ds[0]] + PutDelta(ds[1..], a, text)
  }

  /** cfi_initial_rules_.StoreRange; a refused range changes nothing. */
  function PutInitial(t: Tables, base: Address, size: Address, text: string): Tables {
    var stored := RangeMaps.Store(t.initial, base, size, text);
    if stored.Some? then t.(initial := stored.value) else t
  }

  /** What parsing a record returns, and the tables after it. */
  datatype Loaded = Loaded(ok: bool, tables: Tables)

  /** ParseCFIFrameInfo on the part of the line after "STACK CFI ". */
  function ParseRecord(s: string, t: Tables): Loaded {
    match StrTok(s, FIELD_BREAKS)
    case None => Loaded(false, t)
    case Some((first, rest)) =>
      if first == "INIT" then ParseInit(rest, t)
      else
        match StrTok(rest, LINE_BREAKS)
        case None => Loaded(false, t)
        case Some((rules, _)) => Loaded(true, t.(deltas := PutDelta(t.deltas, StrToUL(first), rules)))
  }

  function ParseInit(s: string, t: Tables): Loaded {
    match StrTok(s, FIELD_BREAKS)
    case None => Loaded(false, t)
    case Some((address, rest)) =>
      match StrTok(rest, FIELD_BREAKS)
      case None => Loaded(false, t)
      case Some((size, rest')) =>
        match StrTok(rest', LINE_BREAKS)
        case None => Loaded(false, t)
        case Some((rules, _)) => Loaded(true, PutInitial(t, StrToUL(address), StrToUL(size), rules))
  }

  function SkipSpaces(s: string): string {
    if s != "" && s[0] == ' ' then SkipSpaces(s[1..]) else s
  }

  /**
   * Which lines are errors that the tables of call frame information do not depend on, by line
   * number: records of other kinds, and STACK records for Windows.
   */
  type Failures = nat -> bool

  /** ParseStackInfo on a line that starts with "STACK "; `fails` says whether a record for Windows is an error. */
  function ParseStack(line: string, t: Tables, fails: bool): Loaded
    requires |line| >= 6
  {
    var s := SkipSpaces(line[6..]);
    var n := TokenLength(s, FIELD_BREAKS);
    if s[..n] == "CFI" then ParseRecord(if n < |s| then s[n + 1..] else "", t) else Loaded(s[..n] == "WIN" && !fails, t)
  }

  /** How far loading has come: the number of the next line, and the errors so far. */
  datatype Log = Log(line: nat, errors: nat)

  function Next(log: Log, ok: bool): Log {
    Log(log.line + 1, if ok then log.errors else log.errors + 1)
  }

  function LoadLine(line: string, t: Tables, fails: bool): Loaded {
    if "STACK " <= line then ParseStack(line, t, fails) else Loaded(!fails, t)
  }

  /** A line with nothing behind "STACK CFI", not even a space. */
  predicate Bare(line: string) {
    "STACK " <= line && SkipSpaces(line[6..]) == "CFI"
  }

  /** Where the first field of the text ends. */
  function FieldEnd(s: string): (n: nat)
    ensures n <= |s|
  {
    if s == "" then 0
    else if s[0] in FIELD_BREAKS then 1 + FieldEnd(s[1..])
    else TokenLength(s, FIELD_BREAKS)
  }

  /** Up to there are separators and one field, which a separator follows unless the text ends. */
  lemma {:induction false} FieldEndIs(s: string) returns (start: nat)
    ensures var n := FieldEnd(s);
            && start <= n && (forall i :: 0 <= i < start ==> s[i] in FIELD_BREAKS)
            && (forall i :: start <= i < n ==> s[i] !in FIELD_BREAKS)
            && (n < |s| ==> start < n && s[n] in FIELD_BREAKS)
  {
    if s == "" {
      start := 0;
    } else if s[0] in FIELD_BREAKS {
      start := FieldEndIs(s[1..]);
      start := start + 1;
    } else {
      start := 0;
      TokenEnds(s, "", FIELD_BREAKS);
    }
  }

  /**
   * The loop over the text of a symbol file, as far as call frame information goes. After a bare line
   * the code steps over its terminator and parses what follows as the record. Doing so it ends the
   * text behind the first field there.
   */
  function LoadText(text: string, t: Tables, log: Log, fails: Failures): Tables
    decreases |text|
  {
    match StrTok(text, LINE_BREAKS)
    case None => t
    case Some((line, rest)) =>
      var r := if Bare(line) then ParseRecord(rest, t) else LoadLine(line, t, fails(log.line));
      if Next(log, r.ok).errors > MAX_ERRORS then r.tables
      else LoadText(if Bare(line) then rest[..FieldEnd(rest)] else rest, r.tables, Next(log, r.ok), fails)
  }

  /** The same for a text that is split into lines beforehand. */
  function LoadLines(lines: seq<string>, t: Tables, log: Log, fails: Failures): Tables {
    if lines == [] then t
    else
      var r := LoadLine(lines[0], t, fails(log.line));
      if Next(log, r.ok).errors > MAX_ERRORS then r.tables else LoadLines(lines[1..], r.tables, Next(log, r.ok), fails)
  }

  /** Without bare lines, loading a text is loading its lines one by one. */
  lemma {:induction false} LoadTextLines(text: string, t: Tables, log: Log, fails: Failures)
    requires forall i :: 0 <= i < |Tokens(text, LINE_BREAKS)| ==> !Bare(Tokens(text, LINE_BREAKS)[i])
    ensures LoadText(text, t, log, fails) == LoadLines(Tokens(text, LINE_BREAKS), t, log, fails)
    decreases |text|
  {
    var next := StrTok(text, LINE_BREAKS);
    if next.Some? {
      var line, rest := next.value.0, next.value.1;
      var lines := Tokens(text, LINE_BREAKS);
      assert lines[0] == line && lines[1..] == Tokens(rest, LINE_BREAKS);
      hide StrTok, LoadLine, Tokens, Bare, ParseRecord;
      forall i | 0 <= i < |Tokens(rest, LINE_BREAKS)| ensures !Bare(Tokens(rest, LINE_BREAKS)[i]) {
        assert lines[i + 1] == Tokens(rest, LINE_BREAKS)[i];
      }
      var r := LoadLine(line, t, fails(log.line));
      if Next(log, r.ok).errors <= MAX_ERRORS {
        LoadTextLines(rest, r.tables, Next(log, r.ok), fails);
      }
    }
  }

  /** A bare line takes its record from the text behind it, of which only the first field is then left. */
  lemma BareLine(line: string, sep: char, rest: string, t: Tables, log: Log, fails: Failures)
    requires Bare(line) && Clean(line, LINE_BREAKS) && sep in LINE_BREAKS
    ensures var r := ParseRecord(rest, t);
            LoadText(line + [sep] + rest, t, log, fails) ==
            if Next(log, r.ok).errors > MAX_ERRORS then r.tables
            else LoadText(rest[..FieldEnd(rest)], r.tables, Next(log, r.ok), fails)
  {
    StrTokClean(line, sep, rest, LINE_BREAKS);
    hide StrTok, ParseRecord, FieldEnd, Bare, Clean;
  }

  /** The line that is bare, and records that are not. */
  lemma BareLines(s: string)
    ensures Bare("STACK CFI") && !Bare("STACK CFI " + s)
  {
    assert "STACK CFI"[6..] == "CFI" && SkipSpaces("CFI") == "CFI";
    var line := "STACK CFI " + s;
    assert line[6..] == "CFI" + (" " + s) && line[6..][0] == 'C';
    assert SkipSpaces(line[6..]) == line[6..];
  }

  /** Parse the rule sets of the records from `lo` to `hi` on top of `info`; a bad rule set sets what it can. */
  function ApplyDeltas(ds: seq<Delta>, lo: Address, hi: Address, info: FrameInfo): FrameInfo {
    if ds == [] then info
    else ApplyDeltas(ds[1..], lo, hi, if lo <= ds[0].address <= hi then ParseRuleSet(ds[0].text, info).info else info)
  }

  /** What FindCFIFrameInfo returns for an address relative to the module. */
  function Find(t: Tables, address: Address): Option<FrameInfo> {
    var found := RangeMaps.Retrieve(t.initial, address);
    if found.None? then None
    else
      var parsed := ParseRuleSet(found.value.entry, EMPTY);
      if parsed.ok then Some(ApplyDeltas(t.deltas, found.value.base, address, parsed.info)) else None
  }

  ghost predicate Ascending(ds: seq<Delta>) {
    forall i, j :: 0 <= i < j < |ds| ==> ds[i].address < ds[j].address
  }

  /** Storing a record keeps the others, replaces one at the same address, and keeps the order. */
  lemma PutDeltaCorrect(ds: seq<Delta>, a: Address, text: string)
    requires Ascending(ds)
    ensures Ascending(PutDelta(ds, a, text))
    ensures forall d :: d in PutDelta(ds, a, text) <==> d == Delta(a, text) || (d in ds && d.address != a)
  {
    PutDeltaAscends(ds, a, text);
    forall d ensures d in PutDelta(ds, a, text) <==> d == Delta(a, text) || (d in ds && d.address != a) {
      PutDeltaMember(ds, a, text, d);
    }
  }

  lemma FirstIsLeast(ds: seq<Delta>, d: Delta)
    requires Ascending(ds) && ds != [] && d in ds[1..]
    ensures ds[0].address < d.address
  {
    var i :| 0 <= i < |ds[1..]| && ds[1..][i] == d;
    assert ds[i + 1] == d;
  }

  lemma {:induction false} PutDeltaMember(ds: seq<Delta>, a: Address, text: string, d: Delta)
    requires Ascending(ds)
    ensures d in PutDelta(ds, a, text) <==> d == Delta(a, text) || (d in ds && d.address != a)
  {
    if ds != [] {
      assert ds == [ds[0]] + ds[1..];
      if d in ds[1..] {
        FirstIsLeast(ds, d);
      }
      if a > ds[0].address {
        PutDeltaMember(ds[1..], a, text, d);
      }
    }
  }

  lemma {:induction false} PutDeltaAscends(ds: seq<Delta>, a: Address, text: string)
    requires Ascending(ds)
    ensures Ascending(PutDelta(ds, a, text))
  {
    if ds != [] && a > ds[0].address {
      var rest := PutDelta(ds[1..], a, text);
      PutDeltaAscends(ds[1..], a, text);
      forall j | 0 <= j < |rest| ensures ds[0].address < rest[j].address {
        PutDeltaMember(ds[1..], a, text, rest[j]);
        if rest[j] in ds[1..] {
          FirstIsLeast(ds, rest[j]);
        }
      }
    }
  }

  lemma BareStack(line: string)
    requires !("STACK " <= line)
    ensures !Bare(line)
  {
  }

  lemma BareField(line: string)
    requires "STACK " <= line
    ensures var s := SkipSpaces(line[6..]);
            var n := TokenLength(s, FIELD_BREAKS);
            Bare(line) <==> s[..n] == "CFI" && n == |s|
  {
    CleanLength("CFI", "", FIELD_BREAKS);
    assert "CFI" + "" == "CFI";
    var s := SkipSpaces(line[6..]);
    assert s[..|s|] == s;
  }

  class SymbolModule {
    var initial: seq<RangeMaps.Range<string>>
    var deltas: seq<Delta>

    ghost function Contents(): Tables
      reads this
    {
      Tables(initial, deltas)
    }

    ghost predicate Valid()
      reads this
    {
      Ascending(deltas)
    }

    constructor ()
      ensures Valid() && Contents() == NO_TABLES
    {
      initial, deltas := [], [];
    }

    method ParseCFIFrameInfo(stackInfo: string) returns (ok: bool)
      requires Valid()
      modifies this
      ensures Valid() && Loaded(ok, Contents()) == ParseRecord(stackInfo, old(Contents()))
    {
      var first := StrTok(stackInfo, FIELD_BREAKS);
      if first.None? {
        return false;
      }
      if first.value.0 == "INIT" {
        var address := StrTok(first.value.1, FIELD_BREAKS);
        if address.None? {
          return false;
        }
        var size := StrTok(address.value.1, FIELD_BREAKS);
        if size.None? {
          return false;
        }
        var rules := StrTok(size.value.1, LINE_BREAKS);
        if rules.None? {
          return false;
        }
        var stored := RangeMaps.Store(initial, StrToUL(address.value.0), StrToUL(size.value.0), rules.value.0);
        if stored.Some? {
          initial := stored.value;
        }
        return true;
      }
      var rules := StrTok(first.value.1, LINE_BREAKS);
      if rules.None? {
        return false;
      }
      PutDeltaCorrect(deltas, StrToUL(first.value.0), rules.value.0);
      deltas := PutDelta(deltas, StrToUL(first.value.0), rules.value.0);
      return true;
    }

    /** LoadMapFromMemory on the whole text; `errors` is one if zeros had to be replaced in it. */
    method Load(text: string, errors: nat, fails: Failures)
      requires Valid() && errors <= 1
      modifies this
      ensures Valid() && Contents() == LoadText(text, old(Contents()), Log(0, errors), fails)
    {
      hide ParseStack, ParseRecord, Bare, FieldEnd;
      var cursor, log := text, Log(0, errors);
      ghost var all := LoadText(text, Contents(), log, fails);
      while true
        invariant log.errors <= MAX_ERRORS
        invariant Valid() && all == LoadText(cursor, Contents(), log, fails)
        decreases |cursor|
      {
        var next := StrTok(cursor, LINE_BREAKS);
        if next.None? {
          return;
        }
        var line, rest := next.value.0, next.value.1;
        var ok, bare := !fails(log.line), false;
        if "STACK " <= line {
          ok, bare := ParseStackInfo(line, rest, fails(log.line));
        } else {
          BareStack(line);
        }
        cursor := if bare then rest[..FieldEnd(rest)] else rest;
        log := Next(log, ok);
        if log.errors > MAX_ERRORS {
          return;
        }
      }
    }

    /** `behind` is the text behind the line. */
    method ParseStackInfo(line: string, behind: string, fails: bool) returns (ok: bool, bare: bool)
      requires Valid() && "STACK " <= line
      modifies this
      ensures Valid() && bare == Bare(line)
      ensures Loaded(ok, Contents())
           == if bare then ParseRecord(behind, old(Contents())) else ParseStack(line, old(Contents()), fails)
    {
      hide ParseRecord;
      var s := SkipSpaces(line[6..]);
      var n := TokenLength(s, FIELD_BREAKS);
      bare := s[..n] == "CFI" && n == |s|;
      BareField(line);
      if s[..n] == "CFI" {
        ok := ParseCFIFrameInfo(if n < |s| then s[n + 1..] else behind);
      } else {
        ok := s[..n] == "WIN" && !fails;
      }
    }

    method FindCFIFrameInfo(address: Address) returns (r: Option<FrameInfo>)
      requires Valid()
      ensures r == Find(Contents(), address)
    {
      var found := RangeMaps.Retrieve(initial, address);
      if found.None? {
        return None;
      }
      var parsed := Parse(found.value.entry, EMPTY);
      if !parsed.ok {
        return None;
      }
      hide ParseRuleSet, RangeMaps.Retrieve;
      var rules := ApplyRange(found.value.base, address, parsed.info);
      return Some(rules);
    }

    /** The loop over the records from `base` to `address`. */
    method ApplyRange(base: Address, address: Address, info: FrameInfo) returns (rules: FrameInfo)
      requires Valid()
      ensures rules == ApplyDeltas(deltas, base, address, info)
    {
      hide ApplyDeltas, ParseRuleSet;
      rules := info;
      ghost var all := ApplyDeltas(deltas, base, address, info);
      // lower_bound(initial_base)
      var delta := 0;
      assert deltas[0..] == deltas;
      while delta < |deltas| && deltas[delta].address < base
        invariant delta <= |deltas|
        invariant all == ApplyDeltas(deltas[delta..], base, address, rules)
      {
        NextDelta(deltas, delta, base, address, rules);
        delta := delta + 1;
      }
      while delta < |deltas| && deltas[delta].address <= address
        invariant delta <= |deltas|
        invariant delta < |deltas| ==> base <= deltas[delta].address
        invariant all == ApplyDeltas(deltas[delta..], base, address, rules)
      {
        NextDelta(deltas, delta, base, address, rules);
        var p := Parse(deltas[delta].text, rules);
        rules := p.info;
        delta := delta + 1;
      }
      NoneLeft(deltas[delta..], base, address, rules);
    }
  }

  lemma NextDelta(ds: seq<Delta>, i: nat, lo: Address, hi: Address, info: FrameInfo)
    requires i < |ds|
    ensures ApplyDeltas(ds[i..], lo, hi, info)
         == ApplyDeltas(ds[i + 1..], lo, hi,
                        if lo <= ds[i].address <= hi then ParseRuleSet(ds[i].text, info).info else info)
  {
    hide ParseRuleSet;
    assert ds[i..][1..] == ds[i + 1..];
  }

  lemma {:induction false} NoneLeft(ds: seq<Delta>, lo: Address, hi: Address, info: FrameInfo)
    requires Ascending(ds) && (ds != [] ==> hi < ds[0].address)
    ensures ApplyDeltas(ds, lo, hi, info) == info
  {
    if ds != [] {
      NoneLeft(ds[1..], lo, hi, info);
    }
  }
}
