/**
 * What the callbacks of the DWARF call frame information parser mean, those included that a STACK CFI
 * record cannot express, and where the entry that DwarfCFIToModule collects says something else.
 */
module CfiMeaning {
  import opened Addresses
  import opened Options
  import opened Text
  import opened CfiRules
  import opened CfiRecords
  import opened RuleMaps
  import opened CfiCalls
  import opened CfiReports

  // ---------------------------------------------------------------------------------------
  // The report in force
  // ---------------------------------------------------------------------------------------

  /** A report and the address from which it holds, ranked like the rules that are recorded. */
  datatype Ruling = Ruling(rank: int, report: Report)

  ghost function ReportRank(r: Report, start: Address): int {
    if r.address == start then -1 else r.address
  }

  /** The report about `m` at `a`, whether it can be expressed or not: the last one for the nearest address. */
  ghost function ReportInForce(names: seq<string>, returnAddress: nat, reports: seq<Report>, start: Address, a: Address,
                               m: string): (ruling: Option<Ruling>)
    requires AllRegisters(reports)
    ensures ruling.Some? ==> Registers(ruling.value.report) && ruling.value.report in reports
  {
    if reports == [] then None
    else
      var n := |reports| - 1;
      var r, before := reports[n], ReportInForce(names, returnAddress, reports[..n], start, a, m);
      var rank := ReportRank(r, start);
      if NameOf(names, returnAddress, r.reg) == m && rank <= a && (before.None? || before.value.rank <= rank) then
        Some(Ruling(rank, r))
      else before
  }

  /** The rules recorded for one report more. */
  lemma InForceNext(names: seq<string>, returnAddress: nat, reports: seq<Report>, start: Address, a: Address, m: string)
    requires AllRegisters(reports) && reports != []
    ensures var n := |reports| - 1;
            var r, before := reports[n], InForce(CallsFor(names, returnAddress, reports[..n]), start, a, m);
            var rank := ReportRank(r, start);
            InForce(CallsFor(names, returnAddress, reports), start, a, m) ==
            if Recorded(r) && NameOf(names, returnAddress, r.reg) == m && rank <= a && Beats(rank, before) then
              Some(Ranked(rank, ExprOf(names, returnAddress, r)))
            else before
  {
    hide NameOf, ExprOf;
    var calls := CallsFor(names, returnAddress, reports);
    var before := CallsFor(names, returnAddress, reports[..|reports| - 1]);
    if Recorded(reports[|reports| - 1]) {
      assert calls[..|calls| - 1] == before;
    } else {
      assert calls == before;
    }
  }

  /** The rule in force is that of the report in force, if that was recorded, and else an earlier one. */
  lemma {:induction false} ReportAndRule(names: seq<string>, returnAddress: nat, reports: seq<Report>, start: Address,
                                         a: Address, m: string)
    requires AllRegisters(reports)
    ensures var ruling := ReportInForce(names, returnAddress, reports, start, a, m);
            var rule := InForce(CallsFor(names, returnAddress, reports), start, a, m);
            && (rule.Some? ==> ruling.Some? && rule.value.rank <= ruling.value.rank)
            && (ruling.Some? && Recorded(ruling.value.report) ==>
                  rule == Some(Ranked(ruling.value.rank, ExprOf(names, returnAddress, ruling.value.report))))
  {
    assert InForce([], start, a, m) == None;
    assert reports == [] ==> CallsFor(names, returnAddress, reports) == [];
    hide NameOf, ExprOf, InForce, CallsFor, Recorded;
    if reports != [] {
      ReportAndRule(names, returnAddress, reports[..|reports| - 1], start, a, m);
      InForceNext(names, returnAddress, reports, start, a, m);
    }
  }

  // ---------------------------------------------------------------------------------------
  // Rules that are stale
  // ---------------------------------------------------------------------------------------

  /** The report sets a rule for `m` that can be expressed, from `a` or before. */
  ghost predicate Sets(names: seq<string>, returnAddress: nat, r: Report, start: Address, a: Address, m: string)
    requires Registers(r)
  {
    Recorded(r) && NameOf(names, returnAddress, r.reg) == m && ReportRank(r, start) <= a
  }

  ghost predicate SomeSets(names: seq<string>, returnAddress: nat, reports: seq<Report>, start: Address, a: Address,
                           m: string)
    requires AllRegisters(reports)
  {
    exists i :: 0 <= i < |reports| && Sets(names, returnAddress, reports[i], start, a, m)
  }

  lemma SomeSetsNext(names: seq<string>, returnAddress: nat, reports: seq<Report>, start: Address, a: Address,
                     m: string)
    requires AllRegisters(reports) && reports != []
    ensures var n := |reports| - 1;
            SomeSets(names, returnAddress, reports, start, a, m)
            <==> || SomeSets(names, returnAddress, reports[..n], start, a, m)
                 || Sets(names, returnAddress, reports[n], start, a, m)
  {
    hide Sets;
    var n := |reports| - 1;
    if SomeSets(names, returnAddress, reports, start, a, m) {
      var i :| 0 <= i < |reports| && Sets(names, returnAddress, reports[i], start, a, m);
      assert i < n ==> reports[..n][i] == reports[i];
    }
    if SomeSets(names, returnAddress, reports[..n], start, a, m) {
      var i :| 0 <= i < n && Sets(names, returnAddress, reports[..n][i], start, a, m);
      assert reports[..n][i] == reports[i];
    }
  }

  /** A rule is in force exactly if some report sets one, and it has an expression. */
  lemma {:induction false} RuleIfSet(names: seq<string>, returnAddress: nat, reports: seq<Report>, start: Address,
                                     a: Address, m: string)
    requires GoodNames(names) && AllRegisters(reports)
    ensures var rule := InForce(CallsFor(names, returnAddress, reports), start, a, m);
            && (rule.Some? <==> SomeSets(names, returnAddress, reports, start, a, m))
            && (rule.Some? ==> rule.value.expr != "")
  {
    if reports != [] {
      var n := |reports| - 1;
      RuleIfSet(names, returnAddress, reports[..n], start, a, m);
      InForceNext(names, returnAddress, reports, start, a, m);
      SomeSetsNext(names, returnAddress, reports, start, a, m);
      RecordedRulesGood(names, returnAddress, reports[n]);
      GoodHasExpr(names, returnAddress, reports[n]);
      hide NameOf, ExprOf, InForce, CallsFor, Recorded, SomeSets;
    }
  }

  lemma GoodHasExpr(names: seq<string>, returnAddress: nat, r: Report)
    requires Registers(r) && (var c := CallOf(names, returnAddress, r); GoodRule(Rule(c.name, c.expr)))
    ensures ExprOf(names, returnAddress, r) != ""
  {
    hide NameOf, ExprOf;
    assert Tokens("", WHITE) == [];
  }

  /** The rules recorded first yield to those recorded for reports. */
  lemma {:induction false} InForceConcat(first: seq<Call>, later: seq<Call>, start: Address, a: Address, m: string)
    requires InForce(first, start, a, m).Some? ==> InForce(first, start, a, m).value.rank == -1
    ensures InForce(first + later, start, a, m) ==
            if InForce(later, start, a, m).Some? then InForce(later, start, a, m) else InForce(first, start, a, m)
  {
    if later == [] {
      assert first + later == first;
    } else {
      var n := |later| - 1;
      assert (first + later)[..|first + later| - 1] == first + later[..n];
      InForceConcat(first, later[..n], start, a, m);
    }
  }

  /** The rule for `m` before any report. */
  ghost function BeginRule(names: seq<string>, f: Frame, m: string): Option<string> {
    if m == ".ra" && f.returnAddress < |names| then Some(names[f.returnAddress]) else RuleOf(EMPTY, m)
  }

  /** What is recorded for a frame: the rule recorded for the reports, or else the first one. */
  lemma ExpectedOf(names: seq<string>, f: Frame, a: Address, m: string)
    requires AllRegisters(f.reports)
    ensures var rule := InForce(CallsFor(names, f.returnAddress, f.reports), f.start, a, m);
            Expected(CallsOf(names, f), f.start, a, m) ==
            if rule.Some? then Some(rule.value.expr) else BeginRule(names, f, m)
  {
    var first := FirstCalls(names, f);
    assert first[..0] == [];
    assert InForce([], f.start, a, m) == None;
    InForceConcat(first, CallsFor(names, f.returnAddress, f.reports), f.start, a, m);
    hide CallsFor;
  }

  /**
   * The rule for `m` that the reports mean at `a`: that of the report in force, or the one before any
   * report. There is none where the value cannot be recovered, or the rule cannot be expressed.
   */
  ghost function Meant(names: seq<string>, f: Frame, a: Address, m: string): Option<string>
    requires AllRegisters(f.reports)
  {
    var ruling := ReportInForce(names, f.returnAddress, f.reports, f.start, a, m);
    if ruling.None? then BeginRule(names, f, m)
    else if Recorded(ruling.value.report) then Some(ExprOf(names, f.returnAddress, ruling.value.report))
    else RuleOf(EMPTY, m)
  }

  /**
   * The report in force about `m` cannot be expressed, and there is a rule that another report, or the
   * frame, has set.
   */
  ghost predicate Stale(names: seq<string>, f: Frame, a: Address, m: string)
    requires AllRegisters(f.reports)
  {
    var ruling := ReportInForce(names, f.returnAddress, f.reports, f.start, a, m);
    && ruling.Some? && !Recorded(ruling.value.report)
    && (|| SomeSets(names, f.returnAddress, f.reports, f.start, a, m)
        || (m == ".ra" && f.returnAddress < |names| && names[f.returnAddress] != ""))
  }

  /** What is recorded is what the reports mean, except for stale rules. */
  lemma StaleExactly(names: seq<string>, f: Frame, a: Address, m: string)
    requires GoodNames(names) && AllRegisters(f.reports)
    ensures Expected(CallsOf(names, f), f.start, a, m) == Meant(names, f, a, m) <==> !Stale(names, f, a, m)
  {
    ExpectedOf(names, f, a, m);
    ReportAndRule(names, f.returnAddress, f.reports, f.start, a, m);
    RuleIfSet(names, f.returnAddress, f.reports, f.start, a, m);
    hide ReportInForce, InForce, CallsFor, CallsOf, Expected, ExprOf, SomeSets, Recorded;
  }

  // ---------------------------------------------------------------------------------------
  // What a rule says
  // ---------------------------------------------------------------------------------------

  /** The words of a rule say what the report says: a register, or one with an offset, dereferenced or not. */
  ghost predicate Says(names: seq<string>, returnAddress: nat, r: Report, words: seq<string>) {
    match r
    case SameValue(_, reg) => |words| == 1 && Names(names, returnAddress, reg, words[0])
    case InRegister(_, _, base) => |words| == 1 && Names(names, returnAddress, base, words[0])
    case Offset(_, _, base, offset) =>
      && |words| == 4 && Names(names, returnAddress, base, words[0]) && DecimalValue(words[1]) == offset
      && words[2] == "+" && words[3] == "^"
    case ValOffset(_, _, base, offset) =>
      && |words| == 3 && Names(names, returnAddress, base, words[0]) && DecimalValue(words[1]) == offset
      && words[2] == "+"
    case _ => true
  }

  lemma ExprSays(names: seq<string>, returnAddress: nat, r: Report)
    requires GoodNames(names) && Registers(r)
    ensures Says(names, returnAddress, r, Tokens(ExprOf(names, returnAddress, r), WHITE))
  {
    SignWords();
    NameWord(names, returnAddress, r.reg);
    NameNames(names, returnAddress, r.reg);
    hide NameOf, Names, Decimal, DecimalValue, Join, Tokens;
    match r
    case Offset(_, _, base, offset) =>
      NumberWords(names, returnAddress, base, offset);
      TokensOfJoin([NameOf(names, returnAddress, base), Decimal(offset), "+", "^"], WHITE);
    case ValOffset(_, _, base, offset) =>
      NumberWords(names, returnAddress, base, offset);
      TokensOfJoin([NameOf(names, returnAddress, base), Decimal(offset), "+"], WHITE);
    case InRegister(_, _, base) =>
      NumberWords(names, returnAddress, base, 0);
      OneToken(NameOf(names, returnAddress, base));
    case _ =>
      OneToken(NameOf(names, returnAddress, r.reg));
  }

  lemma NumberWords(names: seq<string>, returnAddress: nat, base: int, offset: int)
    requires GoodNames(names) && CFA_REGISTER <= base
    ensures var w := NameOf(names, returnAddress, base);
            Names(names, returnAddress, base, w) && Clean(w, WHITE) && Word(w)
    ensures Clean(Decimal(offset), WHITE) && DecimalValue(Decimal(offset)) == offset
  {
    hide NameOf, Names, Decimal, DecimalValue;
    NameNames(names, returnAddress, base);
    NameWord(names, returnAddress, base);
    DecimalWord(offset);
    DecimalRead(offset);
  }

  lemma OneToken(w: string)
    requires Clean(w, WHITE)
    ensures Tokens(w, WHITE) == [w]
  {
    TokensOfJoin([w], WHITE);
    assert Join([w]) == w;
  }

  /** If the report in force about `m` can be expressed, the rule says what it says. */
  ghost predicate SaysRuling(names: seq<string>, f: Frame, a: Address, m: string, rule: Option<string>)
    requires AllRegisters(f.reports)
  {
    var ruling := ReportInForce(names, f.returnAddress, f.reports, f.start, a, m);
    ruling.Some? && Recorded(ruling.value.report) ==>
      rule.Some? && Says(names, f.returnAddress, ruling.value.report, Tokens(rule.value, WHITE))
  }

  lemma RulingSaid(names: seq<string>, f: Frame, a: Address, m: string)
    requires GoodNames(names) && AllRegisters(f.reports)
    ensures SaysRuling(names, f, a, m, Expected(CallsOf(names, f), f.start, a, m))
  {
    ExpectedOf(names, f, a, m);
    ReportAndRule(names, f.returnAddress, f.reports, f.start, a, m);
    hide ReportInForce, InForce, CallsFor, CallsOf, Expected, ExprOf, Recorded, Says, Tokens;
    var ruling := ReportInForce(names, f.returnAddress, f.reports, f.start, a, m);
    if ruling.Some? {
      ExprSays(names, f.returnAddress, ruling.value.report);
    }
  }

  // ---------------------------------------------------------------------------------------
  // Reports in order of address
  // ---------------------------------------------------------------------------------------

  /** Without a rule for `name`. */
  function ClearRule(info: FrameInfo, name: string): FrameInfo {
    if name == ".cfa" then info.(cfa := "")
    else if name == ".ra" then info.(ra := "")
    else info.(regs := info.regs - {name})
  }

  /** Apply the reports up to address `a` in turn; one that cannot be expressed leaves no rule. */
  ghost function ApplyReports(names: seq<string>, returnAddress: nat, reports: seq<Report>, a: Address): FrameInfo
    requires AllRegisters(reports)
  {
    if reports == [] then
      if returnAddress < |names| then SetRule(EMPTY, ".ra", names[returnAddress]) else EMPTY
    else
      var r := reports[|reports| - 1];
      var before := ApplyReports(names, returnAddress, reports[..|reports| - 1], a);
      var name := NameOf(names, returnAddress, r.reg);
      if a < r.address then before
      else if Recorded(r) then SetRule(before, name, ExprOf(names, returnAddress, r))
      else ClearRule(before, name)
  }

  /** The parser walks through the instructions of a frame from its start. */
  ghost predicate InOrder(reports: seq<Report>, start: Address) {
    && (forall i :: 0 <= i < |reports| ==> start <= reports[i].address)
    && (forall i, j :: 0 <= i < j < |reports| ==> reports[i].address <= reports[j].address)
  }

  lemma {:induction false} RulingBounds(names: seq<string>, returnAddress: nat, reports: seq<Report>, start: Address,
                                        a: Address, m: string, top: Address)
    requires AllRegisters(reports) && forall i :: 0 <= i < |reports| ==> start <= reports[i].address <= top
    ensures var ruling := ReportInForce(names, returnAddress, reports, start, a, m);
            ruling.Some? ==> ruling.value.rank == -1 || start < ruling.value.rank <= top
  {
    if reports != [] {
      RulingBounds(names, returnAddress, reports[..|reports| - 1], start, a, m, top);
      hide NameOf;
    }
  }

  lemma RuleOfNext(info: FrameInfo, name: string, expr: string, m: string)
    ensures RuleOf(SetRule(info, name, expr), m) == if m == name then Some(expr) else RuleOf(info, m)
    ensures RuleOf(ClearRule(info, name), m) == if m == name then RuleOf(EMPTY, m) else RuleOf(info, m)
  {
  }

  /** What one report more means, if it comes last. */
  lemma MeantNext(names: seq<string>, f: Frame, rest: Frame, a: Address, m: string)
    requires AllRegisters(f.reports) && InOrder(f.reports, f.start) && f.start <= a && f.reports != []
    requires rest == f.(reports := f.reports[..|f.reports| - 1])
    ensures var r := f.reports[|f.reports| - 1];
            Meant(names, f, a, m) ==
            if a < r.address || NameOf(names, f.returnAddress, r.reg) != m then Meant(names, rest, a, m)
            else if Recorded(r) then Some(ExprOf(names, f.returnAddress, r))
            else RuleOf(EMPTY, m)
  {
    var r := f.reports[|f.reports| - 1];
    RulingBounds(names, f.returnAddress, rest.reports, f.start, a, m, r.address);
    if r.address == f.start {
      RulingBounds(names, f.returnAddress, rest.reports, f.start, a, m, f.start);
    }
    hide NameOf, ExprOf, Recorded, RuleOf;
  }

  /** In order of address, what reports mean is what applying them in turn gives. */
  lemma {:induction false} InOrderMeant(names: seq<string>, f: Frame, a: Address, m: string)
    requires AllRegisters(f.reports) && InOrder(f.reports, f.start) && f.start <= a
    ensures RuleOf(ApplyReports(names, f.returnAddress, f.reports, a), m) == Meant(names, f, a, m)
    decreases |f.reports|
  {
    if f.reports != [] {
      var n := |f.reports| - 1;
      var r, rest := f.reports[n], f.(reports := f.reports[..n]);
      InOrderMeant(names, rest, a, m);
      MeantNext(names, f, rest, a, m);
      var before := ApplyReports(names, f.returnAddress, rest.reports, a);
      RuleOfNext(before, NameOf(names, f.returnAddress, r.reg), ExprOf(names, f.returnAddress, r), m);
      hide NameOf, ExprOf, Recorded, Meant, RuleOf, SetRule, ClearRule;
    }
  }

  lemma {:induction false} ApplyReportsFixed(names: seq<string>, returnAddress: nat, reports: seq<Report>, a: Address)
    requires AllRegisters(reports)
    ensures var info := ApplyReports(names, returnAddress, reports, a); ".cfa" !in info.regs && ".ra" !in info.regs
  {
    if reports != [] {
      ApplyReportsFixed(names, returnAddress, reports[..|reports| - 1], a);
      hide NameOf, ExprOf, Recorded;
    }
  }

  /** In order of address, the entry is as if the reports were applied in turn exactly where no rule is stale. */
  lemma AppliesUnlessStale(names: seq<string>, f: Frame, a: Address)
    requires GoodNames(names) && AllRegisters(f.reports) && InOrder(f.reports, f.start) && f.start <= a
    ensures RulesAt(EntryOf(names, f), a) == ApplyReports(names, f.returnAddress, f.reports, a)
            <==> forall m :: !Stale(names, f, a, m)
  {
    var e, x, y := EntryOf(names, f), RulesAt(EntryOf(names, f), a), ApplyReports(names, f.returnAddress, f.reports, a);
    ApplyReportsFixed(names, f.returnAddress, f.reports, a);
    ApplyRulesFixed(e.initial, EMPTY);
    ApplyChangesFixed(e.changes, a, ApplyRules(e.initial, EMPTY));
    forall m ensures RuleOf(x, m) == RuleOf(y, m) <==> !Stale(names, f, a, m) {
      BuildMeans(f.start, f.size, CallsOf(names, f), a, m);
      StaleExactly(names, f, a, m);
      InOrderMeant(names, f, a, m);
    }
    hide Stale, RuleOf, ApplyReports, RulesAt, Build, CallsOf, ApplyRules, ApplyChanges;
    if forall m :: !Stale(names, f, a, m) {
      RulesDetermine(x, y);
    }
  }
}
