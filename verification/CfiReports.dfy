/**
 * What DwarfCFIToModule records for the callbacks of the DWARF call frame information parser: the
 * rules are well written, and the initial ones complete under an exact condition.
 */
module CfiReports {
  import opened Addresses
  import opened Options
  import opened Text
  import opened CfiRules
  import opened CfiRecords
  import opened RuleMaps
  import opened CfiCalls
  import opened CfiPipeline

  // ---------------------------------------------------------------------------------------
  // Names and expressions
  // ---------------------------------------------------------------------------------------

  function Digits(n: nat): string {
    if n < 10 then [DIGITS[n]] else Digits(n / 10) + [DIGITS[n % 10]]
  }

  /** How ostream writes a signed integer. */
  function Decimal(n: int): string {
    if n < 0 then "-" + Digits(-n) else Digits(n)
  }

  /** The value of the decimal digits at the front of `s`, after digits worth `acc`. */
  function DigitsValue(s: string, acc: nat): nat {
    if s != "" && '0' <= s[0] <= '9' then DigitsValue(s[1..], 10 * acc + (s[0] as int - '0' as int)) else acc
  }

  /** The number that a text with an optional minus sign and decimal digits stands for. */
  function DecimalValue(s: string): int {
    if s != "" && s[0] == '-' then 0 - DigitsValue(s[1..], 0) else DigitsValue(s, 0)
  }

  lemma {:induction false} DigitsValueAppend(s: string, c: char, acc: nat)
    requires (forall i :: 0 <= i < |s| ==> '0' <= s[i] <= '9') && '0' <= c <= '9'
    ensures DigitsValue(s + [c], acc) == 10 * DigitsValue(s, acc) + (c as int - '0' as int)
  {
    if s == "" {
      assert s + [c] == [c] && [c][1..] == "";
    } else {
      assert (s + [c])[1..] == s[1..] + [c];
      DigitsValueAppend(s[1..], c, 10 * acc + (s[0] as int - '0' as int));
    }
  }

  lemma DigitIs(d: nat)
    requires d < 10
    ensures '0' <= DIGITS[d] <= '9' && DIGITS[d] as int - '0' as int == d
  {
  }

  lemma {:induction false} DigitsRead(n: nat)
    ensures AllDigits(Digits(n)) && DigitsValue(Digits(n), 0) == n
  {
    DigitIs(n % 10);
    if n >= 10 {
      DigitsRead(n / 10);
      DigitsValueAppend(Digits(n / 10), DIGITS[n % 10], 0);
    } else {
      assert [DIGITS[n]][1..] == "";
    }
  }

  /** What is written for a number reads as that number. */
  lemma DecimalRead(n: int)
    ensures DecimalValue(Decimal(n)) == n
  {
    DigitsRead(if n < 0 then -n else n);
    hide Digits, DigitsValue;
    if n < 0 {
      assert ("-" + Digits(-n))[1..] == Digits(-n);
    }
  }

  /** The pseudo-register number of the canonical frame address. */
  const CFA_REGISTER := -1

  /** Register `i` has no name of its own. */
  predicate Unnamed(names: seq<string>, returnAddress: nat, i: int) {
    0 <= i && i != returnAddress && (|names| <= i || names[i] == "")
  }

  function NameOf(names: seq<string>, returnAddress: nat, i: int): string
    requires CFA_REGISTER <= i
  {
    if i < 0 then ".cfa"
    else if i == returnAddress then ".ra"
    else if Unnamed(names, returnAddress, i) then UNNAMED + Digits(i)
    else names[i]
  }

  /** The text for a register without a name of its own ends in its number. */
  const UNNAMED := "unnamed_register"

  /** Word `w` stands for register `i`. */
  ghost predicate Names(names: seq<string>, returnAddress: nat, i: int, w: string) {
    && (i == CFA_REGISTER ==> w == ".cfa")
    && (i == returnAddress ==> w == ".ra")
    && (0 <= i < |names| && i != returnAddress && names[i] != "" ==> w == names[i])
    && (Unnamed(names, returnAddress, i) ==>
          UNNAMED <= w && AllDigits(w[|UNNAMED|..]) && DecimalValue(w[|UNNAMED|..]) == i)
  }

  lemma NameNames(names: seq<string>, returnAddress: nat, i: int)
    requires CFA_REGISTER <= i
    ensures Names(names, returnAddress, i, NameOf(names, returnAddress, i))
  {
    if Unnamed(names, returnAddress, i) {
      DigitsRead(i);
      hide Digits, DigitsValue;
      var w := NameOf(names, returnAddress, i);
      assert w[|UNNAMED|..] == Digits(i);
    }
  }

  /** A word that can stand in an expression. */
  ghost predicate Word(s: string) {
    Clean(s, WHITE) && !IsName(s)
  }

  /** Register names are empty or words. */
  ghost predicate GoodNames(names: seq<string>) {
    forall i :: 0 <= i < |names| ==> names[i] == "" || Word(names[i])
  }

  ghost predicate AllDigits(s: string) {
    s != "" && forall i :: 0 <= i < |s| ==> '0' <= s[i] <= '9'
  }

  /** Text ending in a digit, without white space, is a word. */
  lemma DigitsWord(prefix: string, n: nat)
    requires forall i :: 0 <= i < |prefix| ==> prefix[i] !in WHITE
    ensures Word(prefix + Digits(n))
  {
    DigitsRead(n);
    hide Digits, DigitsValue;
  }

  lemma DecimalWord(n: int)
    ensures Word(Decimal(n))
  {
    hide Digits, Word;
    if n < 0 {
      DigitsWord("-", -n);
    } else {
      DigitsWord("", n);
      assert "" + Digits(n) == Digits(n);
    }
  }

  lemma NameWord(names: seq<string>, returnAddress: nat, i: int)
    requires GoodNames(names) && CFA_REGISTER <= i
    ensures Word(NameOf(names, returnAddress, i))
  {
    if Unnamed(names, returnAddress, i) {
      DigitsWord(UNNAMED, i);
    }
  }

  /** Words with spaces between them are an expression that survives writing and parsing. */
  lemma WordsExpr(words: seq<string>)
    requires words != [] && forall i :: 0 <= i < |words| ==> Word(words[i])
    ensures GoodExpr(Join(words))
  {
    TokensOfJoin(words, WHITE);
    assert Word(words[0]);
  }

  // ---------------------------------------------------------------------------------------
  // Reports and what is recorded for them
  // ---------------------------------------------------------------------------------------

  /** A callback of the parser; the last two cannot be expressed and record nothing. */
  datatype Report =
    | SameValue(address: Address, reg: int)
    | Offset(address: Address, reg: int, base: int, offset: int)
    | ValOffset(address: Address, reg: int, base: int, offset: int)
    | InRegister(address: Address, reg: int, base: int)
    | Undefined(address: Address, reg: int)
    | ByExpression(address: Address, reg: int)

  /** What the parser reports about a frame description entry. */
  datatype Frame = Frame(start: Address, size: Address, returnAddress: nat, reports: seq<Report>)

  predicate Recorded(r: Report) {
    !r.Undefined? && !r.ByExpression?
  }

  /** Register numbers are not negative, but for that of the canonical frame address. */
  predicate Registers(r: Report) {
    CFA_REGISTER <= r.reg && (r.Offset? || r.ValOffset? || r.InRegister? ==> CFA_REGISTER <= r.base)
  }

  function ExprOf(names: seq<string>, returnAddress: nat, r: Report): string
    requires Registers(r)
  {
    match r
    case Offset(_, _, base, offset) => Join([NameOf(names, returnAddress, base), Decimal(offset), "+", "^"])
    case ValOffset(_, _, base, offset) => Join([NameOf(names, returnAddress, base), Decimal(offset), "+"])
    case InRegister(_, _, base) => NameOf(names, returnAddress, base)
    case _ => NameOf(names, returnAddress, r.reg)
  }

  function CallOf(names: seq<string>, returnAddress: nat, r: Report): Call
    requires Registers(r)
  {
    Call(r.address, NameOf(names, returnAddress, r.reg), ExprOf(names, returnAddress, r))
  }

  ghost predicate AllRegisters(reports: seq<Report>) {
    forall i :: 0 <= i < |reports| ==> Registers(reports[i])
  }

  /** The calls of Record that reports lead to. */
  ghost function CallsFor(names: seq<string>, returnAddress: nat, reports: seq<Report>): seq<Call>
    requires AllRegisters(reports)
  {
    if reports == [] then []
    else
      var r := reports[|reports| - 1];
      CallsFor(names, returnAddress, reports[..|reports| - 1])
      + if Recorded(r) then [CallOf(names, returnAddress, r)] else []
  }

  /** The rule for the return address that an entry begins with. */
  ghost function FirstCalls(names: seq<string>, f: Frame): seq<Call> {
    if f.returnAddress < |names| then [Call(f.start, ".ra", names[f.returnAddress])] else []
  }

  /** The rules recorded for a frame, in turn. */
  ghost function CallsOf(names: seq<string>, f: Frame): seq<Call>
    requires AllRegisters(f.reports)
  {
    FirstCalls(names, f) + CallsFor(names, f.returnAddress, f.reports)
  }

  /** Every recorded call comes from a report. */
  lemma {:induction false} CallFrom(names: seq<string>, returnAddress: nat, reports: seq<Report>, k: nat)
      returns (i: nat)
    requires AllRegisters(reports) && k < |CallsFor(names, returnAddress, reports)|
    ensures i < |reports| && Recorded(reports[i])
    ensures CallsFor(names, returnAddress, reports)[k] == CallOf(names, returnAddress, reports[i])
  {
    hide Recorded, CallOf;
    var n := |reports| - 1;
    if k < |CallsFor(names, returnAddress, reports[..n])| {
      i := CallFrom(names, returnAddress, reports[..n], k);
    } else {
      i := n;
    }
  }

  /** Every report that can be expressed leads to a recorded call. */
  lemma {:induction false} CallFor(names: seq<string>, returnAddress: nat, reports: seq<Report>, i: nat)
      returns (k: nat)
    requires AllRegisters(reports) && i < |reports| && Recorded(reports[i])
    ensures k < |CallsFor(names, returnAddress, reports)|
    ensures CallsFor(names, returnAddress, reports)[k] == CallOf(names, returnAddress, reports[i])
  {
    hide Recorded, CallOf;
    var n := |reports| - 1;
    if i < n {
      k := CallFor(names, returnAddress, reports[..n], i);
    } else {
      k := |CallsFor(names, returnAddress, reports[..n])|;
    }
  }

  // ---------------------------------------------------------------------------------------
  // Well-written rules
  // ---------------------------------------------------------------------------------------

  /** Every rule recorded for a report is well written when the register names are. */
  lemma RecordedRulesGood(names: seq<string>, returnAddress: nat, r: Report)
    requires GoodNames(names) && Registers(r)
    ensures var c := CallOf(names, returnAddress, r); GoodRule(Rule(c.name, c.expr))
  {
    NameWord(names, returnAddress, r.reg);
    SignWords();
    hide NameOf, Decimal, Word, GoodExpr, Join;
    NameClean(NameOf(names, returnAddress, r.reg));
    match r
    case Offset(_, _, base, offset) =>
      NameWord(names, returnAddress, base);
      DecimalWord(offset);
      WordsExpr([NameOf(names, returnAddress, base), Decimal(offset), "+", "^"]);
    case ValOffset(_, _, base, offset) =>
      NameWord(names, returnAddress, base);
      DecimalWord(offset);
      WordsExpr([NameOf(names, returnAddress, base), Decimal(offset), "+"]);
    case InRegister(_, _, base) =>
      NameWord(names, returnAddress, base);
      WordExpr(NameOf(names, returnAddress, base));
    case _ =>
      WordExpr(NameOf(names, returnAddress, r.reg));
  }

  lemma NameClean(name: string)
    requires Word(name)
    ensures Clean(name, WHITE)
  {
  }

  lemma SignWords()
    ensures Word("+") && Word("^")
  {
  }

  lemma WordExpr(w: string)
    requires Word(w)
    ensures GoodExpr(w)
  {
    WordsExpr([w]);
  }

  // ---------------------------------------------------------------------------------------
  // The collected entry can be written
  // ---------------------------------------------------------------------------------------

  /** A rule for an address in the range; only an initial one may lack its expression. */
  ghost predicate GoodCall(c: Call, start: Address, size: Address) {
    start <= c.address < start + size && WritableRule(Rule(c.name, c.expr)) && (c.expr == "" ==> c.address == start)
  }

  lemma PutRuleWritable(rules: seq<Rule>, name: string, expr: string)
    requires Writable(rules) && WritableRule(Rule(name, expr))
    ensures Writable(PutRule(rules, name, expr))
  {
    forall k | 0 <= k < |PutRule(rules, name, expr)| ensures WritableRule(PutRule(rules, name, expr)[k]) {
      PutRuleMember(rules, name, expr, k);
    }
  }

  lemma PutRuleGood(rules: seq<Rule>, name: string, expr: string)
    requires GoodRules(rules) && GoodRule(Rule(name, expr))
    ensures GoodRules(PutRule(rules, name, expr)) && PutRule(rules, name, expr) != []
  {
    forall k | 0 <= k < |PutRule(rules, name, expr)| ensures GoodRule(PutRule(rules, name, expr)[k]) {
      PutRuleMember(rules, name, expr, k);
    }
  }

  lemma {:induction false} PutChangeGood(changes: seq<Change>, c: Call, e: Entry, k: nat)
    requires forall i :: 0 <= i < |changes| ==> GoodChange(changes[i], e)
    requires GoodCall(c, e.address, e.size) && c.address != e.address && k < |PutChange(changes, c)|
    ensures GoodChange(PutChange(changes, c)[k], e)
  {
    assert GoodRule(Rule(c.name, c.expr));
    hide GoodRule, WritableRule;
    if changes == [] || c.address < changes[0].address {
      PutRuleGood([], c.name, c.expr);
    } else if c.address == changes[0].address {
      assert GoodChange(changes[0], e);
      PutRuleGood(changes[0].rules, c.name, c.expr);
    } else if k > 0 {
      PutChangeGood(changes[1..], c, e, k - 1);
    }
  }

  ghost predicate GoodCalls(calls: seq<Call>, start: Address, size: Address) {
    forall i :: 0 <= i < |calls| ==> GoodCall(calls[i], start, size)
  }

  lemma {:induction false} BuildParts(start: Address, size: Address, calls: seq<Call>)
    requires GoodCalls(calls, start, size)
    ensures var e := Build(start, size, calls);
            && e.address == start && e.size == size && Writable(e.initial)
            && forall k :: 0 <= k < |e.changes| ==> GoodChange(e.changes[k], e)
  {
    if calls != [] {
      var rest, c := calls[..|calls| - 1], calls[|calls| - 1];
      var before, e := Build(start, size, rest), Build(start, size, calls);
      BuildParts(start, size, rest);
      assert GoodCall(c, start, size);
      hide GoodRule, WritableRule, Writable;
      if c.address == start {
        PutRuleWritable(before.initial, c.name, c.expr);
        forall k | 0 <= k < |e.changes| ensures GoodChange(e.changes[k], e) {
          assert GoodChange(before.changes[k], before);
        }
      } else {
        forall k | 0 <= k < |e.changes| ensures GoodChange(e.changes[k], e) {
          PutChangeGood(before.changes, c, before, k);
        }
      }
    }
  }

  // ---------------------------------------------------------------------------------------
  // When the initial rules are complete
  // ---------------------------------------------------------------------------------------

  /** The initial rule for `m`: the last one recorded at the start. */
  ghost function LastAt(calls: seq<Call>, start: Address, m: string): Option<string> {
    if calls == [] then None
    else
      var c := calls[|calls| - 1];
      if c.address == start && c.name == m then Some(c.expr) else LastAt(calls[..|calls| - 1], start, m)
  }

  lemma {:induction false} BuildInitial(start: Address, size: Address, calls: seq<Call>, m: string)
    ensures Lookup(Build(start, size, calls).initial, m) == LastAt(calls, start, m)
  {
    if calls != [] {
      var rest, c := calls[..|calls| - 1], calls[|calls| - 1];
      BuildInitial(start, size, rest, m);
      BuildSorted(start, size, rest);
      if c.address == start {
        LookupPut(Build(start, size, rest).initial, c.name, c.expr, m);
      }
    }
  }

  lemma {:induction false} LookupOf(rules: seq<Rule>, i: nat)
    requires ByName(rules) && i < |rules|
    ensures Lookup(rules, rules[i].name) == Some(rules[i].expr)
  {
    if i > 0 {
      NameOrder(rules[i].name, rules[i].name);
      LookupOf(rules[1..], i - 1);
    }
  }

  lemma {:induction false} LookupFrom(rules: seq<Rule>, m: string)
    ensures Lookup(rules, m).Some? ==> exists i :: 0 <= i < |rules| && rules[i] == Rule(m, Lookup(rules, m).value)
  {
    if rules != [] && rules[0].name != m {
      LookupFrom(rules[1..], m);
      if Lookup(rules, m).Some? {
        var i :| 0 <= i < |rules[1..]| && rules[1..][i] == Rule(m, Lookup(rules, m).value);
        assert rules[i + 1] == rules[1..][i];
      }
    }
  }

  /** Rules are complete when some rule can be looked up, and none without an expression. */
  lemma CompleteLookup(rules: seq<Rule>)
    requires ByName(rules)
    ensures rules != [] <==> exists m :: Lookup(rules, m).Some?
    ensures Complete(rules) <==> rules != [] && forall m :: Lookup(rules, m) != Some("")
  {
    if rules != [] {
      LookupOf(rules, 0);
      assert Lookup(rules, rules[0].name).Some?;
    }
    hide Lookup, ByName;
    if i :| 0 <= i < |rules| && rules[i].expr == "" {
      LookupOf(rules, i);
      assert Lookup(rules, rules[i].name) == Some("");
    }
    if m :| Lookup(rules, m) == Some("") {
      LookupFrom(rules, m);
    }
  }

  lemma {:induction false} LastAtFrom(calls: seq<Call>, start: Address, m: string)
    ensures LastAt(calls, start, m).Some? ==>
              exists i :: 0 <= i < |calls| && calls[i] == Call(start, m, LastAt(calls, start, m).value)
  {
    if calls != [] {
      LastAtFrom(calls[..|calls| - 1], start, m);
    }
  }

  lemma {:induction false} LastAtSome(calls: seq<Call>, start: Address, i: nat)
    requires i < |calls| && calls[i].address == start
    ensures LastAt(calls, start, calls[i].name).Some?
  {
    var n := |calls| - 1;
    if i < n {
      LastAtSome(calls[..n], start, i);
    }
  }

  /** Later calls decide, if they record a rule for `m` at the start. */
  lemma {:induction false} LastAtConcat(a: seq<Call>, b: seq<Call>, start: Address, m: string)
    ensures LastAt(a + b, start, m) == if LastAt(b, start, m).Some? then LastAt(b, start, m) else LastAt(a, start, m)
  {
    if b == [] {
      assert a + b == a;
    } else {
      var n := |b| - 1;
      assert (a + b)[..|a + b| - 1] == a + b[..n];
      LastAtConcat(a, b[..n], start, m);
    }
  }

  /** Some rule that can be expressed is reported at the start. */
  ghost predicate Starts(f: Frame) {
    exists i :: 0 <= i < |f.reports| && Recorded(f.reports[i]) && f.reports[i].address == f.start
  }

  ghost predicate StatesReturn(names: seq<string>, f: Frame, r: Report)
    requires Registers(r)
  {
    Recorded(r) && r.address == f.start && NameOf(names, f.returnAddress, r.reg) == ".ra"
  }

  /** A rule for the return address is reported at the start. */
  ghost predicate StartsReturn(names: seq<string>, f: Frame)
    requires AllRegisters(f.reports)
  {
    exists i :: 0 <= i < |f.reports| && StatesReturn(names, f, f.reports[i])
  }

  /** The frame has initial rules. */
  ghost predicate Begins(names: seq<string>, f: Frame) {
    f.returnAddress < |names| || Starts(f)
  }

  /**
   * The frame has usable initial rules: the number of its return register has a name in the table,
   * or has an empty one but a rule for the return address is reported at the start, or has none and
   * some rule is.
   */
  ghost predicate Describes(names: seq<string>, f: Frame)
    requires AllRegisters(f.reports)
  {
    if f.returnAddress < |names| then names[f.returnAddress] != "" || StartsReturn(names, f) else Starts(f)
  }

  /** Rules reported at the start all have expressions, and there is one for the return address if so reported. */
  lemma ReportedAt(names: seq<string>, f: Frame, m: string)
    requires GoodNames(names) && AllRegisters(f.reports)
    ensures var last := LastAt(CallsFor(names, f.returnAddress, f.reports), f.start, m);
            last != Some("") && (m == ".ra" ==> (last.Some? <==> StartsReturn(names, f))) && (last.Some? ==> Starts(f))
  {
    hide *;
    var calls := CallsFor(names, f.returnAddress, f.reports);
    LastAtFrom(calls, f.start, m);
    if LastAt(calls, f.start, m).Some? {
      var k :| 0 <= k < |calls| && calls[k] == Call(f.start, m, LastAt(calls, f.start, m).value);
      var i := CallFrom(names, f.returnAddress, f.reports, k);
      RegistersAt(f.reports, i);
      RecordedRulesGood(names, f.returnAddress, f.reports[i]);
      ReportAt(names, f, i);
    }
    StartsReturnCall(names, f);
  }

  lemma RegistersAt(reports: seq<Report>, i: nat)
    requires AllRegisters(reports) && i < |reports|
    ensures Registers(reports[i])
  {
  }

  lemma ReportAt(names: seq<string>, f: Frame, i: nat)
    requires AllRegisters(f.reports) && i < |f.reports| && Recorded(f.reports[i]) && Registers(f.reports[i])
    requires var c := CallOf(names, f.returnAddress, f.reports[i]);
             c.address == f.start && GoodRule(Rule(c.name, c.expr))
    ensures var c := CallOf(names, f.returnAddress, f.reports[i]);
            c.expr != "" && Starts(f) && (c.name == ".ra" ==> StartsReturn(names, f))
  {
    hide NameOf, ExprOf, Tokens;
    assert StatesReturn(names, f, f.reports[i]) <==> NameOf(names, f.returnAddress, f.reports[i].reg) == ".ra";
  }

  lemma StartsReturnCall(names: seq<string>, f: Frame)
    requires AllRegisters(f.reports)
    ensures StartsReturn(names, f) ==> LastAt(CallsFor(names, f.returnAddress, f.reports), f.start, ".ra").Some?
  {
    hide NameOf, ExprOf, LastAt, CallsFor, Recorded;
    if StartsReturn(names, f) {
      var i :| 0 <= i < |f.reports| && StatesReturn(names, f, f.reports[i]);
      var k := CallFor(names, f.returnAddress, f.reports, i);
      LastAtSome(CallsFor(names, f.returnAddress, f.reports), f.start, k);
    }
  }

  lemma StartsCall(names: seq<string>, f: Frame)
    requires AllRegisters(f.reports)
    ensures Starts(f) ==> exists m :: LastAt(CallsFor(names, f.returnAddress, f.reports), f.start, m).Some?
  {
    hide NameOf, ExprOf, LastAt, CallsFor, Recorded;
    if Starts(f) {
      var i :| 0 <= i < |f.reports| && Recorded(f.reports[i]) && f.reports[i].address == f.start;
      var k := CallFor(names, f.returnAddress, f.reports, i);
      LastAtSome(CallsFor(names, f.returnAddress, f.reports), f.start, k);
    }
  }

  lemma FirstAt(names: seq<string>, f: Frame, m: string)
    ensures LastAt(FirstCalls(names, f), f.start, m)
         == if f.returnAddress < |names| && m == ".ra" then Some(names[f.returnAddress]) else None
  {
    assert FirstCalls(names, f)[..0] == [];
  }

  /** The initial rules that are recorded for a frame. */
  lemma InitialOf(names: seq<string>, f: Frame, m: string)
    requires GoodNames(names) && AllRegisters(f.reports)
    ensures var last := LastAt(CallsOf(names, f), f.start, m);
            && (last.Some? ==> Begins(names, f))
            && (last == Some("") <==> m == ".ra" && f.returnAddress < |names| && !Describes(names, f))
  {
    ReportedAt(names, f, m);
    FirstAt(names, f, m);
    LastAtConcat(FirstCalls(names, f), CallsFor(names, f.returnAddress, f.reports), f.start, m);
    hide LastAt, FirstCalls, CallsFor, StartsReturn, Starts;
  }

  lemma SomeInitial(names: seq<string>, f: Frame)
    requires AllRegisters(f.reports) && Begins(names, f)
    ensures exists m :: LastAt(CallsOf(names, f), f.start, m).Some?
  {
    StartsCall(names, f);
    FirstAt(names, f, ".ra");
    var first, later := FirstCalls(names, f), CallsFor(names, f.returnAddress, f.reports);
    hide LastAt, FirstCalls, CallsFor, Starts;
    LastAtConcat(first, later, f.start, ".ra");
    if f.returnAddress >= |names| {
      var m :| LastAt(later, f.start, m).Some?;
      LastAtConcat(first, later, f.start, m);
      assert LastAt(CallsOf(names, f), f.start, m).Some?;
    } else {
      assert LastAt(CallsOf(names, f), f.start, ".ra").Some?;
    }
  }

  ghost function EntryOf(names: seq<string>, f: Frame): Entry
    requires AllRegisters(f.reports)
  {
    Build(f.start, f.size, CallsOf(names, f))
  }

  /** The entry of a frame has initial rules, and complete ones, exactly under these conditions. */
  lemma FrameComplete(names: seq<string>, f: Frame)
    requires GoodNames(names) && AllRegisters(f.reports)
    ensures EntryOf(names, f).initial != [] <==> Begins(names, f)
    ensures Complete(EntryOf(names, f).initial) <==> Describes(names, f)
  {
    var initial := EntryOf(names, f).initial;
    BuildSorted(f.start, f.size, CallsOf(names, f));
    InitialLookup(names, f);
    DescribesStarts(names, f);
    hide *;
    CompleteLookup(initial);
    if Begins(names, f) {
      SomeInitial(names, f);
      var m :| LastAt(CallsOf(names, f), f.start, m).Some?;
      assert Lookup(initial, m).Some?;
    }
    assert Lookup(initial, ".ra") == Some("") <==> f.returnAddress < |names| && !Describes(names, f);
    assert Describes(names, f) ==> forall m :: Lookup(initial, m) != Some("");
  }

  lemma InitialLookup(names: seq<string>, f: Frame)
    requires GoodNames(names) && AllRegisters(f.reports)
    ensures forall m :: var initial := Lookup(EntryOf(names, f).initial, m);
              && initial == LastAt(CallsOf(names, f), f.start, m)
              && (initial.Some? ==> Begins(names, f))
              && (initial == Some("") <==> m == ".ra" && f.returnAddress < |names| && !Describes(names, f))
  {
    hide Describes, Begins, Build, CallsOf, LastAt, Lookup;
    forall m ensures var initial := Lookup(EntryOf(names, f).initial, m);
              && initial == LastAt(CallsOf(names, f), f.start, m)
              && (initial.Some? ==> Begins(names, f))
              && (initial == Some("") <==> m == ".ra" && f.returnAddress < |names| && !Describes(names, f))
    {
      BuildInitial(f.start, f.size, CallsOf(names, f), m);
      InitialOf(names, f, m);
    }
  }

  lemma DescribesStarts(names: seq<string>, f: Frame)
    requires AllRegisters(f.reports)
    ensures Describes(names, f) ==> Begins(names, f)
    ensures f.returnAddress >= |names| ==> (Describes(names, f) <==> Begins(names, f))
  {
    hide Starts;
  }
}
