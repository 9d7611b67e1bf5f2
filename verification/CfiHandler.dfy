/**
 * DwarfCFIToModule: the handler that turns the callbacks of the DWARF call frame information parser
 * into stack frame entries, and what the stack walker finds when it has loaded them from the symbol
 * file.
 */
module CfiHandler {
  import opened Addresses
  import opened Options
  import opened Text
  import opened CfiRules
  import opened CfiRecords
  import opened RuleMaps
  import opened SymbolModules
  import opened CfiPipeline
  import opened CfiCalls
  import opened CfiReports
  import opened CfiMeaning

  // ---------------------------------------------------------------------------------------
  // The entry survives writing and loading
  // ---------------------------------------------------------------------------------------

  /** A nonempty range above the load address, and reports for addresses in the range. */
  ghost predicate GoodFrame(f: Frame, load: Address) {
    && 0 < f.size && load <= f.start && f.start + f.size <= SPACE && AllRegisters(f.reports)
    && forall i :: 0 <= i < |f.reports| ==> f.start <= f.reports[i].address < f.start + f.size
  }

  lemma FrameCall(names: seq<string>, f: Frame, load: Address, k: nat)
    requires GoodNames(names) && GoodFrame(f, load) && k < |CallsOf(names, f)|
    ensures GoodCall(CallsOf(names, f)[k], f.start, f.size)
  {
    var first := |FirstCalls(names, f)|;
    if k < first {
      ReturnAddressWritable(names, f.returnAddress);
    } else {
      var i := CallFrom(names, f.returnAddress, f.reports, k - first);
      RecordedRulesGood(names, f.returnAddress, f.reports[i]);
      hide NameOf, ExprOf, CallsFor, Tokens;
    }
  }

  lemma ReturnAddressWritable(names: seq<string>, returnAddress: nat)
    requires GoodNames(names) && returnAddress < |names|
    ensures WritableRule(Rule(".ra", names[returnAddress]))
  {
    if names[returnAddress] != "" {
      WordExpr(names[returnAddress]);
    }
  }

  lemma BuildGood(names: seq<string>, f: Frame, load: Address)
    requires GoodNames(names) && GoodFrame(f, load)
    ensures var e := EntryOf(names, f); GoodEntry(e, load) && e.address == f.start && e.size == f.size
  {
    var calls := CallsOf(names, f);
    forall k | 0 <= k < |calls| ensures GoodCall(calls[k], f.start, f.size) {
      FrameCall(names, f, load, k);
    }
    BuildParts(f.start, f.size, calls);
    BuildSorted(f.start, f.size, calls);
    hide CallsOf, GoodCall, Build;
  }

  ghost predicate GoodFrames(fs: seq<Frame>, load: Address) {
    && (forall i :: 0 <= i < |fs| ==> GoodFrame(fs[i], load))
    && (forall i, j :: 0 <= i < j < |fs| ==>
          fs[i].start + fs[i].size <= fs[j].start || fs[j].start + fs[j].size <= fs[i].start)
  }

  ghost function Entries(names: seq<string>, fs: seq<Frame>): (es: seq<Entry>)
    requires forall i :: 0 <= i < |fs| ==> AllRegisters(fs[i].reports)
    ensures |es| == |fs| && forall i :: 0 <= i < |fs| ==> es[i] == EntryOf(names, fs[i])
  {
    seq(|fs|, i requires 0 <= i < |fs| => EntryOf(names, fs[i]))
  }

  lemma EntriesGood(names: seq<string>, fs: seq<Frame>, load: Address)
    requires GoodNames(names) && GoodFrames(fs, load)
    ensures forall i :: 0 <= i < |fs| ==> AllRegisters(fs[i].reports)
    ensures GoodEntries(Entries(names, fs), load)
  {
    var es := Entries(names, fs);
    forall i | 0 <= i < |es|
      ensures GoodEntry(es[i], load) && es[i].address == fs[i].start && es[i].size == fs[i].size
    {
      BuildGood(names, fs[i], load);
    }
    hide EntryOf, GoodEntry, GoodFrame;
  }

  /** How many frames have no initial rules. */
  ghost function SilentCount(names: seq<string>, fs: seq<Frame>): nat {
    if fs == [] then 0 else (if Begins(names, fs[0]) then 0 else 1) + SilentCount(names, fs[1..])
  }

  lemma {:induction false} SilentMissing(names: seq<string>, fs: seq<Frame>)
    requires GoodNames(names) && forall i :: 0 <= i < |fs| ==> AllRegisters(fs[i].reports)
    ensures MissingCount(Entries(names, fs)) == SilentCount(names, fs)
  {
    if fs != [] {
      FrameComplete(names, fs[0]);
      SilentMissing(names, fs[1..]);
      hide EntryOf, Begins, AllRegisters;
      assert Entries(names, fs)[1..] == Entries(names, fs[1..]);
    }
  }

  /** Loading gets to frame `k`, and it has usable initial rules. */
  ghost predicate Usable(names: seq<string>, fs: seq<Frame>, k: nat, errors: nat)
    requires k < |fs| && AllRegisters(fs[k].reports)
  {
    errors + SilentCount(names, fs[..k + 1]) <= MAX_ERRORS && Describes(names, fs[k])
  }

  lemma UsableFound(names: seq<string>, fs: seq<Frame>, k: nat, errors: nat)
    requires GoodNames(names) && k < |fs| && forall i :: 0 <= i < |fs| ==> AllRegisters(fs[i].reports)
    ensures Found(Entries(names, fs), k, errors) <==> Usable(names, fs, k, errors)
  {
    SilentMissing(names, fs[..k + 1]);
    FrameComplete(names, fs[k]);
    hide EntryOf, Describes, AllRegisters, MissingCount, SilentCount, Complete;
    assert Entries(names, fs)[..k + 1] == Entries(names, fs[..k + 1]);
  }

  /**
   * What rules found at `pc` tell about a frame: each register has the rule recorded last for the
   * nearest address. It says what the report in force says, if that can be expressed, and it is what
   * the reports mean exactly unless it is stale. Rules recorded in
   * order of address are as if applied in turn. Reports in order of address are as if applied in turn,
   * those that cannot be expressed leaving no rule, exactly if no rule is stale.
   */
  ghost predicate Tells(names: seq<string>, f: Frame, pc: Address, m: string, info: FrameInfo)
    requires AllRegisters(f.reports)
  {
    && RuleOf(info, m) == Expected(CallsOf(names, f), f.start, pc, m)
    && SaysRuling(names, f, pc, m, RuleOf(info, m))
    && (RuleOf(info, m) == Meant(names, f, pc, m) <==> !Stale(names, f, pc, m))
    && (Advancing(CallsOf(names, f), f.start) ==> info == ApplyCalls(CallsOf(names, f), pc))
    && (InOrder(f.reports, f.start) ==>
          (info == ApplyReports(names, f.returnAddress, f.reports, pc) <==> forall n :: !Stale(names, f, pc, n)))
  }

  lemma EntryTells(names: seq<string>, f: Frame, pc: Address, m: string)
    requires GoodNames(names) && AllRegisters(f.reports) && f.start <= pc
    ensures Tells(names, f, pc, m, RulesAt(EntryOf(names, f), pc))
  {
    hide CallsOf, Build, Expected, Meant, Stale, Advancing, ApplyCalls, InOrder, ApplyReports, RulesAt, RuleOf;
    hide SaysRuling;
    BuildMeans(f.start, f.size, CallsOf(names, f), pc, m);
    StaleExactly(names, f, pc, m);
    RulingSaid(names, f, pc, m);
    if Advancing(CallsOf(names, f), f.start) {
      BuildApplies(f.start, f.size, CallsOf(names, f), pc);
    }
    if InOrder(f.reports, f.start) {
      AppliesUnlessStale(names, f, pc);
    }
  }

  /**
   * From DWARF to the stack walker: the rules reported for disjoint ranges are collected, written
   * as STACK CFI records, loaded and looked up. At address `pc` of the k-th range FindCFIFrameInfo
   * finds something exactly if that frame is usable, and then it tells about the frame.
   */
  lemma ReportThenFind(others: seq<string>, names: seq<string>, fs: seq<Frame>, load: Address, errors: nat,
                       fails: Failures, pc: Address, k: nat, m: string)
    requires GoodNames(names) && GoodFrames(fs, load) && OtherRecords(others) && errors <= 1
    requires k < |fs| && load <= fs[k].start <= pc < fs[k].start + fs[k].size
    ensures forall i :: 0 <= i < |fs| ==> AllRegisters(fs[i].reports)
    ensures var found := Find(WrittenAndLoaded(others, Entries(names, fs), load, errors, fails), pc - load);
            && (found.Some? <==> Usable(names, fs, k, errors + FailCount(0, |others|, fails)))
            && (found.Some? ==> Tells(names, fs[k], pc, m, found.value))
  {
    hide *;
    EntriesGood(names, fs, load);
    EntryCovers(names, fs, load, k, pc);
    EntryTells(names, fs[k], pc, m);
    UsableFound(names, fs, k, errors + FailCount(0, |others|, fails));
    WriteThenFind(others, Entries(names, fs), load, errors, fails, pc - load);
  }

  lemma EntryCovers(names: seq<string>, fs: seq<Frame>, load: Address, k: nat, pc: Address)
    requires GoodNames(names) && GoodFrames(fs, load) && k < |fs| && fs[k].start <= pc < fs[k].start + fs[k].size
    requires forall i :: 0 <= i < |fs| ==> AllRegisters(fs[i].reports)
    ensures Entries(names, fs)[k] == EntryOf(names, fs[k])
    ensures Covers(Entries(names, fs)[k], pc)
  {
    hide Build, CallsOf;
    BuildGood(names, fs[k], load);
  }

  // ---------------------------------------------------------------------------------------
  // The handler
  // ---------------------------------------------------------------------------------------

  datatype Problem =
    | UnnamedRegister(reg: int)
    | UndefinedNotSupported(name: string)
    | ExpressionsNotSupported(name: string)

  /** What RegisterName reports. */
  function Unnames(names: seq<string>, returnAddress: nat, i: int): seq<Problem> {
    if Unnamed(names, returnAddress, i) then [UnnamedRegister(i)] else []
  }

  class DwarfCFIToModule {
    const names: seq<string>
    /** The entries of the module. */
    var entries: seq<Entry>
    var entry: Option<Entry>
    var returnAddress: nat
    var problems: seq<Problem>
    /** The rules recorded since the entry was begun. */
    ghost var calls: seq<Call>

    ghost predicate Valid()
      reads this
    {
      entry.Some? ==> entry.value == Build(entry.value.address, entry.value.size, calls)
    }

    constructor (names: seq<string>)
      ensures Valid() && this.names == names && entries == [] && entry == None && problems == []
    {
      this.names := names;
      entries, entry, returnAddress, problems, calls := [], None, 0, [], [];
    }

    /**
     * Begin an entry, with an initial rule for the return address if the number of its register is in
     * the table, even with an empty name.
     */
    method BeginEntry(address: Address, length: Address, returnAddress: nat) returns (ok: bool)
      requires Valid() && entry == None
      modifies this
      ensures Valid() && ok && entry.Some? && entry.value.address == address && entry.value.size == length
      ensures this.returnAddress == returnAddress && entries == old(entries) && problems == old(problems)
      ensures calls == if returnAddress < |names| then [Call(address, ".ra", names[returnAddress])] else []
    {
      calls := [];
      entry, this.returnAddress := Some(Entry(address, length, [], [])), returnAddress;
      if returnAddress < |names| {
        calls := [Call(address, ".ra", names[returnAddress])];
        assert calls[..0] == [];
        entry := Some(RecordIn(entry.value, Call(address, ".ra", names[returnAddress])));
      }
      return true;
    }

    method RegisterName(i: int) returns (name: string)
      requires Valid() && entry.Some? && CFA_REGISTER <= i
      modifies this`problems
      ensures Valid() && name == NameOf(names, returnAddress, i) && Names(names, returnAddress, i, name)
      ensures problems == old(problems) + Unnames(names, returnAddress, i)
    {
      NameNames(names, returnAddress, i);
      if i < 0 {
        return ".cfa";
      }
      if i == returnAddress {
        return ".ra";
      }
      if i < |names| && names[i] != "" {
        return names[i];
      }
      problems := problems + [UnnamedRegister(i)];
      return UNNAMED + Digits(i);
    }

    method Record(address: Address, reg: int, rule: string)
      requires Valid() && entry.Some? && CFA_REGISTER <= reg
      modifies this`entry, this`calls, this`problems
      ensures Valid() && entry.Some? && SameRange(entry.value, old(entry.value))
      ensures calls == old(calls) + [Call(address, NameOf(names, returnAddress, reg), rule)]
      ensures problems == old(problems) + Unnames(names, returnAddress, reg)
    {
      var name := RegisterName(reg);
      var call := Call(address, name, rule);
      BuildSorted(entry.value.address, entry.value.size, calls);
      assert (calls + [call])[..|calls|] == calls;
      if address == entry.value.address {
        entry := Some(entry.value.(initial := PutRule(entry.value.initial, name, rule)));
      } else {
        entry := Some(entry.value.(changes := PutChange(entry.value.changes, call)));
      }
      calls := calls + [call];
    }

    /** The register is unchanged. */
    method SameValueRule(address: Address, reg: int) returns (ok: bool)
      requires Valid() && entry.Some? && CFA_REGISTER <= reg
      modifies this`entry, this`calls, this`problems
      ensures Valid() && ok && entry.Some? && SameRange(entry.value, old(entry.value))
      ensures var name := NameOf(names, returnAddress, reg); calls == old(calls) + [Call(address, name, name)]
      ensures problems == old(problems) + Unnames(names, returnAddress, reg) + Unnames(names, returnAddress, reg)
    {
      var rule := RegisterName(reg);
      Record(address, reg, rule);
      return true;
    }

    /** The register is saved in memory. */
    method OffsetRule(address: Address, reg: int, base: int, offset: int) returns (ok: bool)
      requires Valid() && entry.Some? && CFA_REGISTER <= reg && CFA_REGISTER <= base
      modifies this`entry, this`calls, this`problems
      ensures Valid() && ok && entry.Some? && SameRange(entry.value, old(entry.value))
      ensures var digits := Decimal(offset);
              && DecimalValue(digits) == offset
              && calls == old(calls) + [Call(address, NameOf(names, returnAddress, reg),
                                             Join([NameOf(names, returnAddress, base), digits, "+", "^"]))]
      ensures problems == old(problems) + Unnames(names, returnAddress, base) + Unnames(names, returnAddress, reg)
    {
      var name := RegisterName(base);
      var rule := name + " " + Decimal(offset) + " + ^";
      DecimalRead(offset);
      JoinFour(name, Decimal(offset));
      Record(address, reg, rule);
      return true;
    }

    /** The register is a sum. */
    method ValOffsetRule(address: Address, reg: int, base: int, offset: int) returns (ok: bool)
      requires Valid() && entry.Some? && CFA_REGISTER <= reg && CFA_REGISTER <= base
      modifies this`entry, this`calls, this`problems
      ensures Valid() && ok && entry.Some? && SameRange(entry.value, old(entry.value))
      ensures var digits := Decimal(offset);
              && DecimalValue(digits) == offset
              && calls == old(calls) + [Call(address, NameOf(names, returnAddress, reg),
                                             Join([NameOf(names, returnAddress, base), digits, "+"]))]
      ensures problems == old(problems) + Unnames(names, returnAddress, base) + Unnames(names, returnAddress, reg)
    {
      var name := RegisterName(base);
      var rule := name + " " + Decimal(offset) + " +";
      DecimalRead(offset);
      JoinThree(name, Decimal(offset));
      Record(address, reg, rule);
      return true;
    }

    /** The register is saved in another one. */
    method RegisterRule(address: Address, reg: int, base: int) returns (ok: bool)
      requires Valid() && entry.Some? && CFA_REGISTER <= reg && CFA_REGISTER <= base
      modifies this`entry, this`calls, this`problems
      ensures Valid() && ok && entry.Some? && SameRange(entry.value, old(entry.value))
      ensures calls == old(calls) + [Call(address, NameOf(names, returnAddress, reg),
                                          NameOf(names, returnAddress, base))]
      ensures problems == old(problems) + Unnames(names, returnAddress, base) + Unnames(names, returnAddress, reg)
    {
      var rule := RegisterName(base);
      Record(address, reg, rule);
      return true;
    }

    /** Rules that cannot be expressed are reported and skipped. */
    method UndefinedRule(address: Address, reg: int) returns (ok: bool)
      requires Valid() && entry.Some? && CFA_REGISTER <= reg
      modifies this`problems
      ensures Valid() && ok
      ensures problems == old(problems) + Unnames(names, returnAddress, reg)
                          + [UndefinedNotSupported(NameOf(names, returnAddress, reg))]
    {
      var name := RegisterName(reg);
      problems := problems + [UndefinedNotSupported(name)];
      return true;
    }

    method ExpressionRule(address: Address, reg: int) returns (ok: bool)
      requires Valid() && entry.Some? && CFA_REGISTER <= reg
      modifies this`problems
      ensures Valid() && ok
      ensures problems == old(problems) + Unnames(names, returnAddress, reg)
                          + [ExpressionsNotSupported(NameOf(names, returnAddress, reg))]
    {
      var name := RegisterName(reg);
      problems := problems + [ExpressionsNotSupported(name)];
      return true;
    }

    /** Hand the entry to the module; it means what was recorded for it. */
    method End() returns (ok: bool)
      requires Valid() && entry.Some?
      modifies this`entries, this`entry
      ensures Valid() && ok && entry == None
      ensures entries == old(entries) + [old(entry.value)]
      ensures forall a: Address, m ::
                RuleOf(RulesAt(old(entry.value), a), m) == Expected(calls, old(entry.value.address), a, m)
    {
      ghost var e := entry.value;
      forall a: Address, m ensures RuleOf(RulesAt(e, a), m) == Expected(calls, e.address, a, m) {
        BuildMeans(e.address, e.size, calls, a, m);
      }
      entries := entries + [entry.value];
      entry := None;
      return true;
    }

    /** One callback of the parser. */
    method Handle(r: Report)
      requires Valid() && entry.Some? && Registers(r)
      modifies this`entry, this`calls, this`problems
      ensures Valid() && entry.Some? && SameRange(entry.value, old(entry.value))
      ensures calls == old(calls) + if Recorded(r) then [CallOf(names, returnAddress, r)] else []
    {
      hide NameOf, Build, Join, Decimal;
      var ok;
      match r
      case SameValue(address, reg) => ok := SameValueRule(address, reg);
      case Offset(address, reg, base, offset) => ok := OffsetRule(address, reg, base, offset);
      case ValOffset(address, reg, base, offset) => ok := ValOffsetRule(address, reg, base, offset);
      case InRegister(address, reg, base) => ok := RegisterRule(address, reg, base);
      case Undefined(address, reg) => ok := UndefinedRule(address, reg);
      case ByExpression(address, reg) => ok := ExpressionRule(address, reg);
    }

    /** The callbacks for one frame description add its entry to the module. */
    method Describe(f: Frame)
      requires Valid() && entry == None && AllRegisters(f.reports)
      modifies this
      ensures Valid() && entry == None && entries == old(entries) + [EntryOf(names, f)]
    {
      hide NameOf, Build, CallOf, Recorded;
      var ok := BeginEntry(f.start, f.size, f.returnAddress);
      for i := 0 to |f.reports|
        invariant Valid() && entry.Some? && entry.value.address == f.start && entry.value.size == f.size
        invariant entries == old(entries) && returnAddress == f.returnAddress
        invariant calls == FirstCalls(names, f) + CallsFor(names, f.returnAddress, f.reports[..i])
      {
        assert f.reports[..i + 1][..i] == f.reports[..i];
        Handle(f.reports[i]);
      }
      assert f.reports[..|f.reports|] == f.reports;
      ok := End();
    }
  }

  ghost predicate SameRange(e: Entry, f: Entry) {
    e.address == f.address && e.size == f.size
  }

  lemma JoinThree(a: string, b: string)
    ensures Join([a, b, "+"]) == a + " " + b + " +"
  {
    assert [a, b, "+"][1..] == [b, "+"] && [b, "+"][1..] == ["+"];
    assert Join([b, "+"]) == b + " " + "+";
    assert a + " " + (b + " " + "+") == a + " " + b + " +";
  }

  lemma JoinFour(a: string, b: string)
    ensures Join([a, b, "+", "^"]) == a + " " + b + " + ^"
  {
    assert [a, b, "+", "^"][1..] == [b, "+", "^"] && [b, "+", "^"][1..] == ["+", "^"] && ["+", "^"][1..] == ["^"];
    assert Join(["+", "^"]) == "+ ^";
    assert Join([b, "+", "^"]) == b + " " + "+ ^";
    assert a + " " + (b + " " + "+ ^") == a + " " + b + " + ^";
  }

  /**
   * A return register whose number is in the table with an empty name: the rule for the return
   * address is written without an expression, so no rules are found for the frame.
   */
  lemma EmptyNameNotFound(names: seq<string>, f: Frame, load: Address, fails: Failures, pc: Address)
    requires GoodNames(names) && GoodFrame(f, load) && load <= f.start <= pc < f.start + f.size
    requires f.returnAddress < |names| && names[f.returnAddress] == "" && !StartsReturn(names, f)
    ensures Find(WrittenAndLoaded([], [EntryOf(names, f)], load, 0, fails), pc - load) == None
  {
    assert OtherRecords([]) && GoodFrames([f], load);
    assert !Usable(names, [f], 0, FailCount(0, 0, fails));
    hide *;
    ReportThenFind([], names, [f], load, 0, fails, pc, 0, ".ra");
    assert Entries(names, [f]) == [EntryOf(names, f)];
  }

  /** Such a frame. */
  lemma EmptyNameExample()
    ensures var names, f := ["", "sp"], Frame(16, 8, 0, [ValOffset(16, CFA_REGISTER, 1, 8)]);
            && GoodNames(names) && GoodFrame(f, 0) && f.returnAddress < |names| && names[f.returnAddress] == ""
            && !StartsReturn(names, f)
  {
    hide Digits;
    assert Word("sp");
  }

  /** A register that is saved at the start of a frame and cannot be recovered from 20 on. */
  ghost function LostRegister(): Frame {
    Frame(16, 16, 0, [Offset(16, 1, CFA_REGISTER, 8), Undefined(20, 1)])
  }

  lemma LostRegisterGood()
    ensures var names, f := ["pc", "r1"], LostRegister();
            GoodNames(names) && GoodFrame(f, 0) && AllRegisters(f.reports) && Describes(names, f)
  {
    assert Word("pc") && Word("r1");
    hide Word, NameOf, Digits, StartsReturn;
  }

  lemma LostRegisterStale(names: seq<string>, f: Frame)
    requires names == ["pc", "r1"] && f == LostRegister() && AllRegisters(f.reports)
    ensures Stale(names, f, 24, "r1") && Meant(names, f, 24, "r1") == None
  {
    var r, u := f.reports[0], f.reports[1];
    assert NameOf(names, 0, 1) == "r1";
    hide NameOf, ExprOf, Digits;
    assert f.reports[..1] == [r] && [r][..0] == [];
    assert ReportInForce(names, 0, [r], 16, 24, "r1") == Some(Ruling(-1, r));
    assert ReportInForce(names, 0, f.reports, 16, 24, "r1") == Some(Ruling(20, u));
    assert Sets(names, 0, f.reports[0], 16, 24, "r1");
  }

  lemma LostRegisterRule(names: seq<string>, f: Frame)
    requires names == ["pc", "r1"] && f == LostRegister() && AllRegisters(f.reports)
    ensures Expected(CallsOf(names, f), f.start, 24, "r1") == Some(Join([".cfa", "8", "+", "^"]))
  {
    var r := f.reports[0];
    assert NameOf(names, 0, 1) == "r1" && NameOf(names, 0, CFA_REGISTER) == ".cfa" && Digits(8) == "8";
    assert ExprOf(names, 0, r) == Join([".cfa", "8", "+", "^"]);
    hide NameOf, ExprOf, Join, Digits;
    assert f.reports[..1] == [r] && [r][..0] == [];
    InForceNext(names, 0, [r], 16, 24, "r1");
    InForceNext(names, 0, f.reports, 16, 24, "r1");
    assert InForce([], 16, 24, "r1") == None;
    ExpectedOf(names, f, 24, "r1");
    hide InForce, Expected, CallsOf;
  }

  /** At 24 there should be no rule for that register, but the one recorded for the start is in force. */
  lemma StaleExample()
    ensures var names, f := ["pc", "r1"], LostRegister();
            && GoodNames(names) && GoodFrame(f, 0) && Describes(names, f)
            && Stale(names, f, 24, "r1") && Meant(names, f, 24, "r1") == None
            && Expected(CallsOf(names, f), f.start, 24, "r1") == Some(Join([".cfa", "8", "+", "^"]))
  {
    hide *;
    var names, f := ["pc", "r1"], LostRegister();
    LostRegisterGood();
    LostRegisterStale(names, f);
    LostRegisterRule(names, f);
  }

  /** In a frame with usable initial rules, stale rules are found. */
  lemma StaleFound(names: seq<string>, f: Frame, load: Address, fails: Failures, pc: Address, m: string)
    requires GoodNames(names) && GoodFrame(f, load) && load <= f.start <= pc < f.start + f.size
    requires Describes(names, f) && Stale(names, f, pc, m)
    ensures var found := Find(WrittenAndLoaded([], [EntryOf(names, f)], load, 0, fails), pc - load);
            && found.Some? && RuleOf(found.value, m) == Expected(CallsOf(names, f), f.start, pc, m)
            && RuleOf(found.value, m) != Meant(names, f, pc, m)
  {
    hide *;
    OneGoodFrame(names, f, load, fails);
    ReportThenFind([], names, [f], load, 0, fails, pc, 0, m);
    assert Entries(names, [f]) == [EntryOf(names, f)];
    TellsExpected(names, f, pc, m, Find(WrittenAndLoaded([], [EntryOf(names, f)], load, 0, fails), pc - load).value);
  }

  lemma OneGoodFrame(names: seq<string>, f: Frame, load: Address, fails: Failures)
    requires GoodFrame(f, load) && Describes(names, f)
    ensures GoodFrames([f], load) && OtherRecords([]) && Usable(names, [f], 0, FailCount(0, 0, fails))
  {
    assert SilentCount(names, [f][..1]) <= 1 by {
      assert [f][..1][1..] == [];
    }
    hide Describes, SilentCount;
  }

  lemma TellsExpected(names: seq<string>, f: Frame, pc: Address, m: string, info: FrameInfo)
    requires AllRegisters(f.reports) && Tells(names, f, pc, m, info)
    ensures RuleOf(info, m) == Expected(CallsOf(names, f), f.start, pc, m)
    ensures RuleOf(info, m) == Meant(names, f, pc, m) <==> !Stale(names, f, pc, m)
  {
    hide Expected, CallsOf, Meant, Stale, RuleOf;
  }
}
