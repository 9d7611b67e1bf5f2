/**
 * The rules that DwarfCFIToModule records, call by call, in a stack frame entry. At every address the
 * entry gives each register the rule that was recorded last for the nearest address at or before it.
 */
module CfiCalls {
  import opened Addresses
  import opened Options
  import opened CfiRules
  import opened CfiRecords
  import opened RuleMaps

  // ---------------------------------------------------------------------------------------
  // Recording rules
  // ---------------------------------------------------------------------------------------

  /** One call of Record. */
  datatype Call = Call(address: Address, name: string, expr: string)

  /** rule_changes[address][name] = expr. */
  function PutChange(changes: seq<Change>, c: Call): seq<Change> {
    if changes == [] || c.address < changes[0].address then [Change(c.address, PutRule([], c.name, c.expr))] + changes
    else if c.address == changes[0].address then
      [Change(c.address, PutRule(changes[0].rules, c.name, c.expr))] + changes[1..]
    else [changes[0]] + PutChange(changes[1..], c)
  }

  function RecordIn(e: Entry, c: Call): Entry {
    if c.address == e.address then e.(initial := PutRule(e.initial, c.name, c.expr))
    else e.(changes := PutChange(e.changes, c))
  }

  /** The entry that a sequence of calls collects. */
  ghost function Build(start: Address, size: Address, calls: seq<Call>): Entry {
    if calls == [] then Entry(start, size, [], [])
    else RecordIn(Build(start, size, calls[..|calls| - 1]), calls[|calls| - 1])
  }

  // ---------------------------------------------------------------------------------------
  // The rule in force
  // ---------------------------------------------------------------------------------------

  /**
   * A rule and the address from which it holds, below all addresses for an initial rule: as a change
   * overrides the initial rules, even one for an address below the start would.
   */
  datatype Ranked = Ranked(rank: int, expr: string)

  ghost predicate Beats(rank: int, best: Option<Ranked>) {
    best.None? || best.value.rank <= rank
  }

  ghost function Rank(c: Call, start: Address): int {
    if c.address == start then -1 else c.address
  }

  /** The rule for `m` at `a`: the last one reported for the nearest address. */
  ghost function InForce(calls: seq<Call>, start: Address, a: Address, m: string): Option<Ranked> {
    if calls == [] then None
    else
      var c, before := calls[|calls| - 1], InForce(calls[..|calls| - 1], start, a, m);
      if c.name == m && Rank(c, start) <= a && Beats(Rank(c, start), before) then Some(Ranked(Rank(c, start), c.expr))
      else before
  }

  /** The last of the changes up to `a` with a rule for `m`. */
  ghost function Latest(changes: seq<Change>, a: Address, m: string): Option<Ranked> {
    if changes == [] then None
    else
      var later, here := Latest(changes[1..], a, m), Lookup(changes[0].rules, m);
      if later.Some? then later
      else if changes[0].address <= a && here.Some? then Some(Ranked(changes[0].address, here.value))
      else None
  }

  ghost function LatestIn(e: Entry, a: Address, m: string): Option<Ranked> {
    var changed, initial := Latest(e.changes, a, m), Lookup(e.initial, m);
    if changed.Some? then changed
    else if initial.Some? then Some(Ranked(-1, initial.value))
    else None
  }

  /** The maps of an entry are in order. */
  ghost predicate Sorted(changes: seq<Change>) {
    && (forall i :: 0 <= i < |changes| ==> ByName(changes[i].rules))
    && (forall i, j :: 0 <= i < j < |changes| ==> changes[i].address < changes[j].address)
  }

  lemma {:induction false} LatestBounds(changes: seq<Change>, a: Address, m: string, low: int)
    requires Sorted(changes) && (changes != [] ==> low < changes[0].address)
    ensures Latest(changes, a, m).Some? ==> low < Latest(changes, a, m).value.rank <= a
  {
    if changes != [] {
      LatestBounds(changes[1..], a, m, low);
    }
  }

  lemma {:induction false} LatestPut(changes: seq<Change>, c: Call, a: Address, m: string)
    requires Sorted(changes)
    ensures Latest(PutChange(changes, c), a, m)
         == if c.name == m && c.address <= a && Beats(c.address, Latest(changes, a, m)) then
             Some(Ranked(c.address, c.expr))
            else Latest(changes, a, m)
  {
    if changes == [] || c.address < changes[0].address {
      LatestBounds(changes, a, m, c.address);
      LookupPut([], c.name, c.expr, m);
    } else {
      LatestBounds(changes[1..], a, m, changes[0].address);
      if c.address == changes[0].address {
        LookupPut(changes[0].rules, c.name, c.expr, m);
      } else {
        LatestPut(changes[1..], c, a, m);
      }
    }
  }

  lemma {:induction false} PutChangeFirst(changes: seq<Change>, c: Call)
    ensures PutChange(changes, c) != []
    ensures PutChange(changes, c)[0].address == c.address
            || (changes != [] && PutChange(changes, c)[0].address == changes[0].address)
  {
  }

  lemma {:induction false} PutChangeSorted(changes: seq<Change>, c: Call)
    requires Sorted(changes)
    ensures Sorted(PutChange(changes, c))
  {
    if changes == [] || c.address < changes[0].address {
      PutRuleOrdered([], c.name, c.expr);
    } else if c.address == changes[0].address {
      PutRuleOrdered(changes[0].rules, c.name, c.expr);
    } else {
      PutChangeSorted(changes[1..], c);
      var rest := PutChange(changes[1..], c);
      PutChangeFirst(changes[1..], c);
      SortedCons(changes[0], rest);
    }
  }

  lemma SortedCons(first: Change, rest: seq<Change>)
    requires ByName(first.rules) && Sorted(rest) && (rest != [] ==> first.address < rest[0].address)
    ensures Sorted([first] + rest)
  {
  }

  lemma {:induction false} BuildSorted(start: Address, size: Address, calls: seq<Call>)
    ensures var e := Build(start, size, calls);
            e.address == start && e.size == size && ByName(e.initial) && Sorted(e.changes)
  {
    if calls != [] {
      var before, c := Build(start, size, calls[..|calls| - 1]), calls[|calls| - 1];
      BuildSorted(start, size, calls[..|calls| - 1]);
      PutRuleOrdered(before.initial, c.name, c.expr);
      PutChangeSorted(before.changes, c);
    }
  }

  /** The collected entry holds for each register what was reported last for the nearest address. */
  lemma {:induction false} BuildLatest(start: Address, size: Address, calls: seq<Call>, a: Address, m: string)
    ensures LatestIn(Build(start, size, calls), a, m) == InForce(calls, start, a, m)
  {
    if calls != [] {
      var rest := calls[..|calls| - 1];
      BuildLatest(start, size, rest, a, m);
      BuildSorted(start, size, rest);
      RecordLatest(Build(start, size, rest), calls[|calls| - 1], a, m);
    }
  }

  lemma RecordLatest(e: Entry, c: Call, a: Address, m: string)
    requires ByName(e.initial) && Sorted(e.changes)
    ensures LatestIn(RecordIn(e, c), a, m)
         == if c.name == m && Rank(c, e.address) <= a && Beats(Rank(c, e.address), LatestIn(e, a, m))
            then Some(Ranked(Rank(c, e.address), c.expr)) else LatestIn(e, a, m)
  {
    LatestBounds(e.changes, a, m, -1);
    if c.address == e.address {
      LookupPut(e.initial, c.name, c.expr, m);
    } else {
      LatestPut(e.changes, c, a, m);
    }
  }

  lemma {:induction false} RuleOfChanges(changes: seq<Change>, a: Address, info: FrameInfo, m: string)
    requires Sorted(changes)
    ensures RuleOf(ApplyChanges(changes, a, info), m)
         == if Latest(changes, a, m).Some? then Some(Latest(changes, a, m).value.expr) else RuleOf(info, m)
  {
    if changes != [] {
      var info' := if changes[0].address <= a then ApplyRules(changes[0].rules, info) else info;
      RuleOfChanges(changes[1..], a, info', m);
      RuleOfApplied(changes[0].rules, info, m);
    }
  }

  /** The rule for `m` that an entry collected from `calls` has at address `a`. */
  ghost function Expected(calls: seq<Call>, start: Address, a: Address, m: string): Option<string> {
    var r := InForce(calls, start, a, m);
    if r.Some? then Some(r.value.expr) else RuleOf(EMPTY, m)
  }

  /** What the collected entry means. */
  lemma BuildMeans(start: Address, size: Address, calls: seq<Call>, a: Address, m: string)
    ensures RuleOf(RulesAt(Build(start, size, calls), a), m) == Expected(calls, start, a, m)
  {
    var e := Build(start, size, calls);
    BuildSorted(start, size, calls);
    BuildLatest(start, size, calls, a, m);
    RuleOfApplied(e.initial, EMPTY, m);
    RuleOfChanges(e.changes, a, ApplyRules(e.initial, EMPTY), m);
  }

  // ---------------------------------------------------------------------------------------
  // Callbacks in order of address
  // ---------------------------------------------------------------------------------------

  /** Apply the calls up to address `a` in the order in which they were made. */
  ghost function ApplyCalls(calls: seq<Call>, a: Address): FrameInfo {
    if calls == [] then EMPTY
    else
      var c, before := calls[|calls| - 1], ApplyCalls(calls[..|calls| - 1], a);
      if c.address <= a then SetRule(before, c.name, c.expr) else before
  }

  /** The parser walks through the instructions of an entry from its start. */
  ghost predicate Advancing(calls: seq<Call>, start: Address) {
    && (forall i :: 0 <= i < |calls| ==> start <= calls[i].address)
    && (forall i, j :: 0 <= i < j < |calls| ==> calls[i].address <= calls[j].address)
  }

  lemma {:induction false} InForceBounds(calls: seq<Call>, start: Address, a: Address, m: string, top: Address)
    requires forall i :: 0 <= i < |calls| ==> start <= calls[i].address <= top
    ensures var r := InForce(calls, start, a, m);
            r.Some? ==> r.value.rank == -1 || start < r.value.rank <= top
  {
    if calls != [] {
      InForceBounds(calls[..|calls| - 1], start, a, m, top);
    }
  }

  /** Recorded in order of address, the rules in force are what applying them in turn gives. */
  lemma {:induction false} AdvancingInForce(calls: seq<Call>, start: Address, a: Address, m: string)
    requires Advancing(calls, start) && start <= a
    ensures Expected(calls, start, a, m) == RuleOf(ApplyCalls(calls, a), m)
  {
    if calls != [] {
      var c, rest := calls[|calls| - 1], calls[..|calls| - 1];
      AdvancingInForce(rest, start, a, m);
      InForceBounds(rest, start, a, m, c.address);
      if c.address == start {
        InForceBounds(rest, start, a, m, start);
      }
    }
  }

  lemma {:induction false} ApplyCallsFixed(calls: seq<Call>, a: Address)
    ensures ".cfa" !in ApplyCalls(calls, a).regs && ".ra" !in ApplyCalls(calls, a).regs
  {
    if calls != [] {
      ApplyCallsFixed(calls[..|calls| - 1], a);
    }
  }

  lemma {:induction false} ApplyRulesFixed(rules: seq<Rule>, info: FrameInfo)
    requires ".cfa" !in info.regs && ".ra" !in info.regs
    ensures ".cfa" !in ApplyRules(rules, info).regs && ".ra" !in ApplyRules(rules, info).regs
  {
    if rules != [] {
      ApplyRulesFixed(rules[1..], SetRule(info, rules[0].name, rules[0].expr));
    }
  }

  lemma {:induction false} ApplyChangesFixed(changes: seq<Change>, a: int, info: FrameInfo)
    requires ".cfa" !in info.regs && ".ra" !in info.regs
    ensures ".cfa" !in ApplyChanges(changes, a, info).regs && ".ra" !in ApplyChanges(changes, a, info).regs
  {
    if changes != [] {
      ApplyRulesFixed(changes[0].rules, info);
      ApplyChangesFixed(changes[1..], a, if changes[0].address <= a then ApplyRules(changes[0].rules, info) else info);
    }
  }

  /**
   * An entry collected in order of address means, at each of its addresses, the rules recorded up to
   * there applied in turn.
   */
  lemma BuildApplies(start: Address, size: Address, calls: seq<Call>, a: Address)
    requires Advancing(calls, start) && start <= a
    ensures RulesAt(Build(start, size, calls), a) == ApplyCalls(calls, a)
  {
    var e := Build(start, size, calls);
    ApplyCallsFixed(calls, a);
    ApplyRulesFixed(e.initial, EMPTY);
    ApplyChangesFixed(e.changes, a, ApplyRules(e.initial, EMPTY));
    forall m ensures RuleOf(RulesAt(e, a), m) == RuleOf(ApplyCalls(calls, a), m) {
      BuildMeans(start, size, calls, a, m);
      AdvancingInForce(calls, start, a, m);
    }
    RulesDetermine(RulesAt(e, a), ApplyCalls(calls, a));
  }
}
