/** Stack frame entries, the rules they mean at an address, and Module::Write printing them as STACK CFI records. */
module CfiRecords {
  import opened Addresses
  import opened Text
  import opened CfiRules

  /** The rules that change at an address; `rules` lists the RuleMap. */
  datatype Change = Change(address: Address, rules: seq<Rule>)

  /** Module::StackFrameEntry; `changes` lists the RuleChangeMap in order of address. */
  datatype Entry = Entry(address: Address, size: Address, initial: seq<Rule>, changes: seq<Change>)

  // ---------------------------------------------------------------------------------------
  // What an entry means
  // ---------------------------------------------------------------------------------------

  /** Apply the changes up to and including address `a`, in order. */
  function ApplyChanges(changes: seq<Change>, a: int, info: FrameInfo): FrameInfo {
    if changes == [] then info
    else ApplyChanges(changes[1..], a, if changes[0].address <= a then ApplyRules(changes[0].rules, info) else info)
  }

  /** The rules in force at address `a` of the entry. */
  function RulesAt(e: Entry, a: int): FrameInfo {
    ApplyChanges(e.changes, a, ApplyRules(e.initial, EMPTY))
  }

  // ---------------------------------------------------------------------------------------
  // Writing
  // ---------------------------------------------------------------------------------------

  function InitLine(e: Entry, load: Address): string {
    "STACK CFI INIT " + Hex(Minus(e.address, load)) + " " + Hex(e.size) + " " + Join(RuleTexts(e.initial))
  }

  function ChangeLine(c: Change, load: Address): string {
    "STACK CFI " + Hex(Minus(c.address, load)) + " " + Join(RuleTexts(c.rules))
  }

  function ChangeLines(changes: seq<Change>, load: Address): seq<string> {
    if changes == [] then [] else [ChangeLine(changes[0], load)] + ChangeLines(changes[1..], load)
  }

  function EntryLines(es: seq<Entry>, load: Address): seq<string> {
    if es == [] then [] else [InitLine(es[0], load)] + ChangeLines(es[0].changes, load) + EntryLines(es[1..], load)
  }

  lemma {:induction false} LinesConcat(a: seq<string>, b: seq<string>)
    ensures Lines(a + b) == Lines(a) + Lines(b)
  {
    if a == [] {
      assert a + b == b;
    } else {
      LinesConcat(a[1..], b);
      assert (a + b)[1..] == a[1..] + b;
    }
  }

  lemma {:induction false} ChangeLinesAppend(changes: seq<Change>, c: Change, load: Address)
    ensures ChangeLines(changes + [c], load) == ChangeLines(changes, load) + [ChangeLine(c, load)]
  {
    hide ChangeLine;
    if changes == [] {
      assert changes + [c] == [c];
    } else {
      ChangeLinesAppend(changes[1..], c, load);
      assert (changes + [c])[1..] == changes[1..] + [c];
    }
  }

  lemma {:induction false} EntryLinesAppend(es: seq<Entry>, e: Entry, load: Address)
    ensures EntryLines(es + [e], load) == EntryLines(es, load) + ([InitLine(e, load)] + ChangeLines(e.changes, load))
  {
    hide InitLine, ChangeLines;
    if es == [] {
      assert es + [e] == [e];
    } else {
      EntryLinesAppend(es[1..], e, load);
      assert (es + [e])[1..] == es[1..] + [e];
    }
  }

  lemma LinesOne(line: string)
    ensures Lines([line]) == line + "\n"
  {
    assert [line][1..] == [];
  }

  /** The STACK CFI part of Module::Write. */
  method WriteEntries(es: seq<Entry>, load: Address) returns (text: string)
    ensures text == Lines(EntryLines(es, load))
  {
    text := "";
    for i := 0 to |es|
      invariant text == Lines(EntryLines(es[..i], load))
    {
      assert es[..i + 1] == es[..i] + [es[i]];
      var entryText := WriteEntry(es[i], load);
      EntryLinesAppend(es[..i], es[i], load);
      LinesConcat(EntryLines(es[..i], load), [InitLine(es[i], load)] + ChangeLines(es[i].changes, load));
      text := text + entryText;
    }
    assert es[..|es|] == es;
  }

  method WriteEntry(e: Entry, load: Address) returns (text: string)
    ensures text == Lines([InitLine(e, load)] + ChangeLines(e.changes, load))
  {
    hide *;
    text := WriteInit(e, load);
    var changes := WriteChanges(e.changes, load);
    LinesOne(InitLine(e, load));
    LinesConcat([InitLine(e, load)], ChangeLines(e.changes, load));
    text := text + changes;
  }

  method WriteChanges(changes: seq<Change>, load: Address) returns (text: string)
    ensures text == Lines(ChangeLines(changes, load))
  {
    text := "";
    for i := 0 to |changes|
      invariant text == Lines(ChangeLines(changes[..i], load))
    {
      var line := WriteChange(changes[i], load);
      WrittenStep(changes, i, load);
      text := text + line;
    }
    assert changes[..|changes|] == changes;
  }

  method WriteInit(e: Entry, load: Address) returns (text: string)
    ensures text == InitLine(e, load) + "\n"
  {
    var rules := WriteRuleMap(e.initial);
    text := "STACK CFI INIT " + Hex(Minus(e.address, load)) + " " + Hex(e.size) + " " + rules + "\n";
  }

  method WriteChange(c: Change, load: Address) returns (text: string)
    ensures text == ChangeLine(c, load) + "\n"
  {
    var rules := WriteRuleMap(c.rules);
    text := "STACK CFI " + Hex(Minus(c.address, load)) + " " + rules + "\n";
  }

  lemma WrittenStep(changes: seq<Change>, i: nat, load: Address)
    requires i < |changes|
    ensures Lines(ChangeLines(changes[..i + 1], load))
         == Lines(ChangeLines(changes[..i], load)) + (ChangeLine(changes[i], load) + "\n")
  {
    hide *;
    assert changes[..i + 1] == changes[..i] + [changes[i]];
    ChangeLinesAppend(changes[..i], changes[i], load);
    LinesConcat(ChangeLines(changes[..i], load), [ChangeLine(changes[i], load)]);
    LinesOne(ChangeLine(changes[i], load));
  }
}
