/** Stack frame entries written as STACK CFI records and read back: FindCFIFrameInfo finds what the entries mean. */
module CfiPipeline {
  import opened Addresses
  import opened Options
  import opened Text
  import opened CfiRules
  import opened CfiRecords
  import opened SymbolModules

  /**
   * An entry as the dumper makes them: it is not empty, lies above the load address and does not
   * wrap, and its changes are inside it, in order of address. Rules are well formed, except that the
   * initial rules may be missing, or lack an expression.
   */
  ghost predicate GoodEntry(e: Entry, load: Address) {
    && 0 < e.size && load <= e.address && e.address + e.size <= SPACE
    && Writable(e.initial)
    && (forall i :: 0 <= i < |e.changes| ==> GoodChange(e.changes[i], e))
    && (forall i, j :: 0 <= i < j < |e.changes| ==> e.changes[i].address < e.changes[j].address)
  }

  ghost predicate GoodChange(c: Change, e: Entry) {
    e.address <= c.address < e.address + e.size && c.rules != [] && GoodRules(c.rules)
  }

  ghost predicate GoodEntries(es: seq<Entry>, load: Address) {
    (forall i :: 0 <= i < |es| ==> GoodEntry(es[i], load)) && Apart(es)
  }

  ghost predicate Apart(es: seq<Entry>) {
    forall i, j :: 0 <= i < j < |es| ==>
      es[i].address + es[i].size <= es[j].address || es[j].address + es[j].size <= es[i].address
  }

  ghost predicate Covers(e: Entry, a: int) {
    e.address <= a < e.address + e.size
  }

  // ---------------------------------------------------------------------------------------
  // One line
  // ---------------------------------------------------------------------------------------

  lemma {:induction false} JoinHasNoBreaks(words: seq<string>, i: nat)
    requires (forall k :: 0 <= k < |words| ==> Clean(words[k], WHITE)) && i < |Join(words)|
    ensures Join(words)[i] !in LINE_BREAKS
  {
    if |words| == 1 {
      assert Clean(words[0], WHITE);
    } else {
      assert Clean(words[0], WHITE);
      var head := words[0] + " ";
      if i >= |head| {
        JoinHasNoBreaks(words[1..], i - |head|);
        assert Join(words)[i] == Join(words[1..])[i - |head|];
      }
    }
  }

  lemma GoodWritable(rules: seq<Rule>)
    requires GoodRules(rules)
    ensures Writable(rules)
  {
    forall i | 0 <= i < |rules| ensures WritableRule(rules[i]) {
      assert GoodRule(rules[i]);
    }
  }

  lemma RuleHasNoBreaks(r: Rule, i: nat)
    requires WritableRule(r) && i < |RuleText(r)|
    ensures RuleText(r)[i] !in LINE_BREAKS
  {
    if i >= |r.name| + 2 {
      JoinHasNoBreaks(Tokens(r.expr, WHITE), i - |r.name| - 2);
    }
  }

  lemma {:induction false} TextHasNoBreaks(rules: seq<Rule>, i: nat)
    requires Writable(rules) && i < |Join(RuleTexts(rules))|
    ensures Join(RuleTexts(rules))[i] !in LINE_BREAKS
  {
    var r, rest := rules[0], rules[1..];
    assert WritableRule(r) && RuleTexts(rules)[1..] == RuleTexts(rest);
    if i < |RuleText(r)| {
      RuleHasNoBreaks(r, i);
      hide RuleText;
    } else if i > |RuleText(r)| {
      TextHasNoBreaks(rest, i - |RuleText(r)| - 1);
      hide RuleText;
    }
  }

  /** The text of a nonempty rule map is one token up to the end of the line. */
  lemma RulesClean(rules: seq<Rule>)
    requires rules != [] && Writable(rules)
    ensures Clean(Join(RuleTexts(rules)), LINE_BREAKS)
  {
    WrittenSomething(rules);
    hide Join, RuleTexts, Writable;
    forall i | 0 <= i < |Join(RuleTexts(rules))| ensures Join(RuleTexts(rules))[i] !in LINE_BREAKS {
      TextHasNoBreaks(rules, i);
    }
  }

  /** The start of a record line is stripped; what is left is parsed as a record. */
  lemma StripPrefix(s: string, t: Tables)
    ensures "STACK " <= "STACK CFI " + s && forall fails :: ParseStack("STACK CFI " + s, t, fails) == ParseRecord(s, t)
  {
    var line := "STACK CFI " + s;
    assert line[6..] == "CFI" + (" " + s);
    assert SkipSpaces(line[6..]) == line[6..];
    CleanLength("CFI", " " + s, FIELD_BREAKS);
    assert line[6..][..3] == "CFI" && line[6..][4..] == s;
  }

  lemma FieldOfHex(n: Address, rest: string)
    ensures StrTok(Hex(n) + " " + rest, FIELD_BREAKS) == Some((Hex(n), rest)) && Hex(n) != "INIT"
  {
    HexClean(n, FIELD_BREAKS);
    StrTokClean(Hex(n), ' ', rest, FIELD_BREAKS);
    HexRoundTrip(n);
    assert Hex(n)[0] != 'I';
  }

  /** A record of rules that change: an address and the rest of the line. */
  lemma ChangeRecord(a: Address, text: string, t: Tables, fails: bool)
    requires Clean(text, LINE_BREAKS)
    ensures LoadLine("STACK CFI " + (Hex(a) + " " + text), t, fails)
         == Loaded(true, t.(deltas := PutDelta(t.deltas, a, text)))
  {
    StripPrefix(Hex(a) + " " + text, t);
    FieldOfHex(a, text);
    StrTokClean(text, '\n', "", LINE_BREAKS);
    StrToULOfHex(a);
    hide Hex, StrTok, StrToUL, ParseStack;
  }

  /** An INIT record: an address, a size, and the rest of the line, without which it is an error. */
  lemma InitRecord(a: Address, size: Address, text: string, t: Tables, fails: bool)
    requires text == "" || Clean(text, LINE_BREAKS)
    ensures LoadLine("STACK CFI " + ("INIT" + " " + (Hex(a) + " " + (Hex(size) + " " + text))), t, fails)
         == if text == "" then Loaded(false, t) else Loaded(true, PutInitial(t, a, size, text))
  {
    var s := Hex(a) + " " + (Hex(size) + " " + text);
    StripPrefix("INIT" + " " + s, t);
    StrTokClean("INIT", ' ', s, FIELD_BREAKS);
    InitFields(a, size, text, t);
    hide Hex, ParseInit, PutInitial, StrTok, ParseStack;
  }

  lemma InitFields(a: Address, size: Address, text: string, t: Tables)
    requires text == "" || Clean(text, LINE_BREAKS)
    ensures ParseInit(Hex(a) + " " + (Hex(size) + " " + text), t)
         == if text == "" then Loaded(false, t) else Loaded(true, PutInitial(t, a, size, text))
  {
    FieldOfHex(a, Hex(size) + " " + text);
    FieldOfHex(size, text);
    if text == "" {
      assert StrTok(text, LINE_BREAKS) == None;
    } else {
      StrTokClean(text, '\n', "", LINE_BREAKS);
    }
    StrToULOfHex(a);
    StrToULOfHex(size);
    hide Hex, StrTok, StrToUL, PutInitial;
  }

  /** Reading the line of a change files its rules under its address. */
  lemma ReadChange(c: Change, load: Address, t: Tables, fails: bool)
    requires c.rules != [] && GoodRules(c.rules)
    ensures LoadLine(ChangeLine(c, load), t, fails)
         == Loaded(true, t.(deltas := PutDelta(t.deltas, Minus(c.address, load), Join(RuleTexts(c.rules)))))
  {
    hide Hex, Join, RuleTexts, LoadLine, GoodRules, Writable, Clean, PutDelta;
    var a, text := Minus(c.address, load), Join(RuleTexts(c.rules));
    GoodWritable(c.rules);
    RulesClean(c.rules);
    assert ChangeLine(c, load) == "STACK CFI " + (Hex(a) + " " + text);
    ChangeRecord(a, text, t, fails);
  }

  /** Reading the INIT line of an entry stores its range; without rules it is an error. */
  lemma ReadInit(e: Entry, load: Address, t: Tables, fails: bool)
    requires Writable(e.initial)
    ensures LoadLine(InitLine(e, load), t, fails)
         == if e.initial == [] then Loaded(false, t)
            else Loaded(true, PutInitial(t, Minus(e.address, load), e.size, Join(RuleTexts(e.initial))))
  {
    hide Hex, Join, RuleTexts, LoadLine, Writable, Clean, PutInitial;
    var a, text := Minus(e.address, load), Join(RuleTexts(e.initial));
    WrittenSomething(e.initial);
    if e.initial != [] {
      RulesClean(e.initial);
    }
    assert InitLine(e, load) == "STACK CFI " + ("INIT" + " " + (Hex(a) + " " + (Hex(e.size) + " " + text)));
    InitRecord(a, e.size, text, t, fails);
  }

  // ---------------------------------------------------------------------------------------
  // All lines
  // ---------------------------------------------------------------------------------------

  lemma CleanConcat(a: string, b: string)
    requires Clean(a, LINE_BREAKS) && Clean(b, LINE_BREAKS)
    ensures Clean(a + b, LINE_BREAKS)
  {
  }

  lemma InitLineClean(e: Entry, load: Address)
    requires Writable(e.initial)
    ensures Clean(InitLine(e, load), LINE_BREAKS)
  {
    var a, text := Hex(Minus(e.address, load)), Join(RuleTexts(e.initial));
    HexClean(Minus(e.address, load), LINE_BREAKS);
    HexClean(e.size, LINE_BREAKS);
    var line := "STACK CFI INIT " + a + " " + Hex(e.size) + " ";
    if e.initial == [] {
      assert InitLine(e, load) == line;
    } else {
      RulesClean(e.initial);
    }
    hide Hex, Join, Writable;
    CleanConcat("STACK CFI INIT ", a);
    CleanConcat("STACK CFI INIT " + a, " ");
    CleanConcat("STACK CFI INIT " + a + " ", Hex(e.size));
    CleanConcat("STACK CFI INIT " + a + " " + Hex(e.size), " ");
    if e.initial != [] {
      CleanConcat(line, text);
    }
  }

  lemma ChangeLineClean(c: Change, load: Address)
    requires c.rules != [] && GoodRules(c.rules)
    ensures Clean(ChangeLine(c, load), LINE_BREAKS)
  {
    var a, text := Hex(Minus(c.address, load)), Join(RuleTexts(c.rules));
    HexClean(Minus(c.address, load), LINE_BREAKS);
    GoodWritable(c.rules);
    RulesClean(c.rules);
    hide Hex, Join, RuleTexts, GoodRules, Writable;
    CleanConcat("STACK CFI ", a);
    CleanConcat("STACK CFI " + a, " ");
    CleanConcat("STACK CFI " + a + " ", text);
  }

  lemma {:induction false} ChangeLinesClean(changes: seq<Change>, load: Address, i: nat)
    requires i < |ChangeLines(changes, load)|
    requires forall k :: 0 <= k < |changes| ==> changes[k].rules != [] && GoodRules(changes[k].rules)
    ensures Clean(ChangeLines(changes, load)[i], LINE_BREAKS)
  {
    hide ChangeLine;
    if i == 0 {
      ChangeLineClean(changes[0], load);
    } else {
      ChangeLinesClean(changes[1..], load, i - 1);
    }
  }

  lemma {:induction false} EntryLinesClean(es: seq<Entry>, load: Address, i: nat)
    requires (forall k :: 0 <= k < |es| ==> GoodEntry(es[k], load)) && i < |EntryLines(es, load)|
    ensures Clean(EntryLines(es, load)[i], LINE_BREAKS)
  {
    hide InitLine;
    var head, rest := [InitLine(es[0], load)] + ChangeLines(es[0].changes, load), EntryLines(es[1..], load);
    assert GoodEntry(es[0], load);
    if i == 0 {
      InitLineClean(es[0], load);
    } else if i < |head| {
      ChangeLinesClean(es[0].changes, load, i - 1);
    } else {
      EntryLinesClean(es[1..], load, i - |head|);
    }
  }

  // ---------------------------------------------------------------------------------------
  // What the tables hold
  // ---------------------------------------------------------------------------------------

  ghost function RangeOf(e: Entry, load: Address): RangeMaps.Range<string>
    requires GoodEntry(e, load)
  {
    RangeMaps.Range(e.address - load, e.address - load + e.size - 1, Join(RuleTexts(e.initial)))
  }

  ghost function DeltaOf(c: Change, load: Address): Delta {
    Delta(Minus(c.address, load), Join(RuleTexts(c.rules)))
  }

  ghost predicate Stored(x: RangeMaps.Range<string>, es: seq<Entry>, load: Address)
    requires forall i :: 0 <= i < |es| ==> GoodEntry(es[i], load)
  {
    exists i :: 0 <= i < |es| && es[i].initial != [] && x == RangeOf(es[i], load)
  }

  ghost predicate Filed(d: Delta, es: seq<Entry>, load: Address) {
    exists i, c :: 0 <= i < |es| && c in es[i].changes && d == DeltaOf(c, load)
  }

  /** The tables hold the ranges and the changes of the entries, and nothing else. */
  ghost predicate Mirrors(t: Tables, es: seq<Entry>, load: Address) {
    && GoodEntries(es, load)
    && RangeMaps.Ordered(t.initial) && Ascending(t.deltas)
    && (forall x :: x in t.initial <==> Stored(x, es, load))
    && (forall d :: d in t.deltas <==> Filed(d, es, load))
  }

  /** `e` with its first `k` changes. */
  function Part(e: Entry, k: nat): Entry
    requires k <= |e.changes|
  {
    e.(changes := e.changes[..k])
  }

  lemma PartGood(es: seq<Entry>, e: Entry, load: Address, k: nat)
    requires GoodEntries(es + [e], load) && k <= |e.changes|
    ensures GoodEntries(es + [Part(e, k)], load) && GoodEntries(es, load) && GoodEntry(e, load)
  {
    var all, part := es + [e], es + [Part(e, k)];
    assert all[|es|] == e;
    forall i | 0 <= i < |part| ensures GoodEntry(part[i], load) {
      assert GoodEntry(all[i], load);
      if i == |es| {
        forall j | 0 <= j < k ensures GoodChange(e.changes[..k][j], Part(e, k)) {
          assert GoodChange(e.changes[j], e);
        }
      }
    }
    forall i | 0 <= i < |es| ensures GoodEntry(es[i], load) {
      assert all[i] == es[i];
    }
    forall i, j | 0 <= i < j < |part|
      ensures part[i].address + part[i].size <= part[j].address || part[j].address + part[j].size <= part[i].address
    {
      assert all[i].address == part[i].address && all[j].address == part[j].address;
      assert all[i].size == part[i].size && all[j].size == part[j].size;
    }
    forall i, j | 0 <= i < j < |es|
      ensures es[i].address + es[i].size <= es[j].address || es[j].address + es[j].size <= es[i].address
    {
      assert all[i] == es[i] && all[j] == es[j];
    }
  }

  /** The ranges stored so far do not overlap the next entry. */
  lemma NoOverlap(t: Tables, es: seq<Entry>, e: Entry, load: Address, x: RangeMaps.Range<string>)
    requires Mirrors(t, es, load) && GoodEntries(es + [e], load) && x in t.initial
    ensures GoodEntry(e, load) && !RangeMaps.Overlaps(x, e.address - load, e.address - load + e.size - 1)
  {
    assert Stored(x, es, load);
    var k :| 0 <= k < |es| && es[k].initial != [] && x == RangeOf(es[k], load);
    assert (es + [e])[k] == es[k] && (es + [e])[|es|] == e;
  }

  /** The range of the next entry is stored. */
  lemma RangeStored(t: Tables, es: seq<Entry>, e: Entry, load: Address)
    requires Mirrors(t, es, load) && GoodEntries(es + [e], load) && GoodEntry(e, load)
    ensures var r := RangeMaps.Store(t.initial, e.address - load, e.size, Join(RuleTexts(e.initial)));
            && r.Some? && RangeMaps.Ordered(r.value)
            && forall x :: x in r.value <==> x in t.initial || x == RangeOf(e, load)
  {
    hide *;
    EntryBounds(e, load);
    MirrorsOrdered(t, es, load);
    var base, text := e.address - load, Join(RuleTexts(e.initial));
    forall i | 0 <= i < |t.initial| ensures !RangeMaps.Overlaps(t.initial[i], base, base + e.size - 1) {
      NoOverlap(t, es, e, load, t.initial[i]);
    }
    RangeMaps.StoreCorrect(t.initial, base, e.size, text);
    var r := RangeMaps.Store(t.initial, base, e.size, text).value;
    assert forall x :: x in r <==> x in t.initial || x == RangeMaps.Range(base, base + e.size - 1, text);
    assert RangeOf(e, load) == RangeMaps.Range(base, base + e.size - 1, text);
  }

  lemma EntryBounds(e: Entry, load: Address)
    requires GoodEntry(e, load)
    ensures 0 < e.size && load <= e.address && e.address + e.size <= SPACE
    ensures RangeOf(e, load)
         == RangeMaps.Range(e.address - load, e.address - load + e.size - 1, Join(RuleTexts(e.initial)))
  {
  }

  lemma MirrorsOrdered(t: Tables, es: seq<Entry>, load: Address)
    requires Mirrors(t, es, load)
    ensures RangeMaps.Ordered(t.initial)
  {
  }

  /** An INIT record adds the range of its entry. */
  lemma MirrorInit(t: Tables, es: seq<Entry>, e: Entry, load: Address)
    requires Mirrors(t, es, load) && GoodEntries(es + [e], load) && e.initial != []
    ensures GoodEntry(e, load)
    ensures Mirrors(PutInitial(t, Minus(e.address, load), e.size, Join(RuleTexts(e.initial))), es + [Part(e, 0)], load)
  {
    PartGood(es, e, load, 0);
    RangeStored(t, es, e, load);
    StoredAppend(es, e, load);
    FiledSame(es, e, load);
    PutInitialStores(t, e, load);
    hide RangeMaps.Store, RangeMaps.Ordered, Join, GoodEntry, GoodEntries, Stored, Filed, Ascending;
    hide PutInitial, RangeOf, Minus;
  }

  /** An entry without initial rules adds nothing. */
  lemma MirrorMissing(t: Tables, es: seq<Entry>, e: Entry, load: Address)
    requires Mirrors(t, es, load) && GoodEntries(es + [e], load) && e.initial == []
    ensures Mirrors(t, es + [Part(e, 0)], load)
  {
    PartGood(es, e, load, 0);
    FiledSame(es, e, load);
    StoredSame(es, e, load);
    hide RangeMaps.Ordered, GoodEntry, GoodEntries, Stored, Filed, Ascending, RangeOf;
  }

  lemma StoredSame(es: seq<Entry>, e: Entry, load: Address)
    requires GoodEntries(es, load) && GoodEntries(es + [Part(e, 0)], load) && e.initial == []
    ensures forall x :: Stored(x, es + [Part(e, 0)], load) <==> Stored(x, es, load)
  {
    var all := es + [Part(e, 0)];
    forall x | Stored(x, es, load) ensures Stored(x, all, load) {
      var i :| 0 <= i < |es| && es[i].initial != [] && x == RangeOf(es[i], load);
      assert all[i] == es[i];
    }
    forall x | Stored(x, all, load) ensures Stored(x, es, load) {
      var i :| 0 <= i < |all| && all[i].initial != [] && x == RangeOf(all[i], load);
      assert i < |es| && all[i] == es[i];
    }
  }

  lemma PutInitialStores(t: Tables, e: Entry, load: Address)
    requires GoodEntry(e, load)
    requires RangeMaps.Store(t.initial, e.address - load, e.size, Join(RuleTexts(e.initial))).Some?
    ensures PutInitial(t, Minus(e.address, load), e.size, Join(RuleTexts(e.initial)))
         == t.(initial := RangeMaps.Store(t.initial, e.address - load, e.size, Join(RuleTexts(e.initial))).value)
  {
    hide RangeMaps.Store, Join, RuleTexts, Writable;
    assert Minus(e.address, load) == e.address - load;
  }

  lemma StoredAppend(es: seq<Entry>, e: Entry, load: Address)
    requires GoodEntries(es, load) && GoodEntry(e, load) && GoodEntries(es + [Part(e, 0)], load) && e.initial != []
    ensures forall x :: Stored(x, es + [Part(e, 0)], load) <==> Stored(x, es, load) || x == RangeOf(e, load)
  {
    var all := es + [Part(e, 0)];
    assert all[|es|] == Part(e, 0) && RangeOf(Part(e, 0), load) == RangeOf(e, load);
    forall x | Stored(x, es, load) ensures Stored(x, all, load) {
      var i :| 0 <= i < |es| && es[i].initial != [] && x == RangeOf(es[i], load);
      assert all[i] == es[i];
    }
    forall x | Stored(x, all, load) ensures Stored(x, es, load) || x == RangeOf(e, load) {
      var i :| 0 <= i < |all| && all[i].initial != [] && x == RangeOf(all[i], load);
      if i < |es| {
        assert all[i] == es[i];
      }
    }
  }

  lemma FiledSame(es: seq<Entry>, e: Entry, load: Address)
    ensures forall d :: Filed(d, es + [Part(e, 0)], load) <==> Filed(d, es, load)
  {
    var all := es + [Part(e, 0)];
    forall d | Filed(d, es, load) ensures Filed(d, all, load) {
      var i, c :| 0 <= i < |es| && c in es[i].changes && d == DeltaOf(c, load);
      assert all[i] == es[i];
    }
    forall d | Filed(d, all, load) ensures Filed(d, es, load) {
      var i, c :| 0 <= i < |all| && c in all[i].changes && d == DeltaOf(c, load);
      assert i < |es| && all[i] == es[i];
    }
  }

  /** A record for change `k` adds that change: nothing is filed under its address yet. */
  lemma MirrorChange(t: Tables, es: seq<Entry>, e: Entry, load: Address, k: nat)
    requires k < |e.changes| && GoodEntries(es + [e], load) && Mirrors(t, es + [Part(e, k)], load)
    ensures var d := DeltaOf(e.changes[k], load);
            Mirrors(t.(deltas := PutDelta(t.deltas, d.address, d.text)), es + [Part(e, k + 1)], load)
  {
    PartGood(es, e, load, k);
    PartGood(es, e, load, k + 1);
    var d := DeltaOf(e.changes[k], load);
    PutDeltaCorrect(t.deltas, d.address, d.text);
    forall d' | d' in t.deltas ensures d'.address != d.address {
      assert Filed(d', es + [Part(e, k)], load);
      NotYetFiled(es, e, load, k, d');
    }
    FiledStep(es, e, load, k);
    StoredPart(es, e, load, k);
  }

  lemma NotYetFiled(es: seq<Entry>, e: Entry, load: Address, k: nat, d: Delta)
    requires k < |e.changes| && GoodEntries(es + [e], load) && Filed(d, es + [Part(e, k)], load)
    ensures d.address != Minus(e.changes[k].address, load)
  {
    var all, part := es + [e], es + [Part(e, k)];
    var i, c :| 0 <= i < |part| && c in part[i].changes && d == DeltaOf(c, load);
    assert GoodEntry(all[i], load) && GoodEntry(all[|es|], load);
    assert GoodChange(e.changes[k], e);
    if i < |es| {
      assert part[i] == all[i] && GoodChange(c, all[i]);
    } else {
      var j :| 0 <= j < k && e.changes[j] == c;
      assert GoodChange(c, e);
    }
  }

  lemma FiledStep(es: seq<Entry>, e: Entry, load: Address, k: nat)
    requires k < |e.changes|
    ensures forall d :: Filed(d, es + [Part(e, k + 1)], load)
                        <==> Filed(d, es + [Part(e, k)], load) || d == DeltaOf(e.changes[k], load)
  {
    var a, b := es + [Part(e, k)], es + [Part(e, k + 1)];
    assert e.changes[..k + 1] == e.changes[..k] + [e.changes[k]];
    assert b[|es|] == Part(e, k + 1) && e.changes[k] in b[|es|].changes;
    forall d | Filed(d, a, load) ensures Filed(d, b, load) {
      var i, c :| 0 <= i < |a| && c in a[i].changes && d == DeltaOf(c, load);
      assert c in b[i].changes;
    }
    forall d | Filed(d, b, load) ensures Filed(d, a, load) || d == DeltaOf(e.changes[k], load) {
      var i, c :| 0 <= i < |b| && c in b[i].changes && d == DeltaOf(c, load);
      if c != e.changes[k] || i < |es| {
        assert c in a[i].changes;
      }
    }
  }

  lemma StoredPart(es: seq<Entry>, e: Entry, load: Address, k: nat)
    requires k < |e.changes| && GoodEntries(es + [Part(e, k)], load) && GoodEntries(es + [Part(e, k + 1)], load)
    ensures forall x :: Stored(x, es + [Part(e, k + 1)], load) <==> Stored(x, es + [Part(e, k)], load)
  {
    var a, b := es + [Part(e, k)], es + [Part(e, k + 1)];
    forall i | 0 <= i < |a| ensures RangeOf(a[i], load) == RangeOf(b[i], load) {
    }
    forall x | Stored(x, a, load) ensures Stored(x, b, load) {
      var i :| 0 <= i < |a| && a[i].initial != [] && x == RangeOf(a[i], load);
      assert b[i].initial != [] && x == RangeOf(b[i], load);
    }
    forall x | Stored(x, b, load) ensures Stored(x, a, load) {
      var i :| 0 <= i < |b| && b[i].initial != [] && x == RangeOf(b[i], load);
      assert a[i].initial != [] && x == RangeOf(a[i], load);
    }
  }

  /** Reading goes on after a line, unless that was one error too many. */
  lemma LoadFirst(line: string, rest: seq<string>, t: Tables, log: Log, fails: Failures, r: Loaded)
    requires LoadLine(line, t, fails(log.line)) == r
    ensures LoadLines([line] + rest, t, log, fails)
         == if Next(log, r.ok).errors > MAX_ERRORS then r.tables else LoadLines(rest, r.tables, Next(log, r.ok), fails)
  {
    hide LoadLine;
    assert ([line] + rest)[1..] == rest;
  }

  /** The tables after the records of the changes from `k` on. */
  lemma {:induction false} LoadChanges(
      t: Tables, es: seq<Entry>, e: Entry, load: Address, k: nat, rest: seq<string>, log: Log, fails: Failures)
      returns (t': Tables, log': Log)
    requires k <= |e.changes| && GoodEntries(es + [e], load) && Mirrors(t, es + [Part(e, k)], load)
    requires log.errors <= MAX_ERRORS
    ensures Mirrors(t', es + [e], load) && log'.errors == log.errors
    ensures LoadLines(ChangeLines(e.changes[k..], load) + rest, t, log, fails) == LoadLines(rest, t', log', fails)
    decreases |e.changes| - k
  {
    if k == |e.changes| {
      assert Part(e, k) == e;
      assert ChangeLines([], load) + rest == rest;
      t', log' := t, log;
    } else {
      PartGood(es, e, load, k);
      var c := e.changes[k];
      assert GoodChange(c, e);
      assert e.changes[k..][1..] == e.changes[k + 1..];
      var rest' := ChangeLines(e.changes[k + 1..], load) + rest;
      assert ChangeLines(e.changes[k..], load) + rest == [ChangeLine(c, load)] + rest';
      var next := Next(log, true);
      assert next.errors == log.errors;
      hide *;
      ReadChange(c, load, t, fails(log.line));
      MirrorChange(t, es, e, load, k);
      var t1 := t.(deltas := PutDelta(t.deltas, Minus(c.address, load), Join(RuleTexts(c.rules))));
      LoadFirst(ChangeLine(c, load), rest', t, log, fails, Loaded(true, t1));
      t', log' := LoadChanges(t1, es, e, load, k + 1, rest, next, fails);
    }
  }

  /** How many errors the INIT line of an entry is. */
  ghost function Missing(e: Entry): nat {
    if e.initial == [] then 1 else 0
  }

  lemma NextOfEntry(e: Entry, log: Log)
    ensures Next(log, e.initial != []).errors == log.errors + Missing(e)
  {
  }

  /** The tables after the INIT record of an entry. */
  lemma LoadInit(t: Tables, done: seq<Entry>, e: Entry, load: Address, rest: seq<string>, log: Log, fails: Failures)
      returns (t': Tables)
    requires GoodEntries(done + [e], load) && Mirrors(t, done, load)
    ensures Mirrors(t', done + [Part(e, 0)], load) && (e.initial == [] ==> t' == t)
    ensures LoadLines([InitLine(e, load)] + rest, t, log, fails)
         == if log.errors + Missing(e) > MAX_ERRORS then t' else LoadLines(rest, t', Next(log, e.initial != []), fails)
  {
    PartGood(done, e, load, 0);
    EntryInitial(e, load);
    hide *;
    ReadInit(e, load, t, fails(log.line));
    NextOfEntry(e, log);
    if e.initial == [] {
      MirrorMissing(t, done, e, load);
      t' := t;
    } else {
      MirrorInit(t, done, e, load);
      t' := PutInitial(t, Minus(e.address, load), e.size, Join(RuleTexts(e.initial)));
    }
    LoadFirst(InitLine(e, load), rest, t, log, fails, Loaded(e.initial != [], t'));
  }

  /** The tables after the records of one entry. */
  lemma LoadEntry(t: Tables, done: seq<Entry>, e: Entry, load: Address, rest: seq<string>, log: Log, fails: Failures)
      returns (t': Tables, log': Log)
    requires GoodEntries(done + [e], load) && Mirrors(t, done, load) && log.errors <= MAX_ERRORS
    ensures var all := LoadLines([InitLine(e, load)] + ChangeLines(e.changes, load) + rest, t, log, fails);
            if log.errors + Missing(e) > MAX_ERRORS then all == t
            else
              && Mirrors(t', done + [e], load) && log'.errors == log.errors + Missing(e)
              && all == LoadLines(rest, t', log', fails)
  {
    var changes := ChangeLines(e.changes, load);
    assert [InitLine(e, load)] + changes + rest == [InitLine(e, load)] + (changes + rest);
    assert e.changes[0..] == e.changes;
    NextOfEntry(e, log);
    assert e.initial != [] ==> Missing(e) == 0;
    hide *;
    t' := LoadInit(t, done, e, load, changes + rest, log, fails);
    log' := Next(log, e.initial != []);
    if log.errors + Missing(e) <= MAX_ERRORS {
      t', log' := LoadChanges(t', done, e, load, 0, rest, log', fails);
    }
  }

  /** How many of the entries are read before an error is one too many. */
  ghost function Reached(es: seq<Entry>, errors: nat): (n: nat)
    ensures n <= |es|
  {
    if es == [] || errors + Missing(es[0]) > MAX_ERRORS then 0 else 1 + Reached(es[1..], errors + Missing(es[0]))
  }

  ghost function MissingCount(es: seq<Entry>): nat {
    if es == [] then 0 else Missing(es[0]) + MissingCount(es[1..])
  }

  lemma {:induction false} ReachedExactly(es: seq<Entry>, errors: nat, k: nat)
    requires k < |es|
    ensures k < Reached(es, errors) <==> errors + MissingCount(es[..k + 1]) <= MAX_ERRORS
  {
    assert es[..k + 1][1..] == es[1..][..k];
    if k > 0 && errors + Missing(es[0]) <= MAX_ERRORS {
      ReachedExactly(es[1..], errors + Missing(es[0]), k - 1);
    }
  }

  /** The tables after the records of all entries. */
  lemma {:induction false} LoadEntries(t: Tables, done: seq<Entry>, es: seq<Entry>, load: Address, log: Log,
                                       fails: Failures)
      returns (t': Tables)
    requires GoodEntries(done + es, load) && Mirrors(t, done, load) && log.errors <= MAX_ERRORS
    ensures LoadLines(EntryLines(es, load), t, log, fails) == t'
    ensures Mirrors(t', done + es[..Reached(es, log.errors)], load)
    decreases es
  {
    hide Mirrors, GoodEntries, InitLine, ChangeLines, LoadLine, Missing;
    if es == [] {
      assert done + es[..0] == done;
      t' := t;
    } else {
      var e, rest := es[0], es[1..];
      assert done + es == (done + [e]) + rest;
      PrefixGood(done + [e], rest, load);
      var t1, log' := LoadEntry(t, done, e, load, EntryLines(rest, load), log, fails);
      if log.errors + Missing(e) > MAX_ERRORS {
        assert done + es[..0] == done;
        t' := t;
      } else {
        t' := LoadEntries(t1, done + [e], rest, load, log', fails);
        var n := Reached(rest, log'.errors);
        assert done + es[..1 + n] == (done + [e]) + rest[..n];
      }
    }
  }

  lemma PrefixGood(a: seq<Entry>, b: seq<Entry>, load: Address)
    requires GoodEntries(a + b, load)
    ensures GoodEntries(a, load)
  {
    forall i | 0 <= i < |a| ensures GoodEntry(a[i], load) {
      assert (a + b)[i] == a[i];
    }
    forall i, j | 0 <= i < j < |a|
      ensures a[i].address + a[i].size <= a[j].address || a[j].address + a[j].size <= a[i].address
    {
      assert (a + b)[i] == a[i] && (a + b)[j] == a[j];
    }
  }

  // ---------------------------------------------------------------------------------------
  // Looking up an address
  // ---------------------------------------------------------------------------------------

  /** The records from `lo` to `hi`. */
  ghost function Window(ds: seq<Delta>, lo: Address, hi: Address): seq<Delta> {
    if ds == [] then [] else (if lo <= ds[0].address <= hi then [ds[0]] else []) + Window(ds[1..], lo, hi)
  }

  ghost function ApplyTexts(ds: seq<Delta>, info: FrameInfo): FrameInfo {
    if ds == [] then info else ApplyTexts(ds[1..], ParseRuleSet(ds[0].text, info).info)
  }

  lemma {:induction false} WindowMember(ds: seq<Delta>, lo: Address, hi: Address, d: Delta)
    ensures d in Window(ds, lo, hi) <==> d in ds && lo <= d.address <= hi
  {
    if ds != [] {
      WindowMember(ds[1..], lo, hi, d);
      assert ds == [ds[0]] + ds[1..];
    }
  }

  lemma {:induction false} WindowAscends(ds: seq<Delta>, lo: Address, hi: Address)
    requires Ascending(ds)
    ensures Ascending(Window(ds, lo, hi))
  {
    if ds != [] {
      var rest := Window(ds[1..], lo, hi);
      WindowAscends(ds[1..], lo, hi);
      forall j | 0 <= j < |rest| ensures ds[0].address < rest[j].address {
        WindowMember(ds[1..], lo, hi, rest[j]);
        FirstIsLeast(ds, rest[j]);
      }
      if lo <= ds[0].address <= hi {
        AscendingCons(ds[0], rest);
      }
    }
  }

  lemma AscendingCons(d: Delta, rest: seq<Delta>)
    requires Ascending(rest) && forall j :: 0 <= j < |rest| ==> d.address < rest[j].address
    ensures Ascending([d] + rest)
  {
  }

  lemma {:induction false} ApplyWindow(ds: seq<Delta>, lo: Address, hi: Address, info: FrameInfo)
    ensures ApplyDeltas(ds, lo, hi, info) == ApplyTexts(Window(ds, lo, hi), info)
  {
    if ds != [] {
      var rest := Window(ds[1..], lo, hi);
      if lo <= ds[0].address <= hi {
        assert Window(ds, lo, hi)[1..] == rest;
        ApplyWindow(ds[1..], lo, hi, ParseRuleSet(ds[0].text, info).info);
      } else {
        assert Window(ds, lo, hi) == rest;
        ApplyWindow(ds[1..], lo, hi, info);
      }
    }
  }

  /** The records of the changes up to address `a`. */
  ghost function ChangeDeltas(changes: seq<Change>, load: Address, a: int): seq<Delta> {
    if changes == [] then []
    else (if changes[0].address <= a then [DeltaOf(changes[0], load)] else []) + ChangeDeltas(changes[1..], load, a)
  }

  /** Changes above the load address, in order. */
  ghost predicate OrderedChanges(changes: seq<Change>, load: Address) {
    && (forall i :: 0 <= i < |changes| ==>
          load <= changes[i].address && changes[i].rules != [] && GoodRules(changes[i].rules))
    && (forall i, j :: 0 <= i < j < |changes| ==> changes[i].address < changes[j].address)
  }

  ghost predicate Changed(d: Delta, changes: seq<Change>, load: Address, a: int) {
    exists c :: c in changes && c.address <= a && d == DeltaOf(c, load)
  }

  lemma {:induction false} ChangeDeltasMember(changes: seq<Change>, load: Address, a: int, d: Delta)
    ensures d in ChangeDeltas(changes, load, a) <==> Changed(d, changes, load, a)
  {
    if changes != [] {
      ChangeDeltasMember(changes[1..], load, a, d);
      assert changes == [changes[0]] + changes[1..];
      if Changed(d, changes[1..], load, a) {
        var c :| c in changes[1..] && c.address <= a && d == DeltaOf(c, load);
        assert c in changes;
      }
    }
  }

  lemma {:induction false} ChangeDeltasAscend(changes: seq<Change>, load: Address, a: int)
    requires OrderedChanges(changes, load)
    ensures Ascending(ChangeDeltas(changes, load, a))
  {
    if changes != [] {
      var rest := ChangeDeltas(changes[1..], load, a);
      ChangeDeltasAscend(changes[1..], load, a);
      forall j | 0 <= j < |rest| ensures DeltaOf(changes[0], load).address < rest[j].address {
        ChangeDeltasMember(changes[1..], load, a, rest[j]);
        LaterChange(changes, load, a, rest[j]);
      }
      if changes[0].address <= a {
        AscendingCons(DeltaOf(changes[0], load), rest);
      }
    }
  }

  lemma LaterChange(changes: seq<Change>, load: Address, a: int, d: Delta)
    requires OrderedChanges(changes, load) && changes != [] && Changed(d, changes[1..], load, a)
    ensures DeltaOf(changes[0], load).address < d.address
  {
    var c :| c in changes[1..] && c.address <= a && d == DeltaOf(c, load);
    var i :| 0 <= i < |changes[1..]| && changes[1..][i] == c;
    assert changes[i + 1] == c;
  }

  /** Applying the records of the changes applies the changes. */
  lemma {:induction false} ApplyChangeDeltas(changes: seq<Change>, load: Address, a: int, info: FrameInfo)
    requires OrderedChanges(changes, load)
    ensures ApplyTexts(ChangeDeltas(changes, load, a), info) == ApplyChanges(changes, a, info)
  {
    if changes != [] {
      var c, rest := changes[0], ChangeDeltas(changes[1..], load, a);
      if c.address <= a {
        assert ChangeDeltas(changes, load, a)[1..] == rest;
        RulesRoundTrip(c.rules, info);
        ApplyChangeDeltas(changes[1..], load, a, ApplyRules(c.rules, info));
      } else {
        assert ChangeDeltas(changes, load, a) == rest;
        ApplyChangeDeltas(changes[1..], load, a, info);
      }
    }
  }

  /** Lists in order with the same members are equal. */
  lemma {:induction false} AscendingUnique(x: seq<Delta>, y: seq<Delta>)
    requires Ascending(x) && Ascending(y) && forall d :: d in x <==> d in y
    ensures x == y
  {
    EmptyTogether(x, y);
    if x != [] {
      assert x[0] in x && y[0] in y;
      var i :| 0 <= i < |y| && y[i] == x[0];
      var j :| 0 <= j < |x| && x[j] == y[0];
      assert x[0] == y[0];
      forall d ensures d in x[1..] <==> d in y[1..] {
        TailMember(x, d);
        TailMember(y, d);
      }
      AscendingUnique(x[1..], y[1..]);
    }
  }

  lemma EmptyTogether(x: seq<Delta>, y: seq<Delta>)
    requires forall d :: d in x <==> d in y
    ensures x == [] <==> y == []
  {
    if x != [] {
      assert x[0] in x;
    }
    if y != [] {
      assert y[0] in y;
    }
  }

  lemma TailMember(x: seq<Delta>, d: Delta)
    requires Ascending(x) && x != []
    ensures d in x[1..] <==> d in x && d != x[0]
  {
    assert x == [x[0]] + x[1..];
    if d in x[1..] {
      FirstIsLeast(x, d);
    }
  }

  lemma EntryChanges(e: Entry, load: Address)
    requires GoodEntry(e, load)
    ensures OrderedChanges(e.changes, load)
  {
    forall i | 0 <= i < |e.changes|
      ensures load <= e.changes[i].address && e.changes[i].rules != [] && GoodRules(e.changes[i].rules)
    {
      assert GoodChange(e.changes[i], e);
    }
  }

  /** Among the records from the start of an entry to an address in it are exactly its own changes up to there. */
  lemma OwnDeltas(t: Tables, es: seq<Entry>, load: Address, k: nat, a: Address)
    requires Mirrors(t, es, load) && k < |es|
    requires Covers(es[k], a + load)
    ensures GoodEntry(es[k], load) && OrderedChanges(es[k].changes, load)
    ensures Window(t.deltas, es[k].address - load, a) == ChangeDeltas(es[k].changes, load, a + load)
  {
    var lo: Address := es[k].address - load;
    var x, y := Window(t.deltas, lo, a), ChangeDeltas(es[k].changes, load, a + load);
    EntryChanges(es[k], load);
    MirrorsAscending(t, es, load);
    hide *;
    WindowAscends(t.deltas, lo, a);
    ChangeDeltasAscend(es[k].changes, load, a + load);
    forall d ensures d in x <==> d in y {
      WindowMember(t.deltas, lo, a, d);
      ChangeDeltasMember(es[k].changes, load, a + load, d);
      OwnDelta(t, es, load, k, a, d);
    }
    AscendingUnique(x, y);
  }

  lemma MirrorsAscending(t: Tables, es: seq<Entry>, load: Address)
    requires Mirrors(t, es, load)
    ensures Ascending(t.deltas)
  {
  }

  lemma OwnDelta(t: Tables, es: seq<Entry>, load: Address, k: nat, a: Address, d: Delta)
    requires Mirrors(t, es, load) && k < |es|
    requires Covers(es[k], a + load)
    ensures d in t.deltas && es[k].address - load <= d.address <= a <==> Changed(d, es[k].changes, load, a + load)
  {
    var e := es[k];
    assert GoodEntry(e, load);
    if d in t.deltas && e.address - load <= d.address <= a {
      assert Filed(d, es, load);
      var i, c :| 0 <= i < |es| && c in es[i].changes && d == DeltaOf(c, load);
      ChangeBounds(es, load, i, c);
    }
    if Changed(d, e.changes, load, a + load) {
      var c :| c in e.changes && c.address <= a + load && d == DeltaOf(c, load);
      assert Filed(d, es, load);
      ChangeBounds(es, load, k, c);
    }
  }

  lemma ChangeBounds(es: seq<Entry>, load: Address, i: nat, c: Change)
    requires GoodEntries(es, load) && i < |es| && c in es[i].changes
    ensures load <= es[i].address <= c.address < es[i].address + es[i].size
    ensures Minus(c.address, load) == c.address - load
  {
    assert GoodEntry(es[i], load);
    var j :| 0 <= j < |es[i].changes| && es[i].changes[j] == c;
    assert GoodChange(es[i].changes[j], es[i]);
  }

  /**
   * The tables give the rules that the entry means at every address it covers, unless its initial
   * rules are missing or lack an expression; then they give none.
   */
  lemma FindInEntry(t: Tables, es: seq<Entry>, load: Address, k: nat, a: Address)
    requires Mirrors(t, es, load) && k < |es| && Covers(es[k], a + load)
    ensures Find(t, a) == if Complete(es[k].initial) then Some(RulesAt(es[k], a + load)) else None
  {
    hide *;
    if Complete(es[k].initial) {
      FindComplete(t, es, load, k, a);
    } else {
      FindIncomplete(t, es, load, k, a);
    }
  }

  lemma FindComplete(t: Tables, es: seq<Entry>, load: Address, k: nat, a: Address)
    requires Mirrors(t, es, load) && k < |es| && Covers(es[k], a + load) && Complete(es[k].initial)
    ensures Find(t, a) == Some(RulesAt(es[k], a + load))
  {
    hide *;
    var e := es[k];
    CompleteSome(e.initial);
    FoundRange(t, es, load, k, a);
    EntryInitial(e, load);
    EntryBounds(e, load);
    OwnDeltas(t, es, load, k, a);
    var info := ApplyRules(e.initial, EMPTY);
    RulesAtInitial(e, a + load);
    ParsesExactly(e.initial, EMPTY);
    assert ParseRuleSet(RangeOf(e, load).entry, EMPTY) == Parsed(true, info);
    FindUnfolds(t, a, RangeOf(e, load), info);
    ApplyWindow(t.deltas, e.address - load, a, info);
    ApplyChangeDeltas(e.changes, load, a + load, info);
  }

  lemma FindIncomplete(t: Tables, es: seq<Entry>, load: Address, k: nat, a: Address)
    requires Mirrors(t, es, load) && k < |es| && Covers(es[k], a + load) && !Complete(es[k].initial)
    ensures Find(t, a) == None
  {
    var e := es[k];
    hide *;
    if e.initial == [] {
      MirrorsGood(t, es, load);
      var j := WhereFound(t, es, load, a);
      OneEntry(es, j, k, a + load);
    } else {
      FoundRange(t, es, load, k, a);
      EntryInitial(e, load);
      EntryBounds(e, load);
      ParsesExactly(e.initial, EMPTY);
      FindFails(t, a, RangeOf(e, load));
    }
  }

  lemma CompleteSome(rules: seq<Rule>)
    requires Complete(rules)
    ensures rules != []
  {
  }

  lemma MirrorsGood(t: Tables, es: seq<Entry>, load: Address)
    requires Mirrors(t, es, load)
    ensures GoodEntries(es, load) && Apart(es)
  {
  }

  /** An address is in one entry at most. */
  lemma OneEntry(es: seq<Entry>, j: nat, k: nat, a: int)
    requires Apart(es)
    ensures j < |es| && k < |es| && Covers(es[j], a) && Covers(es[k], a) ==> j == k
  {
  }

  lemma RulesAtInitial(e: Entry, a: int)
    ensures RulesAt(e, a) == ApplyChanges(e.changes, a, ApplyRules(e.initial, EMPTY))
  {
  }

  lemma FindUnfolds(t: Tables, a: Address, x: RangeMaps.Range<string>, info: FrameInfo)
    requires RangeMaps.Retrieve(t.initial, a) == Some(x) && ParseRuleSet(x.entry, EMPTY) == Parsed(true, info)
    ensures Find(t, a) == Some(ApplyDeltas(t.deltas, x.base, a, info))
  {
  }

  lemma FindFails(t: Tables, a: Address, x: RangeMaps.Range<string>)
    requires RangeMaps.Retrieve(t.initial, a) == Some(x) && !ParseRuleSet(x.entry, EMPTY).ok
    ensures Find(t, a) == None
  {
  }

  lemma EntryInitial(e: Entry, load: Address)
    requires GoodEntry(e, load)
    ensures Writable(e.initial) && load <= e.address
  {
  }

  lemma FoundRange(t: Tables, es: seq<Entry>, load: Address, k: nat, a: Address)
    requires Mirrors(t, es, load) && k < |es| && es[k].initial != []
    requires Covers(es[k], a + load)
    ensures GoodEntry(es[k], load) && RangeMaps.Retrieve(t.initial, a) == Some(RangeOf(es[k], load))
  {
    assert GoodEntry(es[k], load);
    var x := RangeOf(es[k], load);
    assert Stored(x, es, load);
    RangeMaps.RetrieveCorrect(t.initial, a, x);
  }

  /** Rules are found in entries with initial rules only. */
  lemma WhereFound(t: Tables, es: seq<Entry>, load: Address, a: Address) returns (k: nat)
    requires Mirrors(t, es, load)
    ensures Find(t, a).Some? ==> k < |es| && es[k].initial != [] && Covers(es[k], a + load)
  {
    k := 0;
    if Find(t, a).Some? {
      var found := RangeMaps.Retrieve(t.initial, a);
      RangeMaps.RetrieveCorrect(t.initial, a, found.value);
      StoredSomewhere(t, es, load, found.value);
      k :| 0 <= k < |es| && es[k].initial != [] && es[k].address - load == found.value.base
           && found.value.high == found.value.base + es[k].size - 1;
    }
  }

  lemma StoredSomewhere(t: Tables, es: seq<Entry>, load: Address, x: RangeMaps.Range<string>)
    requires Mirrors(t, es, load) && x in t.initial
    ensures exists k :: 0 <= k < |es| && es[k].initial != [] &&
              es[k].address - load == x.base && x.high == x.base + es[k].size - 1
  {
    assert Stored(x, es, load);
    var k :| 0 <= k < |es| && es[k].initial != [] && x == RangeOf(es[k], load);
    assert es[k].address - load == x.base;
  }

  /** Lines that Write prints before the STACK CFI records. */
  ghost predicate OtherRecords(lines: seq<string>) {
    forall i :: 0 <= i < |lines| ==> Clean(lines[i], LINE_BREAKS) && !("STACK " <= lines[i])
  }

  /** How many of the `count` lines from number `n` on are errors. */
  ghost function FailCount(n: nat, count: nat, fails: Failures): nat
    decreases count
  {
    if count == 0 then 0 else (if fails(n) then 1 else 0) + FailCount(n + 1, count - 1, fails)
  }

  /** Other records do not touch the tables, but too many errors among them end the loading. */
  lemma {:induction false} LoadOthers(others: seq<string>, rest: seq<string>, t: Tables, log: Log, fails: Failures)
    requires OtherRecords(others) && log.errors <= MAX_ERRORS
    ensures var errors := log.errors + FailCount(log.line, |others|, fails);
            LoadLines(others + rest, t, log, fails)
            == if errors > MAX_ERRORS then t else LoadLines(rest, t, Log(log.line + |others|, errors), fails)
    decreases others
  {
    hide ParseStack;
    if others == [] {
      assert others + rest == rest;
    } else {
      assert (others + rest)[1..] == others[1..] + rest;
      assert LoadLine(others[0], t, fails(log.line)) == Loaded(!fails(log.line), t);
      var next := Next(log, !fails(log.line));
      if next.errors <= MAX_ERRORS {
        LoadOthers(others[1..], rest, t, next, fails);
      }
    }
  }

  /**
   * The tables of the resolver that has loaded a symbol file with other records, some of them errors,
   * and those of the entries.
   */
  ghost function WrittenAndLoaded(others: seq<string>, es: seq<Entry>, load: Address, errors: nat, fails: Failures):
      Tables {
    LoadText(Lines(others + EntryLines(es, load)), NO_TABLES, Log(0, errors), fails)
  }

  /** Whether loading gets past the INIT line of entry `k`, counting such lines without rules as errors. */
  ghost predicate Passes(es: seq<Entry>, k: nat, errors: nat)
    requires k < |es|
  {
    errors + MissingCount(es[..k + 1]) <= MAX_ERRORS
  }

  /** Loading gets to the first `n` entries and no further. */
  ghost predicate GetsTo(es: seq<Entry>, errors: nat, n: nat) {
    n <= |es| && forall k :: 0 <= k < |es| ==> (k < n <==> Passes(es, k, errors))
  }

  /** Loading gets to entry `k`, and all its initial rules have expressions. */
  ghost predicate Found(es: seq<Entry>, k: nat, errors: nat)
    requires k < |es|
  {
    Passes(es, k, errors) && Complete(es[k].initial)
  }

  ghost function GotTo(es: seq<Entry>, errors: nat): (n: nat)
    ensures n <= |es|
  {
    if errors > MAX_ERRORS then 0 else Reached(es, errors)
  }

  /** The tables hold the entries that loading gets to. */
  lemma LoadRecords(others: seq<string>, es: seq<Entry>, load: Address, log: Log, fails: Failures)
    requires GoodEntries(es, load) && OtherRecords(others) && log.errors <= MAX_ERRORS
    ensures Mirrors(LoadLines(others + EntryLines(es, load), NO_TABLES, log, fails),
                    es[..GotTo(es, log.errors + FailCount(log.line, |others|, fails))], load)
  {
    hide *;
    LoadOthers(others, EntryLines(es, load), NO_TABLES, log, fails);
    var errors := log.errors + FailCount(log.line, |others|, fails);
    GotToMeans(es, errors);
    if errors > MAX_ERRORS {
      NothingMirrored(load);
      assert es[..0] == [];
    } else {
      LoadAllEntries(es, load, Log(log.line + |others|, errors), fails);
    }
  }

  lemma GotToMeans(es: seq<Entry>, errors: nat)
    ensures errors > MAX_ERRORS ==> GotTo(es, errors) == 0
    ensures errors <= MAX_ERRORS ==> GotTo(es, errors) == Reached(es, errors)
  {
  }

  lemma LoadAllEntries(es: seq<Entry>, load: Address, log: Log, fails: Failures)
    requires GoodEntries(es, load) && log.errors <= MAX_ERRORS
    ensures Mirrors(LoadLines(EntryLines(es, load), NO_TABLES, log, fails), es[..Reached(es, log.errors)], load)
  {
    hide *;
    NothingMirrored(load);
    assert [] + es == es;
    var t := LoadEntries(NO_TABLES, [], es, load, log, fails);
    assert [] + es[..Reached(es, log.errors)] == es[..Reached(es, log.errors)];
  }

  lemma GetsToReached(es: seq<Entry>, errors: nat)
    ensures GetsTo(es, errors, GotTo(es, errors))
  {
    hide MissingCount, Reached;
    if errors <= MAX_ERRORS {
      forall k | 0 <= k < |es| ensures k < Reached(es, errors) <==> Passes(es, k, errors) {
        ReachedExactly(es, errors, k);
      }
    }
  }

  lemma WrittenMeans(others: seq<string>, es: seq<Entry>, load: Address, errors: nat, fails: Failures)
    requires Tokens(Lines(others + EntryLines(es, load)), LINE_BREAKS) == others + EntryLines(es, load)
    requires OtherRecords(others) && errors <= 1
    ensures WrittenAndLoaded(others, es, load, errors, fails)
         == LoadLines(others + EntryLines(es, load), NO_TABLES, Log(0, errors), fails) && errors <= MAX_ERRORS
  {
    hide LoadText, LoadLines, Tokens, Lines, EntryLines, Bare;
    var lines := others + EntryLines(es, load);
    forall i | 0 <= i < |lines| ensures !Bare(lines[i]) {
      if i >= |others| {
        EntryLinesNotBare(es, load, i - |others|);
      } else {
        BareStack(others[i]);
      }
    }
    LoadTextLines(Lines(lines), NO_TABLES, Log(0, errors), fails);
  }

  lemma {:induction false} ChangeLinesNotBare(changes: seq<Change>, load: Address, i: nat)
    requires i < |ChangeLines(changes, load)|
    ensures !Bare(ChangeLines(changes, load)[i])
  {
    if i == 0 {
      var c := changes[0];
      var s := Hex(Minus(c.address, load)) + " " + Join(RuleTexts(c.rules));
      hide Hex, Join, RuleTexts, Bare;
      BareLines(s);
      assert ChangeLine(c, load) == "STACK CFI " + s;
    } else {
      hide ChangeLine, Bare;
      ChangeLinesNotBare(changes[1..], load, i - 1);
    }
  }

  lemma InitLineNotBare(e: Entry, load: Address)
    ensures !Bare(InitLine(e, load))
  {
    hide Hex, Join, RuleTexts, Bare;
    var s := "INIT " + Hex(Minus(e.address, load)) + " " + Hex(e.size) + " " + Join(RuleTexts(e.initial));
    BareLines(s);
    assert InitLine(e, load) == "STACK CFI " + s;
  }

  lemma {:induction false} EntryLinesNotBare(es: seq<Entry>, load: Address, i: nat)
    requires i < |EntryLines(es, load)|
    ensures !Bare(EntryLines(es, load)[i])
  {
    hide InitLine, Bare;
    var head := [InitLine(es[0], load)] + ChangeLines(es[0].changes, load);
    if i == 0 {
      InitLineNotBare(es[0], load);
    } else if i < |head| {
      ChangeLinesNotBare(es[0].changes, load, i - 1);
    } else {
      EntryLinesNotBare(es[1..], load, i - |head|);
    }
  }

  lemma LoadFile(others: seq<string>, es: seq<Entry>, load: Address, errors: nat, fails: Failures)
    requires GoodEntries(es, load) && OtherRecords(others) && errors <= 1
    ensures Mirrors(WrittenAndLoaded(others, es, load, errors, fails),
                    es[..GotTo(es, errors + FailCount(0, |others|, fails))], load)
  {
    hide *;
    GoodEach(es, load);
    LinesOfFile(others, es, load);
    WrittenMeans(others, es, load, errors, fails);
    LoadRecords(others, es, load, Log(0, errors), fails);
  }

  /**
   * Writing entries as STACK CFI records after other records and loading the text gives a module in
   * which FindCFIFrameInfo yields, at every address of an entry that is found, the initial rules
   * overridden by every change at or before the address, and nothing anywhere else.
   */
  lemma WriteThenFind(others: seq<string>, es: seq<Entry>, load: Address, errors: nat, fails: Failures, a: Address)
    requires GoodEntries(es, load) && OtherRecords(others) && errors <= 1
    ensures var t := WrittenAndLoaded(others, es, load, errors, fails);
            && (forall k :: 0 <= k < |es| && Covers(es[k], a + load) ==>
                  Find(t, a) == if Found(es, k, errors + FailCount(0, |others|, fails))
                                then Some(RulesAt(es[k], a + load)) else None)
            && ((forall k :: 0 <= k < |es| ==> !Covers(es[k], a + load)) ==> Find(t, a) == None)
  {
    hide *;
    LoadFile(others, es, load, errors, fails);
    var t, failed := WrittenAndLoaded(others, es, load, errors, fails), errors + FailCount(0, |others|, fails);
    var n := GotTo(es, failed);
    GetsToReached(es, failed);
    forall k | 0 <= k < |es| && Covers(es[k], a + load)
      ensures Find(t, a) == if Found(es, k, failed) then Some(RulesAt(es[k], a + load)) else None
    {
      FoundMeans(es, failed, n, k);
      FindReached(t, es, n, load, k, a);
    }
    var j := WhereFound(t, es[..n], load, a);
    assert j < n ==> es[..n][j] == es[j];
  }

  lemma FoundMeans(es: seq<Entry>, errors: nat, n: nat, k: nat)
    requires GetsTo(es, errors, n) && k < |es|
    ensures Found(es, k, errors) <==> k < n && Complete(es[k].initial)
  {
    hide Passes, Complete;
  }

  lemma FindReached(t: Tables, es: seq<Entry>, n: nat, load: Address, k: nat, a: Address)
    requires n <= |es| && GoodEntries(es, load) && Mirrors(t, es[..n], load) && k < |es| && Covers(es[k], a + load)
    ensures Find(t, a) == if k < n && Complete(es[k].initial) then Some(RulesAt(es[k], a + load)) else None
  {
    assert Apart(es);
    hide *;
    if k < n {
      assert es[..n][k] == es[k];
      FindInEntry(t, es[..n], load, k, a);
    } else {
      var j := WhereFound(t, es[..n], load, a);
      assert j < n ==> es[..n][j] == es[j];
      OneEntry(es, j, k, a + load);
    }
  }

  /** The same by way of the code: print the entries, load the text and look up an address. */
  method WriteLoadAndFind(es: seq<Entry>, load: Address, a: Address) returns (r: Option<FrameInfo>)
    requires GoodEntries(es, load)
    ensures forall k :: 0 <= k < |es| && Covers(es[k], a + load) ==>
              r == if Found(es, k, 0) then Some(RulesAt(es[k], a + load)) else None
    ensures (forall k :: 0 <= k < |es| ==> !Covers(es[k], a + load)) ==> r == None
  {
    var fails: Failures := _ => false;
    WriteThenFind([], es, load, 0, fails, a);
    assert [] + EntryLines(es, load) == EntryLines(es, load);
    assert FailCount(0, 0, fails) == 0;
    hide GoodEntries, LoadText, Lines, EntryLines, Find, RulesAt, Found;
    var text := WriteEntries(es, load);
    var m := new SymbolModule();
    m.Load(text, 0, fails);
    r := m.FindCFIFrameInfo(a);
  }

  /** The lines of the file are split as they were written. */
  lemma LinesOfFile(others: seq<string>, es: seq<Entry>, load: Address)
    requires OtherRecords(others) && forall k :: 0 <= k < |es| ==> GoodEntry(es[k], load)
    ensures var lines := others + EntryLines(es, load); Tokens(Lines(lines), LINE_BREAKS) == lines
  {
    assert '\n' in LINE_BREAKS;
    hide Clean, EntryLines, GoodEntry, Tokens, Lines;
    var lines := others + EntryLines(es, load);
    forall i | 0 <= i < |lines| ensures Clean(lines[i], LINE_BREAKS) {
      if i >= |others| {
        EntryLinesClean(es, load, i - |others|);
      }
    }
    TokensOfLines(lines, LINE_BREAKS);
  }

  lemma NothingMirrored(load: Address)
    ensures Mirrors(NO_TABLES, [], load)
  {
  }

  lemma GoodEach(es: seq<Entry>, load: Address)
    requires GoodEntries(es, load)
    ensures forall k :: 0 <= k < |es| ==> GoodEntry(es[k], load)
  {
  }
}
