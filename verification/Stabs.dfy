/** LoadStabs: from the bytes of a .stab section to the functions and symbols of a module. */
module Stabs {
  import opened Addresses
  import opened Bytes
  import Options
  import opened StabsEntries
  import opened StabsEvents
  import opened StabsReaders
  import opened StabsToModules
  import opened StabsFunctions

  // ---------------------------------------------------------------------------------------
  // Entries
  // ---------------------------------------------------------------------------------------

  /** The entry types N_SO, N_FUN, N_SLINE, N_SOL and N_UNDF, and the section symbols of Mach-O files. */
  function KindOf(t: nat): Kind {
    if t == 0x64 then SO
    else if t == 0x24 then FUN
    else if t == 0x44 then SLINE
    else if t == 0x84 then SOL
    else if t == 0 then UNDF
    else if t < 0x20 && t % 0x10 / 2 == 7 then Exported
    else Other
  }

  lemma TypesExample()
    ensures [KindOf(0x64), KindOf(0x84), KindOf(0x24), KindOf(0x44), KindOf(0), KindOf(0x0f)]
         == [SO, SOL, FUN, SLINE, UNDF, Exported]
  {
  }

  /** A line number that is stored in 16 bits, whatever its sign as a short, comes out again. */
  lemma LineNumberStored(n: nat)
    requires n < 0x1_0000
    ensures LineNumber(Short(n)) == n
  {
  }

  /** The masks N_STAB and N_TYPE, and the type N_SECT, of an exported symbol. */
  lemma ExportedBits(t: bv8)
    ensures t & 0xE0 == 0 && t & 0x0E == 0x0E <==> t < 0x20 && t % 0x10 / 2 == 7
  {
  }

  lemma {:induction false} FromBEBound(s: seq<byte>)
    ensures FromBE(s) < Pow256(|s|)
  {
    if s != [] {
      FromBEBound(s[..|s| - 1]);
    }
  }

  lemma NumberBound(s: seq<byte>, big: bool)
    requires |s| == 4 || |s| == 8
    ensures Number(s, big) < SPACE
  {
    FromLEBound(s);
    FromBEBound(s);
    Widths();
    hide Pow256, FromLE, FromBE;
  }

  lemma {:induction false} DecodedBound(s: seq<byte>, big: bool, valueSize: nat, i: nat)
    requires (valueSize == 4 || valueSize == 8) && i < |Decode(s, big, valueSize)|
    ensures Decode(s, big, valueSize)[i].value < SPACE
    decreases |s|
  {
    var first, rest := s[..EntrySize(valueSize)], s[EntrySize(valueSize)..];
    if i == 0 {
      NumberBound(first[8..], big);
    } else {
      DecodedBound(rest, big, valueSize, i - 1);
    }
  }

  ghost predicate Bounded(raw: seq<RawEntry>) {
    forall i :: 0 <= i < |raw| ==> raw[i].value < SPACE
  }

  lemma DecodedBounded(s: seq<byte>, big: bool, valueSize: nat)
    requires valueSize == 4 || valueSize == 8
    ensures Bounded(Decode(s, big, valueSize))
  {
    hide Decode;
    forall i | 0 <= i < |Decode(s, big, valueSize)| ensures Decode(s, big, valueSize)[i].value < SPACE {
      DecodedBound(s, big, valueSize, i);
    }
  }

  /** The C string at position `p`. */
  function CString(strings: seq<byte>, p: nat): string
    decreases |strings| - p
  {
    if p >= |strings| || strings[p] == 0 then "" else [strings[p] as char] + CString(strings, p + 1)
  }

  /** `text` is the bytes from `p` up to the first zero, or to the end of the section. */
  ghost predicate IsText(strings: seq<byte>, p: nat, text: string) {
    && p + |text| <= |strings| && (p + |text| < |strings| ==> strings[p + |text|] == 0)
    && forall k :: 0 <= k < |text| ==> text[k] as int == strings[p + k] != 0
  }

  lemma TextCons(strings: seq<byte>, p: nat, c: char, rest: string)
    requires p < |strings| && c as int == strings[p] != 0 && IsText(strings, p + 1, rest)
    ensures IsText(strings, p, [c] + rest)
  {
    var text := [c] + rest;
    forall k | 0 < k < |text| ensures text[k] as int == strings[p + k] != 0 {
      assert text[k] == rest[k - 1] && p + 1 + (k - 1) == p + k;
    }
  }

  lemma {:induction false} CStringIs(strings: seq<byte>, p: nat)
    requires p <= |strings|
    ensures IsText(strings, p, CString(strings, p))
    decreases |strings| - p
  {
    if p < |strings| && strings[p] != 0 {
      CStringIs(strings, p + 1);
      TextCons(strings, p, strings[p] as char, CString(strings, p + 1));
    }
  }

  /** SymbolString: an offset outside the string section stands for the string at its start. */
  function SymbolString(strings: seq<byte>, offset: Address, nameOffset: nat): string {
    var p := (offset + nameOffset) % SPACE;
    CString(strings, if p < |strings| then p else 0)
  }

  function Named(e: RawEntry, strings: seq<byte>, offset: Address): Entry
    requires e.value < SPACE
  {
    Entry(KindOf(e.kind), SymbolString(strings, offset, e.nameOffset), e.value, e.descriptor)
  }

  /** Where the strings of the current unit start, and those of the next. */
  datatype Offsets = Offsets(current: Address, next: Address)

  /** Between units, an N_UNDF entry of unitized STABS moves on to the next unit's strings. */
  function Move(st: State, o: Offsets, e: Entry, unitized: bool): Offsets {
    if unitized && e.kind == UNDF && (st.Between? || st.Directory?) then Offsets(o.next, e.value) else o
  }

  /** Entries with their names, which depend on where in the section they stand. */
  function Resolve(st: State, o: Offsets, raw: seq<RawEntry>, strings: seq<byte>, unitized: bool, machO: bool):
      (r: seq<Entry>)
    requires Bounded(raw)
    ensures |r| == |raw|
    decreases |raw|
  {
    if raw == [] then []
    else
      var e := Named(raw[0], strings, o.current);
      [e] + Resolve(Take(st, e, machO).state, Move(st, o, e, unitized), raw[1..], strings, unitized, machO)
  }

  /** The two sections, and what is known of their form. */
  datatype Sections = Sections(stab: seq<byte>, strings: seq<byte>, big: bool, valueSize: nat, unitized: bool,
                               machO: bool) {
    predicate Valid() {
      valueSize == 4 || valueSize == 8
    }

    /** The entries of the section. */
    ghost function Entries(): (r: seq<Entry>)
      requires Valid()
    {
      DecodedBounded(stab, big, valueSize);
      Resolve(Between, Offsets(0, 0), Decode(stab, big, valueSize), strings, unitized, machO)
    }
  }

  /** What is left to resolve. */
  ghost function Left(x: Sections, st: State, o: Offsets, raw: seq<RawEntry>): seq<Entry> {
    if Bounded(raw) then Resolve(st, o, raw, x.strings, x.unitized, x.machO) else []
  }

  lemma LeftFirst(x: Sections, st: State, o: Offsets, first: RawEntry, rest: seq<RawEntry>)
    requires Bounded([first] + rest)
    ensures first.value < SPACE && Bounded(rest)
    ensures var e := Named(first, x.strings, o.current);
            Left(x, st, o, [first] + rest) ==
            [e] + Left(x, Take(st, e, x.machO).state, Move(st, o, e, x.unitized), rest)
  {
    hide Take, Move, Named;
    var raw := [first] + rest;
    assert raw[0] == first && raw[1..] == rest;
    forall i | 0 <= i < |rest| ensures rest[i].value < SPACE {
      assert raw[i + 1] == rest[i];
    }
  }

  lemma LeftEnds(x: Sections, st: State, o: Offsets)
    ensures Left(x, st, o, []) == []
  {
  }

  lemma LeftAll(x: Sections)
    requires x.Valid()
    ensures Bounded(Decode(x.stab, x.big, x.valueSize))
    ensures x.Entries() == Left(x, Between, Offsets(0, 0), Decode(x.stab, x.big, x.valueSize))
  {
    DecodedBounded(x.stab, x.big, x.valueSize);
  }

  /** Walk through a section with the iterator, looking names up. */
  method ReadEntries(x: Sections) returns (entries: seq<Entry>)
    requires x.Valid()
    ensures entries == x.Entries()
  {
    hide Decode, Named, Resolve, Take, Move, Left, Bounded;
    LeftAll(x);
    ghost var all := x.Entries();
    var it := new EntryIterator(x.stab, x.big, x.valueSize);
    var st, o := Between, Offsets(0, 0);
    entries := [];
    assert [] + all == all;
    while !it.atEnd
      invariant it.Valid() && fresh(it) && fresh(it.cursor)
      invariant Bounded(it.Rest()) && entries + Left(x, st, o, it.Rest()) == all
      decreases |it.Rest()|
    {
      var first := it.entry;
      ghost var before := entries;
      it.Advance();
      LeftFirst(x, st, o, first, it.Rest());
      var e := Named(first, x.strings, o.current);
      entries, st, o := entries + [e], Take(st, e, x.machO).state, Move(st, o, e, x.unitized);
      assert before + ([e] + Left(x, st, o, it.Rest())) == entries + Left(x, st, o, it.Rest());
    }
    LeftEnds(x, st, o);
    assert entries + [] == entries;
  }

  /** The last N_UNDF entry outside units before `i`, or -1. */
  function LastUndf(es: seq<Entry>, i: nat): (u: int)
    requires i <= |es|
    ensures -1 <= u < i
  {
    if i == 0 then -1 else if es[i - 1].kind == UNDF && !WithinUnit(es, i - 1) then i - 1 else LastUndf(es, i - 1)
  }

  /** What the last N_UNDF entry outside units says of the strings of the unit after it. */
  function NextStrings(es: seq<Entry>, i: nat): Address
    requires i <= |es|
  {
    var u := LastUndf(es, i);
    if u < 0 then 0 else es[u].value
  }

  /** Where the strings at place `i` start: what the N_UNDF entry before the last one said. */
  function StringsAt(es: seq<Entry>, i: nat): Address
    requires i <= |es|
  {
    var u := LastUndf(es, i);
    if u < 0 then 0 else NextStrings(es, u)
  }

  ghost function OffsetsAt(x: Sections, es: seq<Entry>, i: nat): Offsets
    requires i <= |es|
  {
    if x.unitized then Offsets(StringsAt(es, i), NextStrings(es, i)) else Offsets(0, 0)
  }

  lemma OffsetsNext(x: Sections, es: seq<Entry>, i: nat)
    requires i < |es|
    ensures Move(StateAt(es, i, x.machO), OffsetsAt(x, es, i), es[i], x.unitized) == OffsetsAt(x, es, i + 1)
  {
    StateOf(es, i, x.machO);
    hide StateAt, WithinUnit, Open, IsDirectory, LastMark, FileAt, LinesBefore, AsLines;
  }

  /** Each entry has the name that is found from where the strings of its unit start. */
  lemma {:induction false} NamesFrom(x: Sections, es: seq<Entry>, i: nat, raw: seq<RawEntry>, j: nat)
    requires Bounded(raw) && i <= j < |es| && |es| == i + |raw|
    requires es[i..] == Left(x, StateAt(es, i, x.machO), OffsetsAt(x, es, i), raw)
    ensures raw[j - i].value < SPACE && es[j] == Named(raw[j - i], x.strings, OffsetsAt(x, es, j).current)
    decreases |raw|
  {
    hide Left, StateAt, OffsetsAt, Named, Take, Move, Bounded;
    var st, o := StateAt(es, i, x.machO), OffsetsAt(x, es, i);
    assert raw == [raw[0]] + raw[1..];
    LeftFirst(x, st, o, raw[0], raw[1..]);
    OffsetsNext(x, es, i);
    StateAtNext(es, i, x.machO);
    assert es[i..][0] == es[i] && es[i..][1..] == es[i + 1..];
    if j > i {
      NamesFrom(x, es, i + 1, raw[1..], j);
    }
  }

  /** The entries of the section, one by one: what is stored, and the name from the string section. */
  lemma EntryNamed(x: Sections, j: nat)
    requires x.Valid() && j < |x.Entries()|
    ensures var es, raw := x.Entries(), Decode(x.stab, x.big, x.valueSize);
            && |raw| == |es| && raw[j].value < SPACE
            && es[j] == Entry(KindOf(raw[j].kind),
                              SymbolString(x.strings, if x.unitized then StringsAt(es, j) else 0, raw[j].nameOffset),
                              raw[j].value, raw[j].descriptor)
  {
    var es, raw := x.Entries(), Decode(x.stab, x.big, x.valueSize);
    LeftAll(x);
    assert es[0..] == es;
    assert OffsetsAt(x, es, 0) == Offsets(0, 0);
    hide Decode, Left, SymbolString, KindOf, Resolve, StringsAt;
    NamesFrom(x, es, 0, raw, j);
  }

  // ---------------------------------------------------------------------------------------
  // Loading
  // ---------------------------------------------------------------------------------------

  /** A handler that never refuses gets the whole plan. */
  lemma {:induction false} DeliverAll(h: Handler, sent: seq<Event>, events: seq<Event>)
    requires forall s: seq<Event> :: h(s)
    ensures Deliver(h, sent, events) == Delivery(sent + events, true)
    decreases |events|
  {
    if events == [] {
      assert sent + events == sent;
    } else {
      DeliverAll(h, sent + [events[0]], events[1..]);
      assert sent + [events[0]] + events[1..] == sent + events;
    }
  }

  // ---------------------------------------------------------------------------------------
  // From the bytes to the module
  // ---------------------------------------------------------------------------------------

  /**
   * For every section, in either byte order, reading comes to an end and succeeds. The module gets the
   * functions that its entries start, except those before their unit, each with the name, the address
   * and the lines that the entries give it, laid out without overlap between the boundaries that the
   * entries give; and the exported symbols. The assertion that functions have names fails exactly if
   * some entry starts one without.
   */
  method LoadStabs(x: Sections, demangle: string -> string)
      returns (ok: bool, unnamed: bool, m: StabsToModule, ghost gs: seq<Routine>, ghost perm: seq<nat>)
    requires x.Valid()
    ensures ok && fresh(m)
    ensures var es := x.Entries();
            && m.externs == Externs(es, |es|, x.machO, demangle)
            && multiset(m.boundaries) == multiset(Boundaries(es, |es|))
            && LaidOut(Functions(es, |es|, demangle), gs, perm, m.boundaries) && m.routines == AddAll(map[], gs)
            && (unnamed <==> exists i :: 0 <= i < |es| && StartsUnnamed(es, i, demangle))
  {
    hide Plan, Kept, BoundariesOf, ExternsOf, LaidOut, PhaseAfter, Deliver, Resolve, AddAll, SomeUnnamed;
    hide UnitOpen, CurrentFile, OpenFunction, UnitBase, Functions, Boundaries, Externs, StartsUnnamed;
    var entries := ReadEntries(x);
    var reader := new StabsReader(entries, x.machO, _ => true);
    ghost var plan := Plan(Between, entries, x.machO);
    assert entries[0..] == entries;
    DeliverAll(reader.handler, [], plan);
    assert [] + plan == plan;
    var finished;
    finished, ok := reader.Process(|entries|);
    m := new StabsToModule(demangle);
    m.ReceiveAll(reader.sent);
    PlanDescribes(entries, x.machO, demangle);
    unnamed, gs, perm := m.Finalize();
    LaidOutUnnamed(Functions(entries, |entries|, demangle), gs, perm, m.boundaries);
    FunctionsUnnamed(entries, |entries|, demangle);
  }

  // ---------------------------------------------------------------------------------------
  // A section that makes the assertion fail
  // ---------------------------------------------------------------------------------------

  const UNNAMED_ENTRIES := [RawEntry(1, 0x64, 0, 0, 16), RawEntry(0, 0x24, 0, 0, 16)]

  lemma UnnamedStorable()
    ensures forall i :: 0 <= i < |UNNAMED_ENTRIES| ==> Storable(UNNAMED_ENTRIES[i], 4)
  {
    Widths();
    assert Pow256(1) == 256;
    hide Pow256;
  }

  /** A unit "a.c" whose only function entry has an empty name. */
  ghost function UnnamedSections(big: bool): Sections {
    UnnamedStorable();
    Sections(EncodeAll(UNNAMED_ENTRIES, big, 4) + [], [0, 0x61, 0x2e, 0x63, 0], big, 4, true, false)
  }

  lemma UnnamedNames(x: Sections)
    requires x.strings == [0, 0x61, 0x2e, 0x63, 0] && x.unitized && !x.machO
    ensures Left(x, Between, Offsets(0, 0), UNNAMED_ENTRIES) == [Entry(SO, "a.c", 16, 0), Entry(FUN, "", 16, 0)]
  {
    var a, b := UNNAMED_ENTRIES[0], UNNAMED_ENTRIES[1];
    assert UNNAMED_ENTRIES == [a] + [b] && [b] == [b] + [];
    assert Bounded(UNNAMED_ENTRIES) && Bounded([b] + []);
    assert CString(x.strings, 4) == "" && CString(x.strings, 3) == "c" && CString(x.strings, 2) == ".c";
    assert Named(a, x.strings, 0) == Entry(SO, "a.c", 16, 0) && Named(b, x.strings, 0) == Entry(FUN, "", 16, 0);
    LeftFirst(x, Between, Offsets(0, 0), a, [b]);
    LeftFirst(x, Unit("a.c", []), Offsets(0, 0), b, []);
    hide Left, Named, CString;
    LeftEnds(x, Take(Unit("a.c", []), Entry(FUN, "", 16, 0), false).state, Offsets(0, 0));
  }

  lemma UnnamedThere(demangle: string -> string)
    requires demangle("") == ""
    ensures StartsUnnamed([Entry(SO, "a.c", 16, 0), Entry(FUN, "", 16, 0)], 1, demangle)
  {
    var es := [Entry(SO, "a.c", 16, 0), Entry(FUN, "", 16, 0)];
    assert !IsDirectory(es, 0) && Opens(es, 0) && LastUnit(es, 1) == 0 && LastMark(es, 1) == 0;
    assert !Starts(es, 0) && !Open(es, 1);
  }

  /** From the bytes of that section, in either byte order, a function without a name reaches the module. */
  lemma UnnamedExample(big: bool, demangle: string -> string)
    requires demangle("") == ""
    ensures var x := UnnamedSections(big);
            && x.Valid() && x.Entries() == [Entry(SO, "a.c", 16, 0), Entry(FUN, "", 16, 0)]
            && StartsUnnamed(x.Entries(), 1, demangle)
  {
    var x := UnnamedSections(big);
    UnnamedStorable();
    DecodeAllEncoded(UNNAMED_ENTRIES, big, 4, []);
    hide EncodeAll, Decode, Left, Resolve, Storable;
    LeftAll(x);
    UnnamedNames(x);
    UnnamedThere(demangle);
    hide StartsUnnamed;
  }
}
