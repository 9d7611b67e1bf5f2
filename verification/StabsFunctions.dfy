/**
 * What the entries of a STABS section say about functions, told from the places of the entries alone:
 * which of them start a unit or a function, where a function ends, and which lines it has. The calls
 * that the reader makes describe exactly these functions.
 */
module StabsFunctions {
  import opened Addresses
  import opened Options
  import opened StabsEvents
  import opened StabsToModules

  // ---------------------------------------------------------------------------------------
  // Units
  // ---------------------------------------------------------------------------------------

  /**
   * An N_SO entry names the directory of the unit that follows: every other one of those in a row that
   * end in a slash.
   */
  predicate IsDirectory(es: seq<Entry>, k: nat)
    requires k < |es|
  {
    es[k].kind == SO && EndsInSlash(es[k].name) && !(k > 0 && IsDirectory(es, k - 1))
  }

  /** Entry `k` starts a unit. */
  predicate Opens(es: seq<Entry>, k: nat)
    requires k < |es|
  {
    es[k].kind == SO && es[k].name != "" && !IsDirectory(es, k)
  }

  /** The last N_SO entry before `i`, or -1. */
  function LastUnit(es: seq<Entry>, i: nat): (k: int)
    requires i <= |es|
    ensures -1 <= k < i && (k >= 0 ==> es[k].kind == SO)
  {
    if i == 0 then -1 else if es[i - 1].kind == SO then i - 1 else LastUnit(es, i - 1)
  }

  /** Place `i` is in a unit. */
  predicate WithinUnit(es: seq<Entry>, i: nat)
    requires i <= |es|
  {
    var k := LastUnit(es, i);
    k >= 0 && Opens(es, k)
  }

  /** The start of the unit at place `i`. */
  function BaseAt(es: seq<Entry>, i: nat): Address
    requires i <= |es|
  {
    if WithinUnit(es, i) then es[LastUnit(es, i)].value else 0
  }

  /** The source file at place `i`: the last one named before it. */
  function FileAt(es: seq<Entry>, i: nat): string
    requires i <= |es|
  {
    if i == 0 then ""
    else if es[i - 1].kind == SO || es[i - 1].kind == SOL then es[i - 1].name
    else FileAt(es, i - 1)
  }

  // ---------------------------------------------------------------------------------------
  // Functions
  // ---------------------------------------------------------------------------------------

  predicate IsMark(e: Entry) {
    e.kind == FUN || e.kind == SO
  }

  /** The last N_FUN or N_SO entry before `i`, or -1. */
  function LastMark(es: seq<Entry>, i: nat): (m: int)
    requires i <= |es|
    ensures -1 <= m < i && (m >= 0 ==> IsMark(es[m])) && forall k :: m < k < i ==> !IsMark(es[k])
  {
    if i == 0 then -1 else if IsMark(es[i - 1]) then i - 1 else LastMark(es, i - 1)
  }

  /** The first N_FUN or N_SO entry from `i` on, or the number of entries. */
  function NextMark(es: seq<Entry>, i: nat): (m: nat)
    requires i <= |es|
    ensures i <= m <= |es| && (m < |es| ==> IsMark(es[m])) && forall k :: i <= k < m ==> !IsMark(es[k])
    decreases |es| - i
  {
    if i == |es| || IsMark(es[i]) then i else NextMark(es, i + 1)
  }

  /** Entry `i` starts a function: an N_FUN entry in a unit, unless it has no name and a function is open. */
  predicate Starts(es: seq<Entry>, i: nat)
    requires i < |es|
    decreases i, 1
  {
    es[i].kind == FUN && WithinUnit(es, i) && !(es[i].name == "" && Open(es, i))
  }

  /** At place `i` a function is open: the last N_FUN or N_SO entry starts one. */
  predicate Open(es: seq<Entry>, i: nat)
    requires i <= |es|
    decreases i, 0
  {
    var m := LastMark(es, i);
    m >= 0 && Starts(es, m)
  }

  /** Where the function that entry `i` starts ends; zero where that is not known. */
  function EndOf(es: seq<Entry>, i: nat): Address
    requires i < |es|
  {
    var j := NextMark(es, i + 1);
    if j == |es| then 0
    else if es[j].kind == FUN && es[j].name == "" then Plus(es[i].value, es[j].value)
    else es[j].value
  }

  /** The line of an entry; in a function its address is relative to `start`. */
  function LineAt(es: seq<Entry>, k: nat, start: Address): SourceLine
    requires k < |es|
  {
    SourceLine(Plus(start, es[k].value), 0, FileAt(es, k), LineNumber(es[k].descriptor))
  }

  /** The lines of the N_SLINE entries from `lo` up to `hi`. */
  function LinesIn(es: seq<Entry>, lo: nat, hi: nat, start: Address): seq<SourceLine>
    requires hi <= |es|
  {
    if hi <= lo then []
    else LinesIn(es, lo, hi - 1, start) + if es[hi - 1].kind == SLINE then [LineAt(es, hi - 1, start)] else []
  }

  /** The lines before the entry that starts a function, back to the one before, unless that is one too. */
  function LinesBefore(es: seq<Entry>, i: nat): seq<SourceLine>
    requires i <= |es|
  {
    if Open(es, i) then [] else LinesIn(es, LastMark(es, i) + 1, i, 0)
  }

  /** The function that entry `i` starts, with its lines up to `hi`. */
  function FunctionUpTo(es: seq<Entry>, i: nat, hi: nat, demangle: string -> string): Routine
    requires i < |es| && hi <= |es|
  {
    Routine(demangle(BeforeColon(es[i].name)), es[i].value, 0,
            LinesBefore(es, i) + LinesIn(es, i + 1, hi, es[i].value))
  }

  /** The functions that the first `n` entries start, except those that start before their unit. */
  function Functions(es: seq<Entry>, n: nat, demangle: string -> string): seq<Routine>
    requires n <= |es|
  {
    if n == 0 then []
    else
      var i := n - 1;
      Functions(es, i, demangle)
      + if Starts(es, i) && BaseAt(es, i) <= es[i].value
        then [FunctionUpTo(es, i, NextMark(es, i + 1), demangle)] else []
  }

  // ---------------------------------------------------------------------------------------
  // Boundaries and exported symbols
  // ---------------------------------------------------------------------------------------

  function Known(a: Address): seq<Address> {
    if a != 0 then [a] else []
  }

  /** The ends of the function and of the unit that entry `k` ends, and where it starts one. */
  function BoundariesAt(es: seq<Entry>, k: nat): seq<Address>
    requires k < |es|
  {
    (if IsMark(es[k]) && Open(es, k) then Known(EndOf(es, LastMark(es, k))) else [])
    + (if es[k].kind == SO && WithinUnit(es, k) && es[k].name == "" then Known(es[k].value) else [])
    + (if Opens(es, k) || Starts(es, k) then [es[k].value] else [])
  }

  function Boundaries(es: seq<Entry>, n: nat): seq<Address>
    requires n <= |es|
  {
    if n == 0 then [] else Boundaries(es, n - 1) + BoundariesAt(es, n - 1)
  }

  /** The first exported symbol at each address, outside units. */
  function Externs(es: seq<Entry>, n: nat, machO: bool, demangle: string -> string): map<Address, string>
    requires n <= |es|
  {
    if n == 0 then map[]
    else
      var before, e := Externs(es, n - 1, machO, demangle), es[n - 1];
      if machO && e.kind == Exported && !WithinUnit(es, n - 1) && e.value !in before
      then before[e.value := ExternName(e.name, demangle)] else before
  }

  /** A known end of a function is a boundary. */
  lemma {:induction false} EndIsBoundary(es: seq<Entry>, i: nat, n: nat)
    requires i < n <= |es| && Starts(es, i) && NextMark(es, i + 1) < n && EndOf(es, i) != 0
    ensures EndOf(es, i) in Boundaries(es, n)
  {
    hide Starts, Open, EndOf, BoundariesAt, NextMark;
    if NextMark(es, i + 1) == n - 1 {
      EndAt(es, i, n - 1);
    } else {
      EndIsBoundary(es, i, n - 1);
    }
  }

  lemma EndAt(es: seq<Entry>, i: nat, j: nat)
    requires i < j < |es| && Starts(es, i) && NextMark(es, i + 1) == j && EndOf(es, i) != 0
    ensures EndOf(es, i) in BoundariesAt(es, j)
  {
    LastIs(es, i, j);
    hide EndOf, WithinUnit, Opens, NextMark, LastMark;
    assert Open(es, j);
  }

  lemma {:induction false} LastIs(es: seq<Entry>, i: nat, j: nat)
    requires i < j <= |es| && IsMark(es[i]) && forall k :: i < k < j ==> !IsMark(es[k])
    ensures LastMark(es, j) == i
  {
  }

  // ---------------------------------------------------------------------------------------
  // What calls describe, one call at a time
  // ---------------------------------------------------------------------------------------

  datatype Summary = Summary(base: Address, open: Option<Routine>, kept: seq<Routine>, boundaries: seq<Address>,
                             externs: map<Address, string>)

  ghost function SummaryOf(events: seq<Event>, demangle: string -> string): Summary {
    Summary(UnitBase(events), OpenFunction(events, demangle), Kept(events, demangle), BoundariesOf(events),
            ExternsOf(events, demangle))
  }

  ghost function Add(s: Summary, ev: Event, demangle: string -> string): Summary {
    match ev
    case StartCompilationUnit(_, a, _) => s.(base := a, boundaries := s.boundaries + [a])
    case EndCompilationUnit(a) => s.(base := 0, boundaries := s.boundaries + Known(a))
    case StartFunction(name, a) =>
      s.(open := Some(Routine(demangle(name), a, 0, [])), boundaries := s.boundaries + [a])
    case EndFunction(a) =>
      var kept := if s.open.Some? && s.open.value.address >= s.base then [s.open.value] else [];
      s.(open := None, kept := s.kept + kept, boundaries := s.boundaries + Known(a))
    case Line(a, file, number) =>
      if s.open.None? then s
      else s.(open := Some(s.open.value.(lines := s.open.value.lines + [SourceLine(a, 0, file, number)])))
    case Extern(name, a) =>
      if a in s.externs then s else s.(externs := s.externs[a := ExternName(name, demangle)])
  }

  lemma AddOne(events: seq<Event>, ev: Event, demangle: string -> string)
    ensures SummaryOf(events + [ev], demangle) == Add(SummaryOf(events, demangle), ev, demangle)
  {
    OneMore(events, ev);
    assert Kept(events, demangle) + [] == Kept(events, demangle);
    assert BoundariesOf(events) + [] == BoundariesOf(events);
  }

  ghost function AddAllOf(s: Summary, events: seq<Event>, demangle: string -> string): Summary
    decreases |events|
  {
    if events == [] then s else AddAllOf(Add(s, events[0], demangle), events[1..], demangle)
  }

  lemma {:induction false} AddMany(before: seq<Event>, events: seq<Event>, demangle: string -> string)
    ensures SummaryOf(before + events, demangle) == AddAllOf(SummaryOf(before, demangle), events, demangle)
    decreases |events|
  {
    hide SummaryOf, Add;
    if events == [] {
      assert before + events == before;
    } else {
      AddOne(before, events[0], demangle);
      AddMany(before + [events[0]], events[1..], demangle);
      assert before + [events[0]] + events[1..] == before + events;
    }
  }

  lemma {:induction false} AddConcat(s: Summary, a: seq<Event>, b: seq<Event>, demangle: string -> string)
    ensures AddAllOf(s, a + b, demangle) == AddAllOf(AddAllOf(s, a, demangle), b, demangle)
    decreases |a|
  {
    hide Add;
    if a == [] {
      assert a + b == b;
    } else {
      assert (a + b)[1..] == a[1..] + b;
      AddConcat(Add(s, a[0], demangle), a[1..], b, demangle);
    }
  }

  lemma AddSingle(s: Summary, ev: Event, demangle: string -> string)
    ensures AddAllOf(s, [ev], demangle) == Add(s, ev, demangle)
  {
    hide Add;
    assert [ev][1..] == [];
  }

  lemma AddPair(s: Summary, a: Event, b: seq<Event>, demangle: string -> string)
    ensures AddAllOf(s, [a] + b, demangle) == AddAllOf(Add(s, a, demangle), b, demangle)
  {
    hide Add;
    assert ([a] + b)[1..] == b;
  }

  /** The lines that are queued, as lines of a function. */
  function AsLines(queued: seq<QueuedLine>): seq<SourceLine> {
    if queued == [] then []
    else [SourceLine(queued[0].address, 0, queued[0].file, queued[0].number)] + AsLines(queued[1..])
  }

  lemma {:induction false} AddLines(s: Summary, queued: seq<QueuedLine>, demangle: string -> string)
    requires s.open.Some?
    ensures AddAllOf(s, Lines(queued), demangle)
         == s.(open := Some(s.open.value.(lines := s.open.value.lines + AsLines(queued))))
    decreases |queued|
  {
    var f := s.open.value;
    if queued == [] {
      assert f.lines + [] == f.lines;
    } else {
      var q := queued[0];
      var ev := Line(q.address, q.file, q.number);
      AddPair(s, ev, Lines(queued[1..]), demangle);
      AddLines(Add(s, ev, demangle), queued[1..], demangle);
      assert f.lines + [SourceLine(q.address, 0, q.file, q.number)] + AsLines(queued[1..]) == f.lines + AsLines(queued);
    }
  }

  lemma {:induction false} AsLinesAppend(queued: seq<QueuedLine>, q: QueuedLine)
    ensures AsLines(queued + [q]) == AsLines(queued) + [SourceLine(q.address, 0, q.file, q.number)]
  {
    if queued == [] {
      assert queued + [q] == [q] && [q][1..] == [];
    } else {
      assert (queued + [q])[1..] == queued[1..] + [q];
      AsLinesAppend(queued[1..], q);
    }
  }

  // ---------------------------------------------------------------------------------------
  // The automaton, place by place
  // ---------------------------------------------------------------------------------------

  ghost function StateAt(es: seq<Entry>, i: nat, machO: bool): State
    requires i <= |es|
  {
    if i == 0 then Between else Take(StateAt(es, i - 1, machO), es[i - 1], machO).state
  }

  ghost function EventsAt(es: seq<Entry>, i: nat, machO: bool): seq<Event>
    requires i <= |es|
  {
    if i == 0 then []
    else EventsAt(es, i - 1, machO) + Take(StateAt(es, i - 1, machO), es[i - 1], machO).events
  }

  lemma StateAtNext(es: seq<Entry>, i: nat, machO: bool)
    requires i < |es|
    ensures StateAt(es, i + 1, machO) == Take(StateAt(es, i, machO), es[i], machO).state
    ensures EventsAt(es, i + 1, machO) == EventsAt(es, i, machO) + Take(StateAt(es, i, machO), es[i], machO).events
  {
    hide Take;
  }

  lemma {:induction false} PlanAt(es: seq<Entry>, i: nat, machO: bool)
    requires i <= |es|
    ensures EventsAt(es, i, machO) + Plan(StateAt(es, i, machO), es[i..], machO) == Plan(Between, es, machO)
  {
    if i == 0 {
      assert es[0..] == es;
      assert [] + Plan(Between, es, machO) == Plan(Between, es, machO);
    } else {
      PlanAt(es, i - 1, machO);
      assert es[i - 1..][0] == es[i - 1] && es[i - 1..][1..] == es[i..];
      var t := Take(StateAt(es, i - 1, machO), es[i - 1], machO);
      hide Take;
      assert EventsAt(es, i - 1, machO) + (t.events + Plan(t.state, es[i..], machO))
          == EventsAt(es, i - 1, machO) + t.events + Plan(t.state, es[i..], machO);
    }
  }

  /** The state that the entries before `i` leave. */
  ghost predicate Describes(es: seq<Entry>, i: nat, st: State)
    requires i <= |es|
  {
    && (st.Directory? <==> i > 0 && IsDirectory(es, i - 1))
    && (st.Unit? || st.Function? <==> WithinUnit(es, i))
    && (st.Function? <==> Open(es, i))
    && (st.Unit? ==> st.file == FileAt(es, i) && AsLines(st.queued) == LinesBefore(es, i))
    && (st.Function? ==> st.file == FileAt(es, i) && LastMark(es, i) >= 0 && st.start == es[LastMark(es, i)].value)
  }

  /** One place further. */
  lemma PlaceNext(es: seq<Entry>, i: nat)
    requires i < |es|
    ensures LastUnit(es, i + 1) == if es[i].kind == SO then i else LastUnit(es, i)
    ensures LastMark(es, i + 1) == if IsMark(es[i]) then i else LastMark(es, i)
    ensures WithinUnit(es, i + 1) <==> if es[i].kind == SO then Opens(es, i) else WithinUnit(es, i)
    ensures Open(es, i + 1) <==> if IsMark(es[i]) then Starts(es, i) else Open(es, i)
    ensures FileAt(es, i + 1) == if es[i].kind == SO || es[i].kind == SOL then es[i].name else FileAt(es, i)
  {
    hide Opens, Starts;
  }

  lemma LinesBeforeNext(es: seq<Entry>, i: nat)
    requires i < |es| && !Open(es, i + 1)
    ensures LinesBefore(es, i + 1) ==
            if IsMark(es[i]) then []
            else if es[i].kind == SLINE then LinesBefore(es, i) + [LineAt(es, i, 0)]
            else LinesBefore(es, i)
  {
    hide Starts, Open, WithinUnit, LineAt, LastMark;
    PlaceNext(es, i);
  }

  lemma StartsMeans(es: seq<Entry>, i: nat)
    requires i < |es|
    ensures Starts(es, i) <==> es[i].kind == FUN && WithinUnit(es, i) && !(es[i].name == "" && Open(es, i))
    ensures Opens(es, i) <==> es[i].kind == SO && es[i].name != "" && !IsDirectory(es, i)
    ensures IsDirectory(es, i) <==> es[i].kind == SO && EndsInSlash(es[i].name) && !(i > 0 && IsDirectory(es, i - 1))
  {
    hide WithinUnit, LastMark;
  }

  /** An entry leads from the state of one place to that of the next. */
  lemma StateNext(es: seq<Entry>, i: nat, st: State, machO: bool)
    requires i < |es| && Describes(es, i, st)
    ensures Describes(es, i + 1, Take(st, es[i], machO).state)
  {
    hide WithinUnit, Open, Starts, Opens, IsDirectory, LastMark, LastUnit, FileAt, LinesBefore, AsLines, Plus;
    hide LineNumber, BeforeColon, Lines, EndsInSlash;
    PlaceNext(es, i);
    StartsMeans(es, i);
    SlashIsName(es[i].name);
    PlusZero(es[i].value);
    if !Open(es, i + 1) {
      LinesBeforeNext(es, i);
    }
    if st.Unit? {
      AsLinesAppend(st.queued, Queue(es[i], st.file));
    }
    AsNoLines();
  }

  lemma SlashIsName(name: string)
    ensures EndsInSlash(name) ==> name != ""
  {
  }

  lemma PlusZero(a: Address)
    ensures Plus(0, a) == a
  {
  }

  lemma AsNoLines()
    ensures AsLines([]) == []
  {
  }

  lemma {:induction false} StateOf(es: seq<Entry>, i: nat, machO: bool)
    requires i <= |es|
    ensures Describes(es, i, StateAt(es, i, machO))
  {
    if i == 0 {
      assert LastMark(es, 0) == -1;
    } else {
      StateOf(es, i - 1, machO);
      StateNext(es, i - 1, StateAt(es, i - 1, machO), machO);
      hide Describes, Take;
    }
  }

  // ---------------------------------------------------------------------------------------
  // What is described, place by place
  // ---------------------------------------------------------------------------------------

  /** The functions that have ended before place `i`. */
  ghost function Ended(es: seq<Entry>, i: nat, demangle: string -> string): seq<Routine>
    requires i <= |es|
  {
    if i == 0 then []
    else
      var k := i - 1;
      Ended(es, k, demangle)
      + if IsMark(es[k]) && Open(es, k) && BaseAt(es, k) <= es[LastMark(es, k)].value
        then [FunctionUpTo(es, LastMark(es, k), k, demangle)] else []
  }

  ghost function OpenAt(es: seq<Entry>, i: nat, demangle: string -> string): Option<Routine>
    requires i <= |es|
  {
    if Open(es, i) then Some(FunctionUpTo(es, LastMark(es, i), i, demangle)) else None
  }

  ghost function SummaryAt(es: seq<Entry>, i: nat, machO: bool, demangle: string -> string): Summary
    requires i <= |es|
  {
    Summary(BaseAt(es, i), OpenAt(es, i, demangle), Ended(es, i, demangle), Boundaries(es, i),
            Externs(es, i, machO, demangle))
  }

  lemma BaseNext(es: seq<Entry>, i: nat)
    requires i < |es|
    ensures BaseAt(es, i + 1) ==
            if es[i].kind != SO then BaseAt(es, i) else if Opens(es, i) then es[i].value else 0
  {
    PlaceNext(es, i);
    hide Opens;
  }

  /** Inside a function, lines are added; a mark starts a function or none. */
  lemma OpenNext(es: seq<Entry>, i: nat, demangle: string -> string)
    requires i < |es|
    ensures OpenAt(es, i + 1, demangle) ==
            if IsMark(es[i]) then
              if Starts(es, i) then Some(Routine(demangle(BeforeColon(es[i].name)), es[i].value, 0, LinesBefore(es, i)))
              else None
            else if Open(es, i) && es[i].kind == SLINE then
              var f := OpenAt(es, i, demangle).value;
              Some(f.(lines := f.lines + [LineAt(es, i, es[LastMark(es, i)].value)]))
            else OpenAt(es, i, demangle)
  {
    hide Starts, Open, WithinUnit, LineAt, LinesBefore, LastMark, BeforeColon, LinesIn;
    PlaceNext(es, i);
    LinesInNone(es, i + 1, es[i].value);
    assert LinesBefore(es, i) + [] == LinesBefore(es, i);
    if Open(es, i) && !IsMark(es[i]) {
      var m := OpenMark(es, i);
      LinesInNext(es, m + 1, i, es[m].value);
      var x, y := LinesBefore(es, m), LinesIn(es, m + 1, i, es[m].value);
      assert x + (y + [LineAt(es, i, es[m].value)]) == x + y + [LineAt(es, i, es[m].value)];
    }
  }

  lemma OpenMark(es: seq<Entry>, i: nat) returns (m: nat)
    requires i <= |es| && Open(es, i)
    ensures m == LastMark(es, i) && m < i && Starts(es, m)
  {
    m := LastMark(es, i);
  }

  lemma LinesInNone(es: seq<Entry>, i: nat, start: Address)
    requires i <= |es|
    ensures LinesIn(es, i, i, start) == []
  {
  }

  lemma LinesInNext(es: seq<Entry>, lo: nat, i: nat, start: Address)
    requires lo <= i < |es|
    ensures LinesIn(es, lo, i + 1, start) ==
            if es[i].kind == SLINE then LinesIn(es, lo, i, start) + [LineAt(es, i, start)]
            else LinesIn(es, lo, i, start)
  {
    hide LineAt;
  }

  /** The function that is open at a mark ends there. */
  lemma EndsHere(es: seq<Entry>, i: nat)
    requires i < |es| && IsMark(es[i]) && LastMark(es, i) >= 0
    ensures var m := LastMark(es, i);
            NextMark(es, m + 1) == i &&
            EndOf(es, m) ==
            if es[i].kind == FUN && es[i].name == "" then Plus(es[m].value, es[i].value) else es[i].value
  {
    NextIs(es, LastMark(es, i) + 1, i);
    hide Plus, LastMark, NextMark;
  }

  lemma {:induction false} NextIs(es: seq<Entry>, i: nat, j: nat)
    requires i <= j <= |es| && (j < |es| ==> IsMark(es[j])) && forall k :: i <= k < j ==> !IsMark(es[k])
    ensures NextMark(es, i) == j
  {
  }

  // ---------------------------------------------------------------------------------------
  // The calls for one entry
  // ---------------------------------------------------------------------------------------

  /** The boundaries and the ended functions at an entry that is no mark. */
  lemma NothingEnds(es: seq<Entry>, i: nat, demangle: string -> string)
    requires i < |es| && !IsMark(es[i])
    ensures Boundaries(es, i + 1) == Boundaries(es, i) && Ended(es, i + 1, demangle) == Ended(es, i, demangle)
  {
    StartsMeans(es, i);
    hide Open, WithinUnit, Starts, Opens, IsDirectory, LastMark, EndOf, BaseAt, FunctionUpTo;
  }

  lemma ExternsNext(es: seq<Entry>, i: nat, machO: bool, demangle: string -> string)
    requires i < |es|
    ensures Externs(es, i + 1, machO, demangle) ==
            var before, e := Externs(es, i, machO, demangle), es[i];
            if machO && e.kind == Exported && !WithinUnit(es, i) && e.value !in before
            then before[e.value := ExternName(e.name, demangle)] else before
  {
    hide WithinUnit, ExternName;
  }

  /** An entry that is no mark. */
  lemma PlainNext(es: seq<Entry>, i: nat, st: State, machO: bool, demangle: string -> string)
    requires i < |es| && Describes(es, i, st) && !IsMark(es[i])
    ensures AddAllOf(SummaryAt(es, i, machO, demangle), Take(st, es[i], machO).events, demangle)
         == SummaryAt(es, i + 1, machO, demangle)
  {
    hide BaseAt, OpenAt, Open, WithinUnit, Starts, Opens, IsDirectory, LastMark, FileAt, LinesBefore, AsLines, Plus;
    hide LineNumber, EndOf, FunctionUpTo, Ended, Boundaries, Externs, ExternName, AddAllOf;
    var s, e := SummaryAt(es, i, machO, demangle), es[i];
    BaseNext(es, i);
    OpenNext(es, i, demangle);
    NothingEnds(es, i, demangle);
    ExternsNext(es, i, machO, demangle);
    AddNothing(s, demangle);
    OpenIsSome(es, i, demangle);
    if st.Function? && e.kind == SLINE {
      AddSingle(s, Line(Plus(st.start, e.value), st.file, LineNumber(e.descriptor)), demangle);
    } else if e.kind == Exported {
      AddSingle(s, Extern(e.name, e.value), demangle);
    }
  }

  lemma AddNothing(s: Summary, demangle: string -> string)
    ensures AddAllOf(s, [], demangle) == s
  {
  }

  lemma OpenIsSome(es: seq<Entry>, i: nat, demangle: string -> string)
    requires i <= |es|
    ensures OpenAt(es, i, demangle).Some? <==> Open(es, i)
  {
    hide Open, FunctionUpTo, LastMark;
  }

  /** What an N_FUN or N_SO entry adds: the end of an open function, and boundaries. */
  lemma MarkNext(es: seq<Entry>, i: nat, demangle: string -> string)
    requires i < |es| && IsMark(es[i])
    ensures Boundaries(es, i + 1) == Boundaries(es, i) + BoundariesAt(es, i)
    ensures var f := OpenAt(es, i, demangle);
            Ended(es, i + 1, demangle) == Ended(es, i, demangle)
              + if f.Some? && BaseAt(es, i) <= f.value.address then [f.value] else []
  {
    hide Open, BoundariesAt, BaseAt, LastMark, LinesBefore, LinesIn, BeforeColon;
    if Open(es, i) {
      var m := OpenMark(es, i);
    }
  }

  /** The end of the open function is the first boundary at a mark. */
  lemma BoundariesHere(es: seq<Entry>, i: nat, st: State)
    requires i < |es| && IsMark(es[i]) && Describes(es, i, st)
    ensures BoundariesAt(es, i) ==
            (if st.Function? then
               Known(if es[i].kind == FUN && es[i].name == "" then Plus(st.start, es[i].value) else es[i].value)
             else [])
            + (if es[i].kind == SO && WithinUnit(es, i) && es[i].name == "" then Known(es[i].value) else [])
            + (if Opens(es, i) || Starts(es, i) then [es[i].value] else [])
  {
    hide Open, WithinUnit, Opens, Starts, EndOf, Plus, LastMark, NextMark, Known, LinesBefore, AsLines;
    hide FileAt, IsDirectory;
    if st.Function? {
      EndsHere(es, i);
    }
  }

  /** An N_FUN entry. */
  lemma FunctionNext(es: seq<Entry>, i: nat, st: State, machO: bool, demangle: string -> string)
    requires i < |es| && Describes(es, i, st) && es[i].kind == FUN
    ensures AddAllOf(SummaryAt(es, i, machO, demangle), Take(st, es[i], machO).events, demangle)
         == SummaryAt(es, i + 1, machO, demangle)
  {
    hide BaseAt, OpenAt, Open, WithinUnit, Starts, Opens, IsDirectory, LastMark, FileAt, LinesBefore, AsLines, Plus;
    hide EndOf, FunctionUpTo, Ended, Boundaries, BoundariesAt, Externs, AddAllOf, BeforeColon, Lines;
    var s, e := SummaryAt(es, i, machO, demangle), es[i];
    BaseNext(es, i);
    OpenNext(es, i, demangle);
    MarkNext(es, i, demangle);
    BoundariesHere(es, i, st);
    ExternsNext(es, i, machO, demangle);
    StartsMeans(es, i);
    OpenIsSome(es, i, demangle);
    AddNothing(s, demangle);
    var start := StartFunction(BeforeColon(e.name), e.value);
    if st.Unit? {
      AddPair(s, start, Lines(st.queued), demangle);
      AddLines(Add(s, start, demangle), st.queued, demangle);
      assert [] + AsLines(st.queued) == AsLines(st.queued);
    } else if st.Function? && e.name == "" {
      AddSingle(s, EndFunction(Plus(st.start, e.value)), demangle);
    } else if st.Function? {
      FunctionAfter(s, e, demangle);
      OpenBefore(es, i);
    }
  }

  lemma OpenBefore(es: seq<Entry>, i: nat)
    requires i <= |es|
    ensures Open(es, i) ==> LinesBefore(es, i) == []
  {
    hide Open;
  }

  /** One function follows another. */
  lemma FunctionAfter(s: Summary, e: Entry, demangle: string -> string)
    ensures var start := StartFunction(BeforeColon(e.name), e.value);
            AddAllOf(s, [EndFunction(e.value)] + ([start] + Lines([])), demangle)
            == Add(Add(s, EndFunction(e.value), demangle), start, demangle)
  {
    var end, start := EndFunction(e.value), StartFunction(BeforeColon(e.name), e.value);
    hide Add, BeforeColon;
    AddPair(s, end, [start] + Lines([]), demangle);
    AddPair(Add(s, end, demangle), start, Lines([]), demangle);
    AddNothing(Add(Add(s, end, demangle), start, demangle), demangle);
  }

  /** What an N_SO entry does outside units. */
  lemma UnitStarts(s: Summary, e: Entry, machO: bool, demangle: string -> string)
    requires e.kind == SO && s.base == 0
    ensures AddAllOf(s, TakeBetween(e, machO).events, demangle)
         == if e.name == "" || EndsInSlash(e.name) then s
            else s.(base := e.value, boundaries := s.boundaries + [e.value])
  {
    hide AddAllOf, EndsInSlash;
    SlashIsName(e.name);
    AddNothing(s, demangle);
    AddSingle(s, StartCompilationUnit(e.name, e.value, None), demangle);
  }

  /** What an N_SO entry does in a unit. */
  lemma UnitEnds(s: Summary, e: Entry, file: string, queued: seq<QueuedLine>, demangle: string -> string)
    requires e.kind == SO
    ensures AddAllOf(s, TakeInUnit(file, queued, e).events, demangle)
         == if e.name == "" then s.(base := 0, boundaries := s.boundaries + Known(e.value))
            else if EndsInSlash(e.name) then s.(base := 0)
            else s.(base := e.value, boundaries := s.boundaries + [e.value])
  {
    hide AddAllOf, EndsInSlash, TakeBetween;
    assert s.boundaries + [] == s.boundaries;
    if e.name == "" {
      AddSingle(s, EndCompilationUnit(e.value), demangle);
    } else {
      var end := EndCompilationUnit(0);
      AddPair(s, end, TakeBetween(e, false).events, demangle);
      UnitStarts(Add(s, end, demangle), e, false, demangle);
    }
  }

  lemma BaseOutside(es: seq<Entry>, i: nat)
    requires i <= |es|
    ensures !WithinUnit(es, i) ==> BaseAt(es, i) == 0
  {
    hide WithinUnit, LastUnit;
  }

  /** An N_SO entry. */
  lemma UnitNext(es: seq<Entry>, i: nat, st: State, machO: bool, demangle: string -> string)
    requires i < |es| && Describes(es, i, st) && es[i].kind == SO
    ensures AddAllOf(SummaryAt(es, i, machO, demangle), Take(st, es[i], machO).events, demangle)
         == SummaryAt(es, i + 1, machO, demangle)
  {
    hide BaseAt, OpenAt, Open, WithinUnit, Starts, Opens, IsDirectory, LastMark, FileAt, LinesBefore, AsLines, Plus;
    hide EndOf, FunctionUpTo, Ended, Boundaries, BoundariesAt, Externs, AddAllOf, EndsInSlash, TakeBetween, TakeInUnit;
    var s, e := SummaryAt(es, i, machO, demangle), es[i];
    BaseOutside(es, i);
    BaseNext(es, i);
    OpenNext(es, i, demangle);
    MarkNext(es, i, demangle);
    BoundariesHere(es, i, st);
    ExternsNext(es, i, machO, demangle);
    StartsMeans(es, i);
    OpenIsSome(es, i, demangle);
    SlashIsName(e.name);
    match st
    case Between => UnitStarts(s, e, machO, demangle);
    case Directory(d) =>
      AddNothing(s, demangle);
      AddSingle(s, StartCompilationUnit(e.name, e.value, Some(d)), demangle);
    case Unit(file, queued) => UnitEnds(s, e, file, queued, demangle);
    case Function(file, start) =>
      AddPair(s, EndFunction(e.value), TakeInUnit(file, [], e).events, demangle);
      UnitEnds(Add(s, EndFunction(e.value), demangle), e, file, [], demangle);
  }

  // ---------------------------------------------------------------------------------------
  // The calls for all entries
  // ---------------------------------------------------------------------------------------

  lemma {:induction false} SummaryAtPlace(es: seq<Entry>, i: nat, machO: bool, demangle: string -> string)
    requires i <= |es|
    ensures SummaryOf(EventsAt(es, i, machO), demangle) == SummaryAt(es, i, machO, demangle)
  {
    hide SummaryOf, SummaryAt, AddAllOf, Take, Describes, EventsAt, StateAt;
    if i == 0 {
      NothingYet(es, machO, demangle);
    } else {
      var st := StateAt(es, i - 1, machO);
      var t := Take(st, es[i - 1], machO);
      StateAtNext(es, i - 1, machO);
      SummaryAtPlace(es, i - 1, machO, demangle);
      StateOf(es, i - 1, machO);
      AddMany(EventsAt(es, i - 1, machO), t.events, demangle);
      if es[i - 1].kind == FUN {
        FunctionNext(es, i - 1, st, machO, demangle);
      } else if es[i - 1].kind == SO {
        UnitNext(es, i - 1, st, machO, demangle);
      } else {
        PlainNext(es, i - 1, st, machO, demangle);
      }
    }
  }

  lemma NothingYet(es: seq<Entry>, machO: bool, demangle: string -> string)
    ensures EventsAt(es, 0, machO) == [] && SummaryOf([], demangle) == SummaryAt(es, 0, machO, demangle)
  {
    assert LastMark(es, 0) == -1;
  }

  /** The functions started so far are those that have ended and the one that is open. */
  lemma {:induction false} StartedEnded(es: seq<Entry>, i: nat, demangle: string -> string)
    requires i <= |es|
    ensures Functions(es, i, demangle) == Ended(es, i, demangle)
              + if Open(es, i) && BaseAt(es, i) <= es[LastMark(es, i)].value
                then [FunctionUpTo(es, LastMark(es, i), NextMark(es, LastMark(es, i) + 1), demangle)] else []
  {
    hide Open, Starts, BaseAt, FunctionUpTo, LastMark, NextMark;
    NotOpenYet(es);
    if i > 0 {
      var k := i - 1;
      StartedEnded(es, k, demangle);
      PlaceNext(es, k);
      StartsMeans(es, k);
      BaseNext(es, k);
      if Open(es, k) {
        var m := OpenMark(es, k);
        if IsMark(es[k]) {
          EndsHere(es, k);
        }
      }
    }
  }

  lemma NotOpenYet(es: seq<Entry>)
    ensures !Open(es, 0)
  {
    assert LastMark(es, 0) == -1;
  }

  /** One of the functions has no name exactly if an entry that starts one, not before its unit, has none. */
  lemma {:induction false} FunctionsUnnamed(es: seq<Entry>, n: nat, demangle: string -> string)
    requires n <= |es|
    ensures SomeUnnamed(Functions(es, n, demangle)) <==> exists i :: 0 <= i < n && StartsUnnamed(es, i, demangle)
  {
    assert !SomeUnnamed([]);
    hide Starts, BaseAt, NextMark, LinesBefore, LinesIn, BeforeColon, SomeUnnamed;
    if n > 0 {
      var i := n - 1;
      FunctionsUnnamed(es, i, demangle);
      var f := FunctionUpTo(es, i, NextMark(es, i + 1), demangle);
      SomeUnnamedAppend(Functions(es, i, demangle), f);
      assert Functions(es, i, demangle) + [] == Functions(es, i, demangle);
      assert StartsUnnamed(es, i, demangle) <==> Starts(es, i) && BaseAt(es, i) <= es[i].value && f.name == "";
    }
  }

  /** Entry `i` starts a function, not before its unit, and its name up to the colon demangles to nothing. */
  predicate StartsUnnamed(es: seq<Entry>, i: nat, demangle: string -> string)
    requires i < |es|
  {
    Starts(es, i) && BaseAt(es, i) <= es[i].value && demangle(BeforeColon(es[i].name)) == ""
  }

  /** The text before the first colon. */
  lemma {:induction false} BeforeColonIs(name: string)
    ensures var r := BeforeColon(name); r <= name && ':' !in r && (|r| < |name| ==> name[|r|] == ':')
  {
    if name != "" && name[0] != ':' {
      BeforeColonIs(name[1..]);
      assert name == [name[0]] + name[1..];
    }
  }

  lemma NextIsEnd(es: seq<Entry>, m: nat)
    requires m < |es| && LastMark(es, |es|) == m
    ensures NextMark(es, m + 1) == |es|
  {
    hide LastMark, NextMark;
    NextIs(es, m + 1, |es|);
  }

  lemma AtEndSummary(s: Summary, st: State, demangle: string -> string)
    requires s.open.Some? ==> st.Function?
    ensures var t := AddAllOf(s, AtEnd(st), demangle);
            && t.boundaries == s.boundaries && t.externs == s.externs
            && t.kept == s.kept + if s.open.Some? && s.base <= s.open.value.address then [s.open.value] else []
  {
    var f, u := EndFunction(0), EndCompilationUnit(0);
    hide AddAllOf;
    AddNothing(s, demangle);
    AddSingle(s, u, demangle);
    assert [f, u] == [f] + [u];
    AddPair(s, f, [u], demangle);
    AddSingle(Add(s, f, demangle), u, demangle);
    assert s.boundaries + [] == s.boundaries && s.kept + [] == s.kept;
  }

  /** What the calls for all entries describe, told from the entries. */
  lemma PlanDescribes(es: seq<Entry>, machO: bool, demangle: string -> string)
    ensures var plan := Plan(Between, es, machO);
            && Kept(plan, demangle) == Functions(es, |es|, demangle)
            && BoundariesOf(plan) == Boundaries(es, |es|)
            && ExternsOf(plan, demangle) == Externs(es, |es|, machO, demangle)
  {
    var n := |es|;
    PlanIs(es, machO);
    hide Plan, Kept, BoundariesOf, ExternsOf, UnitBase, OpenFunction, EventsAt, StateAt, AtEnd, Functions, Boundaries;
    hide Externs, Ended, BaseAt, AddAllOf, Open, Starts, LastMark, NextMark, LinesBefore, LinesIn, BeforeColon, AsLines;
    hide WithinUnit, FileAt, IsDirectory;
    SummaryAtPlace(es, n, machO, demangle);
    StateOf(es, n, machO);
    AddMany(EventsAt(es, n, machO), AtEnd(StateAt(es, n, machO)), demangle);
    AtEndSummary(SummaryAt(es, n, machO, demangle), StateAt(es, n, machO), demangle);
    StartedEnded(es, n, demangle);
    if Open(es, n) {
      var m := OpenMark(es, n);
      NextIsEnd(es, m);
    }
  }

  lemma PlanIs(es: seq<Entry>, machO: bool)
    ensures Plan(Between, es, machO) == EventsAt(es, |es|, machO) + AtEnd(StateAt(es, |es|, machO))
  {
    PlanAt(es, |es|, machO);
    assert es[|es|..] == [];
    hide EventsAt, StateAt, AtEnd;
  }

  /** Two functions with entries that give their sizes: they end at 1020 and 1110. */
  lemma TerminatorExample(es: seq<Entry>)
    requires |es| == 6 && es[0] == Entry(SO, "a.c", 0x1000, 0)
    requires es[1] == Entry(FUN, "f:F1", 0x1000, 0) && es[2] == Entry(FUN, "", 0x20, 0)
    requires es[3] == Entry(FUN, "g:F1", 0x1100, 0) && es[4] == Entry(FUN, "", 0x10, 0)
    requires es[5] == Entry(SO, "", 0x1200, 0)
    ensures Starts(es, 1) && !Starts(es, 2) && Starts(es, 3) && !Starts(es, 4)
    ensures EndOf(es, 1) == 0x1020 && EndOf(es, 3) == 0x1110
  {
    assert Opens(es, 0) && LastUnit(es, 1) == LastUnit(es, 2) == LastUnit(es, 3) == LastUnit(es, 4) == 0;
    assert LastMark(es, 1) == 0 && LastMark(es, 2) == 1 && LastMark(es, 3) == 2 && LastMark(es, 4) == 3;
    assert Starts(es, 1) && Open(es, 2) && !Starts(es, 2) && Starts(es, 3) && Open(es, 4);
    assert NextMark(es, 2) == 2 && NextMark(es, 4) == 4;
  }
}
