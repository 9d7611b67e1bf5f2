/**
 * The calls that StabsReader makes of its handler, and what a sequence of STABS entries calls for:
 * an automaton that takes one entry at a time.
 */
module StabsEvents {
  import opened Addresses
  import opened Options

  /** The types of entries that the reader distinguishes; Exported is a section symbol of a Mach-O file. */
  datatype Kind = SO | FUN | SLINE | SOL | UNDF | Exported | Other

  /** An entry with its name looked up; the descriptor is a signed 16-bit number. */
  datatype Entry = Entry(kind: Kind, name: string, value: Address, descriptor: int)

  datatype Event =
    | StartCompilationUnit(name: string, address: Address, directory: Option<string>)
    | EndCompilationUnit(address: Address)
    | StartFunction(name: string, address: Address)
    | EndFunction(address: Address)
    | Line(address: Address, file: string, number: nat)
    | Extern(name: string, address: Address)

  // ---------------------------------------------------------------------------------------
  // Bracketing
  // ---------------------------------------------------------------------------------------

  datatype Phase = Outside | InUnit | InFunction

  /** Where an event leads, if it may occur. */
  function Next(p: Phase, ev: Event): Option<Phase> {
    match ev
    case StartCompilationUnit(_, _, _) => if p == Outside then Some(InUnit) else None
    case EndCompilationUnit(_) => if p == InUnit then Some(Outside) else None
    case StartFunction(_, _) => if p == InUnit then Some(InFunction) else None
    case EndFunction(_) => if p == InFunction then Some(InUnit) else None
    case Line(_, _, _) => if p == InFunction then Some(InFunction) else None
    case Extern(_, _) => if p == Outside then Some(Outside) else None
  }

  /**
   * The phase after `events`, None unless they are a prefix of a sequence of externs and units, each
   * unit a sequence of functions and each function a sequence of lines.
   */
  ghost function PhaseAfter(events: seq<Event>): Option<Phase> {
    if events == [] then Some(Outside)
    else
      var before := PhaseAfter(events[..|events| - 1]);
      if before.None? then None else Next(before.value, events[|events| - 1])
  }

  lemma PhaseAppend(events: seq<Event>, ev: Event)
    requires PhaseAfter(events).Some?
    ensures PhaseAfter(events + [ev]) == Next(PhaseAfter(events).value, ev)
  {
    assert (events + [ev])[..|events|] == events;
  }

  // ---------------------------------------------------------------------------------------
  // What the entries call for
  // ---------------------------------------------------------------------------------------

  datatype QueuedLine = QueuedLine(address: Address, file: string, number: nat)

  /** Between units; after a directory entry; in a unit with lines to report later; in a function. */
  datatype State =
    | Between
    | Directory(directory: string)
    | Unit(file: string, queued: seq<QueuedLine>)
    | Function(file: string, start: Address)

  predicate EndsInSlash(name: string) {
    name != "" && name[|name| - 1] == '/'
  }

  /** The name of a function is followed by a colon and its type. */
  function BeforeColon(name: string): string {
    if name == "" || name[0] == ':' then "" else [name[0]] + BeforeColon(name[1..])
  }

  /** (uint16_t) of a descriptor. */
  function LineNumber(descriptor: int): nat {
    descriptor % 0x1_0000
  }

  function Queue(e: Entry, file: string): QueuedLine {
    QueuedLine(e.value, file, LineNumber(e.descriptor))
  }

  function Lines(queued: seq<QueuedLine>): seq<Event> {
    if queued == [] then [] else [Line(queued[0].address, queued[0].file, queued[0].number)] + Lines(queued[1..])
  }

  /** What an entry calls for, and the state after it. */
  datatype Effect = Effect(events: seq<Event>, state: State)

  function After(events: seq<Event>, more: Effect): Effect {
    Effect(events + more.events, more.state)
  }

  function Take(s: State, e: Entry, machO: bool): Effect {
    match s
    case Between => TakeBetween(e, machO)
    case Directory(d) =>
      if e.kind != SO then TakeBetween(e, machO)
      else if e.name == "" then Effect([], Between)
      else Effect([StartCompilationUnit(e.name, e.value, Some(d))], Unit(e.name, []))
    case Unit(file, queued) => TakeInUnit(file, queued, e)
    case Function(file, start) =>
      match e.kind
      case SLINE => Effect([Line(Plus(start, e.value), file, LineNumber(e.descriptor))], s)
      case SOL => Effect([], Function(e.name, start))
      case FUN =>
        if e.name == "" then Effect([EndFunction(Plus(start, e.value))], Unit(file, []))
        else After([EndFunction(e.value)], TakeInUnit(file, [], e))
      case SO => After([EndFunction(e.value)], TakeInUnit(file, [], e))
      case _ => Effect([], s)
  }

  function TakeBetween(e: Entry, machO: bool): Effect {
    if e.kind == SO then
      if EndsInSlash(e.name) then Effect([], Directory(e.name))
      else if e.name == "" then Effect([], Between)
      else Effect([StartCompilationUnit(e.name, e.value, None)], Unit(e.name, []))
    else if e.kind == Exported && machO then Effect([Extern(e.name, e.value)], Between)
    else Effect([], Between)
  }

  function TakeInUnit(file: string, queued: seq<QueuedLine>, e: Entry): Effect {
    match e.kind
    case FUN => Effect([StartFunction(BeforeColon(e.name), e.value)] + Lines(queued), Function(file, e.value))
    case SLINE => Effect([], Unit(file, queued + [Queue(e, file)]))
    case SOL => Effect([], Unit(e.name, queued))
    case SO =>
      if e.name == "" then Effect([EndCompilationUnit(e.value)], Between)
      else After([EndCompilationUnit(0)], TakeBetween(e, false))
    case _ => Effect([], Unit(file, queued))
  }

  /** At the end of the entries, open functions and units end at unknown addresses. */
  function AtEnd(s: State): seq<Event> {
    match s
    case Function(_, _) => [EndFunction(0), EndCompilationUnit(0)]
    case Unit(_, _) => [EndCompilationUnit(0)]
    case _ => []
  }

  /** All that the entries call for. */
  function Plan(s: State, es: seq<Entry>, machO: bool): seq<Event>
    decreases |es|
  {
    if es == [] then AtEnd(s)
    else
      var t := Take(s, es[0], machO);
      t.events + Plan(t.state, es[1..], machO)
  }

  // ---------------------------------------------------------------------------------------
  // A handler that may refuse to go on
  // ---------------------------------------------------------------------------------------

  /** What a handler returns when it has received some events, the last one now. */
  type Handler = seq<Event> -> bool

  datatype Delivery = Delivery(events: seq<Event>, ok: bool)

  /** Deliver events after those in `sent` until one is refused. */
  ghost function Deliver(h: Handler, sent: seq<Event>, events: seq<Event>): Delivery
    decreases |events|
  {
    if events == [] then Delivery(sent, true)
    else
      var sent' := sent + [events[0]];
      if h(sent') then Deliver(h, sent', events[1..]) else Delivery(sent', false)
  }

  lemma DeliverOne(h: Handler, sent: seq<Event>, ev: Event, rest: seq<Event>)
    ensures Deliver(h, sent, [ev] + rest) ==
            if h(sent + [ev]) then Deliver(h, sent + [ev], rest) else Delivery(sent + [ev], false)
  {
    assert ([ev] + rest)[1..] == rest;
  }

  // ---------------------------------------------------------------------------------------
  // The plan is bracketed
  // ---------------------------------------------------------------------------------------

  function PhaseOf(s: State): Phase {
    match s
    case Between => Outside
    case Directory(_) => Outside
    case Unit(_, _) => InUnit
    case Function(_, _) => InFunction
  }

  /** The phase after more events. */
  ghost function PhaseFrom(p: Phase, events: seq<Event>): Option<Phase>
    decreases |events|
  {
    if events == [] then Some(p)
    else
      var q := Next(p, events[0]);
      if q.None? then None else PhaseFrom(q.value, events[1..])
  }

  lemma {:induction false} PhaseFromConcat(p: Phase, a: seq<Event>, b: seq<Event>)
    ensures PhaseFrom(p, a + b) == if PhaseFrom(p, a).None? then None else PhaseFrom(PhaseFrom(p, a).value, b)
    decreases |a|
  {
    if a == [] {
      assert a + b == b;
    } else {
      assert (a + b)[1..] == a[1..] + b;
      if Next(p, a[0]).Some? {
        PhaseFromConcat(Next(p, a[0]).value, a[1..], b);
      }
    }
  }

  lemma {:induction false} LinesStay(queued: seq<QueuedLine>)
    ensures PhaseFrom(InFunction, Lines(queued)) == Some(InFunction)
  {
    if queued != [] {
      LinesStay(queued[1..]);
    }
  }

  lemma TakeBetweenBracketed(e: Entry, machO: bool)
    ensures var t := TakeBetween(e, machO); PhaseFrom(Outside, t.events) == Some(PhaseOf(t.state))
  {
  }

  lemma TakeInUnitBracketed(file: string, queued: seq<QueuedLine>, e: Entry)
    ensures var t := TakeInUnit(file, queued, e); PhaseFrom(InUnit, t.events) == Some(PhaseOf(t.state))
  {
    if e.kind == FUN {
      LinesStay(queued);
      var ev := StartFunction(BeforeColon(e.name), e.value);
      assert ([ev] + Lines(queued))[1..] == Lines(queued);
    } else if e.kind == SO && e.name != "" {
      TakeBetweenBracketed(e, false);
      var t := TakeBetween(e, false);
      assert ([EndCompilationUnit(0)] + t.events)[1..] == t.events;
    }
  }

  /** Each entry's events lead from the phase of one state to that of the next. */
  lemma TakeBracketed(s: State, e: Entry, machO: bool)
    ensures var t := Take(s, e, machO); PhaseFrom(PhaseOf(s), t.events) == Some(PhaseOf(t.state))
  {
    match s
    case Between => TakeBetweenBracketed(e, machO);
    case Directory(_) => TakeBetweenBracketed(e, machO);
    case Unit(file, queued) => TakeInUnitBracketed(file, queued, e);
    case Function(file, start) =>
      TakeInUnitBracketed(file, [], e);
      var t := TakeInUnit(file, [], e);
      assert ([EndFunction(e.value)] + t.events)[1..] == t.events;
  }

  /** Whatever the entries, all units and functions that are started are ended, in order. */
  lemma {:induction false} PlanBracketed(s: State, es: seq<Entry>, machO: bool)
    ensures PhaseFrom(PhaseOf(s), Plan(s, es, machO)) == Some(Outside)
    decreases |es|
  {
    if es == [] {
      assert [EndFunction(0), EndCompilationUnit(0)][1..] == [EndCompilationUnit(0)];
    } else {
      var t := Take(s, es[0], machO);
      TakeBracketed(s, es[0], machO);
      PlanBracketed(t.state, es[1..], machO);
      hide Take;
      PhaseFromConcat(PhaseOf(s), t.events, Plan(t.state, es[1..], machO));
    }
  }
}
