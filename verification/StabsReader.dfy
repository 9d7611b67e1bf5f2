/**
 * StabsReader: nested loops over STABS entries that make the calls of the automaton, stop when the
 * handler refuses one, and are bracketed in any case.
 */
module StabsReaders {
  import opened Addresses
  import opened Options
  import opened StabsEvents

  // ---------------------------------------------------------------------------------------
  // What remains to be delivered
  // ---------------------------------------------------------------------------------------

  /** What delivering the plan of the remaining entries gives. */
  ghost function Pending(h: Handler, sent: seq<Event>, s: State, es: seq<Entry>, machO: bool): Delivery {
    Deliver(h, sent, Plan(s, es, machO))
  }

  /** An entry that calls for nothing is skipped. */
  lemma Skip(h: Handler, sent: seq<Event>, s: State, es: seq<Entry>, i: nat, machO: bool)
    requires i < |es| && Take(s, es[i], machO).events == []
    ensures Pending(h, sent, s, es[i..], machO) == Pending(h, sent, Take(s, es[i], machO).state, es[i + 1..], machO)
  {
    hide Take, Deliver;
    assert es[i..][1..] == es[i + 1..];
    assert [] + Plan(Take(s, es[i], machO).state, es[i + 1..], machO)
        == Plan(Take(s, es[i], machO).state, es[i + 1..], machO);
  }

  /** An entry that calls for one event. */
  lemma One(h: Handler, sent: seq<Event>, s: State, es: seq<Entry>, i: nat, machO: bool, ev: Event)
    requires i < |es| && Take(s, es[i], machO).events == [ev]
    ensures Pending(h, sent, s, es[i..], machO) ==
            if h(sent + [ev]) then Pending(h, sent + [ev], Take(s, es[i], machO).state, es[i + 1..], machO)
            else Delivery(sent + [ev], false)
  {
    assert es[i..][1..] == es[i + 1..];
    DeliverOne(h, sent, ev, Plan(Take(s, es[i], machO).state, es[i + 1..], machO));
    hide Take, Deliver;
  }

  /** An entry that ends something and is then taken in the state outside it. */
  lemma EndThen(h: Handler, sent: seq<Event>, s: State, t: State, es: seq<Entry>, i: nat, machO: bool, ev: Event)
    requires i < |es| && Take(s, es[i], machO) == After([ev], Take(t, es[i], machO))
    ensures Pending(h, sent, s, es[i..], machO) ==
            if h(sent + [ev]) then Pending(h, sent + [ev], t, es[i..], machO) else Delivery(sent + [ev], false)
  {
    var more := Take(t, es[i], machO);
    var rest := Plan(more.state, es[i..][1..], machO);
    assert [ev] + more.events + rest == [ev] + (more.events + rest);
    DeliverOne(h, sent, ev, more.events + rest);
    hide Take, Deliver;
  }

  /** At the end of the entries. */
  lemma EndAtEnd(h: Handler, sent: seq<Event>, s: State, t: State, machO: bool, ev: Event)
    requires AtEnd(s) == [ev] + AtEnd(t)
    ensures Pending(h, sent, s, [], machO) ==
            if h(sent + [ev]) then Pending(h, sent + [ev], t, [], machO) else Delivery(sent + [ev], false)
  {
    DeliverOne(h, sent, ev, AtEnd(t));
    hide Deliver;
  }

  /** Delivering lines `i` and on of those queued, then the rest. */
  ghost function PendingLines(h: Handler, sent: seq<Event>, queued: seq<QueuedLine>, i: nat, s: State, es: seq<Entry>,
                              machO: bool): Delivery
    requires i <= |queued|
  {
    Deliver(h, sent, Lines(queued[i..]) + Plan(s, es, machO))
  }

  lemma LineNext(h: Handler, sent: seq<Event>, queued: seq<QueuedLine>, i: nat, s: State, es: seq<Entry>, machO: bool)
    requires i < |queued|
    ensures var ev := Line(queued[i].address, queued[i].file, queued[i].number);
            PendingLines(h, sent, queued, i, s, es, machO) ==
            if h(sent + [ev]) then PendingLines(h, sent + [ev], queued, i + 1, s, es, machO)
            else Delivery(sent + [ev], false)
  {
    hide Deliver, Plan;
    var ev := Line(queued[i].address, queued[i].file, queued[i].number);
    LinesFrom(queued, i);
    var rest := Lines(queued[i + 1..]) + Plan(s, es, machO);
    assert Lines(queued[i..]) + Plan(s, es, machO) == [ev] + rest;
    DeliverOne(h, sent, ev, rest);
  }

  lemma LinesFrom(queued: seq<QueuedLine>, i: nat)
    requires i < |queued|
    ensures Lines(queued[i..]) == [Line(queued[i].address, queued[i].file, queued[i].number)] + Lines(queued[i + 1..])
  {
    assert queued[i..][1..] == queued[i + 1..];
  }

  lemma LinesDone(h: Handler, sent: seq<Event>, queued: seq<QueuedLine>, s: State, es: seq<Entry>, machO: bool)
    ensures PendingLines(h, sent, queued, |queued|, s, es, machO) == Pending(h, sent, s, es, machO)
  {
    assert queued[|queued|..] == [];
    assert [] + Plan(s, es, machO) == Plan(s, es, machO);
    hide Deliver;
  }

  lemma FunctionBegins(h: Handler, sent: seq<Event>, file: string, queued: seq<QueuedLine>, es: seq<Entry>, i: nat,
                       machO: bool)
    requires i < |es| && es[i].kind == FUN
    ensures var ev := StartFunction(BeforeColon(es[i].name), es[i].value);
            Pending(h, sent, Unit(file, queued), es[i..], machO) ==
            if h(sent + [ev])
            then PendingLines(h, sent + [ev], queued, 0, Function(file, es[i].value), es[i + 1..], machO)
            else Delivery(sent + [ev], false)
  {
    var ev := StartFunction(BeforeColon(es[i].name), es[i].value);
    assert es[i..][1..] == es[i + 1..] && queued[0..] == queued;
    var rest := Plan(Function(file, es[i].value), es[i + 1..], machO);
    assert [ev] + Lines(queued) + rest == [ev] + (Lines(queued) + rest);
    DeliverOne(h, sent, ev, Lines(queued) + rest);
    hide Deliver;
  }

  lemma FunctionLine(h: Handler, sent: seq<Event>, file: string, start: Address, es: seq<Entry>, i: nat, machO: bool)
    requires i < |es| && es[i].kind == SLINE
    ensures var ev := Line(Plus(start, es[i].value), file, LineNumber(es[i].descriptor));
            Pending(h, sent, Function(file, start), es[i..], machO) ==
            if h(sent + [ev]) then Pending(h, sent + [ev], Function(file, start), es[i + 1..], machO)
            else Delivery(sent + [ev], false)
  {
    var ev := Line(Plus(start, es[i].value), file, LineNumber(es[i].descriptor));
    hide Pending;
    One(h, sent, Function(file, start), es, i, machO, ev);
  }

  /** Entries in a function that call for nothing; one may name another file. */
  lemma FunctionSkip(h: Handler, sent: seq<Event>, file: string, start: Address, es: seq<Entry>, i: nat, machO: bool)
    requires i < |es| && es[i].kind !in {SO, FUN, SLINE}
    ensures Pending(h, sent, Function(file, start), es[i..], machO)
         == Pending(h, sent, Function(if es[i].kind == SOL then es[i].name else file, start), es[i + 1..], machO)
  {
    hide Pending;
    Skip(h, sent, Function(file, start), es, i, machO);
  }

  /** Entries in a unit, outside functions: lines are queued. */
  lemma UnitSkip(h: Handler, sent: seq<Event>, file: string, queued: seq<QueuedLine>, es: seq<Entry>, i: nat,
                 machO: bool)
    requires i < |es| && es[i].kind !in {SO, FUN}
    ensures Pending(h, sent, Unit(file, queued), es[i..], machO)
         == Pending(h, sent, Unit(if es[i].kind == SOL then es[i].name else file,
                                  if es[i].kind == SLINE then queued + [Queue(es[i], file)] else queued),
                          es[i + 1..], machO)
  {
    hide Pending;
    Skip(h, sent, Unit(file, queued), es, i, machO);
  }

  /** The end of a unit: an entry without a name says where, and is consumed. */
  lemma UnitEnds(h: Handler, sent: seq<Event>, file: string, queued: seq<QueuedLine>, es: seq<Entry>, i: nat,
                 machO: bool)
    requires i <= |es| && (i < |es| ==> es[i].kind == SO)
    ensures var marked := i < |es| && es[i].name == "";
            var ev := EndCompilationUnit(if marked then es[i].value else 0);
            Pending(h, sent, Unit(file, queued), es[i..], machO) ==
            if h(sent + [ev]) then Pending(h, sent + [ev], Between, es[if marked then i + 1 else i..], machO)
            else Delivery(sent + [ev], false)
  {
    hide Pending;
    if i == |es| {
      assert es[i..] == [];
      EndAtEnd(h, sent, Unit(file, queued), Between, machO, EndCompilationUnit(0));
    } else if es[i].name == "" {
      One(h, sent, Unit(file, queued), es, i, machO, EndCompilationUnit(es[i].value));
    } else {
      EndThen(h, sent, Unit(file, queued), Between, es, i, machO, EndCompilationUnit(0));
    }
  }

  /** Before a unit, with or without a directory entry. */
  ghost function Before(directory: Option<string>): State {
    if directory.None? then Between else Directory(directory.value)
  }

  lemma UnitBegins(h: Handler, sent: seq<Event>, directory: Option<string>, es: seq<Entry>, i: nat, machO: bool)
    requires i < |es| && es[i].kind == SO && es[i].name != "" && (directory.None? ==> !EndsInSlash(es[i].name))
    ensures var ev := StartCompilationUnit(es[i].name, es[i].value, directory);
            Pending(h, sent, Before(directory), es[i..], machO) ==
            if h(sent + [ev]) then Pending(h, sent + [ev], Unit(es[i].name, []), es[i + 1..], machO)
            else Delivery(sent + [ev], false)
  {
    hide Pending;
    One(h, sent, Before(directory), es, i, machO, StartCompilationUnit(es[i].name, es[i].value, directory));
  }

  /** A unit entry without a name where no unit is open. */
  lemma StrayEnd(h: Handler, sent: seq<Event>, directory: Option<string>, es: seq<Entry>, i: nat, machO: bool)
    requires i < |es| && es[i].kind == SO && es[i].name == ""
    ensures Pending(h, sent, Before(directory), es[i..], machO) == Pending(h, sent, Between, es[i + 1..], machO)
  {
    hide Pending;
    Skip(h, sent, Before(directory), es, i, machO);
  }

  lemma DirectoryEntry(h: Handler, sent: seq<Event>, es: seq<Entry>, i: nat, machO: bool)
    requires i < |es| && es[i].kind == SO && EndsInSlash(es[i].name)
    ensures Pending(h, sent, Between, es[i..], machO) == Pending(h, sent, Before(Some(es[i].name)), es[i + 1..], machO)
  {
    hide Pending;
    Skip(h, sent, Between, es, i, machO);
  }

  /** A directory entry that no other unit entry follows. */
  lemma DirectoryAlone(h: Handler, sent: seq<Event>, d: string, es: seq<Entry>, i: nat, machO: bool)
    requires i <= |es| && (i < |es| ==> es[i].kind != SO)
    ensures Pending(h, sent, Before(Some(d)), es[i..], machO) == Pending(h, sent, Between, es[i..], machO)
  {
    hide Deliver;
  }

  lemma NothingPending(h: Handler, sent: seq<Event>, es: seq<Entry>, machO: bool)
    ensures Pending(h, sent, Between, es[|es|..], machO) == Delivery(sent, true)
  {
  }

  // ---------------------------------------------------------------------------------------
  // The reader
  // ---------------------------------------------------------------------------------------

  class StabsReader {
    const entries: seq<Entry>
    const machO: bool
    const handler: Handler
    /** The index of the current entry. */
    var at: nat
    var file: string
    var queued: seq<QueuedLine>
    /** The calls made so far. */
    var sent: seq<Event>

    ghost predicate Valid()
      reads this
    {
      at <= |entries| && PhaseAfter(sent).Some?
    }

    ghost predicate In(p: Phase)
      reads this
    {
      Valid() && PhaseAfter(sent) == Some(p)
    }

    /** The last call was for a unit, a function or a line. */
    ghost predicate EndsInUnit()
      reads this
    {
      |sent| > 0 && !sent[|sent| - 1].Extern?
    }

    /** What remains to be delivered in state `s`. */
    ghost function Todo(s: State): Delivery
      requires Valid()
      reads this
    {
      Pending(handler, sent, s, entries[at..], machO)
    }

    constructor (entries: seq<Entry>, machO: bool, handler: Handler)
      ensures In(Outside) && this.entries == entries && this.machO == machO && this.handler == handler
      ensures at == 0 && sent == [] && queued == []
    {
      this.entries, this.machO, this.handler := entries, machO, handler;
      at, file, queued, sent := 0, "", [], [];
    }

    /** Call the handler. */
    method Call(ev: Event) returns (ok: bool)
      requires Valid() && Next(PhaseAfter(sent).value, ev).Some?
      modifies this`sent
      ensures Valid() && sent == old(sent) + [ev] && ok == handler(sent)
      ensures PhaseAfter(sent) == Next(old(PhaseAfter(sent)).value, ev)
    {
      PhaseAppend(sent, ev);
      sent := sent + [ev];
      ok := handler(sent);
    }

    /** Report the lines that came before the function. */
    method ReportQueued(ghost s: State) returns (ok: bool)
      requires In(InFunction)
      modifies this`sent, this`queued
      ensures Valid() && old(sent) <= sent
      ensures ok ==> In(InFunction) && queued == []
      ensures ok ==> Todo(s) == old(PendingLines(handler, sent, queued, 0, s, entries[at..], machO))
      ensures !ok ==> old(PendingLines(handler, sent, queued, 0, s, entries[at..], machO)) == Delivery(sent, false)
      ensures !ok ==> EndsInUnit()
    {
      hide PendingLines, Pending, PhaseAfter;
      ghost var goal := PendingLines(handler, sent, queued, 0, s, entries[at..], machO);
      var i := 0;
      while i < |queued|
        invariant i <= |queued| && queued == old(queued) && In(InFunction) && old(sent) <= sent
        invariant goal == PendingLines(handler, sent, queued, i, s, entries[at..], machO)
      {
        LineNext(handler, sent, queued, i, s, entries[at..], machO);
        ok := Call(Line(queued[i].address, queued[i].file, queued[i].number));
        if !ok {
          return false;
        }
        i := i + 1;
      }
      LinesDone(handler, sent, queued, s, entries[at..], machO);
      queued := [];
      return true;
    }

    /** The entries of a function up to the next function or unit. */
    method FunctionBody(start: Address) returns (ok: bool)
      requires In(InFunction)
      modifies this`at, this`sent, this`file
      ensures Valid() && at >= old(at) && old(sent) <= sent
      ensures ok ==> In(InFunction) && (at < |entries| ==> entries[at].kind in {SO, FUN})
      ensures ok ==> Todo(Function(file, start)) == old(Todo(Function(file, start)))
      ensures !ok ==> old(Todo(Function(file, start))) == Delivery(sent, false) && EndsInUnit()
    {
      hide Pending, PhaseAfter;
      ghost var goal := Todo(Function(file, start));
      while at < |entries|
        invariant In(InFunction) && at >= old(at) && old(sent) <= sent && goal == Todo(Function(file, start))
        decreases |entries| - at
      {
        var e := entries[at];
        if e.kind == SO || e.kind == FUN {
          break;
        } else if e.kind == SLINE {
          FunctionLine(handler, sent, file, start, entries, at, machO);
          ok := Call(Line(Plus(start, e.value), file, LineNumber(e.descriptor)));
          if !ok {
            return false;
          }
        } else {
          FunctionSkip(handler, sent, file, start, entries, at, machO);
          if e.kind == SOL {
            file := e.name;
          }
        }
        at := at + 1;
      }
      return true;
    }

    /** Report where the function ends, if it can be told. */
    method FunctionEnd(start: Address) returns (ok: bool)
      requires In(InFunction) && (at < |entries| ==> entries[at].kind in {SO, FUN})
      modifies this`at, this`sent
      ensures Valid() && at >= old(at) && old(sent) <= sent
      ensures sent == old(sent) + [EndFunction(
                if old(at) == |entries| then 0
                else if entries[old(at)].kind == FUN && entries[old(at)].name == ""
                then Plus(start, entries[old(at)].value)
                else entries[old(at)].value)]
      ensures ok ==> In(InUnit) && Todo(Unit(file, [])) == old(Todo(Function(file, start)))
      ensures !ok ==> old(Todo(Function(file, start))) == Delivery(sent, false) && EndsInUnit()
    {
      var ending := 0;
      if at < |entries| {
        var e := entries[at];
        if e.kind == FUN && e.name == "" {
          ending := Plus(start, e.value);
          One(handler, sent, Function(file, start), entries, at, machO, EndFunction(ending));
          at := at + 1;
        } else {
          ending := e.value;
          EndThen(handler, sent, Function(file, start), Unit(file, []), entries, at, machO, EndFunction(ending));
        }
      } else {
        assert entries[at..] == [];
        EndAtEnd(handler, sent, Function(file, start), Unit(file, []), machO, EndFunction(0));
      }
      hide Pending, PhaseAfter;
      ok := Call(EndFunction(ending));
    }

    method ProcessFunction() returns (ok: bool)
      requires In(InUnit) && at < |entries| && entries[at].kind == FUN
      modifies this
      ensures Valid() && at >= old(at) && old(sent) <= sent
      ensures ok ==> In(InUnit) && queued == [] && at > old(at) && Todo(Unit(file, [])) == old(Todo(Unit(file, queued)))
      ensures !ok ==> old(Todo(Unit(file, queued))) == Delivery(sent, false) && EndsInUnit()
    {
      hide Pending, PendingLines, PhaseAfter;
      var e := entries[at];
      FunctionBegins(handler, sent, file, queued, entries, at, machO);
      ok := Call(StartFunction(BeforeColon(e.name), e.value));
      if !ok {
        return false;
      }
      at := at + 1;
      ok := ReportQueued(Function(file, e.value));
      if !ok {
        return false;
      }
      ok := FunctionBody(e.value);
      if !ok {
        return false;
      }
      ok := FunctionEnd(e.value);
    }

    /** The entries of a unit up to the next unit entry. */
    method UnitBody() returns (ok: bool)
      requires In(InUnit)
      modifies this
      ensures Valid() && at >= old(at) && old(sent) <= sent
      ensures ok ==> In(InUnit) && (at < |entries| ==> entries[at].kind == SO)
      ensures ok ==> Todo(Unit(file, queued)) == old(Todo(Unit(file, queued)))
      ensures !ok ==> old(Todo(Unit(file, queued))) == Delivery(sent, false) && EndsInUnit()
    {
      hide Pending, PhaseAfter;
      ghost var goal := Todo(Unit(file, queued));
      while at < |entries| && entries[at].kind != SO
        invariant In(InUnit) && at >= old(at) && old(sent) <= sent && goal == Todo(Unit(file, queued))
        decreases |entries| - at
      {
        var e := entries[at];
        if e.kind == FUN {
          ok := ProcessFunction();
          if !ok {
            return false;
          }
        } else {
          UnitSkip(handler, sent, file, queued, entries, at, machO);
          if e.kind == SLINE {
            queued := queued + [Queue(e, file)];
          } else if e.kind == SOL {
            file := e.name;
          }
          at := at + 1;
        }
      }
      return true;
    }

    /** Skip a directory entry and report the start of the unit; `started` is false where no unit follows. */
    method UnitStart() returns (ok: bool, started: bool)
      requires In(Outside) && queued == [] && at < |entries| && entries[at].kind == SO
      modifies this
      ensures Valid() && queued == [] && at >= old(at) && old(sent) <= sent
      ensures ok ==> at > old(at) && In(if started then InUnit else Outside)
      ensures ok ==> Todo(if started then Unit(file, []) else Between) == old(Todo(Between))
      ensures !ok ==> old(Todo(Between)) == Delivery(sent, false) && EndsInUnit()
    {
      hide Pending, PhaseAfter, Before, EndsInSlash;
      var directory := SkipDirectory();
      if at == |entries| || entries[at].kind != SO {
        DirectoryAlone(handler, sent, directory.value, entries, at, machO);
        return true, false;
      }
      var name := entries[at].name;
      if name == "" {
        StrayEnd(handler, sent, directory, entries, at, machO);
        at := at + 1;
        return true, false;
      }
      file := name;
      UnitBegins(handler, sent, directory, entries, at, machO);
      ok := Call(StartCompilationUnit(file, entries[at].value, directory));
      if !ok {
        return false, false;
      }
      at := at + 1;
      return true, true;
    }

    method SkipDirectory() returns (directory: Option<string>)
      requires In(Outside) && at < |entries| && entries[at].kind == SO
      modifies this`at
      ensures In(Outside) && Todo(Before(directory)) == old(Todo(Between))
      ensures directory.Some? <==> EndsInSlash(entries[old(at)].name)
      ensures at == old(at) + if directory.Some? then 1 else 0
    {
      hide Pending, PhaseAfter;
      var name := entries[at].name;
      if EndsInSlash(name) {
        DirectoryEntry(handler, sent, entries, at, machO);
        at := at + 1;
        return Some(name);
      }
      return None;
    }

    method ProcessCompilationUnit() returns (ok: bool)
      requires In(Outside) && queued == [] && at < |entries| && entries[at].kind == SO
      modifies this
      ensures Valid() && at >= old(at) && old(sent) <= sent
      ensures ok ==> In(Outside) && queued == [] && at > old(at) && Todo(Between) == old(Todo(Between))
      ensures !ok ==> old(Todo(Between)) == Delivery(sent, false) && EndsInUnit()
    {
      hide Pending, PhaseAfter;
      var started;
      ok, started := UnitStart();
      if !ok || !started {
        return ok;
      }
      ok := UnitBody();
      if !ok {
        return false;
      }
      UnitEnds(handler, sent, file, queued, entries, at, machO);
      var ending := 0;
      if at < |entries| && entries[at].name == "" {
        ending := entries[at].value;
        at := at + 1;
      }
      ok := Call(EndCompilationUnit(ending));
      if !ok {
        return false;
      }
      queued := [];
      return true;
    }

    /** The current entry is an exported symbol. */
    predicate AtExtern()
      reads this
    {
      machO && at < |entries| && entries[at].kind == Exported
    }

    method ProcessExtern() returns (ok: bool)
      requires In(Outside) && AtExtern()
      modifies this`at, this`sent
      ensures In(Outside) && sent == old(sent) + [Extern(entries[old(at)].name, entries[old(at)].value)]
      ensures ok == handler(sent) && at == old(at) + if ok then 1 else 0
      ensures ok ==> Todo(Between) == old(Todo(Between))
      ensures !ok ==> old(Todo(Between)) == Delivery(sent, false)
    {
      One(handler, sent, Between, entries, at, machO, Extern(entries[at].name, entries[at].value));
      hide Pending, PhaseAfter;
      ok := Call(Extern(entries[at].name, entries[at].value));
      if !ok {
        return false;
      }
      at := at + 1;
      return true;
    }

    /**
     * One pass of the loop in Process. It consumes an entry unless that is an exported symbol which
     * the handler refuses: what ProcessExtern returns is ignored.
     */
    method Pass() returns (ok: bool)
      requires In(Outside) && queued == [] && at < |entries|
      modifies this
      ensures Valid() && at >= old(at) && old(sent) <= sent
      ensures !ok ==> !old(AtExtern()) && old(Todo(Between)) == Delivery(sent, false) && EndsInUnit()
      ensures ok ==> In(Outside) && queued == []
      ensures ok ==> (at > old(at) <==> !(old(AtExtern()) && !handler(sent)))
      ensures ok && at > old(at) ==> Todo(Between) == old(Todo(Between))
      ensures ok && at == old(at) ==> old(Todo(Between)) == Delivery(sent, false)
      ensures old(AtExtern()) ==> sent == old(sent) + [Extern(entries[old(at)].name, entries[old(at)].value)]
    {
      if entries[at].kind == SO {
        ok := ProcessCompilationUnit();
      } else if AtExtern() {
        var _ := ProcessExtern();
        ok := true;
      } else {
        Skip(handler, sent, Between, entries, at, machO);
        at := at + 1;
        ok := true;
      }
    }

    /** The handler has refused an exported symbol, at some call after the first `n`. */
    ghost predicate RefusedExtern(n: nat)
      reads this
    {
      exists i :: n <= i < |sent| && sent[i].Extern? && !handler(sent[..i + 1])
    }

    /**
     * At most `passes` passes of Process, which goes on until the entries are used up or a call for
     * a unit or function is refused.
     *
     * The calls are bracketed in any case. Given as many passes as there are entries, Process stops
     * at the first refusal, having made the calls that the entries call for up to there, if and only
     * if the first refusal, if any, is not of an exported symbol. Passes can run short only when an
     * exported symbol was refused; while the handler refuses the one at hand, every pass repeats the
     * call.
     */
    method Process(passes: nat) returns (finished: bool, ok: bool)
      requires In(Outside) && queued == []
      modifies this
      ensures Valid() && at >= old(at) && old(sent) <= sent
      ensures finished && ok ==> at == |entries| && In(Outside)
      ensures passes >= |entries| - old(at) ==>
                (finished && Delivery(sent, ok) == old(Todo(Between)) <==> !StopsAtExtern(old(Todo(Between))))
      ensures passes >= |entries| - old(at) && !finished ==> machO && RefusedExtern(old(|sent|))
      ensures old(AtExtern()) && Refuses(handler, entries[old(at)]) ==>
                !finished && at == old(at) && |sent| == old(|sent|) + passes
    {
      hide Pending, PhaseAfter;
      ghost var goal, refused := Todo(Between), false;
      var n := 0;
      while at < |entries| && n < passes
        invariant n <= passes && In(Outside) && queued == [] && at >= old(at)
        invariant old(sent) <= sent && (refused ==> machO && RefusedExtern(old(|sent|)))
        invariant if refused then StopsAtExtern(goal) else at - old(at) >= n && Todo(Between) == goal
        invariant old(AtExtern()) && Refuses(handler, entries[old(at)]) ==> at == old(at) && |sent| == old(|sent|) + n
        decreases passes - n
      {
        label Before:
        ghost var was := sent;
        ok := Pass();
        if !ok {
          return true, false;
        }
        if refused {
          var i :| old(|sent|) <= i < |was| && was[i].Extern? && !handler(was[..i + 1]);
          assert sent[i].Extern? && sent[..i + 1] == was[..i + 1];
        }
        if at == old@Before(at) {
          refused := true;
          assert sent[|was|].Extern? && sent[..|was| + 1] == sent;
        }
        n := n + 1;
      }
      if at == |entries| {
        NothingPending(handler, sent, entries, machO);
      }
      return at == |entries|, true;
    }
  }

  /** Delivery stops at an exported symbol that is refused. */
  ghost predicate StopsAtExtern(d: Delivery) {
    !d.ok && |d.events| > 0 && d.events[|d.events| - 1].Extern?
  }

  /** The handler refuses the symbol whenever it is reported. */
  ghost predicate Refuses(h: Handler, e: Entry) {
    forall sent: seq<Event> :: !h(sent + [Extern(e.name, e.value)])
  }
}
