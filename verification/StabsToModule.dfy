/**
 * StabsToModule: the handler that collects functions and lines from a STABS reader. Its assertions
 * hold for every reader and every input, and the sizes it infers make functions end where the next
 * one starts and lines fill their functions.
 */
module StabsToModules {
  import opened Addresses
  import opened Options
  import opened Sorting
  import opened StabsEvents

  /** A source line, once its size is known. */
  datatype SourceLine = SourceLine(address: Address, size: Address, file: string, number: nat)

  datatype Routine = Routine(name: string, address: Address, size: Address, lines: seq<SourceLine>)

  datatype Symbol = Symbol(name: string, address: Address)

  const FALLBACK_SIZE: Address := 0x1000_0000

  // ---------------------------------------------------------------------------------------
  // Sizes
  // ---------------------------------------------------------------------------------------

  ghost predicate SortedAddresses(bs: seq<Address>) {
    forall i, j :: 0 <= i < j < |bs| ==> bs[i] <= bs[j]
  }

  /** std::upper_bound. */
  method UpperBound(bs: seq<Address>, a: Address) returns (k: nat)
    requires SortedAddresses(bs)
    ensures k <= |bs| && (forall i :: 0 <= i < k ==> bs[i] <= a) && (forall i :: k <= i < |bs| ==> a < bs[i])
  {
    var hi := |bs|;
    k := 0;
    while k < hi
      invariant k <= hi <= |bs|
      invariant (forall i :: 0 <= i < k ==> bs[i] <= a) && (forall i :: hi <= i < |bs| ==> a < bs[i])
    {
      var mid := (k + hi) / 2;
      if bs[mid] <= a {
        k := mid + 1;
      } else {
        hi := mid;
      }
    }
  }

  /** `size` reaches from `a` to the nearest boundary behind it, and is the fallback where there is none. */
  ghost predicate ReachesBoundary(a: Address, size: Address, bs: seq<Address>) {
    if exists b :: b in bs && a < b
    then a + size in bs && 0 < size && forall b :: b in bs && a < b ==> a + size <= b
    else size == FALLBACK_SIZE
  }

  /** Each line reaches to the next one, and the last one to `end`, in 64-bit arithmetic. */
  ghost predicate Tiles(lines: seq<SourceLine>, end: Address) {
    && (forall k :: 0 <= k < |lines| - 1 ==> lines[k].address + lines[k].size == lines[k + 1].address)
    && (lines != [] ==> Plus(lines[|lines| - 1].address, lines[|lines| - 1].size) == end)
  }

  ghost predicate SameLine(l: SourceLine, m: SourceLine) {
    l.address == m.address && l.file == m.file && l.number == m.number
  }

  /** `after` lists `before` stably sorted by address, up to sizes. */
  ghost predicate SortedLines(before: seq<SourceLine>, after: seq<SourceLine>) {
    exists perm :: Rearranged(before, after, perm)
  }

  ghost predicate Rearranged(before: seq<SourceLine>, after: seq<SourceLine>, perm: seq<nat>) {
    && |after| == |perm| == |before| && Ordering(LineKeys(before), perm)
    && (forall i :: 0 <= i < |after| ==> perm[i] < |before| && SameLine(after[i], before[perm[i]]))
  }

  function LineKeys(lines: seq<SourceLine>): (r: seq<int>)
    ensures |r| == |lines|
  {
    seq(|lines|, i requires 0 <= i < |lines| => lines[i].address)
  }

  ghost predicate ByAddress(lines: seq<SourceLine>) {
    forall i, j :: 0 <= i < j < |lines| ==> lines[i].address <= lines[j].address
  }

  ghost predicate SameLines(a: seq<SourceLine>, b: seq<SourceLine>) {
    |a| == |b| && forall i :: 0 <= i < |a| ==> SameLine(a[i], b[i])
  }

  lemma StablySorted(lines: seq<SourceLine>, sorted: seq<SourceLine>, perm: seq<nat>)
    requires Ordering(LineKeys(lines), perm) && Rearranges(lines, sorted, perm)
    ensures ByAddress(sorted) && Rearranged(lines, sorted, perm)
  {
    forall i, j | 0 <= i < j < |sorted| ensures sorted[i].address <= sorted[j].address {
      assert LineKeys(lines)[perm[i]] <= LineKeys(lines)[perm[j]];
    }
  }

  lemma SizesOnly(lines: seq<SourceLine>, sorted: seq<SourceLine>, perm: seq<nat>, r: seq<SourceLine>)
    requires Rearranged(lines, sorted, perm) && SameLines(r, sorted)
    ensures SortedLines(lines, r)
  {
    hide Ordering;
    assert Rearranged(lines, r, perm);
  }

  /** The sizes of lines in order. */
  method FillSizes(sorted: seq<SourceLine>, end: Address) returns (r: seq<SourceLine>)
    requires ByAddress(sorted)
    ensures SameLines(r, sorted) && Tiles(r, end)
  {
    r := sorted;
    if r == [] {
      return;
    }
    for k := 0 to |r| - 1
      invariant SameLines(r, sorted)
      invariant forall i :: 0 <= i < k ==> r[i].address + r[i].size == r[i + 1].address
    {
      assert SameLine(r[k], sorted[k]) && SameLine(r[k + 1], sorted[k + 1]);
      r := r[k := r[k].(size := Minus(r[k + 1].address, r[k].address))];
    }
    var last := |r| - 1;
    r := r[last := r[last].(size := Minus(end, r[last].address))];
  }

  /** Sort the lines of a function and compute their sizes. */
  method SizeLines(lines: seq<SourceLine>, end: Address) returns (r: seq<SourceLine>)
    ensures SortedLines(lines, r) && Tiles(r, end)
  {
    hide *;
    var sorted, perm := StableSort(lines, LineKeys(lines));
    StablySorted(lines, sorted, perm);
    r := FillSizes(sorted, end);
    SizesOnly(lines, sorted, perm, r);
  }

  /** What Finalize makes of one function. */
  ghost predicate Sized(f: Routine, g: Routine, bs: seq<Address>) {
    && g.name == f.name && g.address == f.address && ReachesBoundary(f.address, g.size, bs)
    && SortedLines(f.lines, g.lines) && Tiles(g.lines, Plus(g.address, g.size))
  }

  method SizeFunction(f: Routine, bs: seq<Address>) returns (g: Routine)
    requires SortedAddresses(bs)
    ensures Sized(f, g, bs)
  {
    var size := FunctionSize(f.address, bs);
    hide SortedLines, Tiles, ReachesBoundary, Plus;
    var lines := SizeLines(f.lines, Plus(f.address, size));
    g := Routine(f.name, f.address, size, lines);
  }

  method FunctionSize(a: Address, bs: seq<Address>) returns (size: Address)
    requires SortedAddresses(bs)
    ensures ReachesBoundary(a, size, bs)
  {
    var k := UpperBound(bs, a);
    if k < |bs| {
      assert bs[k] in bs && a < bs[k];
      return Minus(bs[k], a);
    } else {
      return FALLBACK_SIZE;
    }
  }

  /** Functions that start at different addresses do not overlap. */
  lemma NoOverlap(f: Routine, g: Routine, bs: seq<Address>)
    requires ReachesBoundary(f.address, f.size, bs) && g.address in bs && f.address < g.address
    ensures f.address + f.size <= g.address
  {
  }

  /**
   * The lines of a function that lie in its range fill it from the first line to its end, without
   * overlap: every address from the first line on belongs to exactly one piece of the row.
   */
  lemma TilesFill(lines: seq<SourceLine>, start: Address, size: Address, a: Address)
    requires start + size <= SPACE && Tiles(lines, Plus(start, size)) && lines != []
    requires forall i :: 0 <= i < |lines| ==> start <= lines[i].address < start + size
    requires lines[0].address <= a < start + size
    ensures exists k :: 0 <= k < |lines| && lines[k].address <= a < lines[k].address + lines[k].size
  {
    var k := 0;
    while k < |lines| - 1 && lines[k + 1].address <= a
      invariant k < |lines| && lines[k].address <= a
    {
      k := k + 1;
    }
    assert lines[k].address <= a < lines[k].address + lines[k].size;
  }

  lemma {:induction false} TilesAscend(lines: seq<SourceLine>, end: Address, i: nat, j: nat)
    requires Tiles(lines, end) && i < j < |lines|
    ensures lines[i].address + lines[i].size <= lines[j].address
    decreases j - i
  {
    if i + 1 < j {
      TilesAscend(lines, end, i + 1, j);
    }
  }

  // ---------------------------------------------------------------------------------------
  // What the calls amount to
  // ---------------------------------------------------------------------------------------

  /** All addresses at which something starts or is said to end. */
  ghost function BoundariesOf(events: seq<Event>): seq<Address> {
    if events == [] then []
    else BoundariesOf(events[..|events| - 1]) + Boundary(events[|events| - 1])
  }

  function Boundary(ev: Event): seq<Address> {
    match ev
    case StartCompilationUnit(_, a, _) => [a]
    case StartFunction(_, a) => [a]
    case EndCompilationUnit(a) => if a != 0 then [a] else []
    case EndFunction(a) => if a != 0 then [a] else []
    case _ => []
  }

  /** The start address of the open unit; zero outside units. */
  ghost function UnitBase(events: seq<Event>): Address {
    if events == [] then 0
    else
      match events[|events| - 1]
      case StartCompilationUnit(_, a, _) => a
      case EndCompilationUnit(_) => 0
      case _ => UnitBase(events[..|events| - 1])
  }

  /** A unit has started and not ended. */
  ghost predicate UnitOpen(events: seq<Event>) {
    if events == [] then false
    else
      match events[|events| - 1]
      case StartCompilationUnit(_, _, _) => true
      case EndCompilationUnit(_) => false
      case _ => UnitOpen(events[..|events| - 1])
  }

  /** The source file that is current. */
  ghost function CurrentFile(events: seq<Event>): Option<string> {
    if events == [] then None
    else
      match events[|events| - 1]
      case StartCompilationUnit(name, _, _) => Some(name)
      case EndCompilationUnit(_) => None
      case Line(_, name, _) => Some(name)
      case _ => CurrentFile(events[..|events| - 1])
  }

  /** The function that has started and not ended, with its lines so far. */
  ghost function OpenFunction(events: seq<Event>, demangle: string -> string): Option<Routine> {
    if events == [] then None
    else
      var before := OpenFunction(events[..|events| - 1], demangle);
      match events[|events| - 1]
      case StartFunction(name, a) => Some(Routine(demangle(name), a, 0, []))
      case EndFunction(_) => None
      case Line(a, file, number) =>
        if before.None? then None
        else Some(before.value.(lines := before.value.lines + [SourceLine(a, 0, file, number)]))
      case _ => before
  }

  /** The functions that have ended, except those that start before their unit. */
  ghost function Kept(events: seq<Event>, demangle: string -> string): seq<Routine> {
    if events == [] then []
    else
      var before := events[..|events| - 1];
      var open := OpenFunction(before, demangle);
      Kept(before, demangle) +
      (if events[|events| - 1].EndFunction? && open.Some? && open.value.address >= UnitBase(before)
       then [open.value] else [])
  }

  /** The name of an exported symbol, without the underscore of the platform. */
  function ExternName(name: string, demangle: string -> string): string {
    if |name| >= 3 && name[..3] == "__Z" then demangle(name[1..])
    else if name != "" && name[0] == '_' then name[1..]
    else name
  }

  /** C++ names are demangled without the underscore of the platform, and others lose it. */
  lemma ExternNames(name: string, demangle: string -> string)
    ensures ExternName("__Z" + name, demangle) == demangle("_Z" + name)
    ensures !("_Z" <= name) ==> ExternName("_" + name, demangle) == name
    ensures !("_" <= name) ==> ExternName(name, demangle) == name
  {
    assert ("__Z" + name)[1..] == "_Z" + name && ("__Z" + name)[..3] == "__Z";
    assert ("_" + name)[1..] == name;
    if |name| >= 2 && ("_" + name)[..3] == "__Z" {
      assert name[..2] == ("_" + name)[1..3];
    }
  }

  /** The exported symbols; the first one at an address counts. */
  ghost function ExternsOf(events: seq<Event>, demangle: string -> string): map<Address, string> {
    if events == [] then map[]
    else
      var before, ev := ExternsOf(events[..|events| - 1], demangle), events[|events| - 1];
      if ev.Extern? && ev.address !in before then before[ev.address := ExternName(ev.name, demangle)] else before
  }

  lemma {:induction false} OpenStarts(events: seq<Event>, demangle: string -> string)
    ensures OpenFunction(events, demangle).Some? ==>
            OpenFunction(events, demangle).value.address in BoundariesOf(events)
  {
    if events != [] {
      OpenStarts(events[..|events| - 1], demangle);
    }
  }

  /** Every function's start is a boundary. */
  lemma {:induction false} KeptStart(events: seq<Event>, demangle: string -> string, i: nat)
    requires i < |Kept(events, demangle)|
    ensures Kept(events, demangle)[i].address in BoundariesOf(events)
  {
    var before := events[..|events| - 1];
    if i < |Kept(before, demangle)| {
      KeptStart(before, demangle, i);
    } else {
      OpenStarts(before, demangle);
    }
  }

  // ---------------------------------------------------------------------------------------
  // Functions without a name
  // ---------------------------------------------------------------------------------------

  ghost predicate SomeUnnamed(fs: seq<Routine>) {
    exists i :: 0 <= i < |fs| && fs[i].name == ""
  }

  lemma SomeUnnamedAppend(fs: seq<Routine>, f: Routine)
    ensures SomeUnnamed(fs + [f]) <==> SomeUnnamed(fs) || f.name == ""
  {
    assert (fs + [f])[|fs|] == f;
    if SomeUnnamed(fs) {
      var i :| 0 <= i < |fs| && fs[i].name == "";
      assert (fs + [f])[i] == fs[i];
    }
  }

  /** Laying functions out keeps their names. */
  lemma LaidOutUnnamed(was: seq<Routine>, gs: seq<Routine>, perm: seq<nat>, bs: seq<Address>)
    requires LaidOut(was, gs, perm, bs)
    ensures SomeUnnamed(gs) <==> SomeUnnamed(was)
  {
    hide ReachesBoundary, SortedLines, Tiles, NoneOverlap;
    if SomeUnnamed(was) {
      var k :| 0 <= k < |was| && was[k].name == "";
      OrderingHits(RoutineKeys(was), perm, k);
    }
  }

  // ---------------------------------------------------------------------------------------
  // The handler
  // ---------------------------------------------------------------------------------------

  class StabsToModule {
    const demangle: string -> string
    var inCompilationUnit: bool
    var unitBase: Address
    var function_: Option<Routine>
    var file: Option<string>
    var fileName: Option<string>
    var functions: seq<Routine>
    var boundaries: seq<Address>
    /** The functions and exported symbols of the module. */
    var routines: map<(Address, string), Routine>
    var externs: map<Address, string>
    /** The calls received. */
    ghost var events: seq<Event>

    ghost predicate Valid()
      reads this
    {
      && (inCompilationUnit <==> UnitOpen(events)) && file == fileName == CurrentFile(events)
      && unitBase == UnitBase(events) && function_ == OpenFunction(events, demangle)
      && functions == Kept(events, demangle) && boundaries == BoundariesOf(events)
      && externs == ExternsOf(events, demangle)
    }

    constructor (demangle: string -> string)
      ensures Valid() && this.demangle == demangle && events == [] && routines == map[] && externs == map[]
    {
      this.demangle := demangle;
      inCompilationUnit, unitBase, function_, file, fileName := false, 0, None, None, None;
      functions, boundaries, routines, externs, events := [], [], map[], map[], [];
    }

    method StartCompilationUnit(name: string, address: Address, directory: Option<string>) returns (ok: bool)
      requires Valid() && !inCompilationUnit
      modifies this`inCompilationUnit, this`fileName, this`file, this`unitBase, this`boundaries, this`events
      ensures Valid() && ok && events == old(events) + [StabsEvents.StartCompilationUnit(name, address, directory)]
    {
      OneMore(events, StabsEvents.StartCompilationUnit(name, address, directory));
      inCompilationUnit := true;
      fileName, file := Some(name), Some(name);
      unitBase := address;
      boundaries := boundaries + [address];
      events := events + [StabsEvents.StartCompilationUnit(name, address, directory)];
      return true;
    }

    method EndCompilationUnit(address: Address) returns (ok: bool)
      requires Valid() && inCompilationUnit
      modifies this`inCompilationUnit, this`fileName, this`file, this`unitBase, this`boundaries, this`events
      ensures Valid() && ok && events == old(events) + [StabsEvents.EndCompilationUnit(address)]
    {
      OneMore(events, StabsEvents.EndCompilationUnit(address));
      inCompilationUnit := false;
      unitBase := 0;
      fileName, file := None, None;
      if address != 0 {
        boundaries := boundaries + [address];
      }
      events := events + [StabsEvents.EndCompilationUnit(address)];
      return true;
    }

    method StartFunction(name: string, address: Address) returns (ok: bool)
      requires Valid() && function_.None?
      modifies this`function_, this`boundaries, this`events
      ensures Valid() && ok && events == old(events) + [StabsEvents.StartFunction(name, address)]
    {
      OneMore(events, StabsEvents.StartFunction(name, address));
      function_ := Some(Routine(demangle(name), address, 0, []));
      boundaries := boundaries + [address];
      events := events + [StabsEvents.StartFunction(name, address)];
      return true;
    }

    method EndFunction(address: Address) returns (ok: bool)
      requires Valid() && function_.Some?
      modifies this`function_, this`functions, this`boundaries, this`events
      ensures Valid() && ok && events == old(events) + [StabsEvents.EndFunction(address)]
    {
      OneMore(events, StabsEvents.EndFunction(address));
      if function_.value.address >= unitBase {
        functions := functions + [function_.value];
      }
      function_ := None;
      if address != 0 {
        boundaries := boundaries + [address];
      }
      events := events + [StabsEvents.EndFunction(address)];
      return true;
    }

    /** The file is looked up again only when its name changes. */
    method Line(address: Address, name: string, number: nat) returns (ok: bool)
      requires Valid() && function_.Some? && file.Some?
      modifies this`function_, this`file, this`fileName, this`events
      ensures Valid() && ok && events == old(events) + [StabsEvents.Line(address, name, number)]
    {
      OneMore(events, StabsEvents.Line(address, name, number));
      if Some(name) != fileName {
        file, fileName := Some(name), Some(name);
      }
      var line := SourceLine(address, 0, file.value, number);
      function_ := Some(function_.value.(lines := function_.value.lines + [line]));
      events := events + [StabsEvents.Line(address, name, number)];
      return true;
    }

    /** The module keeps the first symbol at each address. */
    method Extern(name: string, address: Address) returns (ok: bool)
      requires Valid()
      modifies this`externs, this`events
      ensures Valid() && ok && events == old(events) + [StabsEvents.Extern(name, address)]
    {
      OneMore(events, StabsEvents.Extern(name, address));
      if address !in externs {
        externs := externs[address := ExternName(name, demangle)];
      }
      events := events + [StabsEvents.Extern(name, address)];
      return true;
    }

    /** The assertions of the callback for `ev` hold. */
    predicate Asserted(ev: Event)
      reads this
    {
      match ev
      case StartCompilationUnit(_, _, _) => !inCompilationUnit
      case EndCompilationUnit(_) => inCompilationUnit
      case StartFunction(_, _) => function_.None?
      case EndFunction(_) => function_.Some?
      case Line(_, _, _) => function_.Some? && file.Some?
      case Extern(_, _) => true
    }

    /** A call that may occur after bracketed calls meets every assertion. */
    lemma BracketedAsserted(ev: Event)
      requires Valid() && PhaseAfter(events).Some? && Next(PhaseAfter(events).value, ev).Some?
      ensures Asserted(ev)
    {
      PhaseState(events, demangle);
    }

    /** Receive one call. */
    method Receive(ev: Event)
      requires Valid() && Asserted(ev)
      modifies this
      ensures Valid() && events == old(events) + [ev] && routines == old(routines)
    {
      var ok;
      match ev
      case StartCompilationUnit(name, address, directory) => ok := StartCompilationUnit(name, address, directory);
      case EndCompilationUnit(address) => ok := EndCompilationUnit(address);
      case StartFunction(name, address) => ok := StartFunction(name, address);
      case EndFunction(address) => ok := EndFunction(address);
      case Line(address, name, number) => ok := Line(address, name, number);
      case Extern(name, address) => ok := Extern(name, address);
    }

    /**
     * Receive the calls of a reader. They are bracketed, as every reader's are, so none of the
     * assertions in the callbacks, which are their preconditions, can fail.
     */
    method ReceiveAll(calls: seq<Event>)
      requires Valid() && events == [] && PhaseAfter(calls).Some?
      modifies this
      ensures Valid() && events == calls && routines == old(routines)
    {
      hide Kept, OpenFunction, UnitBase, BoundariesOf, ExternsOf, UnitOpen, CurrentFile, PhaseAfter;
      for i := 0 to |calls|
        invariant Valid() && events == calls[..i] && routines == old(routines)
      {
        PhaseOfPrefix(calls, i + 1);
        PhaseOfPrefix(calls, i);
        assert calls[..i + 1] == calls[..i] + [calls[i]];
        PhaseAppend(calls[..i], calls[i]);
        BracketedAsserted(calls[i]);
        Receive(calls[i]);
      }
      assert calls[..|calls|] == calls;
    }

    /**
     * Sort the functions, compute their sizes and those of their lines, and give them to the module,
     * which keeps the first one of each address and name. The functions do not overlap unless they
     * start together. `unnamed` tells whether the assertion that functions have names fails.
     */
    method Finalize() returns (unnamed: bool, ghost gs: seq<Routine>, ghost perm: seq<nat>)
      requires Valid()
      modifies this`functions, this`boundaries, this`routines
      ensures functions == [] && multiset(boundaries) == multiset(old(boundaries))
      ensures LaidOut(old(functions), gs, perm, boundaries) && routines == AddAll(old(routines), gs)
      ensures unnamed <==> SomeUnnamed(gs)
    {
      hide *;
      ValidLists();
      var laid, bs;
      laid, bs, perm := LayOut(functions, boundaries, events, demangle);
      gs := laid;
      boundaries := bs;
      unnamed := AddFunctions(laid);
      functions := [];
    }

    /** Module::AddFunctions. */
    method AddFunctions(gs: seq<Routine>) returns (unnamed: bool)
      modifies this`routines
      ensures routines == AddAll(old(routines), gs)
      ensures unnamed <==> SomeUnnamed(gs)
    {
      unnamed := false;
      for i := 0 to |gs|
        invariant routines == AddAll(old(routines), gs[..i])
        invariant unnamed <==> exists k :: 0 <= k < i && gs[k].name == ""
      {
        assert gs[..i + 1][..i] == gs[..i];
        unnamed := unnamed || gs[i].name == "";
        if Key(gs[i]) !in routines {
          routines := routines[Key(gs[i]) := gs[i]];
        }
      }
      assert gs[..|gs|] == gs;
    }

    lemma ValidLists()
      requires Valid()
      ensures functions == Kept(events, demangle) && boundaries == BoundariesOf(events)
    {
    }
  }

  /** `gs` are the functions `was` in order of address, with sizes, and do not overlap. */
  ghost predicate LaidOut(was: seq<Routine>, gs: seq<Routine>, perm: seq<nat>, bs: seq<Address>) {
    && |gs| == |perm| == |was| && Ordering(RoutineKeys(was), perm)
    && (forall i :: 0 <= i < |gs| ==> perm[i] < |was| && Sized(was[perm[i]], gs[i], bs))
    && NoneOverlap(gs)
  }

  method LayOut(fs: seq<Routine>, boundaries: seq<Address>, ghost events: seq<Event>, ghost demangle: string -> string)
      returns (gs: seq<Routine>, bs: seq<Address>, ghost perm: seq<nat>)
    requires fs == Kept(events, demangle) && boundaries == BoundariesOf(events)
    ensures multiset(bs) == multiset(boundaries) && LaidOut(fs, gs, perm, bs)
  {
    hide *;
    var p, sorted, q;
    bs, p := StableSort(boundaries, AddressKeys(boundaries));
    SortedBoundaries(boundaries, bs, p);
    sorted, q := StableSort(fs, RoutineKeys(fs));
    perm := q;
    gs := SizeAll(sorted, bs);
    SameBag(boundaries, bs, p);
    Lays(fs, sorted, gs, q, bs, boundaries, events, demangle);
  }

  lemma SameBag(bs: seq<Address>, r: seq<Address>, perm: seq<nat>)
    requires Rearranges(bs, r, perm)
    ensures multiset(r) == multiset(bs)
  {
  }

  /** What the functions of a module are ordered by. */
  function Key(g: Routine): (Address, string) {
    (g.address, g.name)
  }

  /** Add functions to a module that has none with the same address and name. */
  ghost function AddAll(m: map<(Address, string), Routine>, gs: seq<Routine>): map<(Address, string), Routine> {
    if gs == [] then m
    else
      var before, g := AddAll(m, gs[..|gs| - 1]), gs[|gs| - 1];
      if Key(g) in before then before else before[Key(g) := g]
  }

  /** The module gets every function that it has none like, and no other; each has the key it is kept under. */
  lemma {:induction false} AddAllExactly(m: map<(Address, string), Routine>, gs: seq<Routine>)
    requires forall k :: k in m ==> Key(m[k]) == k
    ensures forall k :: k in m ==> k in AddAll(m, gs) && AddAll(m, gs)[k] == m[k]
    ensures forall i :: 0 <= i < |gs| ==> Key(gs[i]) in AddAll(m, gs)
    ensures forall k :: k in AddAll(m, gs) && k !in m ==> AddAll(m, gs)[k] in gs
    ensures forall k :: k in AddAll(m, gs) ==> Key(AddAll(m, gs)[k]) == k
  {
    if gs != [] {
      AddAllExactly(m, gs[..|gs| - 1]);
      assert gs == gs[..|gs| - 1] + [gs[|gs| - 1]];
    }
  }

  /** After bracketed calls, what is open is what the phase says. */
  lemma {:induction false} PhaseState(events: seq<Event>, demangle: string -> string)
    requires PhaseAfter(events).Some?
    ensures UnitOpen(events) <==> PhaseAfter(events).value != Outside
    ensures CurrentFile(events).Some? <==> PhaseAfter(events).value != Outside
    ensures OpenFunction(events, demangle).Some? <==> PhaseAfter(events).value == InFunction
  {
    if events != [] {
      PhaseState(events[..|events| - 1], demangle);
    }
  }

  /** One call more. */
  lemma OneMore(events: seq<Event>, ev: Event)
    ensures (events + [ev])[..|events + [ev]| - 1] == events && (events + [ev])[|events + [ev]| - 1] == ev
  {
  }

  lemma {:induction false} PhaseOfPrefix(calls: seq<Event>, n: nat)
    requires PhaseAfter(calls).Some? && n <= |calls|
    ensures PhaseAfter(calls[..n]).Some?
    decreases |calls|
  {
    if n == |calls| {
      assert calls[..n] == calls;
    } else {
      PhaseOfPrefix(calls[..|calls| - 1], n);
      assert calls[..|calls| - 1][..n] == calls[..n];
    }
  }

  function RoutineKeys(fs: seq<Routine>): (r: seq<int>)
    ensures |r| == |fs|
  {
    seq(|fs|, i requires 0 <= i < |fs| => fs[i].address)
  }

  function AddressKeys(bs: seq<Address>): (r: seq<int>)
    ensures |r| == |bs|
  {
    seq(|bs|, i requires 0 <= i < |bs| => bs[i])
  }

  ghost predicate NoneOverlap(fs: seq<Routine>) {
    forall i, j :: 0 <= i < |fs| && 0 <= j < |fs| && fs[i].address < fs[j].address ==>
      fs[i].address + fs[i].size <= fs[j].address
  }

  lemma SortedBoundaries(bs: seq<Address>, r: seq<Address>, perm: seq<nat>)
    requires Ordering(AddressKeys(bs), perm) && Rearranges(bs, r, perm)
    ensures SortedAddresses(r)
  {
    forall i, j | 0 <= i < j < |r| ensures r[i] <= r[j] {
      assert AddressKeys(bs)[perm[i]] <= AddressKeys(bs)[perm[j]];
    }
  }

  method SizeAll(fs: seq<Routine>, bs: seq<Address>) returns (gs: seq<Routine>)
    requires SortedAddresses(bs)
    ensures |gs| == |fs| && forall i :: 0 <= i < |fs| ==> Sized(fs[i], gs[i], bs)
  {
    hide Sized;
    gs := [];
    for i := 0 to |fs|
      invariant |gs| == i && forall k :: 0 <= k < i ==> Sized(fs[k], gs[k], bs)
    {
      var g := SizeFunction(fs[i], bs);
      gs := gs + [g];
    }
  }

  /** The sized functions are those collected, in order, and do not overlap. */
  lemma Lays(was: seq<Routine>, fs: seq<Routine>, gs: seq<Routine>, perm: seq<nat>, bs: seq<Address>,
             before: seq<Address>, events: seq<Event>, demangle: string -> string)
    requires Rearranges(was, fs, perm) && Ordering(RoutineKeys(was), perm)
    requires |gs| == |fs| && forall i :: 0 <= i < |fs| ==> Sized(fs[i], gs[i], bs)
    requires was == Kept(events, demangle) && before == BoundariesOf(events) && multiset(bs) == multiset(before)
    ensures LaidOut(was, gs, perm, bs)
  {
    forall i, j | 0 <= i < |gs| && 0 <= j < |gs| && gs[i].address < gs[j].address
      ensures gs[i].address + gs[i].size <= gs[j].address
    {
      assert Sized(fs[i], gs[i], bs) && Sized(fs[j], gs[j], bs);
      KeptStart(events, demangle, perm[j]);
      assert gs[j].address in multiset(before);
      assert gs[j].address in bs;
      NoOverlap(gs[i], gs[j], bs);
    }
  }
}
