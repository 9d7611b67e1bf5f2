/**
 * DwarfCUToModule::AssignLinesToFunctions: one pass over the functions and the source lines of a
 * compilation unit, both in address order, that gives every function the parts of the lines
 * that fall inside it and warns about functions without lines and lines without functions.
 */
module LineAssignment {
  import opened Addresses
  import opened Sorting

  datatype Line = Line(address: Address, size: Address, file: nat, number: int)

  class Function {
    const name: string
    const address: Address
    const size: Address
    var lines: seq<Line>

    constructor (name: string, address: Address, size: Address)
      ensures this.name == name && this.address == address && this.size == size && lines == []
    {
      this.name, this.address, this.size, lines := name, address, size, [];
    }
  }

  /** True when `a` is in the `size` bytes from `start`: the source's one-comparison test. */
  predicate Within(start: Address, size: Address, a: Address) {
    Minus(a, start) < size
  }

  /** Nonempty and not wrapping; it may end exactly at the end of the address space. */
  predicate Proper(start: Address, size: Address) {
    0 < size && start + size <= SPACE
  }

  predicate ProperLine(l: Line) {
    Proper(l.address, l.size)
  }

  predicate ProperFunction(f: Function) {
    Proper(f.address, f.size)
  }

  function LineEnd(l: Line): int {
    l.address + l.size
  }

  function FuncEnd(f: Function): int {
    f.address + f.size
  }

  // ---------------------------------------------------------------------------------------
  // What the pass should compute
  // ---------------------------------------------------------------------------------------

  /** The part of `l` inside [lo, hi), if any. */
  function Clip(l: Line, lo: Address, hi: int): (r: seq<Line>) {
    var a := Max(l.address, lo);
    var b := Min(LineEnd(l), hi);
    if a < b then [Line(a, b - a, l.file, l.number)] else []
  }

  /** The nonempty intersections of [lo, hi) with each line, in the order of the lines. */
  function Pieces(ls: seq<Line>, lo: Address, hi: int): (r: seq<Line>) {
    if ls == [] then [] else Clip(ls[0], lo, hi) + Pieces(ls[1..], lo, hi)
  }

  ghost predicate LineCovers(ls: seq<Line>, a: int) {
    exists k :: 0 <= k < |ls| && ls[k].address <= a < LineEnd(ls[k])
  }

  ghost predicate FuncCovers(fs: seq<Function>, a: int) {
    exists k :: 0 <= k < |fs| && fs[k].address <= a < FuncEnd(fs[k])
  }

  /** `f` has a byte below `c` that no line covers. */
  ghost predicate Bare(f: Function, ls: seq<Line>, c: int) {
    exists a :: f.address <= a < Min(FuncEnd(f), c) && !LineCovers(ls, a)
  }

  /**
   * Byte `a` of line `l` is padding that the compiler charged to the line: an earlier part of
   * the line belongs to a function, the line ends where a function starts, and no function
   * starts in between.
   */
  ghost predicate Padding(l: Line, fs: seq<Function>, a: int) {
    && (exists j :: 0 <= j < |fs| && l.address < FuncEnd(fs[j]) <= a)
    && (exists j :: 0 <= j < |fs| && fs[j].address == LineEnd(l))
    && (forall j :: 0 <= j < |fs| ==> !(a < fs[j].address < LineEnd(l)))
  }

  /** `l` has a byte below `c` that no function covers and that is not padding. */
  ghost predicate Stray(l: Line, fs: seq<Function>, c: int) {
    exists a :: l.address <= a < Min(LineEnd(l), c) && !FuncCovers(fs, a) && !Padding(l, fs, a)
  }

  /** Some function takes a byte of `l` below `c`. */
  ghost predicate Used(l: Line, fs: seq<Function>, c: int) {
    exists j :: 0 <= j < |fs| && Max(fs[j].address, l.address) < Min(Min(FuncEnd(fs[j]), LineEnd(l)), c)
  }

  ghost function Select<T>(xs: seq<T>, marks: seq<bool>): seq<T>
    requires |xs| == |marks|
  {
    if xs == [] then [] else (if marks[0] then [xs[0]] else []) + Select(xs[1..], marks[1..])
  }

  ghost function BareMarks(fs: seq<Function>, ls: seq<Line>, c: int): (r: seq<bool>)
    ensures |r| == |fs|
  {
    seq(|fs|, j requires 0 <= j < |fs| => Bare(fs[j], ls, c))
  }

  ghost function StrayMarks(ls: seq<Line>, fs: seq<Function>, c: int): (r: seq<bool>)
    ensures |r| == |ls|
  {
    seq(|ls|, k requires 0 <= k < |ls| => Stray(ls[k], fs, c))
  }

  /** The functions with an uncovered byte, in address order. */
  ghost function BareFunctions(fs: seq<Function>, ls: seq<Line>): seq<Function> {
    Select(fs, BareMarks(fs, ls, SPACE))
  }

  /** The lines with an uncovered byte that is not padding, in address order. */
  ghost function StrayLines(ls: seq<Line>, fs: seq<Function>): seq<Line> {
    Select(ls, StrayMarks(ls, fs, SPACE))
  }

  ghost predicate DisjointFunctions(fs: seq<Function>) {
    forall i, j :: 0 <= i < j < |fs| ==>
      FuncEnd(fs[i]) <= fs[j].address || FuncEnd(fs[j]) <= fs[i].address
  }

  ghost predicate DisjointLines(ls: seq<Line>) {
    forall i, j :: 0 <= i < j < |ls| ==>
      LineEnd(ls[i]) <= ls[j].address || LineEnd(ls[j]) <= ls[i].address
  }

  /** `p` lies inside `f` and inside a line that it takes its file and number from. */
  ghost predicate PieceOf(p: Line, f: Function, ls: seq<Line>) {
    && 0 < p.size
    && f.address <= p.address && LineEnd(p) <= FuncEnd(f)
    && exists k :: 0 <= k < |ls| && ls[k].address <= p.address && LineEnd(p) <= LineEnd(ls[k])
                   && p.file == ls[k].file && p.number == ls[k].number
  }

  // ---------------------------------------------------------------------------------------
  // The state of the pass at an address
  // ---------------------------------------------------------------------------------------

  /** In order of address and disjoint. */
  ghost predicate Ordered(fs: seq<Function>, ls: seq<Line>) {
    && (forall i, j :: 0 <= i < j < |fs| ==> FuncEnd(fs[i]) <= fs[j].address)
    && (forall i, j :: 0 <= i < j < |ls| ==> LineEnd(ls[i]) <= ls[j].address)
  }

  ghost predicate AllProper(fs: seq<Function>, ls: seq<Line>) {
    && (forall j :: 0 <= j < |fs| ==> ProperFunction(fs[j]))
    && (forall k :: 0 <= k < |ls| ==> ProperLine(ls[k]))
  }

  /** `fi` and `li` are the earliest function and line that contain or start after `c`. */
  ghost predicate At(fs: seq<Function>, ls: seq<Line>, fi: nat, li: nat, c: int) {
    && fi <= |fs| && li <= |ls|
    && (forall j :: 0 <= j < fi ==> FuncEnd(fs[j]) <= c)
    && (forall k :: 0 <= k < li ==> LineEnd(ls[k]) <= c)
    && (fi < |fs| ==> c < FuncEnd(fs[fi]))
    && (li < |ls| ==> c < LineEnd(ls[li]))
  }

  predicate InFunc(fs: seq<Function>, fi: nat, c: int) {
    fi < |fs| && fs[fi].address <= c
  }

  predicate InLine(ls: seq<Line>, li: nat, c: int) {
    li < |ls| && ls[li].address <= c
  }

  /** `n` is where the function or the line at `c` next starts or ends. */
  ghost predicate Next(fs: seq<Function>, ls: seq<Line>, fi: nat, li: nat, c: int, n: int) {
    && c < n <= SPACE
    && (fi < |fs| ==> n <= (if InFunc(fs, fi, c) then FuncEnd(fs[fi]) else fs[fi].address))
    && (li < |ls| ==> n <= (if InLine(ls, li, c) then LineEnd(ls[li]) else ls[li].address))
    && (|| (fi < |fs| && n == (if InFunc(fs, fi, c) then FuncEnd(fs[fi]) else fs[fi].address))
        || (li < |ls| && n == (if InLine(ls, li, c) then LineEnd(ls[li]) else ls[li].address)))
  }

  /** No function and line overlap on both sides of `c`: where both cover it, one of them starts there. */
  ghost predicate Boundary(fs: seq<Function>, ls: seq<Line>, fi: nat, li: nat, c: int) {
    InFunc(fs, fi, c) && InLine(ls, li, c) ==> c == fs[fi].address || c == ls[li].address
  }

  /** Every function has received exactly its pieces below `c`. */
  ghost predicate Filled(fs: seq<Function>, ls: seq<Line>, c: int, added: seq<seq<Line>>) {
    && |added| == |fs|
    && forall j :: 0 <= j < |fs| ==> added[j] == Pieces(ls, fs[j].address, Min(FuncEnd(fs[j]), c))
  }

  // ---------------------------------------------------------------------------------------
  // Lemmas: one step from `c` to the next transition `n`
  // ---------------------------------------------------------------------------------------

  lemma {:induction false} SelectAppend<T>(xs: seq<T>, m: seq<bool>, m': seq<bool>, i: nat)
    requires |xs| == |m| == |m'| && i < |xs| && !m[i] && m' == m[i := true]
    requires forall j :: i < j < |xs| ==> !m[j]
    ensures Select(xs, m') == Select(xs, m) + [xs[i]]
  {
    if i == 0 {
      SelectNone(xs[1..], m[1..]);
      assert m'[1..] == m[1..];
    } else {
      SelectAppend(xs[1..], m[1..], m'[1..], i - 1);
    }
  }

  lemma {:induction false} SelectNone<T>(xs: seq<T>, m: seq<bool>)
    requires |xs| == |m| && forall j :: 0 <= j < |xs| ==> !m[j]
    ensures Select(xs, m) == []
  {
    if xs != [] {
      SelectNone(xs[1..], m[1..]);
    }
  }

  /** No line meets [c, n): the pieces below `c` are the pieces below `n`. */
  lemma {:induction false} PiecesIdle(ls: seq<Line>, lo: Address, c: int, n: int)
    requires c <= n
    requires forall k :: 0 <= k < |ls| ==> LineEnd(ls[k]) <= c || n <= ls[k].address || n <= lo
    ensures Pieces(ls, lo, c) == Pieces(ls, lo, n)
  {
    if ls != [] {
      PiecesIdle(ls[1..], lo, c, n);
    }
  }

  /** Line `li` covers [c, n) and its part inside the function starts at `c`: one more piece. */
  lemma {:induction false} PiecesGrow(ls: seq<Line>, lo: Address, c: int, n: int, li: nat)
    requires lo <= c < n && li < |ls|
    requires c == Max(lo, ls[li].address) && n <= LineEnd(ls[li])
    requires forall k :: 0 <= k < li ==> LineEnd(ls[k]) <= c
    requires forall k :: li < k < |ls| ==> n <= ls[k].address
    ensures Pieces(ls, lo, n) == Pieces(ls, lo, c) + [Line(c, n - c, ls[li].file, ls[li].number)]
  {
    if li == 0 {
      PiecesIdle(ls[1..], lo, c, n);
      PiecesEmpty(ls[1..], lo, c);
    } else {
      PiecesGrow(ls[1..], lo, c, n, li - 1);
    }
  }

  lemma {:induction false} PiecesEmpty(ls: seq<Line>, lo: Address, c: int)
    requires forall k :: 0 <= k < |ls| ==> c <= ls[k].address || c <= lo
    ensures Pieces(ls, lo, c) == []
  {
    if ls != [] {
      PiecesEmpty(ls[1..], lo, c);
    }
  }

  /** A byte is in one of the pieces exactly when it is in [lo, hi) and in one of the lines. */
  lemma {:induction false} PiecesCover(ls: seq<Line>, lo: Address, hi: int, a: int)
    ensures LineCovers(Pieces(ls, lo, hi), a) <==> lo <= a < hi && LineCovers(ls, a)
  {
    if ls != [] {
      var head, rest := Clip(ls[0], lo, hi), Pieces(ls[1..], lo, hi);
      PiecesCover(ls[1..], lo, hi, a);
      CoversConcat(head, rest, a);
      CoversConcat([ls[0]], ls[1..], a);
      assert ls == [ls[0]] + ls[1..];
      if lo <= a < hi && ls[0].address <= a < LineEnd(ls[0]) {
        assert head[0].address <= a < LineEnd(head[0]) && [ls[0]][0] == ls[0];
      }
      if k :| 0 <= k < |head| && head[k].address <= a < LineEnd(head[k]) {
        assert [ls[0]][0].address <= a < LineEnd([ls[0]][0]);
      }
    }
  }

  lemma CoversConcat(p: seq<Line>, q: seq<Line>, a: int)
    ensures LineCovers(p + q, a) <==> LineCovers(p, a) || LineCovers(q, a)
  {
    if k :| 0 <= k < |p| && p[k].address <= a < LineEnd(p[k]) {
      assert (p + q)[k] == p[k];
    }
    if k :| 0 <= k < |q| && q[k].address <= a < LineEnd(q[k]) {
      assert (p + q)[|p| + k] == q[k];
    }
  }

  /** Pieces of ordered lines are in order of address and do not overlap. */
  lemma {:induction false} PiecesAscend(ls: seq<Line>, lo: Address, hi: int)
    requires Ordered([], ls)
    ensures Ordered([], Pieces(ls, lo, hi))
    ensures forall i :: 0 <= i < |Pieces(ls, lo, hi)| ==> ls != [] && ls[0].address <= Pieces(ls, lo, hi)[i].address
  {
    if |ls| > 1 {
      PiecesAscend(ls[1..], lo, hi);
      assert LineEnd(ls[0]) <= ls[1].address;
    }
  }

  /** Between transitions the coverage of the bytes does not change. */
  lemma CoverageConstant(fs: seq<Function>, ls: seq<Line>, fi: nat, li: nat, c: int, n: int, a: int)
    requires AllProper(fs, ls) && Ordered(fs, ls) && At(fs, ls, fi, li, c) && Next(fs, ls, fi, li, c, n)
    requires c <= a < n
    ensures FuncCovers(fs, a) <==> InFunc(fs, fi, c)
    ensures LineCovers(ls, a) <==> InLine(ls, li, c)
  {
    if InFunc(fs, fi, c) {
      assert fs[fi].address <= a < FuncEnd(fs[fi]);
    }
    if InLine(ls, li, c) {
      assert ls[li].address <= a < LineEnd(ls[li]);
    }
  }

  /** The lines added to each function once `c` has been visited. */
  ghost function VisitLines(fs: seq<Function>, ls: seq<Line>, fi: nat, li: nat, c: int, n: int,
                            added: seq<seq<Line>>): seq<seq<Line>>
    requires |added| == |fs| && At(fs, ls, fi, li, c) && Next(fs, ls, fi, li, c, n)
  {
    if InFunc(fs, fi, c) && InLine(ls, li, c)
    then added[fi := added[fi] + [Line(c, n - c, ls[li].file, ls[li].number)]]
    else added
  }

  ghost predicate AllPieces(fs: seq<Function>, ls: seq<Line>, added: seq<seq<Line>>) {
    && |added| == |fs|
    && forall j :: 0 <= j < |fs| ==> forall p :: p in added[j] ==> PieceOf(p, fs[j], ls)
  }

  /** Whatever the overlaps, a visit adds only pieces of lines that lie inside the function. */
  lemma AllPiecesStep(fs: seq<Function>, ls: seq<Line>, fi: nat, li: nat, c: int, n: int, added: seq<seq<Line>>)
    requires AllProper(fs, ls) && At(fs, ls, fi, li, c) && Next(fs, ls, fi, li, c, n) && AllPieces(fs, ls, added)
    ensures AllPieces(fs, ls, VisitLines(fs, ls, fi, li, c, n, added))
  {
    if InFunc(fs, fi, c) && InLine(ls, li, c) {
      assert PieceOf(Line(c, n - c, ls[li].file, ls[li].number), fs[fi], ls);
    }
  }

  /** The step fills the functions as specified. */
  lemma FilledStep(fs: seq<Function>, ls: seq<Line>, fi: nat, li: nat, c: int, n: int, added: seq<seq<Line>>)
    requires AllProper(fs, ls) && Ordered(fs, ls) && At(fs, ls, fi, li, c) && Next(fs, ls, fi, li, c, n)
    requires Boundary(fs, ls, fi, li, c) && Filled(fs, ls, c, added)
    ensures Filled(fs, ls, n, VisitLines(fs, ls, fi, li, c, n, added))
  {
    var added' := VisitLines(fs, ls, fi, li, c, n, added);
    forall j | 0 <= j < |fs|
      ensures added'[j] == Pieces(ls, fs[j].address, Min(FuncEnd(fs[j]), n))
    {
      if j == fi && InFunc(fs, fi, c) {
        if InLine(ls, li, c) {
          PiecesGrow(ls, fs[fi].address, c, n, li);
        } else {
          PiecesIdle(ls, fs[fi].address, c, n);
        }
      } else if j >= fi {
        PiecesEmpty(ls, fs[j].address, Min(FuncEnd(fs[j]), c));
        PiecesEmpty(ls, fs[j].address, Min(FuncEnd(fs[j]), n));
      }
    }
  }

  /** Which functions have shown an uncovered byte, from `c` to `n`. */
  lemma BareStep(fs: seq<Function>, ls: seq<Line>, fi: nat, li: nat, c: int, n: int)
    requires AllProper(fs, ls) && Ordered(fs, ls) && At(fs, ls, fi, li, c) && Next(fs, ls, fi, li, c, n)
    ensures forall j :: fi < j < |fs| ==> !Bare(fs[j], ls, c) && !Bare(fs[j], ls, n)
    ensures BareMarks(fs, ls, n) == if InFunc(fs, fi, c) && !InLine(ls, li, c)
                                    then BareMarks(fs, ls, c)[fi := true] else BareMarks(fs, ls, c)
  {
    forall j | 0 <= j < |fs|
      ensures Bare(fs[j], ls, n)
              <==> Bare(fs[j], ls, c) || (j == fi && InFunc(fs, fi, c) && !InLine(ls, li, c))
    {
      if j == fi && InFunc(fs, fi, c) && !InLine(ls, li, c) {
        CoverageConstant(fs, ls, fi, li, c, n, c);
        assert fs[fi].address <= c < Min(FuncEnd(fs[fi]), n);
      } else if Bare(fs[j], ls, n) {
        var a :| fs[j].address <= a < Min(FuncEnd(fs[j]), n) && !LineCovers(ls, a);
        if c <= a {
          CoverageConstant(fs, ls, fi, li, c, n, a);
        }
      }
    }
  }

  /** The source's test for not warning about a line: used before, and the next function abuts it. */
  ghost predicate Excused(fs: seq<Function>, ls: seq<Line>, fi: nat, li: nat, c: int)
    requires li < |ls|
  {
    Used(ls[li], fs, c) && fi < |fs| && fs[fi].address == LineEnd(ls[li])
  }

  /** From a byte covered by a line alone to the next transition: all padding, or none of it. */
  lemma PaddingConstant(fs: seq<Function>, ls: seq<Line>, fi: nat, li: nat, c: int, n: int, a: int)
    requires AllProper(fs, ls) && Ordered(fs, ls) && At(fs, ls, fi, li, c) && Next(fs, ls, fi, li, c, n)
    requires !InFunc(fs, fi, c) && InLine(ls, li, c) && c <= a < n
    ensures Padding(ls[li], fs, a) <==> Excused(fs, ls, fi, li, c)
  {
    UsedBefore(fs, ls, fi, li, c, n, a);
    if Padding(ls[li], fs, a) {
      var g :| 0 <= g < |fs| && fs[g].address == LineEnd(ls[li]);
      assert fi <= g;
      assert !(a < fs[fi].address < LineEnd(ls[li]));
    }
  }

  /** The line was used before `c` exactly when a function inside it ends by `a`. */
  lemma UsedBefore(fs: seq<Function>, ls: seq<Line>, fi: nat, li: nat, c: int, n: int, a: int)
    requires AllProper(fs, ls) && Ordered(fs, ls) && At(fs, ls, fi, li, c) && Next(fs, ls, fi, li, c, n)
    requires !InFunc(fs, fi, c) && InLine(ls, li, c) && c <= a < n
    ensures Used(ls[li], fs, c) <==> exists j :: 0 <= j < |fs| && ls[li].address < FuncEnd(fs[j]) <= a
  {
    var l := ls[li];
    if Used(l, fs, c) {
      var j :| 0 <= j < |fs| && Max(fs[j].address, l.address) < Min(Min(FuncEnd(fs[j]), LineEnd(l)), c);
      assert l.address < FuncEnd(fs[j]) <= a;
    }
    if j :| 0 <= j < |fs| && l.address < FuncEnd(fs[j]) <= a {
      assert Max(fs[j].address, l.address) < Min(Min(FuncEnd(fs[j]), LineEnd(l)), c);
    }
  }

  /** Which lines have shown a stray byte, from `c` to `n`. */
  lemma StrayStep(fs: seq<Function>, ls: seq<Line>, fi: nat, li: nat, c: int, n: int)
    requires AllProper(fs, ls) && Ordered(fs, ls) && At(fs, ls, fi, li, c) && Next(fs, ls, fi, li, c, n)
    ensures forall k :: li < k < |ls| ==> !Stray(ls[k], fs, c) && !Stray(ls[k], fs, n)
    ensures StrayMarks(ls, fs, n)
         == if !InFunc(fs, fi, c) && InLine(ls, li, c) && !Excused(fs, ls, fi, li, c)
            then StrayMarks(ls, fs, c)[li := true] else StrayMarks(ls, fs, c)
  {
    forall k | 0 <= k < |ls|
      ensures Stray(ls[k], fs, n)
              <==> Stray(ls[k], fs, c)
                   || (k == li && !InFunc(fs, fi, c) && InLine(ls, li, c) && !Excused(fs, ls, fi, li, c))
    {
      var l := ls[k];
      if k == li && !InFunc(fs, fi, c) && InLine(ls, li, c) && !Excused(fs, ls, fi, li, c) {
        CoverageConstant(fs, ls, fi, li, c, n, c);
        PaddingConstant(fs, ls, fi, li, c, n, c);
        assert l.address <= c < Min(LineEnd(l), n);
      } else if Stray(l, fs, n) {
        var a :| l.address <= a < Min(LineEnd(l), n) && !FuncCovers(fs, a) && !Padding(l, fs, a);
        if c <= a {
          CoverageConstant(fs, ls, fi, li, c, n, a);
          if k == li && !InFunc(fs, fi, c) {
            PaddingConstant(fs, ls, fi, li, c, n, a);
          }
        }
      }
    }
  }

  /** A step that functions and lines do not cover together uses no line. */
  lemma UsedIdle(fs: seq<Function>, ls: seq<Line>, fi: nat, li: nat, c: int, n: int, k: nat)
    requires AllProper(fs, ls) && Ordered(fs, ls) && At(fs, ls, fi, li, c) && Next(fs, ls, fi, li, c, n)
    requires k < |ls| && !(k == li && InFunc(fs, fi, c) && InLine(ls, li, c))
    ensures Used(ls[k], fs, n) ==> Used(ls[k], fs, c)
  {
    var l := ls[k];
    if Used(l, fs, n) {
      var j :| 0 <= j < |fs| && Max(fs[j].address, l.address) < Min(Min(FuncEnd(fs[j]), LineEnd(l)), n);
      assert Max(fs[j].address, l.address) < Min(Min(FuncEnd(fs[j]), LineEnd(l)), c);
    }
  }

  /** Line `li` comes into use exactly when a function and the line cover the step together. */
  lemma UsedStep(fs: seq<Function>, ls: seq<Line>, fi: nat, li: nat, c: int, n: int)
    requires AllProper(fs, ls) && Ordered(fs, ls) && At(fs, ls, fi, li, c) && Next(fs, ls, fi, li, c, n)
    requires li < |ls|
    ensures Used(ls[li], fs, n) <==> Used(ls[li], fs, c) || (InFunc(fs, fi, c) && InLine(ls, li, c))
  {
    var l := ls[li];
    if InFunc(fs, fi, c) && InLine(ls, li, c) {
      assert Max(fs[fi].address, l.address) < Min(Min(FuncEnd(fs[fi]), LineEnd(l)), n);
    } else {
      UsedIdle(fs, ls, fi, li, c, n, li);
      if Used(l, fs, c) {
        var j :| 0 <= j < |fs| && Max(fs[j].address, l.address) < Min(Min(FuncEnd(fs[j]), LineEnd(l)), c);
        assert Max(fs[j].address, l.address) < Min(Min(FuncEnd(fs[j]), LineEnd(l)), n);
      }
    }
  }

  // ---------------------------------------------------------------------------------------
  // The warnings
  // ---------------------------------------------------------------------------------------

  /** What the pass remembers for its warnings; an index is -1 where the source holds NULL. */
  datatype Notes = Notes(citedFunc: int, citedLine: int, usedLine: int, bare: seq<Function>, stray: seq<Line>)

  /** The warnings given so far are those due below `c`, and the remembered items say so of `fi` and `li`. */
  ghost predicate Reported(fs: seq<Function>, ls: seq<Line>, fi: nat, li: nat, c: int, m: Notes) {
    && m.citedFunc <= fi && m.citedLine <= li && m.usedLine <= li
    && m.bare == Select(fs, BareMarks(fs, ls, c))
    && m.stray == Select(ls, StrayMarks(ls, fs, c))
    && (fi < |fs| ==> (m.citedFunc == fi <==> Bare(fs[fi], ls, c)))
    && (li < |ls| ==> (m.citedLine == li <==> Stray(ls[li], fs, c)))
    && (li < |ls| ==> (m.usedLine == li <==> Used(ls[li], fs, c)))
  }

  /** What one visit of `c` adds to the notes. */
  ghost function Visit(fs: seq<Function>, ls: seq<Line>, fi: nat, li: nat, c: int, m: Notes): Notes {
    if InFunc(fs, fi, c) then
      if InLine(ls, li, c) then m.(usedLine := li)
      else if m.citedFunc != fi then m.(citedFunc := fi, bare := m.bare + [fs[fi]])
      else m
    else if InLine(ls, li, c) && m.citedLine != li
            && !(fi < |fs| && m.usedLine == li && fs[fi].address == LineEnd(ls[li])) then
      m.(citedLine := li, stray := m.stray + [ls[li]])
    else m
  }

  lemma BareReported(fs: seq<Function>, ls: seq<Line>, fi: nat, li: nat, c: int, n: int, m: Notes)
    requires AllProper(fs, ls) && Ordered(fs, ls) && At(fs, ls, fi, li, c) && Next(fs, ls, fi, li, c, n)
    requires Reported(fs, ls, fi, li, c, m)
    ensures var m' := Visit(fs, ls, fi, li, c, m);
            && m'.bare == Select(fs, BareMarks(fs, ls, n))
            && m'.citedFunc <= fi
            && (fi < |fs| ==> (m'.citedFunc == fi <==> Bare(fs[fi], ls, n)))
            && (forall j :: fi < j < |fs| ==> !Bare(fs[j], ls, n))
  {
    BareStep(fs, ls, fi, li, c, n);
    if InFunc(fs, fi, c) && !InLine(ls, li, c) {
      assert BareMarks(fs, ls, n)[fi];
      if m.citedFunc != fi {
        SelectAppend(fs, BareMarks(fs, ls, c), BareMarks(fs, ls, n), fi);
      } else {
        assert BareMarks(fs, ls, c)[fi := true] == BareMarks(fs, ls, c);
      }
    } else if fi < |fs| {
      assert BareMarks(fs, ls, n)[fi] == BareMarks(fs, ls, c)[fi];
    }
  }

  lemma StrayReported(fs: seq<Function>, ls: seq<Line>, fi: nat, li: nat, c: int, n: int, m: Notes)
    requires AllProper(fs, ls) && Ordered(fs, ls) && At(fs, ls, fi, li, c) && Next(fs, ls, fi, li, c, n)
    requires Reported(fs, ls, fi, li, c, m)
    ensures var m' := Visit(fs, ls, fi, li, c, m);
            && m'.stray == Select(ls, StrayMarks(ls, fs, n))
            && m'.citedLine <= li
            && (li < |ls| ==> (m'.citedLine == li <==> Stray(ls[li], fs, n)))
            && (forall k :: li < k < |ls| ==> !Stray(ls[k], fs, n))
  {
    StrayStep(fs, ls, fi, li, c, n);
    if !InFunc(fs, fi, c) && InLine(ls, li, c) && !Excused(fs, ls, fi, li, c) {
      assert StrayMarks(ls, fs, n)[li];
      if m.citedLine != li {
        SelectAppend(ls, StrayMarks(ls, fs, c), StrayMarks(ls, fs, n), li);
      } else {
        assert StrayMarks(ls, fs, c)[li := true] == StrayMarks(ls, fs, c);
      }
    } else if li < |ls| {
      assert StrayMarks(ls, fs, n)[li] == StrayMarks(ls, fs, c)[li];
    }
  }

  /** A visit and the advance of both iterators keep the warnings as due. */
  lemma ReportedStep(fs: seq<Function>, ls: seq<Line>, fi: nat, li: nat, c: int, n: int, m: Notes, fi': nat, li': nat)
    requires AllProper(fs, ls) && Ordered(fs, ls) && At(fs, ls, fi, li, c) && Next(fs, ls, fi, li, c, n)
    requires Reported(fs, ls, fi, li, c, m) && fi <= fi' && li <= li'
    ensures Reported(fs, ls, fi', li', n, Visit(fs, ls, fi, li, c, m))
  {
    BareReported(fs, ls, fi, li, c, n, m);
    StrayReported(fs, ls, fi, li, c, n, m);
    if li < |ls| {
      UsedStep(fs, ls, fi, li, c, n);
    }
    if li < li' < |ls| {
      UsedIdle(fs, ls, fi, li, c, n, li');
    }
  }

  /** With both iterators moved to `n`, it is again such a boundary. */
  lemma BoundaryStep(fs: seq<Function>, ls: seq<Line>, fi: nat, li: nat, c: int, n: int, fi': nat, li': nat)
    requires AllProper(fs, ls) && Ordered(fs, ls) && At(fs, ls, fi, li, c) && Next(fs, ls, fi, li, c, n)
    requires fi <= fi' && li <= li' && At(fs, ls, fi', li', n)
    ensures Boundary(fs, ls, fi', li', n)
  {
  }

  // ---------------------------------------------------------------------------------------
  // The second loop invariant: where the state of a byte differs from that of the byte before
  // ---------------------------------------------------------------------------------------

  ghost predicate FuncStarts(fs: seq<Function>, c: int) {
    exists j :: 0 <= j < |fs| && fs[j].address == c
  }

  ghost predicate FuncStops(fs: seq<Function>, c: int) {
    exists j :: 0 <= j < |fs| && FuncEnd(fs[j]) == c
  }

  ghost predicate LineStarts(ls: seq<Line>, c: int) {
    exists k :: 0 <= k < |ls| && ls[k].address == c
  }

  ghost predicate LineStops(ls: seq<Line>, c: int) {
    exists k :: 0 <= k < |ls| && LineEnd(ls[k]) == c
  }

  /** Byte `c` is covered by a function, and by a line, exactly as the byte before it. */
  ghost predicate SameState(fs: seq<Function>, ls: seq<Line>, c: int) {
    (FuncCovers(fs, c) <==> FuncCovers(fs, c - 1)) && (LineCovers(ls, c) <==> LineCovers(ls, c - 1))
  }

  lemma FuncStateChanges(fs: seq<Function>, c: int)
    requires AllProper(fs, []) && Ordered(fs, [])
    ensures (FuncCovers(fs, c) <==> FuncCovers(fs, c - 1)) <==> (FuncStarts(fs, c) <==> FuncStops(fs, c))
  {
    if FuncCovers(fs, c) {
      var j :| 0 <= j < |fs| && fs[j].address <= c < FuncEnd(fs[j]);
      assert ProperFunction(fs[j]);
      if fs[j].address < c {
        assert fs[j].address <= c - 1 < FuncEnd(fs[j]);
      }
    }
    if FuncCovers(fs, c - 1) {
      var j :| 0 <= j < |fs| && fs[j].address <= c - 1 < FuncEnd(fs[j]);
      assert ProperFunction(fs[j]);
      if c < FuncEnd(fs[j]) {
        assert fs[j].address <= c < FuncEnd(fs[j]);
      }
    }
    if FuncStarts(fs, c) {
      var j :| 0 <= j < |fs| && fs[j].address == c;
      assert ProperFunction(fs[j]) && fs[j].address <= c < FuncEnd(fs[j]);
    }
    if FuncStops(fs, c) {
      var j :| 0 <= j < |fs| && FuncEnd(fs[j]) == c;
      assert ProperFunction(fs[j]) && fs[j].address <= c - 1 < FuncEnd(fs[j]);
    }
  }

  lemma LineStateChanges(ls: seq<Line>, c: int)
    requires AllProper([], ls) && Ordered([], ls)
    ensures (LineCovers(ls, c) <==> LineCovers(ls, c - 1)) <==> (LineStarts(ls, c) <==> LineStops(ls, c))
  {
    if LineCovers(ls, c) {
      var j :| 0 <= j < |ls| && ls[j].address <= c < LineEnd(ls[j]);
      assert ProperLine(ls[j]);
      if ls[j].address < c {
        assert ls[j].address <= c - 1 < LineEnd(ls[j]);
      }
    }
    if LineCovers(ls, c - 1) {
      var j :| 0 <= j < |ls| && ls[j].address <= c - 1 < LineEnd(ls[j]);
      assert ProperLine(ls[j]);
      if c < LineEnd(ls[j]) {
        assert ls[j].address <= c < LineEnd(ls[j]);
      }
    }
    if LineStarts(ls, c) {
      var j :| 0 <= j < |ls| && ls[j].address == c;
      assert ProperLine(ls[j]) && ls[j].address <= c < LineEnd(ls[j]);
    }
    if LineStops(ls, c) {
      var j :| 0 <= j < |ls| && LineEnd(ls[j]) == c;
      assert ProperLine(ls[j]) && ls[j].address <= c - 1 < LineEnd(ls[j]);
    }
  }

  /** Two functions meet at `c`, or two lines do. */
  ghost predicate Meets(fs: seq<Function>, ls: seq<Line>, c: int) {
    (FuncStarts(fs, c) && FuncStops(fs, c)) || (LineStarts(ls, c) && LineStops(ls, c))
  }

  /**
   * The second loop invariant of the source says that the state of the byte at every address visited
   * differs from that of the byte before. For ordered functions and lines it fails exactly where a
   * function starts if and only if one ends there, and a line starts if and only if one ends there;
   * since the address is an endpoint, that is where functions or lines abut and nothing else changes.
   */
  lemma SameStateExactly(fs: seq<Function>, ls: seq<Line>, c: int)
    requires AllProper(fs, ls) && Ordered(fs, ls)
    ensures SameState(fs, ls, c)
            <==> (FuncStarts(fs, c) <==> FuncStops(fs, c)) && (LineStarts(ls, c) <==> LineStops(ls, c))
    ensures c in Ends(fs, ls) && SameState(fs, ls, c) ==> Meets(fs, ls, c)
  {
    FuncStateChanges(fs, c);
    LineStateChanges(ls, c);
    EndsAre(fs, ls, c);
  }

  lemma EndsAre(fs: seq<Function>, ls: seq<Line>, c: int)
    ensures c in Ends(fs, ls) <==> FuncStarts(fs, c) || FuncStops(fs, c) || LineStarts(ls, c) || LineStops(ls, c)
  {
    FuncEndsAre(fs, c);
    LineEndsAre(ls, c);
  }

  lemma {:induction false} FuncEndsAre(fs: seq<Function>, c: int)
    ensures c in FuncEnds(fs) <==> FuncStarts(fs, c) || FuncStops(fs, c)
  {
    if fs != [] {
      FuncEndsAre(fs[1..], c);
      assert forall j :: 0 <= j < |fs[1..]| ==> fs[1..][j] == fs[j + 1];
      assert forall j :: 1 <= j < |fs| ==> fs[j] == fs[1..][j - 1];
    }
  }

  lemma {:induction false} LineEndsAre(ls: seq<Line>, c: int)
    ensures c in LineEnds(ls) <==> LineStarts(ls, c) || LineStops(ls, c)
  {
    if ls != [] {
      LineEndsAre(ls[1..], c);
      assert forall j :: 0 <= j < |ls[1..]| ==> ls[1..][j] == ls[j + 1];
      assert forall j :: 1 <= j < |ls| ==> ls[j] == ls[1..][j - 1];
    }
  }

  /** One function with two abutting lines: the pass goes from 16 to 32, where the state of the byte does not change. */
  lemma AbuttingExample(f: Function)
    requires f.address == 16 && f.size == 32
    ensures var fs, ls := [f], [Line(16, 16, 0, 1), Line(32, 16, 0, 2)];
            && AllProper(fs, ls) && Ordered(fs, ls) && At(fs, ls, 0, 0, 16)
            && Next(fs, ls, 0, 0, 16, 32) && At(fs, ls, 0, 1, 32) && SameState(fs, ls, 32)
  {
    var fs, ls := [f], [Line(16, 16, 0, 1), Line(32, 16, 0, 2)];
    assert fs[0].address <= 31 < FuncEnd(fs[0]) && fs[0].address <= 32 < FuncEnd(fs[0]);
    assert ls[0].address <= 31 < LineEnd(ls[0]) && ls[1].address <= 32 < LineEnd(ls[1]);
  }

  /** Below the first address nothing is due. */
  lemma InitialState(fs: seq<Function>, ls: seq<Line>, c: int)
    requires forall j :: 0 <= j < |fs| ==> c <= fs[j].address
    requires forall k :: 0 <= k < |ls| ==> c <= ls[k].address
    ensures Filled(fs, ls, c, seq(|fs|, _ => []))
    ensures Reported(fs, ls, 0, 0, c, Notes(-1, -1, -1, [], []))
  {
    forall j | 0 <= j < |fs| ensures Pieces(ls, fs[j].address, Min(FuncEnd(fs[j]), c)) == [] {
      PiecesEmpty(ls, fs[j].address, Min(FuncEnd(fs[j]), c));
    }
    SelectNone(fs, BareMarks(fs, ls, c));
    SelectNone(ls, StrayMarks(ls, fs, c));
  }

  /** Past all functions and lines everything due has been given. */
  lemma FinalState(fs: seq<Function>, ls: seq<Line>, c: int)
    requires AllProper(fs, ls)
    requires forall j :: 0 <= j < |fs| ==> FuncEnd(fs[j]) <= c
    requires forall k :: 0 <= k < |ls| ==> LineEnd(ls[k]) <= c
    ensures Select(fs, BareMarks(fs, ls, c)) == BareFunctions(fs, ls)
    ensures Select(ls, StrayMarks(ls, fs, c)) == StrayLines(ls, fs)
  {
    assert BareMarks(fs, ls, c) == BareMarks(fs, ls, SPACE);
    assert StrayMarks(ls, fs, c) == StrayMarks(ls, fs, SPACE);
  }

  /** The start and end addresses of all functions and lines. */
  ghost function FuncEnds(fs: seq<Function>): (r: set<int>)
    ensures |r| <= 2 * |fs|
    ensures forall j :: 0 <= j < |fs| ==> fs[j].address in r && FuncEnd(fs[j]) in r
  {
    if fs == [] then {} else {fs[0].address, FuncEnd(fs[0])} + FuncEnds(fs[1..])
  }

  ghost function LineEnds(ls: seq<Line>): (r: set<int>)
    ensures |r| <= 2 * |ls|
    ensures forall k :: 0 <= k < |ls| ==> ls[k].address in r && LineEnd(ls[k]) in r
  {
    if ls == [] then {} else {ls[0].address, LineEnd(ls[0])} + LineEnds(ls[1..])
  }

  lemma SubsetSize<T>(a: set<T>, b: set<T>)
    requires a <= b
    ensures |a| <= |b|
  {
    assert b == a + (b - a);
  }

  ghost function Ends(fs: seq<Function>, ls: seq<Line>): (r: set<int>)
    ensures |r| <= 2 * (|fs| + |ls|)
  {
    FuncEnds(fs) + LineEnds(ls)
  }

  ghost function Below(ends: set<int>, c: int): set<int> {
    set e | e in ends && e < c
  }

  /** Every transition is the start or the end of a function or a line, and they are met in order. */
  lemma EndsStep(fs: seq<Function>, ls: seq<Line>, fi: nat, li: nat, c: int, n: int)
    requires fi <= |fs| && li <= |ls| && Next(fs, ls, fi, li, c, n) && c in Ends(fs, ls)
    ensures n in Ends(fs, ls)
    ensures |Below(Ends(fs, ls), n)| > |Below(Ends(fs, ls), c)|
  {
    var ends := Ends(fs, ls);
    SubsetSize(Below(ends, c) + {c}, Below(ends, n));
  }

  ghost predicate FunctionsSorted(fs: seq<Function>) {
    forall i, j :: 0 <= i < j < |fs| ==> fs[i].address <= fs[j].address
  }

  ghost predicate LinesSorted(ls: seq<Line>) {
    forall i, j :: 0 <= i < j < |ls| ==> ls[i].address <= ls[j].address
  }

  function FunctionKeys(fs: seq<Function>): (r: seq<int>)
    ensures |r| == |fs|
  {
    seq(|fs|, i requires 0 <= i < |fs| => fs[i].address)
  }

  function LineKeys(ls: seq<Line>): (r: seq<int>)
    ensures |r| == |ls|
  {
    seq(|ls|, i requires 0 <= i < |ls| => ls[i].address)
  }

  lemma SortedFunctions(fs0: seq<Function>, fs: seq<Function>, perm: seq<nat>)
    requires Ordering(FunctionKeys(fs0), perm) && Rearranges(fs0, fs, perm)
    ensures FunctionsSorted(fs)
    ensures DisjointFunctions(fs0) ==> DisjointFunctions(fs)
    ensures Distinct(fs0) ==> Distinct(fs)
  {
    forall i, j | 0 <= i < j < |fs| ensures perm[i] != perm[j] && fs[i] == fs0[perm[i]] && fs[j] == fs0[perm[j]] {
    }
  }

  lemma SortedLines(ls0: seq<Line>, ls: seq<Line>, perm: seq<nat>)
    requires Ordering(LineKeys(ls0), perm) && Rearranges(ls0, ls, perm)
    ensures LinesSorted(ls)
    ensures DisjointLines(ls0) ==> DisjointLines(ls)
  {
    forall i, j | 0 <= i < j < |ls| ensures perm[i] != perm[j] && ls[i] == ls0[perm[i]] && ls[j] == ls0[perm[j]] {
    }
  }

  lemma SameMembers<T>(a: seq<T>, b: seq<T>)
    requires multiset(a) == multiset(b)
    ensures forall i :: 0 <= i < |a| ==> a[i] in b
  {
    forall i | 0 <= i < |a| ensures a[i] in b {
      assert a[i] in multiset(a);
    }
  }

  /** What sorting both vectors gives. */
  lemma SortedBoth(fs0: seq<Function>, ls0: seq<Line>, fs: seq<Function>, ls: seq<Line>, perm: seq<nat>,
                   perm': seq<nat>)
    requires AllProper(fs0, ls0) && Distinct(fs0)
    requires Ordering(FunctionKeys(fs0), perm) && Rearranges(fs0, fs, perm)
    requires Ordering(LineKeys(ls0), perm') && Rearranges(ls0, ls, perm')
    ensures AllProper(fs, ls) && Distinct(fs) && FunctionsSorted(fs) && LinesSorted(ls)
    ensures multiset(fs) == multiset(fs0) && multiset(ls) == multiset(ls0)
    ensures forall i :: 0 <= i < |fs| ==> fs[i] in fs0
    ensures DisjointFunctions(fs0) && DisjointLines(ls0) ==> Ordered(fs, ls)
  {
    SortedFunctions(fs0, fs, perm);
    SortedLines(ls0, ls, perm');
    SameMembers(fs, fs0);
    SameMembers(ls, ls0);
    hide Ordering, FunctionKeys, LineKeys, Distinct, FunctionsSorted, LinesSorted;
    hide DisjointFunctions, DisjointLines, Ordered;
    assert AllProper(fs, ls);
    if DisjointFunctions(fs0) && DisjointLines(ls0) {
      SortedDisjointOrdered(fs, ls);
    }
  }

  lemma SortedDisjointOrdered(fs: seq<Function>, ls: seq<Line>)
    requires AllProper(fs, ls) && DisjointFunctions(fs) && DisjointLines(ls)
    requires FunctionsSorted(fs) && LinesSorted(ls)
    ensures Ordered(fs, ls)
  {
    forall i, j | 0 <= i < j < |fs| ensures FuncEnd(fs[i]) <= fs[j].address {
      assert fs[i].address <= fs[j].address && ProperFunction(fs[j]);
    }
    forall i, j | 0 <= i < j < |ls| ensures LineEnd(ls[i]) <= ls[j].address {
      assert ls[i].address <= ls[j].address && ProperLine(ls[j]);
    }
  }

  /** What holds between two iterations of the main loop, at the transition `c`. */
  ghost predicate Keeps(fs: seq<Function>, ls: seq<Line>, fi: nat, li: nat, c: int, added: seq<seq<Line>>, m: Notes) {
    && At(fs, ls, fi, li, c)
    && AllPieces(fs, ls, added)
    && (Ordered(fs, ls) ==>
          && Boundary(fs, ls, fi, li, c)
          && Filled(fs, ls, c, added)
          && Reported(fs, ls, fi, li, c, m))
  }

  lemma KeepsStep(fs: seq<Function>, ls: seq<Line>, fi: nat, li: nat, c: int, n: int,
                  added: seq<seq<Line>>, m: Notes, fi': nat, li': nat)
    requires AllProper(fs, ls)
    requires Keeps(fs, ls, fi, li, c, added, m) && Next(fs, ls, fi, li, c, n)
    requires fi <= fi' && li <= li' && At(fs, ls, fi', li', n)
    ensures Keeps(fs, ls, fi', li', n, VisitLines(fs, ls, fi, li, c, n, added), Visit(fs, ls, fi, li, c, m))
  {
    AllPiecesStep(fs, ls, fi, li, c, n, added);
    if Ordered(fs, ls) {
      FilledStep(fs, ls, fi, li, c, n, added);
      ReportedStep(fs, ls, fi, li, c, n, m, fi', li');
      BoundaryStep(fs, ls, fi, li, c, n, fi', li');
    }
  }

  /** All that `f` received beyond `before` are pieces of lines. */
  ghost predicate OnlyPieces(f: Function, before: seq<Line>, ls: seq<Line>)
    reads f
  {
    before <= f.lines && forall p :: p in f.lines[|before|..] ==> PieceOf(p, f, ls)
  }

  ghost predicate Distinct<T>(s: seq<T>) {
    forall i, j :: 0 <= i < j < |s| ==> s[i] != s[j]
  }

  ghost function AllLines(fs: seq<Function>): (r: seq<seq<Line>>)
    reads fs
    ensures |r| == |fs| && forall j :: 0 <= j < |fs| ==> r[j] == fs[j].lines
  {
    seq(|fs|, j requires 0 <= j < |fs| reads fs => fs[j].lines)
  }

  class CompilationUnit {
    var functions: seq<Function>
    var lines: seq<Line>
    // The calls made to the warning reporter.
    var uncoveredFunctions: seq<Function>
    var uncoveredLines: seq<Line>

    ghost predicate Valid()
      reads this
    {
      AllProper(functions, lines) && Distinct(functions)
    }

    constructor ()
      ensures Valid() && functions == [] && lines == [] && uncoveredFunctions == [] && uncoveredLines == []
    {
      functions, lines, uncoveredFunctions, uncoveredLines := [], [], [], [];
    }

    /**
     * FuncHandler::Finish: keep a function only when its range is nonempty and does not start at
     * zero. `high` is an address, or an offset from `low`.
     */
    method FinishFunction(name: string, low: Address, high: Address, highIsAddress: bool)
      requires Valid()
      modifies this`functions
      ensures Valid()
      ensures var end := if highIsAddress then high else Plus(high, low);
              if 0 < low < end then
                && |functions| == |old(functions)| + 1 && old(functions) <= functions
                && var f := functions[|old(functions)|];
                   fresh(f) && f.address == low && FuncEnd(f) == end && f.lines == []
                   && f.name == if name == "" then "<name omitted>" else name
              else functions == old(functions)
    {
      var end := if highIsAddress then high else Plus(high, low);
      if low < end {
        var f := new Function(if name == "" then "<name omitted>" else name, low, Minus(end, low));
        if f.address != 0 {
          functions := functions + [f];
        }
      }
    }

    /** The last function cited is the one the notes name. */
    ghost predicate Remembers(lastFunctionCited: Function?, m: Notes)
      reads this
    {
      && m.citedFunc < |functions|
      && lastFunctionCited == if m.citedFunc < 0 then null else functions[m.citedFunc]
    }

    /** The functions and the reporter hold what they held before, `old`, and what the pass added. */
    ghost predicate Outputs(start: seq<seq<Line>>, bare: seq<Function>, stray: seq<Line>,
                            added: seq<seq<Line>>, m: Notes)
      reads this, functions
    {
      && |start| == |added| == |functions|
      && (forall j :: 0 <= j < |functions| ==> functions[j].lines == start[j] + added[j])
      && uncoveredFunctions == bare + m.bare
      && uncoveredLines == stray + m.stray
    }

    /** `func->lines.push_back(l)`. */
    method AddLine(fi: nat, l: Line, ghost start: seq<seq<Line>>, ghost bare: seq<Function>, ghost stray: seq<Line>,
                   ghost added: seq<seq<Line>>, ghost m: Notes)
      requires Distinct(functions) && fi < |functions| && Outputs(start, bare, stray, added, m)
      modifies functions[fi]
      ensures Outputs(start, bare, stray, added[fi := added[fi] + [l]], m)
    {
      functions[fi].lines := functions[fi].lines + [l];
    }

    /** The body of the main loop at `current`: add a line or warn, and find the next transition `n`. */
    method VisitAt(fi: nat, li: nat, current: Address, usedLine: int, citedLine: int, citedFunction: Function?,
                   ghost start: seq<seq<Line>>, ghost bare: seq<Function>, ghost stray: seq<Line>,
                   ghost added: seq<seq<Line>>, ghost m: Notes)
      returns (next: Address, usedLine': int, citedLine': int, citedFunction': Function?,
               ghost n: int, ghost added': seq<seq<Line>>, ghost m': Notes)
      requires Valid()
      requires At(functions, lines, fi, li, current) && (fi < |functions| || li < |lines|)
      requires m.usedLine == usedLine && m.citedLine == citedLine && Remembers(citedFunction, m)
      requires Outputs(start, bare, stray, added, m)
      modifies this`uncoveredFunctions, this`uncoveredLines, functions
      ensures Next(functions, lines, fi, li, current, n) && next == if n == SPACE then 0 else n
      ensures m' == Visit(functions, lines, fi, li, current, m)
      ensures added' == VisitLines(functions, lines, fi, li, current, n, added)
      ensures m'.usedLine == usedLine' && m'.citedLine == citedLine' && Remembers(citedFunction', m')
      ensures Outputs(start, bare, stray, added', m')
    {
      added' := added;
      m' := Visit(functions, lines, fi, li, current, m);
      usedLine', citedLine', citedFunction' := usedLine, citedLine, citedFunction;
      assert fi < |functions| ==>
        current < functions[fi].address || Within(functions[fi].address, functions[fi].size, current);
      assert li < |lines| ==> current < lines[li].address || Within(lines[li].address, lines[li].size, current);
      if fi < |functions| && current >= functions[fi].address {
        var func := functions[fi];
        if li < |lines| && current >= lines[li].address {
          // A function and a line overlap here.
          var line := lines[li];
          var funcLeft := Minus(func.size, Minus(current, func.address));
          var lineLeft := Minus(line.size, Minus(current, line.address));
          next, n := Plus(current, Min(funcLeft, lineLeft)), Min(FuncEnd(func), LineEnd(line));
          var l := line.(address := current, size := Minus(next, current));
          AddLine(fi, l, start, bare, stray, added, m);
          added' := added[fi := added[fi] + [l]];
          usedLine' := li;
        } else {
          // A function without a line here.
          if func != citedFunction {
            uncoveredFunctions := uncoveredFunctions + [func];
            citedFunction' := func;
          }
          if li < |lines| && Within(func.address, func.size, lines[li].address) {
            next, n := lines[li].address, lines[li].address;
          } else {
            next, n := Plus(func.address, func.size), FuncEnd(func);
          }
        }
      } else if li < |lines| && current >= lines[li].address {
        // A line outside all functions. Padding before the next function earns no warning.
        var line := lines[li];
        if li != citedLine
           && !(fi < |functions| && li == usedLine
                && Minus(functions[fi].address, line.address) == line.size)
        {
          uncoveredLines := uncoveredLines + [line];
          citedLine' := li;
        }
        if fi < |functions| && Within(line.address, line.size, functions[fi].address) {
          next, n := functions[fi].address, functions[fi].address;
        } else {
          next, n := Plus(line.address, line.size), LineEnd(line);
        }
      } else {
        // Covered by neither.
        if fi < |functions| && li < |lines| {
          next := Min(functions[fi].address, lines[li].address);
        } else if fi < |functions| {
          next := functions[fi].address;
        } else {
          next := lines[li].address;
        }
        n := next;
      }
    }

    /** Skip the functions and lines that end at or before `next`. */
    method Advance(fi: nat, li: nat, next: Address) returns (fi': nat, li': nat)
      requires Valid() && fi <= |functions| && li <= |lines|
      requires forall j :: 0 <= j < fi ==> FuncEnd(functions[j]) <= next
      requires forall k :: 0 <= k < li ==> LineEnd(lines[k]) <= next
      ensures fi <= fi' && li <= li' && At(functions, lines, fi', li', next)
    {
      fi', li' := fi, li;
      while fi' < |functions| && next >= functions[fi'].address
            && !Within(functions[fi'].address, functions[fi'].size, next)
        invariant fi <= fi' <= |functions|
        invariant forall j :: 0 <= j < fi' ==> FuncEnd(functions[j]) <= next
      {
        fi' := fi' + 1;
      }
      while li' < |lines| && next >= lines[li'].address
            && !Within(lines[li'].address, lines[li'].size, next)
        invariant li <= li' <= |lines|
        invariant forall k :: 0 <= k < li' ==> LineEnd(lines[k]) <= next
      {
        li' := li' + 1;
      }
    }

    /** Where the pass starts: the first function or line, whichever is earlier. */
    method Start() returns (current: Address)
      requires Valid() && (|functions| > 0 || |lines| > 0)
      ensures current in Ends(functions, lines)
      ensures Keeps(functions, lines, 0, 0, current, seq(|functions|, _ => []), Notes(-1, -1, -1, [], []))
    {
      if |functions| > 0 && |lines| > 0 {
        current := Min(functions[0].address, lines[0].address);
      } else if |lines| > 0 {
        current := lines[0].address;
      } else {
        current := functions[0].address;
      }
      if Ordered(functions, lines) {
        InitialState(functions, lines, current);
      }
    }

    /** What the invariant says at the end of the pass. */
    lemma Conclude(c: int, start: seq<seq<Line>>, bare: seq<Function>, stray: seq<Line>,
                   added: seq<seq<Line>>, m: Notes)
      requires Valid() && Keeps(functions, lines, |functions|, |lines|, c, added, m)
      requires Outputs(start, bare, stray, added, m)
      ensures |start| == |functions|
      ensures forall j :: 0 <= j < |functions| ==> OnlyPieces(functions[j], start[j], lines)
      ensures Ordered(functions, lines) ==>
        && (forall j :: 0 <= j < |functions| ==>
              functions[j].lines == start[j] + Pieces(lines, functions[j].address, FuncEnd(functions[j])))
        && uncoveredFunctions == bare + BareFunctions(functions, lines)
        && uncoveredLines == stray + StrayLines(lines, functions)
    {
      forall j | 0 <= j < |functions| ensures OnlyPieces(functions[j], start[j], lines) {
        assert functions[j].lines[|start[j]|..] == added[j];
      }
      if Ordered(functions, lines) {
        FinalState(functions, lines, c);
      }
    }

    /** One iteration of the main loop; `stop` when the next transition is the end of the address space. */
    method Iterate(fi: nat, li: nat, current: Address, usedLine: int, citedLine: int, citedFunction: Function?,
                   ghost start: seq<seq<Line>>, ghost bare: seq<Function>, ghost stray: seq<Line>,
                   ghost added: seq<seq<Line>>, ghost m: Notes)
      returns (stop: bool, fi': nat, li': nat, next: Address,
               usedLine': int, citedLine': int, citedFunction': Function?,
               ghost c': int, ghost added': seq<seq<Line>>, ghost m': Notes)
      requires Valid() && (fi < |functions| || li < |lines|)
      requires Keeps(functions, lines, fi, li, current, added, m) && Outputs(start, bare, stray, added, m)
      requires m.usedLine == usedLine && m.citedLine == citedLine && Remembers(citedFunction, m)
      requires current in Ends(functions, lines)
      modifies this`uncoveredFunctions, this`uncoveredLines, functions
      ensures Keeps(functions, lines, fi', li', c', added', m') && Outputs(start, bare, stray, added', m')
      ensures m'.usedLine == usedLine' && m'.citedLine == citedLine' && Remembers(citedFunction', m')
      ensures fi' <= |functions| && li' <= |lines|
      ensures if stop then fi' == |functions| && li' == |lines| else current < c' == next
      ensures c' in Ends(functions, lines)
      ensures |Below(Ends(functions, lines), c')| > |Below(Ends(functions, lines), current)|
    {
      ghost var fs, ls := functions, lines;
      hide Reported;
      hide Filled;
      next, usedLine', citedLine', citedFunction', c', added', m' :=
        VisitAt(fi, li, current, usedLine, citedLine, citedFunction, start, bare, stray, added, m);
      EndsStep(fs, ls, fi, li, current, c');
      stop := next == 0;
      if stop {
        fi', li' := |functions|, |lines|;
      } else {
        fi', li' := Advance(fi, li, next);
        assert next > current;
      }
      KeepsStep(fs, ls, fi, li, current, c', added, m, fi', li');
    }

    /** The single pass. `steps` counts the iterations of the main loop. */
    method Sweep() returns (ghost steps: nat)
      requires Valid()
      modifies this`uncoveredFunctions, this`uncoveredLines, functions
      ensures forall j :: 0 <= j < |functions| ==> OnlyPieces(functions[j], old(functions[j].lines), lines)
      ensures steps <= 2 * (|functions| + |lines|)
      ensures Ordered(functions, lines) ==>
        && (forall j :: 0 <= j < |functions| ==>
              functions[j].lines == old(functions[j].lines)
                                    + Pieces(lines, functions[j].address, FuncEnd(functions[j])))
        && uncoveredFunctions == old(uncoveredFunctions) + BareFunctions(functions, lines)
        && uncoveredLines == old(uncoveredLines) + StrayLines(lines, functions)
    {
      hide Keeps;
      ghost var start, added := AllLines(functions), seq(|functions|, _ => []);
      ghost var bare, stray := uncoveredFunctions, uncoveredLines;
      ghost var m := Notes(-1, -1, -1, [], []);
      steps := 0;
      if |functions| == 0 && |lines| == 0 {
        return;
      }
      var usedLine, citedLine := -1, -1;
      var citedFunction: Function? := null;
      var fi: nat, li: nat, stop := 0, 0, false;
      var current := Start();
      // The transition reached: `current`, or SPACE when the pass stopped at the end of the space.
      ghost var c: int := current;

      while !stop && (fi < |functions| || li < |lines|)
        invariant fi <= |functions| && li <= |lines|
        invariant stop ==> fi == |functions| && li == |lines|
        invariant !stop ==> c == current
        invariant Keeps(functions, lines, fi, li, c, added, m)
        invariant Outputs(start, bare, stray, added, m)
        invariant m.citedLine == citedLine && m.usedLine == usedLine && Remembers(citedFunction, m)
        invariant c in Ends(functions, lines) && steps <= |Below(Ends(functions, lines), c)|
        decreases !stop, SPACE - c
      {
        stop, fi, li, current, usedLine, citedLine, citedFunction, c, added, m :=
          Iterate(fi, li, current, usedLine, citedLine, citedFunction, start, bare, stray, added, m);
        steps := steps + 1;
      }
      SubsetSize(Below(Ends(functions, lines), c), Ends(functions, lines));
      Conclude(c, start, bare, stray, added, m);
    }

    lemma ValidIs()
      ensures Valid() <==> AllProper(functions, lines) && Distinct(functions)
    {
    }

    /** std::sort of both vectors. */
    method SortByAddress()
      requires Valid()
      modifies this`functions, this`lines
      ensures Valid()
      ensures multiset(functions) == multiset(old(functions)) && multiset(lines) == multiset(old(lines))
      ensures FunctionsSorted(functions) && LinesSorted(lines)
      ensures forall i :: 0 <= i < |functions| ==> functions[i] in old(functions)
      ensures old(DisjointFunctions(functions) && DisjointLines(lines)) ==> Ordered(functions, lines)
    {
      hide *;
      var fs0, ls0 := functions, lines;
      ValidIs();
      var fs, perm := StableSort(fs0, FunctionKeys(fs0));
      var ls, perm' := StableSort(ls0, LineKeys(ls0));
      SortedBoth(fs0, ls0, fs, ls, perm, perm');
      functions, lines := fs, ls;
      ValidIs();
    }

    /** Put functions and lines in order of address, then make the pass. */
    method AssignLinesToFunctions() returns (ghost steps: nat)
      requires Valid()
      modifies this, functions
      ensures multiset(functions) == multiset(old(functions)) && multiset(lines) == multiset(old(lines))
      ensures FunctionsSorted(functions) && LinesSorted(lines)
      ensures forall f :: f in functions ==> f in old(functions) && OnlyPieces(f, old(f.lines), lines)
      ensures steps <= 2 * (|functions| + |lines|)
      ensures old(DisjointFunctions(functions) && DisjointLines(lines)) ==>
        && (forall f :: f in functions ==> f.lines == old(f.lines) + Pieces(lines, f.address, FuncEnd(f)))
        && uncoveredFunctions == old(uncoveredFunctions) + BareFunctions(functions, lines)
        && uncoveredLines == old(uncoveredLines) + StrayLines(lines, functions)
    {
      SortByAddress();
      steps := Sweep();
    }
  }
}
