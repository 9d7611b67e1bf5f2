/**
 * DwarfLineToModule::AddLine over a whole line number program: zero-length rows are dropped,
 * rows that run past the end of the address space are clipped, and runs of rows that start at
 * address zero (code that the linker omitted) are left out.
 */
module LineProgram {
  import opened Addresses
  import opened LineAssignment
  import opened Options

  /** A row of the line number table, with the file that its number stood for when it was added. */
  datatype Row = Row(address: Address, length: Address, file: Option<nat>, line: int)

  /** The length that stays inside the address space. */
  function Clipped(r: Row): Address {
    if Plus(r.address, r.length) < r.address then Minus(0, r.address) else r.length
  }

  function RowEnd(r: Row): int {
    r.address + Clipped(r)
  }

  /** A row ends where its length says, or at the end of the address space. */
  lemma RowEnds(r: Row)
    ensures RowEnd(r) == Min(r.address + r.length, SPACE) && Clipped(r) == Min(r.length, SPACE - r.address)
  {
  }

  /** The rows that describe at least one byte. */
  function Live(rows: seq<Row>): (r: seq<Row>) {
    if rows == [] then []
    else
      var last := rows[|rows| - 1];
      Live(rows[..|rows| - 1]) + if last.length == 0 then [] else [last]
  }

  /** Row `i` starts at zero, or starts immediately after an omitted row. */
  predicate Omitted(rows: seq<Row>, i: nat)
    requires i < |rows|
  {
    rows[i].address == 0 || (i > 0 && Omitted(rows, i - 1) && rows[i].address == RowEnd(rows[i - 1]))
  }

  /** A run of abutting rows that starts at zero and ends with row `i`. */
  ghost predicate RunFromZero(rows: seq<Row>, k: nat, i: nat) {
    && k <= i < |rows|
    && rows[k].address == 0
    && forall m :: k < m <= i ==> rows[m].address == Min(rows[m - 1].address + rows[m - 1].length, SPACE)
  }

  /** Omitted rows are exactly those at the end of such a run. */
  lemma {:induction false} OmittedIffRun(rows: seq<Row>, i: nat)
    requires i < |rows|
    ensures Omitted(rows, i) <==> exists k: nat :: RunFromZero(rows, k, i)
  {
    if rows[i].address == 0 {
      assert RunFromZero(rows, i, i);
    } else if i > 0 {
      OmittedIffRun(rows, i - 1);
      RowEnds(rows[i - 1]);
      hide RowEnd;
      if Omitted(rows, i) {
        var k: nat :| RunFromZero(rows, k, i - 1);
        assert RunFromZero(rows, k, i);
      }
      if k: nat :| RunFromZero(rows, k, i) {
        assert RunFromZero(rows, k, i - 1);
      }
    }
  }

  /** The lines for the first `n` rows, all live, that are not omitted and name a known file. */
  function KeptLines(rows: seq<Row>, n: nat): (r: seq<Line>)
    requires n <= |rows|
  {
    if n == 0 then []
    else
      var row := rows[n - 1];
      KeptLines(rows, n - 1)
      + if Omitted(rows, n - 1) || row.file.None? then []
        else [Line(row.address, Clipped(row), row.file.value, row.line)]
  }

  /** The line for a row, up to where the row ends. */
  ghost predicate LineFor(row: Row, l: Line) {
    row.file.Some? && l == Line(row.address, Min(row.length, SPACE - row.address), row.file.value, row.line)
  }

  /** The lines kept are those for the rows that name a known file and do not end a run from zero. */
  lemma {:induction false} KeptLinesExactly(rows: seq<Row>, n: nat, l: Line)
    requires n <= |rows|
    ensures l in KeptLines(rows, n) <==>
            exists i :: 0 <= i < n && LineFor(rows[i], l) && !exists k: nat :: RunFromZero(rows, k, i)
  {
    if n > 0 {
      KeptLinesExactly(rows, n - 1, l);
      RowEnds(rows[n - 1]);
      OmittedIffRun(rows, n - 1);
      hide RunFromZero, Clipped, Omitted;
    }
  }

  lemma {:induction false} OmittedPrefix(rows: seq<Row>, more: seq<Row>, i: nat)
    requires i < |rows|
    ensures Omitted(rows + more, i) <==> Omitted(rows, i)
  {
    if i > 0 {
      OmittedPrefix(rows, more, i - 1);
    }
  }

  lemma {:induction false} KeptLinesPrefix(rows: seq<Row>, more: seq<Row>, n: nat)
    requires n <= |rows|
    ensures KeptLines(rows + more, n) == KeptLines(rows, n)
  {
    if n > 0 {
      KeptLinesPrefix(rows, more, n - 1);
      OmittedPrefix(rows, more, n - 1);
    }
  }

  lemma LiveAppend(rows: seq<Row>, row: Row)
    ensures Live(rows + [row]) == if row.length == 0 then Live(rows) else Live(rows) + [row]
  {
    assert (rows + [row])[..|rows|] == rows;
  }

  /** Where the last row ends if it is omitted, else zero: all that is remembered of the rows so far. */
  function OmittedEnd(live: seq<Row>): Address {
    if live != [] && Omitted(live, |live| - 1) && RowEnd(live[|live| - 1]) < SPACE
    then RowEnd(live[|live| - 1]) else 0
  }

  /** One word decides whether the next row is omitted, and what is kept. */
  lemma AppendRow(live: seq<Row>, row: Row)
    ensures Omitted(live + [row], |live|) <==> row.address == 0 || row.address == OmittedEnd(live)
    ensures KeptLines(live + [row], |live| + 1)
         == KeptLines(live, |live|)
            + if row.address == 0 || row.address == OmittedEnd(live) || row.file.None? then []
              else [Line(row.address, Clipped(row), row.file.value, row.line)]
    ensures OmittedEnd(live + [row])
         == if row.address == 0 || row.address == OmittedEnd(live) then Plus(row.address, Clipped(row)) else 0
  {
    KeptLinesPrefix(live, [row], |live|);
    if live != [] {
      OmittedPrefix(live, [row], |live| - 1);
    }
  }

  lemma {:induction false} LiveRows(rows: seq<Row>, i: nat)
    requires i < |Live(rows)|
    ensures 0 < Live(rows)[i].length
  {
    var last := |rows| - 1;
    if i < |Live(rows[..last])| {
      LiveRows(rows[..last], i);
    }
  }

  /** Every line kept is nonempty, does not wrap and does not start at zero, as the assignment to functions needs. */
  lemma {:induction false} KeptLinesProper(rows: seq<Row>, n: nat, l: Line)
    requires n <= |Live(rows)| && l in KeptLines(Live(rows), n)
    ensures ProperLine(l) && 0 < l.address
  {
    LiveRows(rows, n - 1);
    if l in KeptLines(Live(rows), n - 1) {
      KeptLinesProper(rows, n - 1, l);
    }
  }

  // ---------------------------------------------------------------------------------------
  // Paths
  // ---------------------------------------------------------------------------------------

  predicate PathIsAbsolute(path: string) {
    path != "" && path[0] == '/'
  }

  /** A relative path is taken to start at `base`. */
  function ExpandPath(path: string, base: string): string {
    if PathIsAbsolute(path) || base == "" then path
    else if base[|base| - 1] == '/' then base + path
    else base + "/" + path
  }

  /**
   * An expanded path is absolute if the path or its base is, and ends with the path. Before a relative
   * path stands its base, and exactly the slash that this may lack.
   */
  lemma ExpandedPath(path: string, base: string)
    ensures PathIsAbsolute(ExpandPath(path, base)) <==>
            PathIsAbsolute(path) || (base != "" && PathIsAbsolute(base))
    ensures var r := ExpandPath(path, base);
            && |path| <= |r| && r[|r| - |path|..] == path
            && (PathIsAbsolute(path) || base == "" ==> |r| == |path|)
            && (!PathIsAbsolute(path) && base != "" ==>
                  && base <= r && r[|r| - |path| - 1] == '/'
                  && |r| == |base| + |path| + if base[|base| - 1] == '/' then 0 else 1)
  {
  }

  // ---------------------------------------------------------------------------------------
  // The handler of a line number program
  // ---------------------------------------------------------------------------------------

  class DwarfLineToModule {
    const compilationDir: string
    /** Module::FindFile, giving files numbers. */
    const findFile: string -> nat
    var directories: map<int, string>
    /** The files of the module by number. */
    var files: map<int, nat>
    var highestFileNumber: int
    var lines: seq<Line>
    var omittedLineEnd: Address
    var warnedBadFileNumber: bool
    // The rows handed to AddLine so far.
    ghost var rows: seq<Row>

    /** `lines` are the lines kept of all the rows seen, and `omittedLineEnd` is where an omitted last row ends. */
    ghost predicate Valid()
      reads this
    {
      var live := Live(rows);
      && lines == KeptLines(live, |live|)
      && omittedLineEnd == OmittedEnd(live)
      && forall k :: k in files ==> k <= highestFileNumber
    }

    constructor (compilationDir: string, findFile: string -> nat)
      ensures Valid() && this.compilationDir == compilationDir && this.findFile == findFile
      ensures rows == [] && files == map[] && directories == map[]
    {
      this.compilationDir, this.findFile, directories := compilationDir, findFile, map[];
      files, highestFileNumber, lines, omittedLineEnd, warnedBadFileNumber, rows := map[], -1, [], 0, false, [];
    }

    /** Directory zero is the compilation directory, and an unknown one has no name. */
    function DirName(dirNumber: int): string
      reads this`directories
    {
      if dirNumber == 0 then compilationDir
      else if dirNumber in directories then directories[dirNumber]
      else ""
    }

    /** A directory is defined under its number; zero cannot be redefined. */
    method DefineDir(name: string, dirNumber: int)
      requires Valid()
      modifies this`directories
      ensures Valid()
      ensures forall k ::
                DirName(k) == if k == dirNumber != 0 then ExpandPath(name, compilationDir) else old(DirName(k))
    {
      if dirNumber != 0 {
        directories := directories[dirNumber := ExpandPath(name, compilationDir)];
      }
    }

    /** A file is defined under its number, or under a new one when that is -1; this may happen between rows. */
    method DefineFile(name: string, fileNumber: int, dirNumber: int)
      requires Valid()
      modifies this`files, this`highestFileNumber
      ensures Valid()
      ensures var n := if fileNumber == -1 then old(highestFileNumber) + 1 else fileNumber;
              && files == old(files)[n := findFile(ExpandPath(name, DirName(dirNumber)))]
              && (fileNumber == -1 ==> n !in old(files))
    {
      var n := fileNumber;
      if n == -1 {
        highestFileNumber := highestFileNumber + 1;
        n := highestFileNumber;
      } else if n > highestFileNumber {
        highestFileNumber := n;
      }
      files := files[n := findFile(ExpandPath(name, DirName(dirNumber)))];
    }

    method AddLine(address: Address, length: Address, fileNumber: int, line: int)
      requires Valid()
      modifies this`lines, this`omittedLineEnd, this`warnedBadFileNumber, this`rows
      ensures Valid()
      ensures rows == old(rows) + [Row(address, length, FileOf(fileNumber), line)]
      ensures var kept := length > 0 && address != 0 && address != old(omittedLineEnd) && fileNumber in files;
              lines == old(lines) + if kept then [Line(address, Min(length, SPACE - address), files[fileNumber], line)]
                                    else []
      ensures omittedLineEnd ==
              if length == 0 then old(omittedLineEnd)
              else if address != 0 && address != old(omittedLineEnd) then 0
              else if address + length < SPACE then address + length else 0
    {
      ghost var live, row := Live(rows), Row(address, length, FileOf(fileNumber), line);
      rows := rows + [row];
      LiveAppend(old(rows), row);
      if length == 0 {
        return;
      }
      AppendRow(live, row);
      hide KeptLines, Omitted, OmittedEnd, Live;
      var clipped := length;
      if Plus(address, length) < address {
        clipped := Minus(0, address);
      }
      if address == 0 || address == omittedLineEnd {
        omittedLineEnd := Plus(address, clipped);
        return;
      }
      omittedLineEnd := 0;
      if fileNumber !in files {
        warnedBadFileNumber := true;
        return;
      }
      lines := lines + [Line(address, clipped, files[fileNumber], line)];
    }

    function FileOf(fileNumber: int): Option<nat>
      reads this`files
    {
      if fileNumber in files then Some(files[fileNumber]) else None
    }
  }

  datatype Problem = MissingSection | BadLineInfoOffset(offset: Address)

  /** The length of the section with line number programs, under either of its names. */
  function LineSection(sections: map<string, Address>): Option<Address> {
    if ".debug_line" in sections then Some(sections[".debug_line"])
    else if "__debug_line" in sections then Some(sections["__debug_line"])
    else None
  }

  /**
   * DwarfCUToModule::ReadSourceLines: the lines of a line number program join those of the unit,
   * which is then fit for the assignment to functions. A missing section, or an offset outside it, is
   * reported and leaves the unit as it was. `program` is what the program at the offset fills.
   */
  method ReadSourceLines(unit: CompilationUnit, sections: map<string, Address>, offset: Address,
                         program: DwarfLineToModule)
      returns (problem: Option<Problem>)
    requires unit.Valid() && program.Valid()
    modifies unit`lines
    ensures unit.Valid()
    ensures problem == if LineSection(sections).None? then Some(MissingSection)
                       else if offset >= LineSection(sections).value then Some(BadLineInfoOffset(offset))
                       else None
    ensures unit.lines == if problem.None? then old(unit.lines) + program.lines else old(unit.lines)
  {
    if ".debug_line" !in sections && "__debug_line" !in sections {
      return Some(MissingSection);
    }
    var length := if ".debug_line" in sections then sections[".debug_line"] else sections["__debug_line"];
    if offset >= length {
      return Some(BadLineInfoOffset(offset));
    }
    ghost var live := Live(program.rows);
    forall l | l in program.lines ensures ProperLine(l) {
      KeptLinesProper(program.rows, |live|, l);
    }
    hide Live, KeptLines, OmittedEnd;
    assert forall k :: 0 <= k < |program.lines| ==> program.lines[k] in program.lines;
    unit.lines := unit.lines + program.lines;
    return None;
  }
}
