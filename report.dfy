/**
 * src/report.rs: the report exported at exit. `generate` picks a writer
 * from the output file's extension; `model_into_spreadsheet` feeds a fixed
 * header row and one row per commit to a spreadsheet builder, cell by cell.
 *
 * The two builders are one class here, tagged with the kind of file they
 * write. The CSV builder hands its cells to a CSV writer whose file I/O can
 * fail; when it does is an input (after how many accepted calls, and with
 * which error). The ODS/XLSX builder places cells in an in-memory sheet and
 * never fails. Writing the sheet to disk and the closing `println!` are I/O.
 */
module Reports {
  import opened Wrappers
  import opened Text
  import opened Utils
  import opened Model

  // ---------------------------------------------------------------------
  // The file name extension, as `Path::extension` finds it
  // ---------------------------------------------------------------------

  /** The path components that name something: empty pieces and "." drop out. */
  function Named(pieces: seq<string>): (r: seq<string>)
    ensures forall k :: 0 <= k < |r| ==> r[k] != "" && r[k] != "."
    decreases |pieces|
  {
    if pieces == [] then []
    else if pieces[0] == "" || pieces[0] == "." then Named(pieces[1..])
    else [pieces[0]] + Named(pieces[1..])
  }

  lemma {:induction false} NamedConcat(p: seq<string>, q: seq<string>)
    ensures Named(p + q) == Named(p) + Named(q)
    decreases |p|
  {
    if p == [] {
      assert p + q == q;
    } else {
      var pq := p + q;
      assert pq[0] == p[0] && pq[1..] == p[1..] + q;
      NamedConcat(p[1..], q);
      if p[0] == "" || p[0] == "." {
        assert Named(pq) == Named(pq[1..]);
      } else {
        assert Named(pq) == [pq[0]] + Named(pq[1..]);
      }
    }
  }

  /**
   * `Path::file_name` on a '/'-separated path: the file name of its
   * components, unless the last of them is "..".
   */
  function FileNameOfText(path: string): Option<string> {
    var components := Named(Split(path, '/'));
    if components != [] && components[|components| - 1] == ".." then None
    else FileName(components)
  }

  /** The position of the last `c` in `s`. */
  function LastIndexOf(s: string, c: char): (r: Option<nat>)
    ensures r.None? <==> c !in s
    ensures r.Some? ==> r.value < |s| && s[r.value] == c && forall k :: r.value < k < |s| ==> s[k] != c
    decreases |s|
  {
    if s == [] then None
    else if s[|s| - 1] == c then Some(|s| - 1)
    else
      assert forall k :: 0 <= k < |s| - 1 ==> s[..|s| - 1][k] == s[k];
      LastIndexOf(s[..|s| - 1], c)
  }

  /**
   * `Path::extension`: what follows the last '.' of the file name, unless
   * that '.' is its first character (a hidden file has no extension).
   */
  function Extension(path: string): Option<string> {
    match FileNameOfText(path)
    case None => None
    case Some(name) =>
      match LastIndexOf(name, '.')
      case None => None
      case Some(i) => if i == 0 then None else Some(name[i + 1..])
  }

  /** Characters after the last `c` do not move it. */
  lemma {:induction false} LastIndexOfFreeSuffix(a: string, b: string, c: char)
    requires c !in b
    ensures LastIndexOf(a + b, c) == LastIndexOf(a, c)
    decreases |b|
  {
    if b != [] {
      var ab := a + b;
      assert ab[|ab| - 1] == b[|b| - 1];
      assert ab[..|ab| - 1] == a + b[..|b| - 1];
      LastIndexOfFreeSuffix(a, b[..|b| - 1], c);
    } else {
      assert a + b == a;
    }
  }

  /** The file name of a '/'-free name that is neither "", "." nor ".." is the name itself, in any directory. */
  lemma FileNameOfName(dir: string, name: string)
    requires '/' !in name && name != "" && name != "." && name != ".."
    ensures FileNameOfText(name) == Some(name)
    ensures FileNameOfText(dir + "/" + name) == Some(name)
  {
    SplitNoSeparator(name, '/');
    assert Named([name]) == [name] by {
      assert [name][1..] == [];
    }
    assert dir + "/" + name == dir + ['/'] + name;
    SplitConcat(dir, '/', name);
    NamedConcat(Split(dir, '/'), [name]);
  }

  /** Naming a file `stem.ext`, in any directory, gives it extension `ext`. */
  lemma ExtensionOfName(dir: string, stem: string, ext: string)
    requires stem != [] && '/' !in stem && ext != [] && '.' !in ext && '/' !in ext
    ensures Extension(stem + "." + ext) == Some(ext)
    ensures Extension(dir + "/" + stem + "." + ext) == Some(ext)
  {
    var name := stem + "." + ext;
    assert '/' !in name;
    assert name != "" && name != "." && name != ".." by {
      assert name[|name| - 1] == ext[|ext| - 1];
    }
    FileNameOfName(dir, name);
    LastIndexOfFreeSuffix(stem + ".", ext, '.');
    assert LastIndexOf(stem + ".", '.') == Some(|stem|);
    assert name[|stem| + 1..] == ext;
    assert dir + "/" + stem + "." + ext == dir + "/" + name;
  }

  /** A leading '.' is not an extension dot: the hidden file ".csv" has no extension. */
  lemma HiddenFileHasNoExtension(ext: string)
    requires ext != [] && '.' !in ext && '/' !in ext
    ensures Extension("." + ext) == None
  {
    var name := "." + ext;
    assert '/' !in name;
    assert name != "" && name != "." && name != ".." by {
      assert name[|name| - 1] == ext[|ext| - 1];
    }
    FileNameOfName("", name);
    LastIndexOfFreeSuffix(".", ext, '.');
  }

  datatype Format = Csv | Ods | Xlsx

  const FormatError: string :=
    "Couldn't derive report format from filename. Supported endings are: .csv, .ods, .xlsx"

  /** The dispatch of `generate`: exactly the lowercase extensions "csv", "ods" and "xlsx" pick a writer. */
  function ReportFormat(path: string): (r: Result<Format, string>)
    ensures r == Ok(Csv) <==> Extension(path) == Some("csv")
    ensures r == Ok(Ods) <==> Extension(path) == Some("ods")
    ensures r == Ok(Xlsx) <==> Extension(path) == Some("xlsx")
    ensures r.Err? ==> r.error == FormatError
  {
    var extension := Extension(path);
    if extension.None? then Err(FormatError)
    else if extension.value == "csv" then Ok(Csv)
    else if extension.value == "ods" then Ok(Ods)
    else if extension.value == "xlsx" then Ok(Xlsx)
    else Err(FormatError)
  }

  /** The three supported endings, with or without a directory and further dots in the stem. */
  lemma ReportFormatCsv()
    ensures ReportFormat("history.csv") == Ok(Csv)
  {
    ExtensionOfName("", "history", "csv");
    assert "history" + "." + "csv" == "history.csv";
  }

  lemma ReportFormatOds()
    ensures ReportFormat("out/history.ods") == Ok(Ods)
  {
    ExtensionOfName("out", "history", "ods");
    assert "out" + "/" + "history" + "." + "ods" == "out/history.ods";
  }

  lemma ReportFormatXlsx()
    ensures ReportFormat("history.backup.xlsx") == Ok(Xlsx)
  {
    ExtensionOfName("", "history.backup", "xlsx");
    assert "history.backup" + "." + "xlsx" == "history.backup.xlsx";
  }

  /**
   * The match is case-sensitive, so "REPORT.CSV" fails, and the hidden file
   * ".csv" has no extension at all; both fail with the one message.
   */
  lemma ReportFormatRejected()
    ensures ReportFormat("REPORT.CSV") == Err(FormatError)
    ensures ReportFormat(".csv") == Err(FormatError)
  {
    ExtensionOfName("", "REPORT", "CSV");
    assert "REPORT" + "." + "CSV" == "REPORT.CSV";
    HiddenFileHasNoExtension("csv");
    assert "." + "csv" == ".csv";
  }

  // ---------------------------------------------------------------------
  // The rows of the report and the builder calls that produce them
  // ---------------------------------------------------------------------

  function HeaderRow(): seq<string> {
    ["Commit Date", "Local Path of Repo", "Commit Author", "Summary", "Message"]
  }

  function CommitRow(c: RepoCommit): (row: seq<string>)
    requires ValidOffset(c.timestamp)
    ensures |row| == 5
  {
    [TimeAsStr(c), c.repo.relPath, c.author, c.summary, c.message]
  }

  predicate AllDated(commits: seq<RepoCommit>) {
    forall i :: 0 <= i < |commits| ==> ValidOffset(commits[i].timestamp)
  }

  /** One row per commit, in order. */
  function CommitRows(commits: seq<RepoCommit>): (rows: seq<seq<string>>)
    requires AllDated(commits)
    ensures |rows| == |commits|
    ensures forall i :: 0 <= i < |rows| ==> |rows[i]| == 5
    decreases |commits|
  {
    if commits == [] then []
    else
      assert AllDated(commits[1..]) by {
        forall i | 0 <= i < |commits[1..]| ensures ValidOffset(commits[1..][i].timestamp) {
          assert commits[1..][i] == commits[i + 1];
        }
      }
      [CommitRow(commits[0])] + CommitRows(commits[1..])
  }

  lemma {:induction false} CommitRowsAt(commits: seq<RepoCommit>, i: nat)
    requires AllDated(commits) && i < |commits|
    ensures CommitRows(commits)[i] == CommitRow(commits[i])
    decreases i
  {
    if i > 0 {
      assert AllDated(commits[1..]) by {
        forall j | 0 <= j < |commits[1..]| ensures ValidOffset(commits[1..][j].timestamp) {
          assert commits[1..][j] == commits[j + 1];
        }
      }
      CommitRowsAt(commits[1..], i - 1);
    }
  }

  /** The report's rows: the header, then one row of five cells for each commit. */
  function ReportRows(commits: seq<RepoCommit>): (rows: seq<seq<string>>)
    requires AllDated(commits)
    ensures |rows| == |commits| + 1 && rows[0] == HeaderRow()
    ensures forall r :: 0 <= r < |rows| ==> |rows[r]| == 5
  {
    [HeaderRow()] + CommitRows(commits)
  }

  /** Row `i + 1` of the report is commit `i`'s row: `time_as_str`, `rel_path`, author, summary, message. */
  lemma ReportRowOfCommit(commits: seq<RepoCommit>, i: nat)
    requires AllDated(commits) && i < |commits|
    ensures ReportRows(commits)[i + 1]
         == [TimeAsStr(commits[i]), commits[i].repo.relPath, commits[i].author, commits[i].summary, commits[i].message]
  {
    CommitRowsAt(commits, i);
  }

  /** A builder call: `add_cell` (`Cell`) or `finish_row` (`EndRow`). */
  datatype Op = Cell(text: string) | EndRow

  function CellOps(cells: seq<string>): (ops: seq<Op>)
    ensures |ops| == |cells|
    ensures forall k :: 0 <= k < |cells| ==> ops[k] == Cell(cells[k])
    decreases |cells|
  {
    if cells == [] then [] else [Cell(cells[0])] + CellOps(cells[1..])
  }

  function RowOps(row: seq<string>): (ops: seq<Op>)
    ensures |ops| == |row| + 1
  {
    CellOps(row) + [EndRow]
  }

  function RowsOps(rows: seq<seq<string>>): seq<Op>
    decreases |rows|
  {
    if rows == [] then [] else RowOps(rows[0]) + RowsOps(rows[1..])
  }

  /** The calls `model_into_spreadsheet` makes when none fails. */
  function ReportOps(commits: seq<RepoCommit>): seq<Op>
    requires AllDated(commits)
  {
    RowsOps(ReportRows(commits))
  }

  // ---------------------------------------------------------------------
  // The ODS/XLSX cursor, replayed over a sequence of calls
  // ---------------------------------------------------------------------

  /** `OdsXlsxSpreadsheet`'s state: the cells placed so far and the cursor. */
  datatype Cursor = Cursor(sheet: map<(nat, nat), string>, row: nat, column: nat)

  const Start: Cursor := Cursor(map[], 0, 0)

  /** `add_cell` writes at the cursor and moves right; `finish_row` moves to the start of the next row. */
  function Step(c: Cursor, op: Op): Cursor {
    match op
    case Cell(text) => Cursor(c.sheet[(c.row, c.column) := text], c.row, c.column + 1)
    case EndRow => Cursor(c.sheet, c.row + 1, 0)
  }

  function Run(c: Cursor, ops: seq<Op>): Cursor
    decreases |ops|
  {
    if ops == [] then c else Run(Step(c, ops[0]), ops[1..])
  }

  lemma {:induction false} RunAppend(c: Cursor, a: seq<Op>, b: seq<Op>)
    ensures Run(c, a + b) == Run(Run(c, a), b)
    decreases |a|
  {
    if a != [] {
      assert (a + b)[0] == a[0] && (a + b)[1..] == a[1..] + b;
      RunAppend(Step(c, a[0]), a[1..], b);
    } else {
      assert a + b == b;
    }
  }

  lemma RunSnoc(c: Cursor, ops: seq<Op>, op: Op)
    ensures Run(c, ops + [op]) == Step(Run(c, ops), op)
  {
    RunAppend(c, ops, [op]);
    assert [op][1..] == [];
    assert Run(Run(c, ops), [op]) == Run(Step(Run(c, ops), op), []);
  }

  /** `cells` placed in row `r` from column `col` on. */
  function Place(sheet: map<(nat, nat), string>, r: nat, col: nat, cells: seq<string>): (m: map<(nat, nat), string>)
    ensures forall p: (nat, nat) :: p in m <==> p in sheet || (p.0 == r && col <= p.1 < col + |cells|)
    ensures forall p: (nat, nat) :: p in m ==>
              m[p] == if p.0 == r && col <= p.1 < col + |cells| then cells[p.1 - col] else sheet[p]
    decreases |cells|
  {
    if cells == [] then sheet else Place(sheet[(r, col) := cells[0]], r, col + 1, cells[1..])
  }

  lemma {:induction false} RunCells(sheet: map<(nat, nat), string>, r: nat, col: nat, cells: seq<string>)
    ensures Run(Cursor(sheet, r, col), CellOps(cells)) == Cursor(Place(sheet, r, col, cells), r, col + |cells|)
    decreases |cells|
  {
    if cells != [] {
      var ops := CellOps(cells);
      assert ops[0] == Cell(cells[0]);
      assert ops[1..] == CellOps(cells[1..]);
      var next := Cursor(sheet[(r, col) := cells[0]], r, col + 1);
      assert Step(Cursor(sheet, r, col), ops[0]) == next;
      RunCells(next.sheet, r, col + 1, cells[1..]);
      assert Place(sheet, r, col, cells) == Place(next.sheet, r, col + 1, cells[1..]);
    }
  }

  /** The rows placed one under the other, from column 0 of row `r0` on. */
  function Fill(sheet: map<(nat, nat), string>, r0: nat, rows: seq<seq<string>>): map<(nat, nat), string>
    decreases |rows|
  {
    if rows == [] then sheet else Fill(Place(sheet, r0, 0, rows[0]), r0 + 1, rows[1..])
  }

  /** Replaying the calls for `rows` from the start of row `r0` fills them in and stops at the start of the row after them. */
  lemma {:induction false} RunRows(sheet: map<(nat, nat), string>, r0: nat, rows: seq<seq<string>>)
    ensures Run(Cursor(sheet, r0, 0), RowsOps(rows)) == Cursor(Fill(sheet, r0, rows), r0 + |rows|, 0)
    decreases |rows|
  {
    if rows != [] {
      var c := Cursor(sheet, r0, 0);
      RunAppend(c, RowOps(rows[0]), RowsOps(rows[1..]));
      RunAppend(c, CellOps(rows[0]), [EndRow]);
      RunCells(sheet, r0, 0, rows[0]);
      var placed := Place(sheet, r0, 0, rows[0]);
      RunSnoc(c, CellOps(rows[0]), EndRow);
      assert Run(c, RowOps(rows[0])) == Cursor(placed, r0 + 1, 0);
      RunRows(placed, r0 + 1, rows[1..]);
    }
  }

  /** Position `p` lies in one of the rows put at `r0`, `r0 + 1`, ... */
  predicate InRows(p: (nat, nat), r0: nat, rows: seq<seq<string>>) {
    r0 <= p.0 < r0 + |rows| && p.1 < |rows[p.0 - r0]|
  }

  /** Row `r0` of the rows put at `r0`, and the rows after it, cover the same positions as all of them. */
  lemma InRowsStep(p: (nat, nat), r0: nat, rows: seq<seq<string>>)
    requires rows != []
    ensures InRows(p, r0, rows) <==> (p.0 == r0 && p.1 < |rows[0]|) || InRows(p, r0 + 1, rows[1..])
    ensures InRows(p, r0 + 1, rows[1..]) ==> rows[1..][p.0 - (r0 + 1)] == rows[p.0 - r0]
  {
    if r0 < p.0 < r0 + |rows| {
      assert rows[1..][p.0 - (r0 + 1)] == rows[p.0 - r0];
    }
  }

  /** Filling writes the positions of the rows' cells and keeps every other entry. */
  lemma {:induction false} FillKeys(sheet: map<(nat, nat), string>, r0: nat, rows: seq<seq<string>>, p: (nat, nat))
    ensures p in Fill(sheet, r0, rows) <==> p in sheet || InRows(p, r0, rows)
    decreases |rows|
  {
    if rows != [] {
      var placed := Place(sheet, r0, 0, rows[0]);
      FillKeys(placed, r0 + 1, rows[1..], p);
      InRowsStep(p, r0, rows);
    }
  }

  /** A filled position holds its row's cell; every other entry keeps its value. */
  lemma {:induction false} FillValues(sheet: map<(nat, nat), string>, r0: nat, rows: seq<seq<string>>, p: (nat, nat))
    requires p in Fill(sheet, r0, rows)
    ensures p in sheet || InRows(p, r0, rows)
    ensures Fill(sheet, r0, rows)[p] == if InRows(p, r0, rows) then rows[p.0 - r0][p.1] else sheet[p]
    decreases |rows|
  {
    FillKeys(sheet, r0, rows, p);
    if rows != [] {
      var placed := Place(sheet, r0, 0, rows[0]);
      InRowsStep(p, r0, rows);
      FillValues(placed, r0 + 1, rows[1..], p);
    }
  }

  /**
   * Replaying the calls for rows of `width` cells each from an empty sheet:
   * cell k of row r holds `rows[r][k]`, nothing else is written, and the
   * cursor ends at column 0 of the row after the last one.
   */
  lemma SheetLayout(rows: seq<seq<string>>, width: nat)
    requires forall r :: 0 <= r < |rows| ==> |rows[r]| == width
    ensures var c := Run(Start, RowsOps(rows));
            c.row == |rows| && c.column == 0
            && (forall r: nat, k: nat :: r < |rows| && k < |rows[r]| ==> (r, k) in c.sheet && c.sheet[(r, k)] == rows[r][k])
            && (forall p: (nat, nat) :: p in c.sheet ==> p.0 < |rows| && p.1 < width)
  {
    RunRows(map[], 0, rows);
    var sheet := Fill(map[], 0, rows);
    forall r: nat, k: nat | r < |rows| && k < |rows[r]| ensures (r, k) in sheet && sheet[(r, k)] == rows[r][k] {
      assert InRows((r, k), 0, rows);
      FillKeys(map[], 0, rows, (r, k));
      FillValues(map[], 0, rows, (r, k));
    }
    forall p: (nat, nat) | p in sheet ensures p.0 < |rows| && p.1 < width {
      FillKeys(map[], 0, rows, p);
    }
  }

  /**
   * The sheet of a report: cell k of row r holds `rows[r][k]`, for the
   * header row 0 and one row per commit, and nothing else is written; the
   * cursor ends at column 0 of the row after the last commit.
   */
  lemma ReportSheetLayout(commits: seq<RepoCommit>)
    requires AllDated(commits)
    ensures var c := Run(Start, ReportOps(commits));
            var rows := ReportRows(commits);
            c.row == |commits| + 1 && c.column == 0
            && (forall r: nat, k: nat :: r < |rows| && k < |rows[r]| ==> (r, k) in c.sheet && c.sheet[(r, k)] == rows[r][k])
            && (forall p: (nat, nat) :: p in c.sheet ==> p.0 <= |commits| && p.1 < 5)
  {
    SheetLayout(ReportRows(commits), 5);
  }

  // ---------------------------------------------------------------------
  // The builders
  // ---------------------------------------------------------------------

  /** How many of `len` further calls a builder accepts after `done`, and the result of the last one. */
  function Accepted(done: nat, len: nat, failure: Option<(nat, string)>): nat
    requires failure.Some? ==> done <= failure.value.0
  {
    if failure.Some? && failure.value.0 < done + len then failure.value.0 - done else len
  }

  function Outcome(done: nat, len: nat, failure: Option<(nat, string)>): Result<(), string>
    requires failure.Some? ==> done <= failure.value.0
  {
    if failure.Some? && failure.value.0 < done + len then Err(failure.value.1) else Ok(())
  }

  datatype Sink = CsvWriter | Sheet

  /**
   * `SpreadSheetBuilder` and its two implementations. `failure` is the CSV
   * writer's I/O failure: after that many accepted calls every call fails
   * with that error. `log` is the sequence of calls accepted so far.
   */
  class Builder {
    const sink: Sink
    const failure: Option<(nat, string)>
    var calls: nat
    ghost var log: seq<Op>
    var sheet: map<(nat, nat), string>
    var currentRow: nat
    var currentColumn: nat

    function Position(): Cursor
      reads this
    {
      Cursor(sheet, currentRow, currentColumn)
    }

    /** Each accepted call is logged; a sheet never fails and its cursor is the replay of the log. */
    ghost predicate Valid()
      reads this
    {
      calls == |log|
      && (failure.Some? ==> calls <= failure.value.0)
      && (sink == Sheet ==> failure == None && Position() == Run(Start, log))
    }

    /** `CommaSeperatedSpreadsheet::new`, around a writer that fails as `failure` says. */
    constructor Csv(failure: Option<(nat, string)>)
      ensures Valid() && sink == CsvWriter && this.failure == failure && log == []
    {
      sink := CsvWriter;
      this.failure := failure;
      calls := 0;
      log := [];
      sheet := map[];
      currentRow := 0;
      currentColumn := 0;
    }

    /** `OdsXlsxSpreadsheet::new`: an empty sheet, the cursor at row 0, column 0. */
    constructor OdsXlsx()
      ensures Valid() && sink == Sheet && failure == None && log == []
      ensures sheet == map[] && currentRow == 0 && currentColumn == 0
    {
      sink := Sheet;
      failure := None;
      calls := 0;
      log := [];
      sheet := map[];
      currentRow := 0;
      currentColumn := 0;
    }

    predicate Failing()
      reads this
    {
      failure.Some? && calls == failure.value.0
    }

    /** `add_cell`: the sheet stores the cell at the cursor and moves one column right. */
    method AddCell(cell: string) returns (r: Result<(), string>)
      requires Valid()
      modifies this
      ensures Valid()
      ensures old(Failing()) ==> r == Err(failure.value.1) && log == old(log) && Position() == old(Position())
      ensures !old(Failing()) ==> r == Ok(()) && log == old(log) + [Cell(cell)]
      ensures sink == Sheet ==>
                sheet == old(sheet)[(old(currentRow), old(currentColumn)) := cell]
                && currentRow == old(currentRow) && currentColumn == old(currentColumn) + 1
    {
      if Failing() {
        return Err(failure.value.1);
      }
      if sink == Sheet {
        sheet := sheet[(currentRow, currentColumn) := cell];
        currentColumn := currentColumn + 1;
      }
      RunSnoc(Start, log, Cell(cell));
      log := log + [Cell(cell)];
      calls := calls + 1;
      r := Ok(());
    }

    /** `finish_row`: the sheet's cursor moves to column 0 of the next row. */
    method FinishRow() returns (r: Result<(), string>)
      requires Valid()
      modifies this
      ensures Valid()
      ensures old(Failing()) ==> r == Err(failure.value.1) && log == old(log) && Position() == old(Position())
      ensures !old(Failing()) ==> r == Ok(()) && log == old(log) + [EndRow]
      ensures sink == Sheet ==>
                sheet == old(sheet) && currentRow == old(currentRow) + 1 && currentColumn == 0
    {
      if Failing() {
        return Err(failure.value.1);
      }
      if sink == Sheet {
        currentRow := currentRow + 1;
        currentColumn := 0;
      }
      RunSnoc(Start, log, EndRow);
      log := log + [EndRow];
      calls := calls + 1;
      r := Ok(());
    }
  }

  /** The calls of a row of five cells. */
  lemma RowOpsOfFive(c0: string, c1: string, c2: string, c3: string, c4: string)
    ensures RowOps([c0, c1, c2, c3, c4]) == [Cell(c0), Cell(c1), Cell(c2), Cell(c3), Cell(c4), EndRow]
  {
    var cells := [c0, c1, c2, c3, c4];
    var ops := CellOps(cells);
    assert ops[0] == Cell(c0) && ops[1] == Cell(c1) && ops[2] == Cell(c2) && ops[3] == Cell(c3) && ops[4] == Cell(c4);
  }

  /** The `j`-th of a row's six calls failing: `j` calls were accepted and the build fails with the writer's error. */
  lemma StopsAt(done: nat, j: nat, failure: Option<(nat, string)>)
    requires j < 6 && failure.Some? && failure.value.0 == done + j
    ensures Accepted(done, 6, failure) == j && Outcome(done, 6, failure) == Err(failure.value.1)
  {
  }

  /** One more accepted call extends the accepted prefix of the row by one. */
  lemma AcceptOne(log0: seq<Op>, ops: seq<Op>, j: nat)
    requires j < |ops|
    ensures (log0 + ops[..j]) + [ops[j]] == log0 + ops[..j + 1]
  {
    assert ops[..j + 1] == ops[..j] + [ops[j]];
  }

  /** Five `add_cell` calls and a `finish_row`, each returning at once on error, as `?` does. */
  method AddRow(b: Builder, c0: string, c1: string, c2: string, c3: string, c4: string) returns (r: Result<(), string>)
    requires b.Valid()
    modifies b
    ensures b.Valid()
    ensures var k := Accepted(old(|b.log|), 6, b.failure);
            b.log == old(b.log) + RowOps([c0, c1, c2, c3, c4])[..k] && r == Outcome(old(|b.log|), 6, b.failure)
  {
    ghost var ops := RowOps([c0, c1, c2, c3, c4]);
    ghost var log0 := b.log;
    RowOpsOfFive(c0, c1, c2, c3, c4);
    assert log0 == log0 + ops[..0];
    r := b.AddCell(c0);
    if r.Err? { StopsAt(|log0|, 0, b.failure); return; }
    AcceptOne(log0, ops, 0);
    assert b.log == log0 + ops[..1];
    r := b.AddCell(c1);
    if r.Err? { StopsAt(|log0|, 1, b.failure); return; }
    AcceptOne(log0, ops, 1);
    assert b.log == log0 + ops[..2];
    r := b.AddCell(c2);
    if r.Err? { StopsAt(|log0|, 2, b.failure); return; }
    AcceptOne(log0, ops, 2);
    assert b.log == log0 + ops[..3];
    r := b.AddCell(c3);
    if r.Err? { StopsAt(|log0|, 3, b.failure); return; }
    AcceptOne(log0, ops, 3);
    assert b.log == log0 + ops[..4];
    r := b.AddCell(c4);
    if r.Err? { StopsAt(|log0|, 4, b.failure); return; }
    AcceptOne(log0, ops, 4);
    assert b.log == log0 + ops[..5];
    r := b.FinishRow();
    if r.Err? { StopsAt(|log0|, 5, b.failure); return; }
    AcceptOne(log0, ops, 5);
    assert b.log == log0 + ops[..6];
  }

  /** The row of one commit: `time_as_str` of its time, its repository's path, author, summary and message. */
  method AddCommitRow(b: Builder, c: RepoCommit) returns (r: Result<(), string>)
    requires ValidOffset(c.timestamp)
    requires b.Valid()
    modifies b
    ensures b.Valid()
    ensures var k := Accepted(old(|b.log|), 6, b.failure);
            b.log == old(b.log) + RowOps(CommitRow(c))[..k] && r == Outcome(old(|b.log|), 6, b.failure)
  {
    var date := TimeAsStr(c);
    r := AddRow(b, date, c.repo.relPath, c.author, c.summary, c.message);
  }

  /** Peeling the first commit off the calls still to make. */
  lemma RowsOpsStep(commits: seq<RepoCommit>, i: nat)
    requires AllDated(commits) && i < |commits|
    ensures AllDated(commits[i..]) && AllDated(commits[i + 1..])
    ensures RowsOps(CommitRows(commits[i..])) == RowOps(CommitRow(commits[i])) + RowsOps(CommitRows(commits[i + 1..]))
  {
    assert commits[i..][0] == commits[i] && commits[i..][1..] == commits[i + 1..];
    forall j | 0 <= j < |commits[i..]| ensures ValidOffset(commits[i..][j].timestamp) {
      assert commits[i..][j] == commits[i + j];
    }
    var tail := commits[i + 1..];
    forall j | 0 <= j < |tail| ensures ValidOffset(tail[j].timestamp) {
      assert tail[j] == commits[i + 1 + j];
    }
  }

  /** The report's calls: the header row's, then the commits' rows'. */
  lemma ReportOpsSplit(commits: seq<RepoCommit>)
    requires AllDated(commits)
    ensures ReportOps(commits) == RowOps(HeaderRow()) + RowsOps(CommitRows(commits))
  {
    var rows := ReportRows(commits);
    assert rows[0] == HeaderRow() && rows[1..] == CommitRows(commits);
  }

  /**
   * A row's calls made while the build is before its failing call: when one
   * of them fails, what was accepted is the prefix of all the calls up to
   * the failure, and the error is the build's error.
   */
  lemma RowFails(ops: seq<Op>, log0: seq<Op>, row: seq<Op>, rest: seq<Op>, failure: Option<(nat, string)>)
    requires ops == log0 + (row + rest) && |row| == 6
    requires failure.Some? ==> |log0| <= failure.value.0
    requires Outcome(|log0|, 6, failure).Err?
    ensures log0 + row[..Accepted(|log0|, 6, failure)] == ops[..Accepted(0, |ops|, failure)]
    ensures Outcome(|log0|, 6, failure) == Outcome(0, |ops|, failure)
  {
    var k := Accepted(|log0|, 6, failure);
    assert ops[..|log0| + k] == log0 + row[..k];
  }

  /** When no call of a row fails, the whole row is accepted and the rest of the calls remain. */
  lemma RowSucceeds(ops: seq<Op>, log0: seq<Op>, row: seq<Op>, rest: seq<Op>, failure: Option<(nat, string)>)
    requires ops == log0 + (row + rest) && |row| == 6
    requires failure.Some? ==> |log0| <= failure.value.0
    requires Outcome(|log0|, 6, failure).Ok?
    ensures log0 + row[..Accepted(|log0|, 6, failure)] == log0 + row
    ensures (log0 + row) + rest == ops
    ensures failure.Some? ==> |log0 + row| <= failure.value.0
  {
    assert row[..6] == row;
  }

  /**
   * `model_into_spreadsheet`: the header row, then one row per commit. The
   * first builder error ends the build and is returned; the calls accepted
   * until then are the report's calls up to that point.
   */
  method ModelIntoSpreadsheet(commits: seq<RepoCommit>, b: Builder) returns (r: Result<(), string>)
    requires AllDated(commits)
    requires b.Valid() && b.log == []
    modifies b
    ensures b.Valid()
    ensures var ops := ReportOps(commits);
            b.log == ops[..Accepted(0, |ops|, b.failure)] && r == Outcome(0, |ops|, b.failure)
  {
    ghost var ops := ReportOps(commits);
    ghost var header := RowOps(HeaderRow());
    ReportOpsSplit(commits);
    assert commits[0..] == commits;
    ghost var todo := RowsOps(CommitRows(commits[0..]));
    assert ops == [] + (header + todo);
    r := AddRow(b, "Commit Date", "Local Path of Repo", "Commit Author", "Summary", "Message");
    if r.Err? {
      RowFails(ops, [], header, todo, b.failure);
      return;
    }
    RowSucceeds(ops, [], header, todo, b.failure);
    var i := 0;
    while i < |commits|
      invariant 0 <= i <= |commits|
      invariant b.Valid()
      invariant AllDated(commits[i..])
      invariant todo == RowsOps(CommitRows(commits[i..]))
      invariant b.log + todo == ops
      invariant b.failure.Some? ==> |b.log| <= b.failure.value.0
      invariant r == Ok(())
    {
      RowsOpsStep(commits, i);
      ghost var row := RowOps(CommitRow(commits[i]));
      ghost var rest := RowsOps(CommitRows(commits[i + 1..]));
      ghost var log0 := b.log;
      r := AddCommitRow(b, commits[i]);
      if r.Err? {
        RowFails(ops, log0, row, rest, b.failure);
        return;
      }
      RowSucceeds(ops, log0, row, rest, b.failure);
      todo := rest;
      i := i + 1;
    }
    assert commits[|commits|..] == [];
    assert todo == [];
    assert b.log + [] == b.log;
  }

  /**
   * `generate`: the extension picks the builder; an unsupported one fails
   * before any cell is built. The file writes after building are not
   * modelled, so a successful build stands for success.
   */
  method Generate(history: MultiRepoHistory, path: string, csvFailure: Option<(nat, string)>)
    returns (r: Result<(), string>, ghost log: seq<Op>)
    requires AllDated(history.commits)
    ensures ReportFormat(path).Err? ==> r == Err(FormatError) && log == []
    ensures ReportFormat(path).Ok? ==>
              var ops := ReportOps(history.commits);
              var failure := if ReportFormat(path).value == Csv then csvFailure else None;
              log == ops[..Accepted(0, |ops|, failure)] && r == Outcome(0, |ops|, failure)
  {
    var format := ReportFormat(path);
    if format.Err? {
      return Err(FormatError), [];
    }
    var b: Builder;
    if format.value == Csv {
      b := new Builder.Csv(csvFailure);
    } else {
      b := new Builder.OdsXlsx();
    }
    r := ModelIntoSpreadsheet(history.commits, b);
    log := b.log;
  }

  /** A sheet's build always succeeds and leaves every cell of the report at (row, index in row). */
  lemma SheetBuildPlacesEveryCell(commits: seq<RepoCommit>, b: Builder)
    requires AllDated(commits)
    requires b.Valid() && b.sink == Sheet && b.log == ReportOps(commits)
    ensures var rows := ReportRows(commits);
            b.currentRow == |commits| + 1 && b.currentColumn == 0
            && (forall r: nat, k: nat :: r < |rows| && k < |rows[r]| ==> (r, k) in b.sheet && b.sheet[(r, k)] == rows[r][k])
            && (forall p: (nat, nat) :: p in b.sheet ==> p.0 <= |commits| && p.1 < 5)
  {
    ReportSheetLayout(commits);
  }
}
