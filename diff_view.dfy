/**
 * src/views/diff_view.rs: the right-hand pane, a list view filled with a
 * commit's header lines and its diff. The diff itself is computed by git
 * and enters the model as the sequence of `(sigil, line)` pairs it yields.
 */
module DiffViews {
  import opened Wrappers
  import opened Text
  import opened Utils
  import opened Model
  import opened Views
  import opened ListViews

  predicate EndsWith(s: string, c: char) {
    |s| > 0 && s[|s| - 1] == c
  }

  // ---------------------------------------------------------------------
  // Line composition
  // ---------------------------------------------------------------------

  /** What `trim_newline` leaves: one trailing "\n" removed, and then one "\r" before it. */
  function Trimmed(s: string): string {
    if EndsWith(s, '\n') then
      var u := s[..|s| - 1];
      if EndsWith(u, '\r') then u[..|u| - 1] else u
    else s
  }

  /**
   * `trim_newline`'s result is a prefix at most two characters shorter; it
   * removes anything only when `s` ends with '\n', a '\r' only right before
   * that '\n', and a lone trailing '\r' is kept.
   */
  lemma TrimmedIsShortPrefix(s: string)
    ensures Trimmed(s) <= s && |s| - 2 <= |Trimmed(s)|
    ensures !EndsWith(s, '\n') <==> Trimmed(s) == s
    ensures EndsWith(s, '\n') ==> (|Trimmed(s)| == |s| - 2 <==> EndsWith(s[..|s| - 1], '\r'))
  {
  }

  /** Removing a line ending: "\n" and "\r\n" both come off, exactly once. */
  lemma TrimmedRemovesLineEnding(line: string)
    ensures !EndsWith(line, '\r') ==> Trimmed(line + "\n") == line
    ensures Trimmed(line + "\r\n") == line
  {
    assert (line + "\n")[..|line|] == line;
    assert (line + "\r\n")[..|line| + 1] == line + "\r";
    assert (line + "\r")[..|line|] == line;
  }

  /** `trim_newline`, popping from the end of its string as the source does. */
  method TrimNewline(s: string) returns (t: string)
    ensures t == Trimmed(s)
  {
    t := s;
    if EndsWith(t, '\n') {
      t := t[..|t| - 1];
      if EndsWith(t, '\r') {
        t := t[..|t| - 1];
      }
    }
  }

  /** A character in front is kept by trimming unless it could be part of the line ending. */
  lemma TrimmedCons(c: char, s: string)
    requires c != '\r' && (c != '\n' || s != [])
    ensures Trimmed([c] + s) == [c] + Trimmed(s)
  {
    var cs := [c] + s;
    if EndsWith(s, '\n') {
      assert cs[..|cs| - 1] == [c] + s[..|s| - 1];
      var u := s[..|s| - 1];
      if u != [] {
        assert ([c] + u)[..|u|] == [c] + u[..|u| - 1];
      }
    }
  }

  /** The match in `set_commit`: context, added and removed lines keep their sigil, a file header starts a new line. */
  function Combined(sigil: char, line: string): string {
    if sigil == ' ' || sigil == '+' || sigil == '-' then [sigil] + line
    else if sigil == 'F' then "\n" + line
    else line
  }

  /** `style_of`. */
  function StyleOf(sigil: char): Color {
    match sigil
    case ' ' => Blue
    case '+' => Green
    case '-' => Red
    case 'F' => Yellow
    case 'H' => Magenta
    case _ => Blue
  }

  /** Each color but blue marks exactly one kind of diff line; blue is context and everything else. */
  lemma StyleOfClasses(sigil: char)
    ensures StyleOf(sigil) == Green <==> sigil == '+'
    ensures StyleOf(sigil) == Red <==> sigil == '-'
    ensures StyleOf(sigil) == Yellow <==> sigil == 'F'
    ensures StyleOf(sigil) == Magenta <==> sigil == 'H'
    ensures StyleOf(sigil) == Blue <==> sigil !in "+-FH"
  {
  }

  /** The items one diff line adds to the list. */
  function DiffLine(sigil: char, line: string): seq<StyledLine> {
    LinesOf(Trimmed(Combined(sigil, line)), Some(StyleOf(sigil)))
  }

  /**
   * A diff line that is a single line once its ending is trimmed becomes a
   * single row, its sigil in front for context, additions and removals; a
   * file header gets an empty row above it.
   */
  lemma DiffLineRows(sigil: char, line: string)
    requires '\n' !in Trimmed(line)
    ensures sigil == ' ' || sigil == '+' || sigil == '-' ==>
              DiffLine(sigil, line) == [StyledLine([sigil] + Trimmed(line), Some(StyleOf(sigil)))]
    ensures sigil == 'F' && line != [] ==>
              DiffLine(sigil, line) == [StyledLine("", Some(Yellow)), StyledLine(Trimmed(line), Some(Yellow))]
    ensures sigil != ' ' && sigil != '+' && sigil != '-' && sigil != 'F' ==>
              DiffLine(sigil, line) == [StyledLine(Trimmed(line), Some(StyleOf(sigil)))]
  {
    var t := Trimmed(line);
    if sigil == ' ' || sigil == '+' || sigil == '-' {
      TrimmedCons(sigil, line);
      SplitNoSeparator([sigil] + t, '\n');
    } else if sigil == 'F' && line != [] {
      TrimmedCons('\n', line);
      SplitNoSeparator(t, '\n');
      assert Split("\n" + t, '\n') == [""] + Split(t, '\n') by {
        assert ("\n" + t)[1..] == t;
      }
    } else if sigil != 'F' {
      SplitNoSeparator(t, '\n');
    }
  }

  /** The items all diff lines add, in order. */
  function DiffLines(diff: seq<(char, string)>): seq<StyledLine>
    decreases |diff|
  {
    if diff == [] then []
    else DiffLines(diff[..|diff| - 1]) + DiffLine(diff[|diff| - 1].0, diff[|diff| - 1].1)
  }

  /** The items of the commit header, as `set_commit` inserts them before the diff. */
  function HeaderLines(entry: RepoCommit, date: string): seq<StyledLine> {
    LinesOf("Repo:       " + entry.repo.relPath, Some(Red))
    + LinesOf("Id:         " + entry.commitId, Some(Blue))
    + LinesOf("Author:     " + entry.author, Some(LightBlue))
    + LinesOf("Commit:     " + entry.committer, Some(Green))
    + LinesOf("CommitDate: " + date + "\n", Some(Blue))
    + LinesOf(entry.message, Some(White))
    + LinesOf("---", None)
  }

  /**
   * For single-line header fields the pane starts with the five header rows,
   * an empty row left by the date's trailing "\n", the message's lines and
   * the "---" separator.
   */
  lemma HeaderShape(entry: RepoCommit, date: string)
    requires '\n' !in entry.repo.relPath && '\n' !in entry.commitId
    requires '\n' !in entry.author && '\n' !in entry.committer && '\n' !in date
    ensures HeaderLines(entry, date)
         == [StyledLine("Repo:       " + entry.repo.relPath, Some(Red)),
             StyledLine("Id:         " + entry.commitId, Some(Blue)),
             StyledLine("Author:     " + entry.author, Some(LightBlue)),
             StyledLine("Commit:     " + entry.committer, Some(Green)),
             StyledLine("CommitDate: " + date, Some(Blue)),
             StyledLine("", Some(Blue))]
            + LinesOf(entry.message, Some(White))
            + [StyledLine("---", None)]
  {
    var repo := "Repo:       " + entry.repo.relPath;
    var id := "Id:         " + entry.commitId;
    var author := "Author:     " + entry.author;
    var committer := "Commit:     " + entry.committer;
    var dateLine := "CommitDate: " + date;
    assert "CommitDate: " + date + "\n" == dateLine + "\n";
    assert '\n' !in repo && '\n' !in id && '\n' !in author && '\n' !in committer && '\n' !in dateLine;
    SingleLine(repo, Some(Red));
    SingleLine(id, Some(Blue));
    SingleLine(author, Some(LightBlue));
    SingleLine(committer, Some(Green));
    SingleLine("---", None);
    EndedLine(dateLine, Some(Blue));
    var msg := LinesOf(entry.message, Some(White));
    var a, b, c, d := StyledLine(repo, Some(Red)), StyledLine(id, Some(Blue)),
                      StyledLine(author, Some(LightBlue)), StyledLine(committer, Some(Green));
    var e, f := StyledLine(dateLine, Some(Blue)), StyledLine("", Some(Blue));
    assert HeaderLines(entry, date) == [a] + [b] + [c] + [d] + [e, f] + msg + [StyledLine("---", None)];
    SixRows(a, b, c, d, e, f);
  }

  lemma SixRows(a: StyledLine, b: StyledLine, c: StyledLine, d: StyledLine, e: StyledLine, f: StyledLine)
    ensures [a] + [b] + [c] + [d] + [e, f] == [a, b, c, d, e, f]
  {
    var s := [a] + [b] + [c] + [d] + [e, f];
    assert |s| == 6;
    assert s[0] == a && s[1] == b && s[2] == c && s[3] == d && s[4] == e && s[5] == f;
  }

  lemma SingleLine(s: string, color: Option<Color>)
    requires '\n' !in s
    ensures LinesOf(s, color) == [StyledLine(s, color)]
  {
    SplitNoSeparator(s, '\n');
  }

  lemma EndedLine(s: string, color: Option<Color>)
    requires '\n' !in s
    ensures LinesOf(s + "\n", color) == [StyledLine(s, color), StyledLine("", color)]
  {
    SplitAfterFreePrefix(s, '\n', "");
    assert s + "\n" == s + ['\n'] + "";
  }

  /** One more diff line appends its items to what the ones before it added. */
  lemma DiffLinesStep(header: seq<StyledLine>, diff: seq<(char, string)>, i: nat)
    requires i < |diff|
    ensures header + DiffLines(diff[..i]) + DiffLine(diff[i].0, diff[i].1) == header + DiffLines(diff[..i + 1])
  {
    assert diff[..i + 1][..i] == diff[..i];
  }

  /** The seven header insertions of `set_commit`, `date` being the commit's `time_as_str`. */
  method InsertHeader(lv: ListView, entry: RepoCommit, date: string)
    requires lv.Valid() && lv.items == [] && lv.rowsToItems == []
    modifies lv
    ensures lv.Valid() && lv.rowsToItems == Identity(|lv.items|)
    ensures lv.items == HeaderLines(entry, date)
    ensures lv.focus == old(lv.focus) && lv.hasOnSubmit == old(lv.hasOnSubmit) && lv.hasOnSelect == old(lv.hasOnSelect)
  {
    assert lv.rowsToItems == Identity(0);
    lv.InsertColorfulString("Repo:       " + entry.repo.relPath, Red);
    ghost var h := LinesOf("Repo:       " + entry.repo.relPath, Some(Red));
    assert lv.items == h;
    lv.InsertColorfulString("Id:         " + entry.commitId, Blue);
    h := h + LinesOf("Id:         " + entry.commitId, Some(Blue));
    assert lv.items == h;
    lv.InsertColorfulString("Author:     " + entry.author, LightBlue);
    h := h + LinesOf("Author:     " + entry.author, Some(LightBlue));
    assert lv.items == h;
    lv.InsertColorfulString("Commit:     " + entry.committer, Green);
    h := h + LinesOf("Commit:     " + entry.committer, Some(Green));
    assert lv.items == h;
    lv.InsertColorfulString("CommitDate: " + date + "\n", Blue);
    h := h + LinesOf("CommitDate: " + date + "\n", Some(Blue));
    assert lv.items == h;
    lv.InsertColorfulString(entry.message, White);
    h := h + LinesOf(entry.message, Some(White));
    assert lv.items == h;
    lv.InsertString("---");
    h := h + LinesOf("---", None);
    assert lv.items == h;
  }

  /** The loop of `set_commit` over the diff lines. */
  method InsertDiff(lv: ListView, diff: seq<(char, string)>)
    requires lv.Valid() && lv.rowsToItems == Identity(|lv.items|)
    modifies lv
    ensures lv.Valid() && lv.rowsToItems == Identity(|lv.items|)
    ensures lv.items == old(lv.items) + DiffLines(diff)
    ensures lv.focus == old(lv.focus) && lv.hasOnSubmit == old(lv.hasOnSubmit) && lv.hasOnSelect == old(lv.hasOnSelect)
  {
    ghost var header := lv.items;
    assert diff[..0] == [];
    assert lv.items == header + DiffLines(diff[..0]);
    var i := 0;
    while i < |diff|
      invariant 0 <= i <= |diff|
      invariant lv.Valid()
      invariant lv.items == header + DiffLines(diff[..i])
      invariant lv.rowsToItems == Identity(|lv.items|)
      invariant lv.focus == old(lv.focus) && lv.hasOnSubmit == old(lv.hasOnSubmit) && lv.hasOnSelect == old(lv.hasOnSelect)
    {
      var sigil := diff[i].0;
      var combined := Combined(sigil, diff[i].1);
      combined := TrimNewline(combined);
      lv.InsertColorfulString(combined, StyleOf(sigil));
      DiffLinesStep(header, diff, i);
      i := i + 1;
    }
    assert diff[..|diff|] == diff;
  }

  // ---------------------------------------------------------------------
  // The view
  // ---------------------------------------------------------------------

  class DiffView {
    var listView: ListView

    /** `DiffView::empty`. */
    constructor Empty()
      ensures fresh(listView) && listView.Valid()
      ensures listView.items == [] && listView.rowsToItems == [] && listView.focus == 0
    {
      listView := new ListView();
    }

    /**
     * `set_commit`: a fresh list, so nothing of the commit shown before
     * remains; then the header lines and one group of items per diff line,
     * in order, each appended, so every row shows the item of its own index.
     */
    method SetCommit(entry: RepoCommit, diff: seq<(char, string)>)
      requires ValidOffset(entry.timestamp)
      modifies this
      ensures fresh(listView) && listView.Valid()
      ensures listView.items == HeaderLines(entry, TimeAsStr(entry)) + DiffLines(diff)
      ensures listView.rowsToItems == Identity(|listView.items|)
      ensures listView.focus == 0 && !listView.hasOnSubmit && !listView.hasOnSelect
    {
      var lv := new ListView();
      var date := TimeAsStr(entry);
      InsertHeader(lv, entry, date);
      InsertDiff(lv, diff);
      listView := lv;
    }
  }
}
