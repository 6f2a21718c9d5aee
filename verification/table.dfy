/**
 * The README writer of lib/github-operations.js: one Markdown row per paper
 * (`generateTableRow`), the date read back from a row
 * (`extractDateFromRow`), a fresh section (`createPapersTable`), the
 * newest-first merge of a new row into the section (`insertPaperIntoReadme`)
 * and the commit message (`generateCommitMessage`).
 */
module ReadmeTable {
  import opened Wrappers
  import opened Text
  import opened Papers
  import opened Seqs

  const SectionHeading := "## Papers"
  /** The column titles, left to right. */
  const Columns := ["Paper", "Code", "Models", "Dataset", "Project Page", "Date"]

  /** `| Paper | Code | Models | Dataset | Project Page | Date |`. */
  const HeaderLine := "| " + Join(Columns, " | ") + " |"

  /** A run of `n` dashes. */
  function Dashes(n: nat): (r: string)
    ensures |r| == n && forall i :: 0 <= i < n ==> r[i] == '-'
  {
    seq(n, i => '-')
  }

  /** `|-------|------|--------|---------|--------------|------|`: under each title, dashes two wider. */
  const SeparatorLine := "|" + Join(seq(|Columns|, i requires 0 <= i < |Columns| => Dashes(|Columns[i]| + 2)), "|") + "|"
  const DefaultDate := "1970-01-01"

  // ---------------------------------------------------------------- one row

  /** The Markdown link `[text](url)`. */
  function Link(text: string, url: string): (r: string)
    ensures |r| >= 4 && r[0] == '[' && r[|r| - 1] == ')'
  {
    var r := "[" + text + "](" + url + ")";
    assert r == "[" + (text + "](" + url + ")");
    r
  }

  /** `[title](absUrl)`. */
  function PaperCell(p: Processed): string {
    Link(p.title, p.absUrl)
  }

  /** A Markdown link reading `text`, or `-` when there is no URL. */
  function LinkOrDash(text: string, url: string): (r: string)
    ensures Trim(r) == r
  {
    var r := if url == "" then "-" else Link(text, url);
    assert !IsSpace(r[0]) && !IsSpace(r[|r| - 1]);
    TrimUnchanged(r);
    r
  }

  /** `value || '-'`. */
  function OrDash(value: string): string {
    if value == "" then "-" else value
  }

  /** The six cells of a paper's row, in column order. */
  function RowCells(p: Processed): (cells: seq<string>)
    ensures |cells| == 6
  {
    [PaperCell(p), LinkOrDash(CodeText, p.codeUrl), OrDash(p.models), OrDash(p.dataset),
     LinkOrDash(ProjectText, p.projectPage), p.date]
  }

  /** No field that reaches the row holds the character `ch`. */
  predicate FieldsAvoid(p: Processed, ch: char) {
    ch !in p.title && ch !in p.absUrl && ch !in p.codeUrl && ch !in p.models
    && ch !in p.dataset && ch !in p.projectPage && ch !in p.date
  }

  /** No field that reaches the row holds the column separator. */
  predicate NoBarInFields(p: Processed) {
    FieldsAvoid(p, '|')
  }

  /** No field that reaches the row holds a line break. */
  predicate NoNewlineInFields(p: Processed) {
    FieldsAvoid(p, '\n')
  }

  /** A cell as it sits between two bars: one space either side. */
  function Padded(cell: string): string {
    " " + cell + " "
  }

  /** The pieces between the bars of a row: empty, the six padded cells, empty. */
  function RowPieces(p: Processed): (pieces: seq<string>)
    ensures |pieces| == 8
  {
    var c := RowCells(p);
    ["", Padded(c[0]), Padded(c[1]), Padded(c[2]), Padded(c[3]), Padded(c[4]), Padded(c[5]), ""]
  }

  /**
   * `generateTableRow`: `| paper | code | models | dataset | project | date |`,
   * that is, the row's pieces joined by bars.
   */
  function GenerateTableRow(p: Processed): string {
    Join(RowPieces(p), "|")
  }

  /** The characters a row's fixed text never holds. */
  predicate IsRowBreak(ch: char) {
    ch == '|' || ch == '\n'
  }

  lemma LinkAvoids(text: string, url: string, ch: char)
    requires IsRowBreak(ch) && ch !in text && ch !in url
    ensures ch !in Link(text, url)
  {
  }

  lemma LinkOrDashAvoids(text: string, url: string, ch: char)
    requires IsRowBreak(ch) && ch !in text && ch !in url
    ensures ch !in LinkOrDash(text, url)
  {
    if url != "" {
      LinkAvoids(text, url, ch);
    }
  }

  /** The link texts of the code and project cells. */
  const CodeText := "Code"
  const ProjectText := "Project"

  lemma LinkTextsAvoid(ch: char)
    requires IsRowBreak(ch)
    ensures ch !in CodeText && ch !in ProjectText
  {
    if ch == '|' {
      assert '|' !in CodeText && '|' !in ProjectText;
    } else {
      assert '\n' !in CodeText && '\n' !in ProjectText;
    }
  }

  lemma PaddedAvoids(cell: string, ch: char)
    requires IsRowBreak(ch) && ch !in cell
    ensures ch !in Padded(cell)
  {
  }

  /** The fixed text of a row holds neither a bar nor a line break, so only the fields could. */
  lemma PiecesAvoid(p: Processed, ch: char)
    requires IsRowBreak(ch)
    requires FieldsAvoid(p, ch)
    ensures forall i :: 0 <= i < 8 ==> ch !in RowPieces(p)[i]
  {
    var pieces := RowPieces(p);
    LinkTextsAvoid(ch);
    forall i | 0 <= i < 8
      ensures ch !in pieces[i]
    {
      if i == 1 {
        LinkAvoids(p.title, p.absUrl, ch);
        PaddedAvoids(PaperCell(p), ch);
      } else if i == 2 {
        LinkOrDashAvoids(CodeText, p.codeUrl, ch);
        PaddedAvoids(LinkOrDash(CodeText, p.codeUrl), ch);
      } else if i == 3 {
        PaddedAvoids(OrDash(p.models), ch);
      } else if i == 4 {
        PaddedAvoids(OrDash(p.dataset), ch);
      } else if i == 5 {
        LinkOrDashAvoids(ProjectText, p.projectPage, ch);
        PaddedAvoids(LinkOrDash(ProjectText, p.projectPage), ch);
      } else if i == 6 {
        PaddedAvoids(p.date, ch);
      }
    }
  }

  /** Splitting a row on `|` gives back its pieces. */
  lemma RowSplit(p: Processed)
    requires NoBarInFields(p)
    ensures Split(GenerateTableRow(p), '|') == RowPieces(p)
  {
    PiecesAvoid(p, '|');
    SplitJoin(RowPieces(p), '|');
  }

  /** Splitting a row on `|` and trimming gives back its cells between two empty ones. */
  lemma RowCellsRoundTrip(p: Processed)
    requires NoBarInFields(p)
    ensures |Cells(GenerateTableRow(p))| == 8
    ensures Cells(GenerateTableRow(p))[0] == "" && Cells(GenerateTableRow(p))[7] == ""
    ensures Cells(GenerateTableRow(p))[1] == PaperCell(p)
    ensures Cells(GenerateTableRow(p))[2] == LinkOrDash(CodeText, p.codeUrl)
    ensures Cells(GenerateTableRow(p))[3] == Trim(OrDash(p.models))
    ensures Cells(GenerateTableRow(p))[4] == Trim(OrDash(p.dataset))
    ensures Cells(GenerateTableRow(p))[5] == LinkOrDash(ProjectText, p.projectPage)
    ensures Cells(GenerateTableRow(p))[6] == Trim(p.date)
  {
    RowSplit(p);
    TrimUnchanged(PaperCell(p));
    TrimPadded(PaperCell(p));
    TrimPadded(LinkOrDash(CodeText, p.codeUrl));
    TrimPadded(OrDash(p.models));
    TrimPadded(OrDash(p.dataset));
    TrimPadded(LinkOrDash(ProjectText, p.projectPage));
    TrimPadded(p.date);
  }

  // ---------------------------------------------------------------- the date of a row

  /**
   * `extractDateFromRow`: the seventh trimmed cell, or the epoch date when
   * the row has no such cell or it is empty (`cells[6] || '1970-01-01'`).
   */
  function ExtractDateFromRow(line: string): (d: string)
    ensures d != ""
    ensures d == DefaultDate || (|Cells(line)| >= 7 && d == Cells(line)[6])
    ensures |Cells(line)| >= 7 && Cells(line)[6] != "" ==> d == Cells(line)[6]
  {
    var cells := Cells(line);
    if |cells| >= 6 then
      if |cells| > 6 && cells[6] != "" then cells[6] else DefaultDate
    else DefaultDate
  }

  /** The date written into a row is the date read back, trimmed, unless it trims to nothing. */
  lemma DateRoundTrip(p: Processed)
    requires NoBarInFields(p)
    ensures ExtractDateFromRow(GenerateTableRow(p)) == if Trim(p.date) == "" then DefaultDate else Trim(p.date)
  {
    RowCellsRoundTrip(p);
  }

  // ---------------------------------------------------------------- a fresh section

  const PreambleLines := [SectionHeading, "", HeaderLine, SeparatorLine]

  /** None of the preamble lines breaks a line. */
  lemma PreambleHasNoNewline()
    ensures forall i :: 0 <= i < |PreambleLines| ==> '\n' !in PreambleLines[i]
  {
    HeaderHasNoNewline();
    SeparatorHasNoNewline();
  }

  lemma HeaderHasNoNewline()
    ensures '\n' !in HeaderLine
  {
    assert forall i :: 0 <= i < |Columns| ==> '\n' !in Columns[i];
    JoinKeepsOut(Columns, " | ", '\n');
  }

  lemma SeparatorHasNoNewline()
    ensures '\n' !in SeparatorLine
  {
    var runs := seq(|Columns|, i requires 0 <= i < |Columns| => Dashes(|Columns[i]| + 2));
    JoinKeepsOut(runs, "|", '\n');
  }

  /** The four lines every section starts with: heading, blank line, header, separator. */
  const TableHeader := Join(PreambleLines, "\n")

  /** `createPapersTable`: the header lines, then one line per paper. */
  function CreatePapersTable(papers: seq<Processed>): string {
    var rows := seq(|papers|, i requires 0 <= i < |papers| => GenerateTableRow(papers[i]));
    TableHeader + "\n" + Join(rows, "\n")
  }

  /** A row has no line break when none of its fields has one. */
  lemma RowHasNoNewline(p: Processed)
    requires NoNewlineInFields(p)
    ensures '\n' !in GenerateTableRow(p)
  {
    PiecesAvoid(p, '\n');
    JoinKeepsOut(RowPieces(p), "|", '\n');
  }

  /** The section's lines are the preamble followed by one row per paper, in order. */
  lemma CreatedTableLines(papers: seq<Processed>)
    requires |papers| >= 1
    requires forall i :: 0 <= i < |papers| ==> NoNewlineInFields(papers[i])
    ensures Split(CreatePapersTable(papers), '\n') ==
      PreambleLines + seq(|papers|, i requires 0 <= i < |papers| => GenerateTableRow(papers[i]))
  {
    var rows := seq(|papers|, i requires 0 <= i < |papers| => GenerateTableRow(papers[i]));
    forall i | 0 <= i < |papers|
      ensures '\n' !in rows[i]
    {
      RowHasNoNewline(papers[i]);
    }
    PreambleHasNoNewline();
    JoinConcat(PreambleLines, rows, "\n");
    SplitJoin(PreambleLines + rows, '\n');
  }

  // ---------------------------------------------------------------- newest first

  /** A line of the section paired with its sort key. */
  datatype DatedRow = DatedRow(line: string, date: string)

  /**
   * Date order. `new Date(b.date) - new Date(a.date)` is modelled by the
   * order of the date strings, which agrees with it on `YYYY-MM-DD` dates.
   */
  predicate LexLess(a: string, b: string)
    decreases |a|
  {
    |b| > 0 && (|a| == 0 || a[0] < b[0] || (a[0] == b[0] && LexLess(a[1..], b[1..])))
  }

  lemma {:induction false} LexLessIrreflexive(a: string)
    ensures !LexLess(a, a)
    decreases |a|
  {
    if |a| > 0 {
      LexLessIrreflexive(a[1..]);
    }
  }

  lemma {:induction false} LexLessTransitive(a: string, b: string, c: string)
    requires LexLess(a, b) && LexLess(b, c)
    ensures LexLess(a, c)
    decreases |a|
  {
    if |a| > 0 && a[0] == b[0] && b[0] == c[0] {
      LexLessTransitive(a[1..], b[1..], c[1..]);
    }
  }

  lemma {:induction false} LexLessTotal(a: string, b: string)
    ensures LexLess(a, b) || LexLess(b, a) || a == b
    decreases |a|
  {
    if |a| > 0 && |b| > 0 && a[0] == b[0] {
      LexLessTotal(a[1..], b[1..]);
      assert a == [a[0]] + a[1..] && b == [b[0]] + b[1..];
    }
  }

  /** No row has an older date than a row after it. */
  predicate NewestFirst(rows: seq<DatedRow>) {
    forall i, j :: 0 <= i < j < |rows| ==> !LexLess(rows[i].date, rows[j].date)
  }

  /** The rows dated `d`, in order. */
  function WithDate(rows: seq<DatedRow>, d: string): (r: seq<DatedRow>)
    ensures |r| <= |rows|
  {
    if |rows| == 0 then []
    else (if rows[0].date == d then [rows[0]] else []) + WithDate(rows[1..], d)
  }

  /** Put `x` after every row at least as new, before the first strictly older one. */
  function InsertByDate(x: DatedRow, rows: seq<DatedRow>): (r: seq<DatedRow>)
    ensures multiset(r) == multiset(rows) + multiset{x}
  {
    if |rows| == 0 then [x]
    else if LexLess(rows[0].date, x.date) then [x] + rows
    else
      assert rows == [rows[0]] + rows[1..];
      [rows[0]] + InsertByDate(x, rows[1..])
  }

  /** The stable newest-first order `Array.prototype.sort` produces with the date comparator. */
  function SortNewestFirst(rows: seq<DatedRow>): (r: seq<DatedRow>)
    ensures multiset(r) == multiset(rows)
    decreases |rows|
  {
    if |rows| == 0 then []
    else
      assert rows == rows[..|rows| - 1] + [rows[|rows| - 1]];
      InsertByDate(rows[|rows| - 1], SortNewestFirst(rows[..|rows| - 1]))
  }

  /** In a newest-first list, a row older than `x` means every later row is older too. */
  lemma OlderSuffix(x: DatedRow, rows: seq<DatedRow>)
    requires NewestFirst(rows) && |rows| > 0 && LexLess(rows[0].date, x.date)
    ensures forall i :: 0 <= i < |rows| ==> LexLess(rows[i].date, x.date)
  {
    forall i | 0 < i < |rows|
      ensures LexLess(rows[i].date, x.date)
    {
      LexLessTotal(rows[i].date, rows[0].date);
      if LexLess(rows[i].date, rows[0].date) {
        LexLessTransitive(rows[i].date, rows[0].date, x.date);
      }
    }
  }

  lemma LexLessAsymmetric(a: string, b: string)
    requires LexLess(a, b)
    ensures !LexLess(b, a)
  {
    if LexLess(b, a) {
      LexLessTransitive(a, b, a);
      LexLessIrreflexive(a);
    }
  }

  /** Inserting keeps the list newest first. */
  lemma {:induction false} InsertKeepsOrder(x: DatedRow, rows: seq<DatedRow>)
    requires NewestFirst(rows)
    ensures NewestFirst(InsertByDate(x, rows))
    decreases |rows|
  {
    if |rows| == 0 {
    } else if LexLess(rows[0].date, x.date) {
      OlderSuffix(x, rows);
      var r := [x] + rows;
      forall i, j | 0 <= i < j < |r|
        ensures !LexLess(r[i].date, r[j].date)
      {
        if i == 0 {
          assert r[j] == rows[j - 1];
          LexLessAsymmetric(rows[j - 1].date, x.date);
        } else {
          assert r[i] == rows[i - 1] && r[j] == rows[j - 1];
        }
      }
    } else {
      var tail := InsertByDate(x, rows[1..]);
      InsertKeepsOrder(x, rows[1..]);
      var r := [rows[0]] + tail;
      forall i, j | 0 <= i < j < |r|
        ensures !LexLess(r[i].date, r[j].date)
      {
        if i == 0 {
          assert r[j] == tail[j - 1];
          assert r[j] in multiset(rows[1..]) + multiset{x};
          if r[j] != x {
            assert r[j] in rows[1..];
            var k :| 0 <= k < |rows[1..]| && rows[1..][k] == r[j];
            assert rows[k + 1] == r[j];
          }
        } else {
          assert r[i] == tail[i - 1] && r[j] == tail[j - 1];
        }
      }
    }
  }

  lemma WithDateCons(x: DatedRow, rest: seq<DatedRow>, d: string)
    ensures WithDate([x] + rest, d) == (if x.date == d then [x] else []) + WithDate(rest, d)
  {
    assert ([x] + rest)[1..] == rest;
  }

  lemma NewestFirstTail(rows: seq<DatedRow>)
    requires NewestFirst(rows) && |rows| > 0
    ensures NewestFirst(rows[1..])
  {
  }

  lemma ConcatAssoc<T>(a: seq<T>, b: seq<T>, c: seq<T>)
    ensures a + (b + c) == (a + b) + c
  {
  }

  /** Inserting `x` appends it to the rows of its own date and leaves every other date's rows alone. */
  lemma {:induction false} InsertIsStable(x: DatedRow, rows: seq<DatedRow>, d: string)
    requires NewestFirst(rows)
    ensures WithDate(InsertByDate(x, rows), d) == WithDate(rows, d) + (if x.date == d then [x] else [])
    decreases |rows|
  {
    if |rows| == 0 {
    } else if LexLess(rows[0].date, x.date) {
      WithDateCons(x, rows, d);
      if x.date == d {
        OlderSuffix(x, rows);
        NoneDated(rows, d);
      }
    } else {
      var tail := InsertByDate(x, rows[1..]);
      var own := if rows[0].date == d then [rows[0]] else [];
      NewestFirstTail(rows);
      InsertIsStable(x, rows[1..], d);
      WithDateCons(rows[0], tail, d);
      WithDateCons(rows[0], rows[1..], d);
      assert [rows[0]] + rows[1..] == rows;
      ConcatAssoc(own, WithDate(rows[1..], d), if x.date == d then [x] else []);
    }
  }

  /** Rows all older than `d` hold none dated `d`. */
  lemma {:induction false} NoneDated(rows: seq<DatedRow>, d: string)
    requires forall i :: 0 <= i < |rows| ==> LexLess(rows[i].date, d)
    ensures WithDate(rows, d) == []
    decreases |rows|
  {
    if |rows| > 0 {
      LexLessIrreflexive(d);
      NoneDated(rows[1..], d);
    }
  }

  lemma {:induction false} WithDateAppend(rows: seq<DatedRow>, x: DatedRow, d: string)
    ensures WithDate(rows + [x], d) == WithDate(rows, d) + (if x.date == d then [x] else [])
    decreases |rows|
  {
    if |rows| > 0 {
      assert (rows + [x])[1..] == rows[1..] + [x];
      WithDateAppend(rows[1..], x, d);
    }
  }

  /** The sort's result is newest first. */
  lemma {:induction false} SortIsNewestFirst(rows: seq<DatedRow>)
    ensures NewestFirst(SortNewestFirst(rows))
    decreases |rows|
  {
    if |rows| > 0 {
      SortIsNewestFirst(rows[..|rows| - 1]);
      InsertKeepsOrder(rows[|rows| - 1], SortNewestFirst(rows[..|rows| - 1]));
    }
  }

  /** The sort is stable: the rows of each date keep their input order. */
  lemma {:induction false} SortIsStable(rows: seq<DatedRow>, d: string)
    ensures WithDate(SortNewestFirst(rows), d) == WithDate(rows, d)
    decreases |rows|
  {
    if |rows| > 0 {
      var init := rows[..|rows| - 1];
      var last := rows[|rows| - 1];
      assert rows == init + [last];
      var sortedInit := SortNewestFirst(init);
      SortIsStable(init, d);
      SortIsNewestFirst(init);
      InsertIsStable(last, sortedInit, d);
      WithDateAppend(init, last, d);
    }
  }

  /**
   * The sort's result is newest first, a permutation of its input, and
   * stable: the rows of each date keep their input order.
   */
  lemma SortIsStableNewestFirst(rows: seq<DatedRow>)
    ensures NewestFirst(SortNewestFirst(rows))
    ensures multiset(SortNewestFirst(rows)) == multiset(rows)
    ensures forall d :: WithDate(SortNewestFirst(rows), d) == WithDate(rows, d)
  {
    SortIsNewestFirst(rows);
    forall d
      ensures WithDate(SortNewestFirst(rows), d) == WithDate(rows, d)
    {
      SortIsStable(rows, d);
    }
  }

  // ---------------------------------------------------------------- merging a row into the section

  /**
   * What the section regex of `insertPaperIntoReadme` captures: the text
   * before the match, group 1 (heading through separator line, ending in a
   * line break), group 2 (the existing rows, up to the next `\n##` or the
   * end) and the text after the match.
   */
  datatype TableMatch = TableMatch(before: string, header: string, rows: string, after: string)

  /** The capture cuts the README into four consecutive parts. */
  predicate IsTableMatch(readme: string, m: TableMatch) {
    readme == m.before + m.header + m.rows + m.after
  }

  /** The filter on the existing rows: a `|` and something other than white space. */
  predicate IsTableLine(line: string) {
    '|' in line && Trim(line) != ""
  }

  /** The kept lines: every table line as often as it occurs, nothing else. */
  function TableLines(lines: seq<string>): (r: seq<string>)
    ensures forall i :: 0 <= i < |r| ==> IsTableLine(r[i])
    ensures forall x :: x in r <==> x in lines && IsTableLine(x)
    ensures forall x :: multiset(r)[x] == if IsTableLine(x) then multiset(lines)[x] else 0
  {
    FilterCounts(lines, IsTableLine);
    Filter(lines, IsTableLine)
  }

  /** The kept lines stay in file order: the lines of two stretches of the file are kept stretch by stretch. */
  lemma TableLinesInOrder(a: seq<string>, b: seq<string>)
    ensures TableLines(a + b) == TableLines(a) + TableLines(b)
  {
    FilterConcat(a, b, IsTableLine);
  }

  /** Each kept line with the date `extractDateFromRow` reads from it. */
  function Dated(lines: seq<string>): (r: seq<DatedRow>)
    ensures |r| == |lines|
    ensures forall i :: 0 <= i < |r| ==> r[i] == DatedRow(lines[i], ExtractDateFromRow(lines[i]))
  {
    seq(|lines|, i requires 0 <= i < |lines| => DatedRow(lines[i], ExtractDateFromRow(lines[i])))
  }

  /** The existing rows plus the new paper's row, its key the paper's own date, all newest first. */
  function MergedRows(existing: string, p: Processed): seq<DatedRow> {
    SortNewestFirst(Dated(TableLines(Split(existing, '\n'))) + [DatedRow(GenerateTableRow(p), p.date)])
  }

  function Lines(rows: seq<DatedRow>): (r: seq<string>)
    ensures |r| == |rows| && forall i :: 0 <= i < |r| ==> r[i] == rows[i].line
  {
    seq(|rows|, i requires 0 <= i < |rows| => rows[i].line)
  }

  /**
   * `insertPaperIntoReadme`. Without a section the README gains a new one
   * at its end; with one, the text around the rows is kept and the rows are
   * rewritten newest first with the new row among them.
   */
  function InsertPaperIntoReadme(readme: string, section: Option<TableMatch>, p: Processed): (r: string)
    requires section.Some? ==> IsTableMatch(readme, section.value)
    ensures section.None? ==> readme + "\n\n" <= r && r[|readme| + 2..] == CreatePapersTable([p])
    ensures section.Some? ==> section.value.before + section.value.header <= r
    ensures section.Some? ==> |r| > |section.value.after| && r[|r| - |section.value.after| - 1..] == "\n" + section.value.after
  {
    match section
    case None =>
      Framed(readme + "\n\n", CreatePapersTable([p]), "");
      readme + "\n\n" + CreatePapersTable([p])
    case Some(m) =>
      var body := Join(Lines(MergedRows(m.rows, p)), "\n");
      Framed(m.before + m.header, body, "\n" + m.after);
      m.before + m.header + body + ("\n" + m.after)
  }

  /** A text between a prefix and a suffix: the prefix leads, the suffix ends, the text sits between. */
  lemma Framed(pre: string, mid: string, post: string)
    ensures pre <= pre + mid + post
    ensures (pre + mid + post)[|pre| + |mid|..] == post
    ensures (pre + mid + post)[|pre|..|pre| + |mid|] == mid
    ensures post == "" ==> (pre + mid + post)[|pre|..] == mid
  {
  }

  /** The rewritten rows: one more than the kept lines, the new row among them, newest first and stable. */
  lemma MergedRowsFacts(existing: string, p: Processed)
    ensures var kept := Dated(TableLines(Split(existing, '\n')));
      && |MergedRows(existing, p)| == |kept| + 1
      && multiset(MergedRows(existing, p)) == multiset(kept) + multiset{DatedRow(GenerateTableRow(p), p.date)}
      && NewestFirst(MergedRows(existing, p))
      && forall d :: WithDate(MergedRows(existing, p), d) == WithDate(kept + [DatedRow(GenerateTableRow(p), p.date)], d)
  {
    var kept := Dated(TableLines(Split(existing, '\n')));
    var all := kept + [DatedRow(GenerateTableRow(p), p.date)];
    SortIsStableNewestFirst(all);
    assert |MergedRows(existing, p)| == |multiset(MergedRows(existing, p))|;
  }

  /** The new row is placed after every existing row of the same date. */
  lemma NewRowAfterSameDate(existing: string, p: Processed)
    ensures var kept := Dated(TableLines(Split(existing, '\n')));
      WithDate(MergedRows(existing, p), p.date) == WithDate(kept, p.date) + [DatedRow(GenerateTableRow(p), p.date)]
  {
    var kept := Dated(TableLines(Split(existing, '\n')));
    MergedRowsFacts(existing, p);
    WithDateAppend(kept, DatedRow(GenerateTableRow(p), p.date), p.date);
  }

  /** Every row's line is free of line breaks. */
  predicate SingleLines(rows: seq<DatedRow>) {
    forall i :: 0 <= i < |rows| ==> '\n' !in rows[i].line
  }

  /** Reordering rows keeps each line free of line breaks. */
  lemma PermutedSingleLines(a: seq<DatedRow>, b: seq<DatedRow>)
    requires multiset(a) == multiset(b) && SingleLines(a)
    ensures SingleLines(b)
  {
    forall i | 0 <= i < |b|
      ensures '\n' !in b[i].line
    {
      assert b[i] in multiset(a);
      var k :| 0 <= k < |a| && a[k] == b[i];
    }
  }

  /** The kept lines and the new row are single lines, so the merged rows are too. */
  lemma MergedSingleLines(existing: string, p: Processed)
    requires NoNewlineInFields(p)
    ensures SingleLines(MergedRows(existing, p))
  {
    var lines := Split(existing, '\n');
    var kept := Dated(TableLines(lines));
    var all := kept + [DatedRow(GenerateTableRow(p), p.date)];
    RowHasNoNewline(p);
    forall i | 0 <= i < |all|
      ensures '\n' !in all[i].line
    {
      if i < |kept| {
        assert all[i].line == TableLines(lines)[i];
        assert TableLines(lines)[i] in lines;
      }
    }
    MergedRowsFacts(existing, p);
    PermutedSingleLines(all, MergedRows(existing, p));
  }

  /**
   * Read back line by line, the text between the kept header and the line
   * break before the kept tail is exactly the merged rows, in order.
   */
  lemma InsertedRowsReadBack(readme: string, m: TableMatch, p: Processed)
    requires IsTableMatch(readme, m)
    requires NoNewlineInFields(p)
    ensures var r := InsertPaperIntoReadme(readme, Some(m), p);
      && |m.before + m.header| <= |r| - |m.after| - 1
      && Split(r[|m.before + m.header|..|r| - |m.after| - 1], '\n') == Lines(MergedRows(m.rows, p))
  {
    var merged := MergedRows(m.rows, p);
    var body := Join(Lines(merged), "\n");
    MergedSingleLines(m.rows, p);
    Framed(m.before + m.header, body, "\n" + m.after);
    SplitJoin(Lines(merged), '\n');
  }

  // ---------------------------------------------------------------- commit message

  const MaxSubjectTitle := 50
  const ShortenedLength := 47
  const Ellipsis := "..."

  /** The title in the subject line: kept up to 50 characters, else its first 47 and `...`. */
  function ShortTitle(title: string): (r: string)
    ensures |r| <= MaxSubjectTitle
    ensures r == title <==> |title| <= MaxSubjectTitle
    ensures r != title ==> r == title[..ShortenedLength] + Ellipsis
  {
    if |title| > MaxSubjectTitle then title[..ShortenedLength] + Ellipsis else title
  }

  /** The four lines of a commit message: subject, blank line, id, date. */
  function CommitLines(p: Processed): seq<string> {
    ["Add: " + ShortTitle(p.title), "", "ArXiv ID: " + p.arxivId, "Date: " + p.date]
  }

  /** `generateCommitMessage`: `Add: <short title>\n\nArXiv ID: <id>\nDate: <date>`. */
  function GenerateCommitMessage(p: Processed): string {
    Join(CommitLines(p), "\n")
  }

  /** The message reads back as its four lines when no field breaks a line. */
  lemma CommitMessageLines(p: Processed)
    requires '\n' !in p.title && '\n' !in p.arxivId && '\n' !in p.date
    ensures Split(GenerateCommitMessage(p), '\n') == CommitLines(p)
    ensures Split(GenerateCommitMessage(p), '\n')[0] == "Add: " + ShortTitle(p.title)
  {
    var parts := CommitLines(p);
    assert '\n' !in ShortTitle(p.title);
    assert forall i :: 0 <= i < 4 ==> '\n' !in parts[i];
    SplitJoin(parts, '\n');
  }
}
