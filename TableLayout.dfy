/** What a Markdown table builder renders, as functions of its header and rows:
    the column count, the column widths, the dashed separator line and the padded
    rows, and the whole text. The builder class in module MarkdownTable is proved
    to compute exactly these. Cells are the cells' strings (the source calls
    ToString on each object it is given). */
module TableLayout {
  import opened Wrappers
  import opened Strings

  /** The builder's fixed settings. */
  const Padding: nat := 1
  const HorizontalChar := '-'
  const OuterBorderChar := ' '
  const VerticalChar := '|'

  /** Aggregate over an empty sequence throws InvalidOperationException. */
  datatype TableError = EmptySequence

  function Max(a: int, b: int): int {
    if a >= b then a else b
  }

  /** The number of columns: the longest of the header and the rows. */
  function MaxColumns(header: seq<string>, rows: seq<seq<string>>): (n: nat)
    ensures |header| <= n
    ensures forall k :: 0 <= k < |rows| ==> |rows[k]| <= n
    ensures n == |header| || exists k :: 0 <= k < |rows| && |rows[k]| == n
    decreases |rows|
  {
    if rows == [] then |header|
    else
      var m := MaxColumns(header, rows[..|rows| - 1]);
      assert forall k :: 0 <= k < |rows| - 1 ==> rows[..|rows| - 1][k] == rows[k];
      Max(m, |rows[|rows| - 1]|)
  }

  /** The cells of column index, one per row; a row too short contributes "". */
  function Column(rows: seq<seq<string>>, index: nat): seq<string> {
    seq(|rows|, k requires 0 <= k < |rows| => if index < |rows[k]| then rows[k][index] else "")
  }

  /** The length of the longest cell. */
  function MaxLength(cells: seq<string>): nat
    requires cells != []
    decreases |cells|
  {
    if |cells| == 1 then |cells[0]| else Max(MaxLength(cells[..|cells| - 1]), |cells[|cells| - 1]|)
  }

  /** MaxLength is the length of a longest cell. */
  lemma {:induction false} MaxLengthIsLongest(cells: seq<string>)
    requires cells != []
    ensures forall k :: 0 <= k < |cells| ==> |cells[k]| <= MaxLength(cells)
    ensures exists k :: 0 <= k < |cells| && |cells[k]| == MaxLength(cells)
    decreases |cells|
  {
    if |cells| == 1 {
      assert |cells[0]| == MaxLength(cells);
    } else {
      var init := cells[..|cells| - 1];
      MaxLengthIsLongest(init);
      assert forall k :: 0 <= k < |init| ==> init[k] == cells[k];
      var k :| 0 <= k < |init| && |init[k]| == MaxLength(init);
      if MaxLength(cells) == MaxLength(init) {
        assert |cells[k]| == MaxLength(cells);
      } else {
        assert |cells[|cells| - 1]| == MaxLength(cells);
      }
    }
  }

  /** The header's say in a column's width: its cell's length, or 1 past its end. */
  function HeaderWidth(header: seq<string>, index: nat): nat {
    if index < |header| then |header[index]| else 1
  }

  /** The width of column index. With no rows it is 1 whatever the header holds;
      otherwise the widest of the header's cell and the column's cells. */
  function ColumnWidth(header: seq<string>, rows: seq<seq<string>>, index: nat): nat {
    if rows == [] then 1 else Max(HeaderWidth(header, index), MaxLength(Column(rows, index)))
  }

  /** The column width is 1 without rows; with rows it is the least width that the
      header's cell and every cell of the column fit in. */
  lemma ColumnWidthIsWidest(header: seq<string>, rows: seq<seq<string>>, index: nat)
    ensures rows == [] ==> ColumnWidth(header, rows, index) == 1
    ensures rows != [] ==> HeaderWidth(header, index) <= ColumnWidth(header, rows, index)
    ensures rows != [] ==> forall k :: 0 <= k < |rows| && index < |rows[k]| ==> |rows[k][index]| <= ColumnWidth(header, rows, index)
    ensures rows != [] ==> ColumnWidth(header, rows, index) == HeaderWidth(header, index)
                           || exists k :: 0 <= k < |rows| && |Column(rows, index)[k]| == ColumnWidth(header, rows, index)
  {
    if rows != [] {
      var c := Column(rows, index);
      MaxLengthIsLongest(c);
      assert forall k :: 0 <= k < |rows| && index < |rows[k]| ==> c[k] == rows[k][index];
    }
  }

  /** The widths of the first n columns. */
  function Widths(header: seq<string>, rows: seq<seq<string>>, n: nat): (ws: seq<nat>)
    ensures |ws| == n
    ensures forall i :: 0 <= i < n ==> ws[i] == ColumnWidth(header, rows, i)
    decreases n
  {
    if n == 0 then [] else Widths(header, rows, n - 1) + [ColumnWidth(header, rows, n - 1)]
  }

  /** new string(c, Math.Max(size, 0)). */
  function Fill(size: int, c: char): (s: string)
    ensures |s| == Max(size, 0) && forall k :: 0 <= k < |s| ==> s[k] == c
  {
    seq(Max(size, 0), _ => c)
  }

  /** The "{0,-w}" format: left-aligned, padded with spaces to w, never cut. */
  function PadRight(s: string, w: int): (r: string)
    ensures |r| == Max(|s|, w) && r[..|s|] == s
    ensures forall k :: |s| <= k < |r| ==> r[k] == ' '
  {
    s + Fill(w - |s|, ' ')
  }

  /** The dashes of each column: its width plus the padding on both sides. */
  function Dashes(ws: seq<nat>): seq<string> {
    seq(|ws|, i requires 0 <= i < |ws| => Fill(ws[i] + 2 * Padding, HorizontalChar))
  }

  /** The separator line; with no columns the Aggregate has nothing to fold. */
  function HorizontalLine(ws: seq<nat>): Result<string, TableError> {
    if ws == [] then Failure(EmptySequence)
    else Success([OuterBorderChar] + Join(VerticalChar, Dashes(ws)) + [OuterBorderChar])
  }

  /** line is the dashes of the first n columns joined by '|'. */
  predicate DashesJoined(line: string, ws: seq<nat>, n: nat) {
    1 <= n <= |ws| && line == Join(VerticalChar, Dashes(ws)[..n])
  }

  lemma DashesStart(ws: seq<nat>, first: string)
    requires ws != [] && first == Fill(ws[0] + 2 * Padding, HorizontalChar)
    ensures DashesJoined(first, ws, 1)
  {
    assert Dashes(ws)[..1] == [first];
  }

  /** '|' and the dashes of column i extend the joined dashes by one column. */
  lemma DashesStep(line: string, ws: seq<nat>, i: nat, bar: string, dashes: string)
    requires i < |ws| && DashesJoined(line, ws, i)
    requires bar == Fill(1, VerticalChar) && dashes == Fill(ws[i] + 2 * Padding, HorizontalChar)
    ensures DashesJoined(line + bar + dashes, ws, i + 1)
  {
    var d := Dashes(ws);
    TakeSnoc(d, i + 1);
    JoinSnoc(VerticalChar, d[..i], d[i]);
    assert bar == [VerticalChar];
  }

  /** The joined dashes of every column between two outer borders: the line. */
  lemma DashesDone(line: string, ws: seq<nat>, border: string)
    requires DashesJoined(line, ws, |ws|) && border == Fill(1, OuterBorderChar)
    ensures HorizontalLine(ws) == Success(border + line + border)
  {
    TakeAll(Dashes(ws));
    assert border == [OuterBorderChar];
  }

  /** What follows column j: '|' between columns, the outer border after the last. */
  function Separator(ws: seq<nat>, j: nat): char {
    if j == |ws| - 1 then OuterBorderChar else VerticalChar
  }

  /** Column j of a row: the padded cell, or blanks of the same width past the
      row's end. */
  function Segment(cells: seq<string>, ws: seq<nat>, j: nat): string
    requires j < |ws|
  {
    (if j < |cells| then PaddedCell(cells[j], ws[j]) else Blank(ws[j])) + [Separator(ws, j)]
  }

  /** A cell padded to width w, with the padding on both sides. */
  function PaddedCell(c: string, w: nat): string {
    Fill(Padding, ' ') + PadRight(c, w) + Fill(Padding, ' ')
  }

  /** The blanks standing for a missing cell of a column of width w. */
  function Blank(w: nat): string {
    Fill(w + 2 * Padding, ' ')
  }

  function Segments(cells: seq<string>, ws: seq<nat>, n: nat): string
    requires n <= |ws|
    decreases n
  {
    if n == 0 then "" else Segments(cells, ws, n - 1) + Segment(cells, ws, n - 1)
  }

  /** A rendered row of a table with column widths ws. */
  function Row(cells: seq<string>, ws: seq<nat>): string
    requires |cells| <= |ws|
  {
    [OuterBorderChar] + Segments(cells, ws, |ws|)
  }

  predicate Fits(rows: seq<seq<string>>, n: nat) {
    forall k :: 0 <= k < |rows| ==> |rows[k]| <= n
  }

  /** The rendered rows, in order. */
  function RowLines(rows: seq<seq<string>>, ws: seq<nat>): (ls: seq<string>)
    requires Fits(rows, |ws|)
    ensures |ls| == |rows|
    decreases |rows|
  {
    if rows == [] then []
    else RowLines(rows[..|rows| - 1], ws) + [Row(rows[|rows| - 1], ws)]
  }

  lemma RowLinesSnoc(rows: seq<seq<string>>, ws: seq<nat>, k: nat)
    requires k < |rows| && Fits(rows, |ws|)
    ensures Fits(rows[..k], |ws|) && Fits(rows[..k + 1], |ws|)
    ensures RowLines(rows[..k + 1], ws) == RowLines(rows[..k], ws) + [Row(rows[k], ws)]
  {
    var p := rows[..k + 1];
    forall i | 0 <= i < k + 1 ensures |p[i]| <= |ws| {
      assert p[i] == rows[i];
    }
    assert p[..k] == rows[..k];
    assert p[k] == rows[k];
  }

  /** Row k of the table is the k-th rendered row. */
  lemma {:induction false} RowLinesAt(rows: seq<seq<string>>, ws: seq<nat>, k: nat)
    requires k < |rows| && Fits(rows, |ws|)
    ensures RowLines(rows, ws)[k] == Row(rows[k], ws)
    decreases |rows|
  {
    if k < |rows| - 1 {
      RowLinesAt(rows[..|rows| - 1], ws, k);
    }
  }

  /** b is the outer border followed by the first j columns of a row of a table
      of n columns. */
  predicate RowBuilt(b: string, header: seq<string>, rows: seq<seq<string>>, n: nat, cells: seq<string>, j: nat) {
    j <= n && b == [OuterBorderChar] + Segments(cells, Widths(header, rows, n), j)
  }

  /** What the row builder writes after column j of n. */
  function SeparatorAfter(j: nat, n: nat): char {
    if j == n - 1 then OuterBorderChar else VerticalChar
  }

  /** Column j of a row in a table of n columns, w being that column's width. */
  lemma SegmentAt(header: seq<string>, rows: seq<seq<string>>, n: nat, cells: seq<string>, j: nat, w: nat)
    requires j < n && w == ColumnWidth(header, rows, j)
    ensures Segment(cells, Widths(header, rows, n), j)
         == (if j < |cells| then PaddedCell(cells[j], w) else Blank(w)) + [SeparatorAfter(j, n)]
  {
  }

  /** Appending column j extends the row so far by one column. */
  lemma ColumnStep(header: seq<string>, rows: seq<seq<string>>, n: nat, cells: seq<string>, j: nat, seg: string, done: string)
    requires j < n && RowBuilt(done, header, rows, n, cells, j)
    requires seg == Segment(cells, Widths(header, rows, n), j)
    ensures RowBuilt(done + seg, header, rows, n, cells, j + 1)
  {
    SegmentsSnoc(cells, Widths(header, rows, n), j, seg, done);
  }

  lemma SegmentsSnoc(cells: seq<string>, ws: seq<nat>, j: nat, seg: string, done: string)
    requires j < |ws| && done == [OuterBorderChar] + Segments(cells, ws, j)
    requires seg == Segment(cells, ws, j)
    ensures done + seg == [OuterBorderChar] + Segments(cells, ws, j + 1)
  {
  }

  /** A padded cell and the character after it extend the row so far by column j. */
  lemma CellStep(header: seq<string>, rows: seq<seq<string>>, n: nat, cells: seq<string>, j: nat, w: nat, done: string)
    requires j < |cells| <= n && w == ColumnWidth(header, rows, j)
    requires RowBuilt(done, header, rows, n, cells, j)
    ensures RowBuilt(done + (PaddedCell(cells[j], w) + [SeparatorAfter(j, n)]), header, rows, n, cells, j + 1)
  {
    SegmentAt(header, rows, n, cells, j, w);
    ColumnStep(header, rows, n, cells, j, PaddedCell(cells[j], w) + [SeparatorAfter(j, n)], done);
  }

  /** Blanks and the character after them extend the row so far by column j, a
      column past the row's end. */
  lemma BlankStep(header: seq<string>, rows: seq<seq<string>>, n: nat, cells: seq<string>, j: nat, w: nat, done: string)
    requires |cells| <= j < n && w == ColumnWidth(header, rows, j)
    requires RowBuilt(done, header, rows, n, cells, j)
    ensures RowBuilt(done + (Blank(w) + [SeparatorAfter(j, n)]), header, rows, n, cells, j + 1)
  {
    SegmentAt(header, rows, n, cells, j, w);
    ColumnStep(header, rows, n, cells, j, Blank(w) + [SeparatorAfter(j, n)], done);
  }

  /** Every column built: the rendered row. */
  lemma RowDone(header: seq<string>, rows: seq<seq<string>>, n: nat, cells: seq<string>, b: string)
    requires |cells| <= n && RowBuilt(b, header, rows, n, cells, n)
    ensures b == Row(cells, Widths(header, rows, n))
  {
  }

  /** The lines ToString emits: the header row if there is a header, the
      separator line, then every row in insertion order. */
  function Lines(header: seq<string>, rows: seq<seq<string>>): Result<seq<string>, TableError> {
    var n := MaxColumns(header, rows);
    var ws := Widths(header, rows, n);
    match HorizontalLine(ws)
    case Failure(e) => Failure(e)
    case Success(line) =>
      Success((if |header| > 0 then [Row(header, ws)] else []) + [line] + RowLines(rows, ws))
  }

  /** StringBuilder.AppendLine for each line in turn. */
  function AppendLines(lines: seq<string>, nl: string): string
    decreases |lines|
  {
    if lines == [] then "" else AppendLines(lines[..|lines| - 1], nl) + lines[|lines| - 1] + nl
  }

  lemma AppendLinesSnoc(lines: seq<string>, line: string, nl: string)
    ensures AppendLines(lines + [line], nl) == AppendLines(lines, nl) + line + nl
  {
    assert (lines + [line])[..|lines|] == lines;
  }

  lemma {:induction false} AppendLinesConcat(a: seq<string>, b: seq<string>, nl: string)
    ensures AppendLines(a + b, nl) == AppendLines(a, nl) + AppendLines(b, nl)
    decreases |b|
  {
    if b == [] {
      assert a + b == a;
    } else {
      var init, last := b[..|b| - 1], b[|b| - 1];
      assert a + b == (a + init) + [last];
      AppendLinesSnoc(a + init, last, nl);
      AppendLinesConcat(a, init, nl);
      AppendLinesSnoc(init, last, nl);
      assert init + [last] == b;
    }
  }

  /** The whole rendered table, nl being Environment.NewLine. */
  function Render(header: seq<string>, rows: seq<seq<string>>, nl: string): Result<string, TableError> {
    match Lines(header, rows)
    case Failure(e) => Failure(e)
    case Success(lines) => Success(AppendLines(lines, nl))
  }

  /** out is prefix followed by the first k rows rendered with widths ws, each
      followed by nl. */
  predicate RowsRendered(out: string, prefix: string, rows: seq<seq<string>>, ws: seq<nat>, k: nat, nl: string) {
    k <= |rows| && Fits(rows[..k], |ws|) && out == prefix + AppendLines(RowLines(rows[..k], ws), nl)
  }

  lemma RowsRenderedStart(prefix: string, rows: seq<seq<string>>, ws: seq<nat>, nl: string)
    requires Fits(rows, |ws|)
    ensures RowsRendered(prefix, prefix, rows, ws, 0, nl)
  {
    assert rows[..0] == [];
  }

  /** Appending row k and nl renders one row more. */
  lemma RowsRenderedStep(out: string, prefix: string, rows: seq<seq<string>>, ws: seq<nat>, k: nat, nl: string, line: string)
    requires k < |rows| && Fits(rows, |ws|) && RowsRendered(out, prefix, rows, ws, k, nl)
    requires line == Row(rows[k], ws)
    ensures RowsRendered(out + line + nl, prefix, rows, ws, k + 1, nl)
  {
    RowLinesSnoc(rows, ws, k);
    AppendLinesSnoc(RowLines(rows[..k], ws), line, nl);
    AppendAssoc(prefix, AppendLines(RowLines(rows[..k], ws), nl), line, nl);
  }

  /** Without a column the separator line fails, and so does the whole table. */
  lemma RenderFails(header: seq<string>, rows: seq<seq<string>>, nl: string, ws: seq<nat>)
    requires ws == Widths(header, rows, MaxColumns(header, rows))
    requires HorizontalLine(ws).Failure?
    ensures Render(header, rows, nl) == Failure(HorizontalLine(ws).error)
  {
  }

  /** With a separator line, the table is the header line if any, that line and
      the rows, each followed by nl. */
  lemma RenderSuccess(header: seq<string>, rows: seq<seq<string>>, nl: string, ws: seq<nat>, line: string, top: seq<string>)
    requires ws == Widths(header, rows, MaxColumns(header, rows))
    requires HorizontalLine(ws) == Success(line)
    requires top == (if |header| > 0 then [Row(header, ws)] else []) + [line]
    ensures Fits(rows, |ws|)
    ensures Render(header, rows, nl) == Success(AppendLines(top + RowLines(rows, ws), nl))
  {
  }

  /** The header line if any, the separator line, then every row rendered: the
      whole table. */
  lemma RenderAssembled(header: seq<string>, rows: seq<seq<string>>, nl: string, ws: seq<nat>, line: string, top: seq<string>, out: string)
    requires ws == Widths(header, rows, MaxColumns(header, rows))
    requires HorizontalLine(ws) == Success(line)
    requires top == (if |header| > 0 then [Row(header, ws)] else []) + [line]
    requires RowsRendered(out, AppendLines(top, nl), rows, ws, |rows|, nl)
    ensures Render(header, rows, nl) == Success(out)
  {
    RenderSuccess(header, rows, nl, ws, line, top);
    TakeAll(rows);
    AppendLinesConcat(top, RowLines(rows, ws), nl);
  }

  // ---------------------------------------------------------------------------
  // Properties

  /** 1 + Σ (w + 3): the outer border, and per column its padded width and the
      character after it. */
  function LineWidth(ws: seq<nat>): nat
    decreases |ws|
  {
    if ws == [] then 1 else LineWidth(ws[..|ws| - 1]) + ws[|ws| - 1] + 3
  }

  lemma {:induction false} DashesLength(ws: seq<nat>)
    requires ws != []
    ensures |Join(VerticalChar, Dashes(ws))| + 2 == LineWidth(ws)
    decreases |ws|
  {
    var n := |ws|;
    if n > 1 {
      assert Dashes(ws)[..n - 1] == Dashes(ws[..n - 1]);
      DashesLength(ws[..n - 1]);
    } else {
      assert ws[..0] == [];
    }
  }

  /** The separator line is 1 + Σ (w + 3) characters long. */
  lemma HorizontalLineLength(ws: seq<nat>)
    requires ws != []
    ensures HorizontalLine(ws).Success?
    ensures |HorizontalLine(ws).value| == LineWidth(ws)
  {
    DashesLength(ws);
  }

  predicate CellsFit(cells: seq<string>, ws: seq<nat>) {
    |cells| <= |ws| && forall j :: 0 <= j < |cells| ==> |cells[j]| <= ws[j]
  }

  lemma {:induction false} SegmentsLength(cells: seq<string>, ws: seq<nat>, n: nat)
    requires CellsFit(cells, ws) && n <= |ws|
    ensures |Segments(cells, ws, n)| + 1 == LineWidth(ws[..n])
    decreases n
  {
    if n == 0 {
    } else {
      SegmentsLength(cells, ws, n - 1);
      assert ws[..n][..n - 1] == ws[..n - 1];
    }
  }

  /** A row whose cells fit their columns is exactly as long as the separator line. */
  lemma RowLength(cells: seq<string>, ws: seq<nat>)
    requires CellsFit(cells, ws)
    ensures |Row(cells, ws)| == LineWidth(ws)
  {
    SegmentsLength(cells, ws, |ws|);
    assert ws[..|ws|] == ws;
  }

  /** With at least one row, the header's cells fit their columns. */
  lemma HeaderFits(header: seq<string>, rows: seq<seq<string>>)
    requires rows != []
    ensures CellsFit(header, Widths(header, rows, MaxColumns(header, rows)))
  {
    var ws := Widths(header, rows, MaxColumns(header, rows));
    forall j | 0 <= j < |header| ensures |header[j]| <= ws[j] {
      ColumnWidthIsWidest(header, rows, j);
    }
  }

  /** Every row's cells fit their columns. */
  lemma RowFits(header: seq<string>, rows: seq<seq<string>>, k: nat)
    requires k < |rows|
    ensures CellsFit(rows[k], Widths(header, rows, MaxColumns(header, rows)))
  {
    var ws := Widths(header, rows, MaxColumns(header, rows));
    forall j | 0 <= j < |rows[k]| ensures |rows[k][j]| <= ws[j] {
      ColumnWidthIsWidest(header, rows, j);
    }
  }

  predicate AllOfLength(lines: seq<string>, n: nat) {
    forall i :: 0 <= i < |lines| ==> |lines[i]| == n
  }

  lemma AllOfLengthConcat(a: seq<string>, b: seq<string>, n: nat)
    requires AllOfLength(a, n) && AllOfLength(b, n)
    ensures AllOfLength(a + b, n)
  {
    forall i | 0 <= i < |a + b| ensures |(a + b)[i]| == n {
      if i >= |a| {
        assert (a + b)[i] == b[i - |a|];
      }
    }
  }

  /** With at least one row, the widths make every cell of the header and the rows
      fit, so all lines of the table have the same length. */
  lemma LinesAligned(header: seq<string>, rows: seq<seq<string>>)
    requires rows != [] && Lines(header, rows).Success?
    ensures AllOfLength(Lines(header, rows).value, LineWidth(Widths(header, rows, MaxColumns(header, rows))))
  {
    var n := MaxColumns(header, rows);
    var ws := Widths(header, rows, n);
    var line := HorizontalLine(ws).value;
    var head := if |header| > 0 then [Row(header, ws)] else [];
    var body := RowLines(rows, ws);
    assert Lines(header, rows).value == head + [line] + body;
    HorizontalLineLength(ws);
    if |header| > 0 {
      HeaderFits(header, rows);
      RowLength(header, ws);
    }
    forall k | 0 <= k < |body| ensures |body[k]| == LineWidth(ws) {
      RowLinesAt(rows, ws, k);
      RowFits(header, rows, k);
      RowLength(rows[k], ws);
    }
    AllOfLengthConcat(head, [line], LineWidth(ws));
    AllOfLengthConcat(head + [line], body, LineWidth(ws));
  }

  /** Rendering fails exactly when the table has no column: no header and no
      non-empty row. */
  lemma RenderFailsIff(header: seq<string>, rows: seq<seq<string>>, nl: string)
    ensures Render(header, rows, nl).Failure? <==> MaxColumns(header, rows) == 0
    ensures Render(header, rows, nl).Failure? <==> header == [] && forall k :: 0 <= k < |rows| ==> rows[k] == []
  {
  }

  /** The texts between the '|' of a row: every column's cell padded on both sides. */
  function Fields(cells: seq<string>, ws: seq<nat>): seq<string> {
    seq(|ws|, j requires 0 <= j < |ws| => " " + PadRight(if j < |cells| then cells[j] else "", ws[j]) + " ")
  }

  lemma SegmentIsField(cells: seq<string>, ws: seq<nat>, j: nat)
    requires j < |ws|
    ensures Segment(cells, ws, j) == Fields(cells, ws)[j] + [Separator(ws, j)]
  {
    var c := if j < |cells| then cells[j] else "";
    assert Fill(Padding, ' ') == " ";
    if j >= |cells| {
      assert Fill(ws[j] + 2 * Padding, ' ') == " " + PadRight(c, ws[j]) + " ";
    }
  }

  lemma {:induction false} SegmentsAsJoin(cells: seq<string>, ws: seq<nat>, n: nat)
    requires |cells| <= |ws| && 0 < n <= |ws|
    ensures Segments(cells, ws, n) == Join(VerticalChar, Fields(cells, ws)[..n]) + [Separator(ws, n - 1)]
    decreases n
  {
    var f := Fields(cells, ws);
    SegmentIsField(cells, ws, n - 1);
    if n == 1 {
      assert Segments(cells, ws, 0) == [];
      assert f[..1] == [f[0]];
    } else {
      SegmentsAsJoin(cells, ws, n - 1);
      assert Separator(ws, n - 2) == VerticalChar;
      TakeSnoc(f, n);
      JoinSnoc(VerticalChar, f[..n - 1], f[n - 1]);
      Regroup(Join(VerticalChar, f[..n - 1]), [VerticalChar], f[n - 1], [Separator(ws, n - 1)]);
    }
  }

  /** A row has the separator line's shape: the outer border, the fields joined by
      '|', the outer border. */
  lemma RowAsJoin(cells: seq<string>, ws: seq<nat>)
    requires |cells| <= |ws| && ws != []
    ensures Row(cells, ws) == [OuterBorderChar] + Join(VerticalChar, Fields(cells, ws)) + [OuterBorderChar]
  {
    SegmentsAsJoin(cells, ws, |ws|);
    assert Fields(cells, ws)[..|ws|] == Fields(cells, ws);
  }

  lemma FieldOfCell(c: string, w: nat)
    requires VerticalChar !in c && IsTrimmed(c)
    ensures VerticalChar !in " " + PadRight(c, w) + " "
    ensures Trim(" " + PadRight(c, w) + " ") == c
  {
    var pad := PadRight(c, w);
    var q := pad[|c|..] + " ";
    assert pad == c + pad[|c|..];
    assert " " + pad + " " == " " + c + q;
    assert AllWhiteSpace(q);
    TrimPadded(" ", c, q);
  }

  /** Reading a rendered row back: between the borders it splits on '|' into exactly
      one field per column, and each field trims to its cell, or to "" past the
      row's end (for cells without '|' and without surrounding whitespace). */
  lemma RowCells(cells: seq<string>, ws: seq<nat>)
    requires |cells| <= |ws| && ws != []
    requires forall j :: 0 <= j < |cells| ==> VerticalChar !in cells[j] && IsTrimmed(cells[j])
    ensures var r := Row(cells, ws);
            var parts := Split(r[1..|r| - 1], VerticalChar);
            |parts| == |ws|
            && (forall j :: 0 <= j < |cells| ==> Trim(parts[j]) == cells[j])
            && (forall j :: |cells| <= j < |ws| ==> Trim(parts[j]) == "")
  {
    var f := Fields(cells, ws);
    RowAsJoin(cells, ws);
    var r := Row(cells, ws);
    assert r[1..|r| - 1] == Join(VerticalChar, f);
    forall j | 0 <= j < |ws|
      ensures VerticalChar !in f[j]
      ensures Trim(f[j]) == if j < |cells| then cells[j] else ""
    {
      FieldOfCell(if j < |cells| then cells[j] else "", ws[j]);
    }
    SplitJoin(VerticalChar, f);
  }
}
