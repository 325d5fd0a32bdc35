/** The Markdown table builder: a header and a list of rows that WithHeader,
    WithRow and Clear update in place, and the loops that measure and render them.
    Every rendering method is proved to compute the function of module TableLayout
    that describes its result. */
module MarkdownTable {
  import opened Wrappers
  import opened Strings
  import opened TableLayout

  class MarkdownTableBuilder {
    var header: seq<string>
    var rows: seq<seq<string>>

    constructor ()
      ensures header == [] && rows == []
    {
      header := [];
      rows := [];
    }

    /** Replaces the header; the rows stay as they are. */
    method WithHeader(h: seq<string>) returns (self: MarkdownTableBuilder)
      modifies this
      ensures header == h && rows == old(rows)
      ensures self == this
    {
      header := h;
      self := this;
    }

    /** Appends one row after the existing ones; the header stays as it is. */
    method WithRow(row: seq<string>) returns (self: MarkdownTableBuilder)
      modifies this
      ensures rows == old(rows) + [row] && header == old(header)
      ensures self == this
    {
      rows := rows + [row];
      self := this;
    }

    /** Empties both the header and the rows. */
    method Clear() returns (self: MarkdownTableBuilder)
      modifies this
      ensures header == [] && rows == []
      ensures self == this
    {
      header := [];
      rows := [];
      self := this;
    }

    /** The column count: the header's length, then the longest row seen so far. */
    method MaxColumns() returns (result: nat)
      ensures result == TableLayout.MaxColumns(header, rows)
    {
      result := |header|;
      for k := 0 to |rows|
        invariant result == TableLayout.MaxColumns(header, rows[..k])
      {
        assert rows[..k + 1][..k] == rows[..k];
        result := Max(|rows[k]|, result);
      }
      TakeAll(rows);
    }

    /** The cells of column index, one per row. */
    method Column(index: nat) returns (column: seq<string>)
      ensures column == TableLayout.Column(rows, index)
    {
      column := [];
      for k := 0 to |rows|
        invariant |column| == k
        invariant forall j :: 0 <= j < k ==> column[j] == TableLayout.Column(rows, index)[j]
      {
        column := column + [if index < |rows[k]| then rows[k][index] else ""];
      }
    }

    /** The width of column index: 1 with no rows, otherwise the longest of the
        header's cell (1 past the header's end) and the column's cells. */
    method ColumnWidth(index: nat) returns (width: nat)
      ensures width == TableLayout.ColumnWidth(header, rows, index)
    {
      width := 1;
      if index < |header| {
        width := |header[index]|;
      }
      var column := Column(index);
      if |column| == 0 {
        return 1;
      }
      var longest := |column[0]|;
      assert column[..1] == [column[0]];
      for k := 1 to |column|
        invariant longest == MaxLength(column[..k])
      {
        assert column[..k + 1][..k] == column[..k];
        longest := Max(longest, |column[k]|);
      }
      TakeAll(column);
      width := Max(width, longest);
    }

    /** The width of every column. */
    method SizeRow() returns (ws: seq<nat>)
      ensures ws == Widths(header, rows, TableLayout.MaxColumns(header, rows))
    {
      var maxCols := MaxColumns();
      ws := [];
      for i := 0 to maxCols
        invariant |ws| == i
        invariant forall j :: 0 <= j < i ==> ws[j] == TableLayout.ColumnWidth(header, rows, j)
      {
        var w := ColumnWidth(i);
        ws := ws + [w];
      }
    }

    /** The dashed line under the header; fails when the table has no column. */
    method HorizontalLine() returns (r: Result<string, TableError>)
      ensures r == TableLayout.HorizontalLine(Widths(header, rows, TableLayout.MaxColumns(header, rows)))
    {
      var ws := SizeRow();
      if |ws| == 0 {
        return Failure(EmptySequence);
      }
      var content := Fill(ws[0] + 2 * Padding, HorizontalChar);
      DashesStart(ws, content);
      for i := 1 to |ws|
        invariant DashesJoined(content, ws, i)
      {
        var bar := Fill(1, VerticalChar);
        var dashes := Fill(ws[i] + 2 * Padding, HorizontalChar);
        DashesStep(content, ws, i, bar, dashes);
        content := content + bar + dashes;
      }
      var border := Fill(1, OuterBorderChar);
      DashesDone(content, ws, border);
      r := Success(border + content + border);
    }

    /** One rendered row: each cell padded to its column's width, then blanks for
        the columns past the row's end, every column followed by '|' except the
        last, which is followed by the outer border. */
    method Row(row: seq<string>, maxCols: nat) returns (s: string)
      requires |row| <= maxCols
      ensures s == TableLayout.Row(row, Widths(header, rows, maxCols))
    {
      var rowBuilder := [OuterBorderChar];
      for i := 0 to |row|
        invariant RowBuilt(rowBuilder, header, rows, maxCols, row, i)
      {
        var maxColWidth := ColumnWidth(i);
        // the padding, the cell formatted as "{0,-maxColWidth}", the padding
        var cell := PaddedCell(row[i], maxColWidth);
        var separator := SeparatorAfter(i, maxCols);
        CellStep(header, rows, maxCols, row, i, maxColWidth, rowBuilder);
        rowBuilder := rowBuilder + (cell + [separator]);
      }
      // `j++ < maxCols - 1` from j = |row| - 1: the body sees j = |row|, ..., maxCols - 1
      for j := |row| to maxCols
        invariant RowBuilt(rowBuilder, header, rows, maxCols, row, j)
      {
        var maxColWidth := ColumnWidth(j);
        var blank := Blank(maxColWidth);
        var separator := SeparatorAfter(j, maxCols);
        BlankStep(header, rows, maxCols, row, j, maxColWidth, rowBuilder);
        rowBuilder := rowBuilder + (blank + [separator]);
      }
      RowDone(header, rows, maxCols, row, rowBuilder);
      s := rowBuilder;
    }

    /** The rendered table, nl being Environment.NewLine: the header row when there
        is a header, the dashed line, then the rows in insertion order, each line
        followed by nl. */
    method ToString(nl: string) returns (r: Result<string, TableError>)
      ensures r == Render(header, rows, nl)
    {
      var output := "";
      var maxCols := MaxColumns();
      ghost var ws := Widths(header, rows, maxCols);
      ghost var top: seq<string> := [];
      if |header| > 0 {
        var h := Row(header, maxCols);
        AppendLinesSnoc([], h, nl);
        top := [h];
        output := output + h + nl;
      }
      var line := HorizontalLine();
      if line.Failure? {
        RenderFails(header, rows, nl, ws);
        return Failure(line.error);
      }
      AppendLinesSnoc(top, line.value, nl);
      top := top + [line.value];
      output := output + line.value + nl;
      RowsRenderedStart(output, rows, ws, nl);
      ghost var prefix := output;
      for k := 0 to |rows|
        invariant RowsRendered(output, prefix, rows, ws, k, nl)
      {
        var rowText := Row(rows[k], maxCols);
        RowsRenderedStep(output, prefix, rows, ws, k, nl, rowText);
        output := output + rowText + nl;
      }
      RenderAssembled(header, rows, nl, ws, line.value, top, output);
      r := Success(output);
    }
  }
}
