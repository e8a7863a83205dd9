/**
 * Rendering of an extracted cell grid (utils/pdf_to_text_process.py): `convert_table_to_markdown`,
 * which writes a GitHub Flavored Markdown pipe table (section 4.10 of the GFM specification),
 * and `convert_table_to_html`. A cell is a string or `None`.
 */
module TableRender {
  import opened Wrappers
  import opened Strings

  type Cell = Option<string>

  /** `"" if c is None else str(c)` */
  function CellText(c: Cell): string {
    match c
    case None => ""
    case Some(s) => s
  }

  /** A cell is blank when it is `None` or only whitespace, so that it strips to nothing. */
  predicate BlankCell(c: Cell) {
    Blank(CellText(c))
  }

  // ---------------------------------------------------------------- row normalization

  /** Every cell as stripped text. */
  function CleanRow(row: seq<Cell>): (r: seq<string>)
    ensures |r| == |row| && forall i :: 0 <= i < |row| ==> r[i] == Strip(CellText(row[i]))
  {
    seq(|row|, i requires 0 <= i < |row| => Strip(CellText(row[i])))
  }

  predicate NonBlankRow(r: seq<string>) {
    exists i :: 0 <= i < |r| && r[i] != ""
  }

  /** The cleaned rows that keep at least one non-empty cell, in order. */
  function ContentRows(table: seq<seq<Cell>>): (rows: seq<seq<string>>)
    ensures forall k :: 0 <= k < |rows| ==> NonBlankRow(rows[k])
  {
    if table == [] then []
    else
      var rest := ContentRows(table[1..]);
      if NonBlankRow(CleanRow(table[0])) then [CleanRow(table[0])] + rest else rest
  }

  /** There are no content rows exactly when every row is blank once stripped. */
  lemma {:induction false} ContentRowsEmptyIff(table: seq<seq<Cell>>)
    ensures ContentRows(table) == [] <==> forall i :: 0 <= i < |table| ==> !NonBlankRow(CleanRow(table[i]))
  {
    if table != [] {
      ContentRowsEmptyIff(table[1..]);
      assert forall i :: 1 <= i < |table| ==> table[i] == table[1..][i - 1];
    }
  }

  /** The longest row length: `max(len(r) for r in rows)`. */
  function MaxLen(rows: seq<seq<string>>): (m: nat)
    ensures forall k :: 0 <= k < |rows| ==> |rows[k]| <= m
    ensures rows != [] ==> exists k :: 0 <= k < |rows| && |rows[k]| == m
  {
    if rows == [] then 0
    else
      var m := MaxLen(rows[1..]);
      assert forall k :: 1 <= k < |rows| ==> rows[k] == rows[1..][k - 1];
      if |rows[0]| >= m then |rows[0]| else m
  }

  /** The column count: the longest content row, capped by `max_cols` when it is given. */
  function Width(rows: seq<seq<string>>, maxCols: Option<nat>): nat {
    match maxCols
    case None => MaxLen(rows)
    case Some(m) => if m < MaxLen(rows) then m else MaxLen(rows)
  }

  /** `(r + [""] * (width - len(r)))[:width]`: pad with empty cells or cut to exactly `width`. */
  function Fit(r: seq<string>, width: nat): (f: seq<string>)
    ensures |f| == width
    ensures forall i :: 0 <= i < width ==> f[i] == if i < |r| then r[i] else ""
  {
    seq(width, i requires 0 <= i < width => if i < |r| then r[i] else "")
  }

  function FitAll(rows: seq<seq<string>>, width: nat): (fitted: seq<seq<string>>)
    ensures |fitted| == |rows| && forall k :: 0 <= k < |rows| ==> fitted[k] == Fit(rows[k], width)
  {
    seq(|rows|, k requires 0 <= k < |rows| => Fit(rows[k], width))
  }

  /** `[f"col{i+1}" for i in range(width)]` */
  function ColumnNames(width: nat): (names: seq<string>)
    ensures |names| == width
  {
    seq(width, i requires 0 <= i < width => "col" + NatToString(i + 1))
  }

  /** The header cells: the first row, or generated names when `header_rows < 1`. */
  function Header(fitted: seq<seq<string>>, headerRows: int, width: nat): seq<string>
    requires fitted != []
  {
    if headerRows >= 1 then fitted[0] else ColumnNames(width)
  }

  /** `rows[header_rows:] if header_rows >= 1 and len(rows) > 1 else rows` */
  function Body(fitted: seq<seq<string>>, headerRows: int): (body: seq<seq<string>>)
    ensures |body| <= |fitted|
    ensures forall k :: 0 <= k < |body| ==> body[k] in fitted
  {
    if headerRows >= 1 && |fitted| > 1 then
      (if headerRows >= |fitted| then [] else fitted[headerRows..])
    else fitted
  }

  // ---------------------------------------------------------------- cell escaping and row syntax

  /** `|` becomes `\|` and a newline becomes a space. */
  function EscapeChars(s: string): (r: string)
    ensures '\n' !in r
    ensures BarePipeFree(r)
  {
    if s == [] then []
    else
      var head := if s[0] == '|' then "\\|" else if s[0] == '\n' then " " else [s[0]];
      var rest := EscapeChars(s[1..]);
      var r := head + rest;
      assert forall i :: |head| <= i < |r| ==> r[i] == rest[i - |head|];
      r
  }

  /** Every pipe has a backslash right before it, so none of them separates cells. */
  predicate BarePipeFree(s: string) {
    forall i {:trigger s[i]} :: 0 <= i < |s| && s[i] == '|' ==> i > 0 && s[i - 1] == '\\'
  }

  /** `esc(cell)`: `cell.replace("|", "\\|").replace("\n", " ").strip()` */
  function EscapeCell(c: string): (r: string)
    ensures CellSafe(r)
  {
    StripKeepsEscapes(EscapeChars(c));
    Strip(EscapeChars(c))
  }

  /** Stripping escaped text cannot cut a backslash away from the pipe it escapes. */
  lemma StripKeepsEscapes(e: string)
    requires '\n' !in e && BarePipeFree(e)
    ensures CellSafe(Strip(e))
  {
    StripSlice(e);
    var r := Strip(e);
    var a := |e| - |LStrip(e)|;
    assert forall i :: 0 <= i < |r| ==> r[i] == e[a + i];
    forall i | 0 <= i < |r| && r[i] == '|' ensures i > 0 && r[i - 1] == '\\' {
      assert e[a + i] == '|';
    }
  }

  /** What may stand in a cell of a rendered row: stripped, one line, and no cell-separating pipe. */
  predicate CellSafe(c: string) {
    Stripped(c) && '\n' !in c && BarePipeFree(c)
  }

  /** `"| " + " | ".join(cells) + " |"` */
  function RenderRow(cells: seq<string>): string {
    "| " + Join(" | ", cells) + " |"
  }

  /** The rendered table: header line, `---` separator line, then one line per body row. */
  function MarkdownLines(fitted: seq<seq<string>>, headerRows: int, width: nat): (lines: seq<string>)
    requires fitted != []
  {
    var header := Header(fitted, headerRows, width);
    var body := Body(fitted, headerRows);
    [RenderRow(EscapeAll(header)), RenderRow(Dashes(|header|))]
      + seq(|body|, k requires 0 <= k < |body| => RenderRow(EscapeAll(body[k])))
  }

  /** The delimiter row: `"---"` once per column. */
  function Dashes(n: nat): (d: seq<string>)
    ensures |d| == n && forall i :: 0 <= i < n ==> d[i] == "---"
  {
    seq(n, _ => "---")
  }

  function EscapeAll(cells: seq<string>): (r: seq<string>)
    ensures |r| == |cells| && forall i :: 0 <= i < |cells| ==> r[i] == EscapeCell(cells[i])
  {
    seq(|cells|, i requires 0 <= i < |cells| => EscapeCell(cells[i]))
  }

  /** `convert_table_to_markdown(table_data, header_rows, max_cols)` */
  function ConvertTableToMarkdown(table: seq<seq<Cell>>, headerRows: int, maxCols: Option<nat>): string {
    if table == [] || ContentRows(table) == [] then ""
    else Join("\n", RenderedLines(table, headerRows, maxCols))
  }

  /** The lines of the rendering of a table with content. */
  function RenderedLines(table: seq<seq<Cell>>, headerRows: int, maxCols: Option<nat>): (lines: seq<string>)
    requires ContentRows(table) != []
    ensures |lines| >= 2
  {
    var rows := ContentRows(table);
    var width := Width(rows, maxCols);
    MarkdownLines(FitAll(rows, width), headerRows, width)
  }

  // ---------------------------------------------------------------- reading a row back

  /**
   * Index of the first pipe of `s` that separates cells (one without a backslash right before it);
   * `afterBackslash` says whether the character before `s` was a backslash.
   */
  function FirstBarePipe(afterBackslash: bool, s: string): (k: nat)
    ensures k <= |s|
    decreases |s|
  {
    if s == [] then 0
    else if s[0] == '|' && !afterBackslash then 0
    else 1 + FirstBarePipe(s[0] == '\\', s[1..])
  }

  /** The segments of `s` between cell-separating pipes. */
  function SplitBarePipes(s: string): (segs: seq<string>)
    ensures segs != []
    decreases |s|
  {
    var k := FirstBarePipe(false, s);
    if k == |s| then [s] else [s[..k]] + SplitBarePipes(s[k + 1..])
  }

  /** The cells of a pipe-table row, as a GFM reader sees them: text between the outer pipes, trimmed. */
  function ParseRow(line: string): seq<string> {
    var segs := SplitBarePipes(line);
    if |segs| < 3 then [] else
      var inner := segs[1..|segs| - 1];
      seq(|inner|, i requires 0 <= i < |inner| => Strip(inner[i]))
  }

  lemma {:induction false} FirstBarePipeSkips(afterBackslash: bool, c: string)
    requires forall i {:trigger c[i]} :: 0 <= i < |c| && c[i] == '|' ==> (i == 0 && afterBackslash) || (i > 0 && c[i - 1] == '\\')
    ensures FirstBarePipe(afterBackslash, c) == |c|
    decreases |c|
  {
    if c != [] {
      var t := c[1..];
      forall j | 0 <= j < |t| && t[j] == '|'
        ensures (j == 0 && c[0] == '\\') || (j > 0 && t[j - 1] == '\\')
      {
        assert c[j + 1] == '|';
      }
      FirstBarePipeSkips(c[0] == '\\', t);
    }
  }

  lemma {:induction false} FirstBarePipeAppend(afterBackslash: bool, x: string, y: string)
    requires FirstBarePipe(afterBackslash, x) == |x|
    ensures FirstBarePipe(afterBackslash, x + y)
      == |x| + FirstBarePipe(if x == [] then afterBackslash else x[|x| - 1] == '\\', y)
    decreases |x|
  {
    if x != [] {
      assert (x + y)[1..] == x[1..] + y;
      FirstBarePipeAppend(x[0] == '\\', x[1..], y);
    } else {
      assert x + y == y;
    }
  }

  /** The segment `" " + c + " "` of a rendered row holds no separating pipe. */
  lemma PaddedCellSkips(c: string)
    requires BarePipeFree(c)
    ensures FirstBarePipe(false, " " + c + " ") == |c| + 2
  {
    var p := " " + c + " ";
    forall i | 0 <= i < |p| && p[i] == '|'
      ensures (i == 0 && false) || (i > 0 && p[i - 1] == '\\')
    {
      assert p[i] == c[i - 1];
    }
    FirstBarePipeSkips(false, p);
  }

  /** After the opening `"| "`, each `" " + cell + " |"` yields exactly the padded cell as a segment. */
  lemma {:induction false} SplitCells(cells: seq<string>)
    requires cells != []
    requires forall i :: 0 <= i < |cells| ==> BarePipeFree(cells[i])
    ensures SplitBarePipes(" " + Join(" | ", cells) + " |")
      == seq(|cells|, i requires 0 <= i < |cells| => " " + cells[i] + " ") + [""]
  {
    SplitCellsHead(cells);
    var padded := seq(|cells|, i requires 0 <= i < |cells| => " " + cells[i] + " ");
    if |cells| == 1 {
      assert padded == [" " + cells[0] + " "];
    } else {
      SplitCells(cells[1..]);
      assert padded == [padded[0]] + seq(|cells| - 1, i requires 0 <= i < |cells| - 1 => " " + cells[1..][i] + " ");
    }
  }

  /** The first segment after the opening pipe is the first padded cell. */
  lemma SplitCellsHead(cells: seq<string>)
    requires cells != [] && BarePipeFree(cells[0])
    ensures SplitBarePipes(" " + Join(" | ", cells) + " |") == [" " + cells[0] + " "]
      + SplitBarePipes(if |cells| == 1 then "" else " " + Join(" | ", cells[1..]) + " |")
  {
    var rest := if |cells| == 1 then "" else " " + Join(" | ", cells[1..]) + " |";
    RowTailShape(cells);
    SplitPaddedHead(cells[0], rest);
  }

  lemma RowTailShape(cells: seq<string>)
    requires cells != []
    ensures " " + Join(" | ", cells) + " |"
      == " " + cells[0] + " " + ("|" + if |cells| == 1 then "" else " " + Join(" | ", cells[1..]) + " |")
  {
    if |cells| > 1 {
      var j := Join(" | ", cells[1..]);
      assert Join(" | ", cells) == cells[0] + " | " + j;
      CellGap(' ', '|', cells[0], j);
    } else {
      CellGap(' ', '|', cells[0], []);
      assert [' '] + cells[0] + [' ', '|'] == " " + cells[0] + " " + ("|" + "");
    }
  }

  lemma CellGap<T>(sp: T, bar: T, a: seq<T>, j: seq<T>)
    ensures [sp] + (a + [sp, bar, sp] + j) + [sp, bar] == [sp] + a + [sp] + ([bar] + ([sp] + j + [sp, bar]))
    ensures [sp] + a + [sp, bar] == [sp] + a + [sp] + ([bar] + [])
  {
  }

  lemma SplitPaddedHead(c: string, rest: string)
    requires BarePipeFree(c)
    ensures SplitBarePipes(" " + c + " " + ("|" + rest)) == [" " + c + " "] + SplitBarePipes(rest)
  {
    var p := " " + c + " ";
    var s := p + ("|" + rest);
    PaddedCellSkips(c);
    FirstBarePipeAppend(false, p, "|" + rest);
    assert FirstBarePipe(false, s) == |p|;
    assert s[..|p|] == p;
    assert s[|p| + 1..] == rest;
    SplitBarePipesAt(s);
  }

  lemma SplitBarePipesAt(s: string)
    requires FirstBarePipe(false, s) < |s|
    ensures var k := FirstBarePipe(false, s); SplitBarePipes(s) == [s[..k]] + SplitBarePipes(s[k + 1..])
  {
  }

  /** A GFM reader recovers exactly the cells of a rendered row: the row has one cell per entry. */
  lemma RowRoundTrip(cells: seq<string>)
    requires cells != []
    requires forall i :: 0 <= i < |cells| ==> CellSafe(cells[i])
    ensures ParseRow(RenderRow(cells)) == cells
  {
    SplitRendered(cells);
    var segs := SplitBarePipes(RenderRow(cells));
    var inner := segs[1..|segs| - 1];
    assert |inner| == |cells|;
    forall i | 0 <= i < |cells| ensures Strip(inner[i]) == cells[i] {
      StripPadded(cells[i]);
    }
  }

  /** The segments of a rendered row: an empty one before the first pipe, the padded cells, an empty one after the last. */
  lemma SplitRendered(cells: seq<string>)
    requires cells != []
    requires forall i :: 0 <= i < |cells| ==> BarePipeFree(cells[i])
    ensures SplitBarePipes(RenderRow(cells))
      == [""] + seq(|cells|, i requires 0 <= i < |cells| => " " + cells[i] + " ") + [""]
  {
    var line := RenderRow(cells);
    var body := " " + Join(" | ", cells) + " |";
    assert line == "|" + body;
    assert FirstBarePipe(false, line) == 0;
    assert line[..0] == "" && line[1..] == body;
    SplitBarePipesAt(line);
    SplitCells(cells);
  }

  lemma StripPadded(c: string)
    requires Stripped(c)
    ensures Strip(" " + c + " ") == c
  {
    var p := " " + c + " ";
    assert IsSpace(' ');
    assert p[1..] == c + " ";
    assert LStrip(p) == LStrip(c + " ");
    if c == [] {
      assert LStrip(" ") == LStrip(" "[1..]);
      assert " "[1..] == [];
    } else {
      assert !IsSpace((c + " ")[0]);
      assert LStrip(c + " ") == c + " ";
      assert (c + " ")[..|c|] == c;
      assert RStrip(c + " ") == RStrip(c);
    }
  }

  // ---------------------------------------------------------------- properties of the rendering

  /** The rendering is empty exactly when the table is empty or all its rows are blank. */
  lemma MarkdownEmptyIffNoContent(table: seq<seq<Cell>>, headerRows: int, maxCols: Option<nat>)
    ensures ConvertTableToMarkdown(table, headerRows, maxCols) == ""
      <==> ContentRows(table) == []
  {
    var rows := ContentRows(table);
    if rows != [] {
      var width := Width(rows, maxCols);
      var lines := MarkdownLines(FitAll(rows, width), headerRows, width);
      assert |Join("\n", lines)| >= |lines[0]| by { JoinLonger(lines); }
    }
  }

  lemma JoinLonger(parts: seq<string>)
    requires parts != []
    ensures |Join("\n", parts)| >= |parts[0]|
  {
  }

  /**
   * A table with content renders as lines separated by `"\n"`: a header line, a delimiter line
   * and one line per body row, where every row is exactly `width` cells wide and the header is
   * the first content row when `header_rows >= 1`.
   */
  lemma MarkdownShape(table: seq<seq<Cell>>, headerRows: int, maxCols: Option<nat>)
    requires ContentRows(table) != []
    ensures var rows := ContentRows(table);
      var width := Width(rows, maxCols);
      var fitted := FitAll(rows, width);
      var header := Header(fitted, headerRows, width);
      var body := Body(fitted, headerRows);
      && |RenderedLines(table, headerRows, maxCols)| == 2 + |body|
      && |header| == width
      && (forall k :: 0 <= k < |body| ==> |body[k]| == width)
      && (headerRows >= 1 ==> header == Fit(rows[0], width))
  {
  }

  /**
   * Read back as a GFM pipe table, the header line holds the escaped header cells, the delimiter
   * line `width` dash groups and each body line its escaped row.
   */
  lemma MarkdownReadBack(table: seq<seq<Cell>>, headerRows: int, maxCols: Option<nat>)
    requires ContentRows(table) != []
    requires Width(ContentRows(table), maxCols) >= 1
    ensures var rows := ContentRows(table);
      var width := Width(rows, maxCols);
      var fitted := FitAll(rows, width);
      var header := Header(fitted, headerRows, width);
      var body := Body(fitted, headerRows);
      var lines := RenderedLines(table, headerRows, maxCols);
      && ParseRow(lines[0]) == EscapeAll(header)
      && ParseRow(lines[1]) == Dashes(width)
      && forall k :: 0 <= k < |body| ==> ParseRow(lines[2 + k]) == EscapeAll(body[k])
  {
    var rows := ContentRows(table);
    var width := Width(rows, maxCols);
    MarkdownLinesParse(FitAll(rows, width), headerRows, width);
  }

  /** Splitting the rendering at newlines gives back its lines. */
  lemma MarkdownSplitLines(table: seq<seq<Cell>>, headerRows: int, maxCols: Option<nat>)
    requires ContentRows(table) != []
    ensures Split(ConvertTableToMarkdown(table, headerRows, maxCols), '\n') == RenderedLines(table, headerRows, maxCols)
  {
    var rows := ContentRows(table);
    var width := Width(rows, maxCols);
    MarkdownLinesOneLine(FitAll(rows, width), headerRows, width);
    SplitOfJoin(RenderedLines(table, headerRows, maxCols), '\n');
  }

  /** Each rendered line, read back as a pipe-table row, gives the cells it was rendered from. */
  lemma MarkdownLinesParse(fitted: seq<seq<string>>, headerRows: int, width: nat)
    requires fitted != [] && width >= 1
    requires forall k :: 0 <= k < |fitted| ==> |fitted[k]| == width
    ensures var header := Header(fitted, headerRows, width);
      var body := Body(fitted, headerRows);
      var lines := MarkdownLines(fitted, headerRows, width);
      && ParseRow(lines[0]) == EscapeAll(header)
      && ParseRow(lines[1]) == Dashes(width)
      && forall k :: 0 <= k < |body| ==> ParseRow(lines[2 + k]) == EscapeAll(body[k])
  {
    var header := Header(fitted, headerRows, width);
    var body := Body(fitted, headerRows);
    var lines := MarkdownLines(fitted, headerRows, width);
    EscapedRowRoundTrip(header);
    DashesRoundTrip(width);
    MarkdownBodyParse(fitted, headerRows, width);
  }

  lemma MarkdownBodyParse(fitted: seq<seq<string>>, headerRows: int, width: nat)
    requires fitted != [] && width >= 1
    requires forall k :: 0 <= k < |fitted| ==> |fitted[k]| == width
    ensures var body := Body(fitted, headerRows);
      var lines := MarkdownLines(fitted, headerRows, width);
      forall k :: 0 <= k < |body| ==> ParseRow(lines[2 + k]) == EscapeAll(body[k])
  {
    var body := Body(fitted, headerRows);
    forall k | 0 <= k < |body| ensures body[k] != [] {
      assert body[k] in fitted;
    }
    RowsReadBack(body);
  }

  /** No line of the rendering holds a newline. */
  lemma MarkdownLinesOneLine(fitted: seq<seq<string>>, headerRows: int, width: nat)
    requires fitted != []
    ensures var lines := MarkdownLines(fitted, headerRows, width);
      forall i :: 0 <= i < |lines| ==> '\n' !in lines[i]
  {
    var header := Header(fitted, headerRows, width);
    var body := Body(fitted, headerRows);
    RenderedRowOneLine(EscapeAll(header));
    RenderedRowOneLine(Dashes(|header|));
    RenderedRowsOneLine(body);
  }

  lemma RenderedRowsOneLine(rows: seq<seq<string>>)
    ensures forall k :: 0 <= k < |rows| ==> '\n' !in RenderRow(EscapeAll(rows[k]))
  {
    forall k | 0 <= k < |rows| ensures '\n' !in RenderRow(EscapeAll(rows[k])) {
      RenderedRowOneLine(EscapeAll(rows[k]));
    }
  }

  lemma RowsReadBack(rows: seq<seq<string>>)
    requires forall k :: 0 <= k < |rows| ==> rows[k] != []
    ensures forall k :: 0 <= k < |rows| ==> ParseRow(RenderRow(EscapeAll(rows[k]))) == EscapeAll(rows[k])
  {
    forall k | 0 <= k < |rows| ensures ParseRow(RenderRow(EscapeAll(rows[k]))) == EscapeAll(rows[k]) {
      EscapedRowRoundTrip(rows[k]);
    }
  }

  lemma EscapedRowRoundTrip(cells: seq<string>)
    requires cells != []
    ensures ParseRow(RenderRow(EscapeAll(cells))) == EscapeAll(cells)
  {
    RowRoundTrip(EscapeAll(cells));
  }

  lemma DashesRoundTrip(n: nat)
    requires n >= 1
    ensures ParseRow(RenderRow(Dashes(n))) == Dashes(n)
  {
    assert CellSafe("---");
    RowRoundTrip(Dashes(n));
  }

  lemma RenderedRowOneLine(cells: seq<string>)
    requires forall i :: 0 <= i < |cells| ==> '\n' !in cells[i]
    ensures '\n' !in RenderRow(cells)
  {
    JoinOneLine(cells);
  }

  lemma {:induction false} JoinOneLine(cells: seq<string>)
    requires forall i :: 0 <= i < |cells| ==> '\n' !in cells[i]
    ensures '\n' !in Join(" | ", cells)
  {
    if |cells| > 1 {
      JoinOneLine(cells[1..]);
    }
  }

  /** With a single content row and a header row, the body repeats that row under the header. */
  lemma MarkdownSingleRow(table: seq<seq<Cell>>, headerRows: int, maxCols: Option<nat>)
    requires |ContentRows(table)| == 1 && headerRows >= 1
    ensures var rows := ContentRows(table);
      var width := Width(rows, maxCols);
      var fitted := FitAll(rows, width);
      Body(fitted, headerRows) == [Header(fitted, headerRows, width)]
  {
  }

  // ---------------------------------------------------------------- convert_table_to_html

  /** A row is rendered when it has at least one cell that is not `None` and not blank. */
  predicate HtmlRowShown(row: seq<Cell>) {
    exists i :: 0 <= i < |row| && !BlankCell(row[i])
  }

  /** `f"<td>{cell_value}</td>"`, with `None` shown as empty. */
  function CellHtml(c: Cell): string {
    "<td>" + CellText(c) + "</td>"
  }

  function CellsHtml(row: seq<Cell>): string {
    if row == [] then "" else CellHtml(row[0]) + CellsHtml(row[1..])
  }

  function RowHtml(row: seq<Cell>): string {
    if HtmlRowShown(row) then "<tr>" + CellsHtml(row) + "</tr>" else ""
  }

  function RowsHtml(rows: seq<seq<Cell>>): string {
    if rows == [] then "" else RowHtml(rows[0]) + RowsHtml(rows[1..])
  }

  /** The rows that `convert_table_to_html` renders, in order. */
  function ShownRows(rows: seq<seq<Cell>>): (shown: seq<seq<Cell>>)
    ensures |shown| <= |rows|
    ensures forall k :: 0 <= k < |shown| ==> HtmlRowShown(shown[k])
  {
    if rows == [] then []
    else (if HtmlRowShown(rows[0]) then [rows[0]] else []) + ShownRows(rows[1..])
  }

  /** Rendering all rows is rendering only the shown ones: blank rows leave no trace. */
  lemma {:induction false} RowsHtmlOfShown(rows: seq<seq<Cell>>)
    ensures RowsHtml(rows) == RowsHtml(ShownRows(rows))
  {
    if rows != [] {
      RowsHtmlOfShown(rows[1..]);
      var s := ShownRows(rows[1..]);
      if HtmlRowShown(rows[0]) {
        assert ([rows[0]] + s)[1..] == s;
      } else {
        assert [] + s == s;
      }
    }
  }

  /**
   * `convert_table_to_html(table_data)`: `""` for an empty table, otherwise `<table>`, one
   * `<tr>` of `<td>` cells per shown row (cells unstripped, `None` as empty), `</table>`.
   */
  method ConvertTableToHtml(table: seq<seq<Cell>>) returns (html: string)
    ensures table == [] ==> html == ""
    ensures table != [] ==> html == "<table>" + RowsHtml(ShownRows(table)) + "</table>"
  {
    if table == [] {
      return "";
    }
    html := "<table>";
    var k := 0;
    while k < |table|
      invariant 0 <= k <= |table|
      invariant html == "<table>" + RowsHtml(table[..k])
    {
      var row := table[k];
      ghost var before := html;
      if HtmlRowShown(row) {
        html := html + "<tr>";
        ghost var rowStart := html;
        var j := 0;
        while j < |row|
          invariant 0 <= j <= |row|
          invariant html == rowStart + CellsHtml(row[..j])
        {
          CellsHtmlPrefix(row, j);
          ConcatAssoc(rowStart, CellsHtml(row[..j]), CellHtml(row[j]));
          html := html + CellHtml(row[j]);
          j := j + 1;
        }
        assert row[..j] == row;
        ConcatAssoc(before, "<tr>", CellsHtml(row));
        ConcatAssoc(before, "<tr>" + CellsHtml(row), "</tr>");
        html := html + "</tr>";
      }
      RowsHtmlPrefix(table, k);
      ConcatAssoc("<table>", RowsHtml(table[..k]), RowHtml(row));
      k := k + 1;
    }
    assert table[..k] == table;
    RowsHtmlOfShown(table);
    html := html + "</table>";
  }

  lemma CellsHtmlPrefix(row: seq<Cell>, j: nat)
    requires j < |row|
    ensures CellsHtml(row[..j + 1]) == CellsHtml(row[..j]) + CellHtml(row[j])
  {
    assert row[..j + 1] == row[..j] + [row[j]];
    CellsHtmlSnoc(row[..j], row[j]);
  }

  lemma RowsHtmlPrefix(rows: seq<seq<Cell>>, k: nat)
    requires k < |rows|
    ensures RowsHtml(rows[..k + 1]) == RowsHtml(rows[..k]) + RowHtml(rows[k])
  {
    assert rows[..k + 1] == rows[..k] + [rows[k]];
    RowsHtmlSnoc(rows[..k], rows[k]);
  }

  lemma {:induction false} CellsHtmlSnoc(cells: seq<Cell>, c: Cell)
    ensures CellsHtml(cells + [c]) == CellsHtml(cells) + CellHtml(c)
  {
    if cells != [] {
      assert (cells + [c])[1..] == cells[1..] + [c];
      CellsHtmlSnoc(cells[1..], c);
    }
  }

  lemma {:induction false} RowsHtmlSnoc(rows: seq<seq<Cell>>, row: seq<Cell>)
    ensures RowsHtml(rows + [row]) == RowsHtml(rows) + RowHtml(row)
  {
    if rows != [] {
      assert (rows + [row])[1..] == rows[1..] + [row];
      RowsHtmlSnoc(rows[1..], row);
    }
  }
}
