/**
 * Removal of page-text lines that repeat a table row (`build_table_line_set` and
 * `remove_table_line_duplicates` in utils/pdf_to_text_process.py). A table row becomes one
 * line by joining its filled cells with spaces; a text line is dropped only when its
 * normalization equals the normalization of such a row exactly.
 */
module Dedup {
  import opened Wrappers
  import opened Strings
  import opened TextClean
  import opened TableRender
  import opened TableDetect

  /** A cell that is not `None` and does not strip to the empty string. */
  predicate Filled(c: Cell) {
    c.Some? && Strip(c.value) != ""
  }

  /** `[str(c).strip() for c in row if c is not None and str(c).strip() != ""]` */
  function FilledCells(row: seq<Cell>): (cells: seq<string>)
    ensures |cells| <= |row|
    ensures forall k :: 0 <= k < |cells| ==> cells[k] != "" && Stripped(cells[k])
  {
    if row == [] then []
    else (if Filled(row[0]) then [Strip(row[0].value)] else []) + FilledCells(row[1..])
  }

  /**
   * The line a row contributes: the normalization of its filled cells joined by spaces, when it
   * has at least `minNonempty` of them and the normalization is not empty.
   */
  function RowLine(row: seq<Cell>, minNonempty: nat): Option<string> {
    var cells := FilledCells(row);
    if |cells| >= minNonempty then
      var norm := NormalizeForCompare(Some(Join(" ", cells)));
      if norm != "" then Some(norm) else None
    else None
  }

  /** The lines of the first rows of a table. */
  function TableLineSet(table: seq<seq<Cell>>, minNonempty: nat): set<string> {
    if table == [] then {}
    else
      var last := RowLine(table[|table| - 1], minNonempty);
      TableLineSet(table[..|table| - 1], minNonempty) + (if last.Some? then {last.value} else {})
  }

  /** The set holds exactly the lines of the table's qualifying rows. */
  lemma {:induction false} TableLineSetSpec(table: seq<seq<Cell>>, minNonempty: nat)
    ensures forall x :: x in TableLineSet(table, minNonempty) <==>
      exists i :: 0 <= i < |table| && RowLine(table[i], minNonempty) == Some(x)
  {
    if table != [] {
      var init := table[..|table| - 1];
      TableLineSetSpec(init, minNonempty);
      assert forall i :: 0 <= i < |init| ==> init[i] == table[i];
    }
  }

  /** Every line of the set is non-empty and already normalized. */
  lemma TableLineSetNormal(table: seq<seq<Cell>>, minNonempty: nat)
    ensures forall x :: x in TableLineSet(table, minNonempty) ==> x != "" && NormalizeForCompare(Some(x)) == x
  {
    TableLineSetSpec(table, minNonempty);
    forall x | x in TableLineSet(table, minNonempty) ensures x != "" && NormalizeForCompare(Some(x)) == x {
      var i :| 0 <= i < |table| && RowLine(table[i], minNonempty) == Some(x);
      NormalizeIdempotent(Some(Join(" ", FilledCells(table[i]))));
    }
  }

  lemma TableLineSetPrefix(table: seq<seq<Cell>>, k: nat, minNonempty: nat)
    requires k < |table|
    ensures TableLineSet(table[..k + 1], minNonempty) == TableLineSet(table[..k], minNonempty)
      + (if RowLine(table[k], minNonempty).Some? then {RowLine(table[k], minNonempty).value} else {})
  {
    assert table[..k + 1][..k] == table[..k];
  }

  /** `build_table_line_set(table_data, min_nonempty)` */
  method BuildTableLineSet(table: seq<seq<Cell>>, minNonempty: nat) returns (lineSet: set<string>)
    ensures lineSet == TableLineSet(table, minNonempty)
  {
    lineSet := {};
    var k := 0;
    while k < |table|
      invariant 0 <= k <= |table|
      invariant lineSet == TableLineSet(table[..k], minNonempty)
    {
      TableLineSetPrefix(table, k, minNonempty);
      var cells := FilledCells(table[k]);
      if |cells| >= minNonempty {
        var joined := Join(" ", cells);
        var norm := NormalizeForCompare(Some(joined));
        if norm != "" {
          lineSet := lineSet + {norm};
        }
      }
      k := k + 1;
    }
    assert table[..k] == table;
  }

  /** The union of the line sets of the items that carry rows, with at least two filled cells per row. */
  function ItemsLineSet(items: seq<TableItem>): set<string> {
    if items == [] then {}
    else
      var last := items[|items| - 1];
      ItemsLineSet(items[..|items| - 1]) + (if last.rawData != [] then TableLineSet(last.rawData, 2) else {})
  }

  lemma ItemsLineSetPrefix(items: seq<TableItem>, k: nat)
    requires k < |items|
    ensures ItemsLineSet(items[..k + 1]) == ItemsLineSet(items[..k])
      + (if items[k].rawData != [] then TableLineSet(items[k].rawData, 2) else {})
  {
    assert items[..k + 1][..k] == items[..k];
  }

  // ---------------------------------------------------------------- filtering the text

  /** `norm and norm in line_set`: the line repeats a table row. */
  predicate TableRowLine(line: string, lineSet: set<string>) {
    var norm := NormalizeForCompare(Some(line));
    norm != "" && norm in lineSet
  }

  /** The test `remove_table_line_duplicates` drops a line by. */
  function IsTableRow(lineSet: set<string>): string -> bool {
    line => TableRowLine(line, lineSet)
  }

  /** The items of `xs` that `drop` does not reject, in order. */
  function Keep<T>(xs: seq<T>, drop: T -> bool): seq<T> {
    if xs == [] then []
    else
      var last := xs[|xs| - 1];
      Keep(xs[..|xs| - 1], drop) + (if drop(last) then [] else [last])
  }

  /** The lines that do not repeat a table row, in order. */
  function NotTableLines(lines: seq<string>, lineSet: set<string>): seq<string> {
    Keep(lines, IsTableRow(lineSet))
  }

  /** `[ln for ln in lines if ln.strip() != ""]` */
  function NonBlankLines(lines: seq<string>): seq<string> {
    if lines == [] then []
    else (if Blank(lines[0]) then [] else [lines[0]]) + NonBlankLines(lines[1..])
  }

  lemma {:induction false} KeepSpec<T>(xs: seq<T>, drop: T -> bool)
    ensures forall x :: x in Keep(xs, drop) <==> x in xs && !drop(x)
  {
    if xs != [] {
      var init := xs[..|xs| - 1];
      KeepSpec(init, drop);
      assert xs == init + [xs[|xs| - 1]];
    }
  }

  lemma NotTableLinesSpec(lines: seq<string>, lineSet: set<string>)
    ensures forall l :: l in NotTableLines(lines, lineSet) <==> l in lines && !TableRowLine(l, lineSet)
  {
    KeepSpec(lines, IsTableRow(lineSet));
  }

  lemma {:induction false} NonBlankLinesSpec(lines: seq<string>)
    ensures forall l :: l in NonBlankLines(lines) <==> l in lines && !Blank(l)
  {
    if lines != [] {
      NonBlankLinesSpec(lines[1..]);
      assert lines == [lines[0]] + lines[1..];
    }
  }

  lemma {:induction false} KeepOfKept<T>(xs: seq<T>, drop: T -> bool)
    requires forall i :: 0 <= i < |xs| ==> !drop(xs[i])
    ensures Keep(xs, drop) == xs
  {
    if xs != [] {
      var init := xs[..|xs| - 1];
      KeepOfKept(init, drop);
      assert xs == init + [xs[|xs| - 1]];
    }
  }

  lemma NotTableLinesOfKept(lines: seq<string>, lineSet: set<string>)
    requires forall i :: 0 <= i < |lines| ==> !TableRowLine(lines[i], lineSet)
    ensures NotTableLines(lines, lineSet) == lines
  {
    KeepOfKept(lines, IsTableRow(lineSet));
  }

  lemma {:induction false} NonBlankLinesOfKept(lines: seq<string>)
    requires forall i :: 0 <= i < |lines| ==> !Blank(lines[i])
    ensures NonBlankLines(lines) == lines
  {
    if lines != [] {
      NonBlankLinesOfKept(lines[1..]);
    }
  }

  /** The lines that survive: not blank and not a repeated table row. */
  function KeptLines(text: string, lineSet: set<string>): seq<string> {
    NonBlankLines(NotTableLines(SplitLines(text), lineSet))
  }

  /** `remove_table_line_duplicates(text, table_items)` as a value. */
  function Deduplicated(text: string, items: seq<TableItem>): string {
    if text == [] then text
    else
      var lineSet := ItemsLineSet(items);
      if lineSet == {} then text else Join("\n", KeptLines(text, lineSet))
  }

  /** `remove_table_line_duplicates(text, table_items)` */
  method RemoveTableLineDuplicates(text: string, items: seq<TableItem>) returns (out: string)
    ensures out == Deduplicated(text, items)
  {
    if text == [] {
      return text;
    }
    var lineSet: set<string> := {};
    var k := 0;
    while k < |items|
      invariant 0 <= k <= |items|
      invariant lineSet == ItemsLineSet(items[..k])
    {
      ItemsLineSetPrefix(items, k);
      var raw := items[k].rawData;
      if raw != [] {
        var rowLines := BuildTableLineSet(raw, 2);
        lineSet := lineSet + rowLines;
      }
      k := k + 1;
    }
    assert items[..k] == items;
    if lineSet == {} {
      return text;
    }
    var lines := SplitLines(text);
    var outLines: seq<string> := [];
    var j := 0;
    while j < |lines|
      invariant 0 <= j <= |lines|
      invariant outLines == NotTableLines(lines[..j], lineSet)
    {
      assert lines[..j + 1][..j] == lines[..j];
      var line := lines[j];
      var norm := NormalizeForCompare(Some(line));
      if !(norm != "" && norm in lineSet) {
        outLines := outLines + [line];
      }
      j := j + 1;
    }
    assert lines[..j] == lines;
    out := Join("\n", NonBlankLines(outLines));
  }

  // ---------------------------------------------------------------- properties

  /** A kept line is a line of the text that is not blank and does not repeat a table row. */
  lemma KeptLinesSpec(text: string, lineSet: set<string>)
    ensures forall l :: l in KeptLines(text, lineSet) <==>
      l in SplitLines(text) && !Blank(l) && NormalizeForCompare(Some(l)) !in lineSet
  {
    NotTableLinesSpec(SplitLines(text), lineSet);
    NonBlankLinesSpec(NotTableLines(SplitLines(text), lineSet));
    forall l | !Blank(l) ensures NormalizeForCompare(Some(l)) != "" {
      NormalizeEmptyIffBlank(l);
    }
  }

  /**
   * When some table has a row line, the lines of the result are exactly the kept lines, so no
   * line of the result repeats a table row and no non-blank line that does not is lost.
   */
  lemma DeduplicatedLines(text: string, items: seq<TableItem>)
    requires text != [] && ItemsLineSet(items) != {}
    ensures SplitLines(Deduplicated(text, items)) == KeptLines(text, ItemsLineSet(items))
  {
    var lineSet := ItemsLineSet(items);
    var kept := KeptLines(text, lineSet);
    KeptLinesSpec(text, lineSet);
    forall i | 0 <= i < |kept| ensures NoLineBoundary(kept[i]) && kept[i] != [] {
      assert kept[i] in kept;
    }
    SplitLinesOfJoin(kept);
  }

  /** Removing duplicates a second time with the same tables changes nothing. */
  lemma DeduplicatedIdempotent(text: string, items: seq<TableItem>)
    ensures Deduplicated(Deduplicated(text, items), items) == Deduplicated(text, items)
  {
    var lineSet := ItemsLineSet(items);
    var out := Deduplicated(text, items);
    if text != [] && lineSet != {} && out != [] {
      var kept := KeptLines(text, lineSet);
      DeduplicatedLines(text, items);
      KeptLinesSpec(text, lineSet);
      forall i | 0 <= i < |kept| ensures !TableRowLine(kept[i], lineSet) && !Blank(kept[i]) {
        assert kept[i] in kept;
      }
      NotTableLinesOfKept(kept, lineSet);
      NonBlankLinesOfKept(kept);
    }
  }
}
