/**
 * Table detection of one page (`extract_tables_with_fitz_and_camelot` in
 * utils/pdf_to_text_process.py). PyMuPDF's table finder is tried first; when it yields nothing,
 * Camelot is run with the `lattice` flavour and then, unless lattice produced tables without
 * raising, with the `stream` flavour. What each backend reports is an input of the model.
 */
module TableDetect {
  import opened Wrappers
  import opened Geometry
  import opened Strings
  import opened TableRender

  /** The backend (and Camelot flavour) an item came from. */
  datatype Source = Fitz | CamelotLattice | CamelotStream

  /** The `"source"` string of an item: `"fitz"` or `f"camelot-{flavor}"`. */
  function SourceName(s: Source): string {
    match s
    case Fitz => "fitz"
    case CamelotLattice => "camelot-lattice"
    case CamelotStream => "camelot-stream"
  }

  /** A detected table: `{"bbox", "raw_data", "markdown", "source"}`. */
  datatype TableItem = TableItem(bbox: Option<Rect>, rawData: seq<seq<Cell>>, markdown: string, source: Source)

  /**
   * One table of PyMuPDF's finder: its `bbox` (`None` when absent) and what `t.extract()`
   * returned (`None` when it raised).
   */
  datatype FitzTable = FitzTable(bbox: Option<Rect>, data: Option<seq<seq<Cell>>>)

  /** A Python attribute that may be missing (`hasattr` false) or hold a value that may be `None`. */
  datatype Attr = Absent | Present(value: Option<Rect>)

  /** One Camelot table: its cell grid and its `_bbox` and `bbox` attributes. */
  datatype CamelotTable = CamelotTable(data: seq<seq<Cell>>, privateBbox: Attr, bbox: Attr)

  /**
   * One Camelot run for one flavour: the tables it handed over and whether the run raised.
   * When it raised, `tables` are those fully handled before the exception (none when
   * `read_pdf` itself raised).
   */
  datatype CamelotRun = CamelotRun(tables: seq<CamelotTable>, raised: bool)

  // ---------------------------------------------------------------- the fitz pass

  /** `if tb and data and len(data) > 0`: a fitz table is kept when it has a box and rows. */
  predicate FitzKept(t: FitzTable) {
    t.bbox.Some? && t.data.Some? && t.data.value != []
  }

  function FitzItem(t: FitzTable): TableItem
    requires FitzKept(t)
  {
    TableItem(t.bbox, t.data.value, ConvertTableToMarkdown(t.data.value, 1, None), Fitz)
  }

  /** The fitz tables that are kept, in finder order. */
  function FitzKeptTables(ts: seq<FitzTable>): (kept: seq<FitzTable>)
    ensures |kept| <= |ts|
    ensures forall k :: 0 <= k < |kept| ==> FitzKept(kept[k])
  {
    if ts == [] then []
    else
      var last := ts[|ts| - 1];
      FitzKeptTables(ts[..|ts| - 1]) + (if FitzKept(last) then [last] else [])
  }

  /** The items of the fitz pass, in finder order. */
  function FitzItems(ts: seq<FitzTable>): (items: seq<TableItem>)
    ensures |items| == |FitzKeptTables(ts)|
  {
    var kept := FitzKeptTables(ts);
    seq(|kept|, k requires 0 <= k < |kept| => FitzItem(kept[k]))
  }

  /** The fitz pass keeps exactly the tables with a box and rows, in their order. */
  lemma {:induction false} FitzKeptTablesSpec(ts: seq<FitzTable>)
    ensures forall t :: t in FitzKeptTables(ts) <==> t in ts && FitzKept(t)
  {
    if ts != [] {
      var init := ts[..|ts| - 1];
      FitzKeptTablesSpec(init);
      assert ts == init + [ts[|ts| - 1]];
    }
  }

  // ---------------------------------------------------------------- the Camelot pass

  /** `not data or all(row is None or all(c is None or str(c).strip() == "" ...))` */
  predicate CamelotSkipped(data: seq<seq<Cell>>) {
    forall i, j :: 0 <= i < |data| && 0 <= j < |data[i]| ==> BlankCell(data[i][j])
  }

  /** The box of a Camelot table: the last of `_bbox`, `bbox` that the table has, else `None`. */
  function CamelotBox(t: CamelotTable): Option<Rect> {
    match t.bbox
    case Present(v) => v
    case Absent =>
      match t.privateBbox
      case Present(v) => v
      case Absent => None
  }

  function CamelotItem(t: CamelotTable, source: Source): TableItem {
    TableItem(CamelotBox(t), t.data, ConvertTableToMarkdown(t.data, 1, None), source)
  }

  /** The tables of one Camelot run that have content, in table order. */
  function CamelotKeptTables(ts: seq<CamelotTable>): (kept: seq<CamelotTable>)
    ensures |kept| <= |ts|
  {
    if ts == [] then []
    else
      var last := ts[|ts| - 1];
      CamelotKeptTables(ts[..|ts| - 1]) + (if CamelotSkipped(last.data) then [] else [last])
  }

  /** The items one Camelot run contributes, in table order. */
  function CamelotItems(ts: seq<CamelotTable>, source: Source): (items: seq<TableItem>)
    ensures |items| == |CamelotKeptTables(ts)|
  {
    var kept := CamelotKeptTables(ts);
    seq(|kept|, k requires 0 <= k < |kept| => CamelotItem(kept[k], source))
  }

  /** The Camelot fallback: lattice, then stream unless lattice produced items without raising. */
  function CamelotFallback(lattice: CamelotRun, stream: CamelotRun): seq<TableItem> {
    var l := CamelotItems(lattice.tables, CamelotLattice);
    if l != [] && !lattice.raised then l else l + CamelotItems(stream.tables, CamelotStream)
  }

  /** The items of one page: the fitz items, or the Camelot fallback when there are none. */
  function TablesFound(fitz: seq<FitzTable>, lattice: CamelotRun, stream: CamelotRun): seq<TableItem> {
    var f := FitzItems(fitz);
    if f != [] then f else CamelotFallback(lattice, stream)
  }

  /** A Camelot table is skipped exactly when it has no content row, so no kept one renders empty. */
  lemma CamelotSkippedIffNoContent(data: seq<seq<Cell>>)
    ensures CamelotSkipped(data) <==> ContentRows(data) == []
  {
    ContentRowsEmptyIff(data);
    forall i | 0 <= i < |data|
      ensures NonBlankRow(CleanRow(data[i])) <==> exists j :: 0 <= j < |data[i]| && !BlankCell(data[i][j])
    {
      forall j | 0 <= j < |data[i]| ensures CleanRow(data[i])[j] == "" <==> BlankCell(data[i][j]) {
        StripEmptyIffBlank(CellText(data[i][j]));
      }
    }
  }

  /** A Camelot run keeps exactly its tables that have content. */
  lemma {:induction false} CamelotKeptTablesSpec(ts: seq<CamelotTable>)
    ensures forall t :: t in CamelotKeptTables(ts) <==> t in ts && !CamelotSkipped(t.data)
  {
    if ts != [] {
      var init := ts[..|ts| - 1];
      CamelotKeptTablesSpec(init);
      assert ts == init + [ts[|ts| - 1]];
    }
  }

  /** Every Camelot item carries the run's flavour, has a content row and a non-empty rendering. */
  lemma CamelotItemsContent(ts: seq<CamelotTable>, source: Source)
    ensures forall k :: 0 <= k < |CamelotItems(ts, source)| ==>
      var it := CamelotItems(ts, source)[k];
      it.source == source && ContentRows(it.rawData) != [] && it.markdown != ""
  {
    var kept := CamelotKeptTables(ts);
    CamelotKeptTablesSpec(ts);
    forall k | 0 <= k < |kept|
      ensures var it := CamelotItems(ts, source)[k];
        it.source == source && ContentRows(it.rawData) != [] && it.markdown != ""
    {
      assert kept[k] in kept;
      CamelotSkippedIffNoContent(kept[k].data);
      MarkdownEmptyIffNoContent(kept[k].data, 1, None);
    }
  }

  /**
   * Fitz takes precedence: Camelot contributes only when fitz kept nothing, and stream items
   * appear only when lattice produced none or raised.
   */
  lemma TablesFoundPrecedence(fitz: seq<FitzTable>, lattice: CamelotRun, stream: CamelotRun)
    ensures var items := TablesFound(fitz, lattice, stream);
      && (FitzItems(fitz) != [] ==> items == FitzItems(fitz))
      && (FitzItems(fitz) == [] ==> forall k :: 0 <= k < |items| ==> items[k].source != Fitz)
      && ((exists k :: 0 <= k < |items| && items[k].source == CamelotStream) ==>
            FitzItems(fitz) == [] && (CamelotItems(lattice.tables, CamelotLattice) == [] || lattice.raised))
  {
    var items := TablesFound(fitz, lattice, stream);
    var l := CamelotItems(lattice.tables, CamelotLattice);
    var s := CamelotItems(stream.tables, CamelotStream);
    CamelotItemsContent(lattice.tables, CamelotLattice);
    CamelotItemsContent(stream.tables, CamelotStream);
    if FitzItems(fitz) == [] {
      assert items == (if l != [] && !lattice.raised then l else l + s);
    } else {
      assert forall k :: 0 <= k < |items| ==> items[k].source == Fitz;
    }
  }

  // ---------------------------------------------------------------- the procedure

  lemma FitzItemsPrefix(ts: seq<FitzTable>, i: nat)
    requires i < |ts|
    ensures FitzItems(ts[..i + 1]) == FitzItems(ts[..i]) + (if FitzKept(ts[i]) then [FitzItem(ts[i])] else [])
  {
    assert ts[..i + 1][..i] == ts[..i];
  }

  lemma CamelotItemsPrefix(ts: seq<CamelotTable>, j: nat, source: Source)
    requires j < |ts|
    ensures CamelotItems(ts[..j + 1], source)
      == CamelotItems(ts[..j], source) + (if CamelotSkipped(ts[j].data) then [] else [CamelotItem(ts[j], source)])
  {
    assert ts[..j + 1][..j] == ts[..j];
  }

  /** The body of one flavour's `for t in tables` loop: the items of the tables with content. */
  method CamelotFlavourItems(run: CamelotRun, source: Source) returns (found: seq<TableItem>)
    ensures found == CamelotItems(run.tables, source)
  {
    found := [];
    var j := 0;
    while j < |run.tables|
      invariant 0 <= j <= |run.tables|
      invariant found == CamelotItems(run.tables[..j], source)
    {
      var t := run.tables[j];
      CamelotItemsPrefix(run.tables, j, source);
      if !CamelotSkipped(t.data) {
        found := found + [TableItem(CamelotBox(t), t.data, ConvertTableToMarkdown(t.data, 1, None), source)];
      }
      j := j + 1;
    }
    assert run.tables[..j] == run.tables;
  }

  /** `extract_tables_with_fitz_and_camelot`, with each backend's answer given. */
  method ExtractTables(fitz: seq<FitzTable>, lattice: CamelotRun, stream: CamelotRun) returns (items: seq<TableItem>)
    ensures items == TablesFound(fitz, lattice, stream)
  {
    items := [];
    var i := 0;
    while i < |fitz|
      invariant 0 <= i <= |fitz|
      invariant items == FitzItems(fitz[..i])
    {
      var t := fitz[i];
      FitzItemsPrefix(fitz, i);
      if t.bbox.Some? && t.data.Some? && |t.data.value| > 0 {
        var data := t.data.value;
        items := items + [TableItem(t.bbox, data, ConvertTableToMarkdown(data, 1, None), Fitz)];
      }
      i := i + 1;
    }
    assert fitz[..i] == fitz;
    if |items| == 0 {
      var f := 0;
      var stop := false;
      while f < 2 && !stop
        invariant 0 <= f <= 2
        invariant f == 0 ==> items == [] && !stop
        invariant f == 1 ==> items == CamelotItems(lattice.tables, CamelotLattice)
        invariant f == 1 ==> (stop <==> items != [] && !lattice.raised)
        invariant f == 2 ==> items == CamelotFallback(lattice, stream)
        invariant stop ==> items == CamelotFallback(lattice, stream)
        decreases 2 - f
      {
        var run := if f == 0 then lattice else stream;
        var source := if f == 0 then CamelotLattice else CamelotStream;
        var found := CamelotFlavourItems(run, source);
        items := items + found;
        if !run.raised && |items| > 0 {
          stop := true;
        }
        f := f + 1;
      }
    }
  }
}
