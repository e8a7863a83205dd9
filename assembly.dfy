/**
 * The per-page records of `get_text_and_tables` and the text `convert_pdf_to_text` assembles
 * from them (utils/pdf_to_text_process.py). What the PDF libraries report for a page is an
 * input: the page's words after `dedupe_chars`, and each table backend's answer.
 */
module Assembly {
  import opened Wrappers
  import opened Strings
  import opened Geometry
  import opened TableRender
  import opened TableDetect
  import opened TextExtract
  import opened TextClean
  import opened Dedup
  import opened PageSplit

  /** One page as the libraries present it. */
  datatype PageInput = PageInput(words: seq<Word>, fitz: seq<FitzTable>, lattice: CamelotRun, stream: CamelotRun)

  /** An entry of a page record's `tables` list. */
  datatype TableRecord = TableRecord(tableIndex: nat, markdown: string, rawData: seq<seq<Cell>>, source: Source, bbox: Option<Rect>)

  /** The dictionary `get_text_and_tables` builds for a page. */
  datatype PageRecord = PageRecord(page: nat, text: string, tables: seq<TableRecord>)

  /** `[t["bbox"] for t in table_items if t.get("bbox") is not None]` */
  function TableBoxes(items: seq<TableItem>): seq<Rect> {
    if items == [] then []
    else
      var last := items[|items| - 1];
      TableBoxes(items[..|items| - 1]) + (if last.bbox.Some? then [last.bbox.value] else [])
  }

  /** The boxes are exactly the bounding boxes the items carry. */
  lemma {:induction false} TableBoxesSpec(items: seq<TableItem>)
    ensures forall b :: b in TableBoxes(items) <==>
      exists k :: 0 <= k < |items| && items[k].bbox.Some? && items[k].bbox.value == b
  {
    if items != [] {
      var init := items[..|items| - 1];
      TableBoxesSpec(init);
      assert forall k :: 0 <= k < |init| ==> init[k] == items[k];
    }
  }

  /** The entry for the `k`-th table of the page, numbered from one. */
  function TableRecordOf(k: nat, t: TableItem): TableRecord {
    TableRecord(k + 1, t.markdown, t.rawData, t.source, t.bbox)
  }

  /** The page's entry: its number, its text without the table regions and repeated rows, and its tables. */
  function PageRecordOf(index: nat, page: PageInput): PageRecord {
    var items := TablesFound(page.fitz, page.lattice, page.stream);
    var text := Deduplicated(ExtractedText(page.words, TableBoxes(items), YTol), items);
    PageRecord(index + 1, text, seq(|items|, k requires 0 <= k < |items| => TableRecordOf(k, items[k])))
  }

  function PageRecords(pages: seq<PageInput>): seq<PageRecord> {
    seq(|pages|, i requires 0 <= i < |pages| => PageRecordOf(i, pages[i]))
  }

  /** The entries of a page's `tables` list, built by the `enumerate` loop. */
  method NumberTables(items: seq<TableItem>) returns (tables: seq<TableRecord>)
    ensures tables == seq(|items|, k requires 0 <= k < |items| => TableRecordOf(k, items[k]))
  {
    tables := [];
    var k := 0;
    while k < |items|
      invariant 0 <= k <= |items|
      invariant |tables| == k
      invariant forall j :: 0 <= j < k ==> tables[j] == TableRecordOf(j, items[j])
    {
      var t := items[k];
      tables := tables + [TableRecord(k + 1, t.markdown, t.rawData, t.source, t.bbox)];
      k := k + 1;
    }
  }

  /** One pass of the page loop of `get_text_and_tables`. */
  method ProcessPage(index: nat, page: PageInput) returns (record: PageRecord)
    ensures record == PageRecordOf(index, page)
  {
    var items := ExtractTables(page.fitz, page.lattice, page.stream);
    var boxes := TableBoxes(items);
    var text := ExtractTextWithoutTables(page.words, boxes, YTol);
    text := RemoveTableLineDuplicates(text, items);
    var tables := NumberTables(items);
    record := PageRecord(index + 1, text, tables);
  }

  lemma RecordsExtend(pages: seq<PageInput>, records: seq<PageRecord>, record: PageRecord)
    requires |records| < |pages|
    requires forall k :: 0 <= k < |records| ==> records[k] == PageRecordOf(k, pages[k])
    requires record == PageRecordOf(|records|, pages[|records|])
    ensures forall k :: 0 <= k <= |records| ==> (records + [record])[k] == PageRecordOf(k, pages[k])
  {
    forall k | 0 <= k <= |records|
      ensures (records + [record])[k] == PageRecordOf(k, pages[k])
    {
      if k < |records| {
        assert (records + [record])[k] == records[k];
      }
    }
  }

  /** `get_text_and_tables(pdf_stream, file_name)`, with each page's library output given. */
  method GetTextAndTables(pages: seq<PageInput>) returns (records: seq<PageRecord>)
    ensures records == PageRecords(pages)
  {
    records := [];
    var i := 0;
    while i < |pages|
      invariant 0 <= i <= |pages|
      invariant |records| == i
      invariant forall k :: 0 <= k < i ==> records[k] == PageRecordOf(k, pages[k])
    {
      var record := ProcessPage(i, pages[i]);
      RecordsExtend(pages, records, record);
      records := records + [record];
      i := i + 1;
    }
  }

  /**
   * When some table of the page has a row line, no line of the page's text is blank or repeats a
   * row of a table found on the page.
   */
  lemma PageTextAvoidsTableRows(index: nat, page: PageInput)
    ensures var items := TablesFound(page.fitz, page.lattice, page.stream);
      ItemsLineSet(items) != {} ==>
        forall l :: l in SplitLines(PageRecordOf(index, page).text) ==>
          !Blank(l) && NormalizeForCompare(Some(l)) !in ItemsLineSet(items)
  {
    var items := TablesFound(page.fitz, page.lattice, page.stream);
    var raw := ExtractedText(page.words, TableBoxes(items), YTol);
    if ItemsLineSet(items) != {} && raw != [] {
      DeduplicatedLines(raw, items);
      KeptLinesSpec(raw, ItemsLineSet(items));
    }
  }

  /** The tables of a record are the tables found on the page, in order and numbered from one. */
  lemma PageTablesNumbered(index: nat, page: PageInput)
    ensures var items := TablesFound(page.fitz, page.lattice, page.stream);
      var r := PageRecordOf(index, page);
      r.page == index + 1 && |r.tables| == |items|
      && forall k :: 0 <= k < |items| ==>
        r.tables[k].tableIndex == k + 1 && r.tables[k].markdown == items[k].markdown
        && r.tables[k].source == items[k].source && r.tables[k].bbox == items[k].bbox
  {
  }

  // ---------------------------------------------------------------- the text of convert_pdf_to_text

  /** `"=" * 20` */
  function Rule(): string {
    Repeat('=', 20)
  }

  /** The rule and the blank line that close each page. */
  function Trailer(): string {
    Rule() + "\n\n"
  }

  /** The page's text section, present when the text is not empty. */
  function TextPart(r: PageRecord): string {
    if r.text != "" then "[텍스트]\n" + r.text + "\n\n" else ""
  }

  /** The line that opens one table. */
  function TableHeading(t: TableRecord): string {
    "\n--- 테이블 " + NatToString(t.tableIndex) + " (" + SourceName(t.source) + ") ---\n"
  }

  function TableText(t: TableRecord): string {
    TableHeading(t) + (t.markdown + "\n\n")
  }

  function TablesText(ts: seq<TableRecord>): string {
    if ts == [] then "" else TablesText(ts[..|ts| - 1]) + TableText(ts[|ts| - 1])
  }

  /** The page's table section, present when it has tables: their count, then each table. */
  function TablesPart(r: PageRecord): string {
    if r.tables != [] then "[테이블 " + NatToString(|r.tables|) + "개]\n" + TablesText(r.tables) else ""
  }

  /** Everything written for a page between its marker and its rule. */
  function Body(r: PageRecord): string {
    TextPart(r) + TablesPart(r)
  }

  function PageBlock(r: PageRecord): string {
    Marker(r.page) + Body(r) + Trailer()
  }

  /** The text `convert_pdf_to_text` hands to `text_to_documents`. */
  function AssembledText(rs: seq<PageRecord>): string {
    if rs == [] then "" else AssembledText(rs[..|rs| - 1]) + PageBlock(rs[|rs| - 1])
  }

  lemma AssembledPrefix(rs: seq<PageRecord>, i: nat)
    requires i < |rs|
    ensures AssembledText(rs[..i + 1]) == AssembledText(rs[..i]) + PageBlock(rs[i])
  {
    assert rs[..i + 1][..i] == rs[..i];
  }

  lemma TablesTextPrefix(ts: seq<TableRecord>, j: nat)
    requires j < |ts|
    ensures TablesText(ts[..j + 1]) == TablesText(ts[..j]) + TableText(ts[j])
  {
    assert ts[..j + 1][..j] == ts[..j];
  }

  lemma Assoc4(a: string, b: string, c: string, d: string)
    ensures a + b + c + d == a + (b + c + d)
  {
    ConcatAssoc(a, b, c);
    ConcatAssoc(a, b + c, d);
  }

  lemma BlockAppend(before: string, r: PageRecord, mid: string)
    requires mid == before + Marker(r.page) + TextPart(r)
    ensures mid + TablesPart(r) + Trailer() == before + PageBlock(r)
  {
    Assoc4(before, Marker(r.page), TextPart(r), TablesPart(r));
    ConcatAssoc(Marker(r.page), TextPart(r), TablesPart(r));
    ConcatAssoc(before, Marker(r.page) + Body(r), Trailer());
  }

  /** Appends the tables of a page, one heading and one markdown block at a time. */
  method AppendTables(txt0: string, ts: seq<TableRecord>) returns (txt: string)
    ensures txt == txt0 + TablesText(ts)
  {
    txt := txt0;
    var j := 0;
    while j < |ts|
      invariant 0 <= j <= |ts|
      invariant txt == txt0 + TablesText(ts[..j])
    {
      var t := ts[j];
      TablesTextPrefix(ts, j);
      ConcatAssoc(txt0, TablesText(ts[..j]), TableHeading(t));
      ConcatAssoc(txt0 + TablesText(ts[..j]), TableHeading(t), t.markdown + "\n\n");
      ConcatAssoc(txt0, TablesText(ts[..j]) + TableHeading(t), t.markdown + "\n\n");
      ConcatAssoc(TablesText(ts[..j]), TableHeading(t), t.markdown + "\n\n");
      txt := txt + ("\n--- 테이블 " + NatToString(t.tableIndex) + " (" + SourceName(t.source) + ") ---\n");
      txt := txt + (t.markdown + "\n\n");
      j := j + 1;
    }
    assert ts[..j] == ts;
  }

  /** One pass of the `txt_content` loop: appends the page's marker, sections and rule. */
  method AppendPage(txt0: string, r: PageRecord) returns (txt: string)
    ensures txt == txt0 + PageBlock(r)
  {
    txt := txt0 + ("=== 페이지 " + NatToString(r.page) + " ===\n\n");
    if r.text != "" {
      txt := txt + ("[텍스트]\n" + r.text + "\n\n");
    }
    assert txt == txt0 + Marker(r.page) + TextPart(r);
    ghost var mid := txt;
    if r.tables != [] {
      txt := txt + ("[테이블 " + NatToString(|r.tables|) + "개]\n");
      txt := AppendTables(txt, r.tables);
      ConcatAssoc(mid, "[테이블 " + NatToString(|r.tables|) + "개]\n", TablesText(r.tables));
    }
    assert txt == mid + TablesPart(r);
    txt := txt + (Repeat('=', 20) + "\n\n");
    BlockAppend(txt0, r, mid);
  }

  /** The `txt_content` loop of `convert_pdf_to_text`. */
  method AssemblePages(records: seq<PageRecord>) returns (txt: string)
    ensures txt == AssembledText(records)
  {
    txt := "";
    var i := 0;
    while i < |records|
      invariant 0 <= i <= |records|
      invariant txt == AssembledText(records[..i])
    {
      AssembledPrefix(records, i);
      txt := AppendPage(txt, records[i]);
      i := i + 1;
    }
    assert records[..i] == records;
  }
}
