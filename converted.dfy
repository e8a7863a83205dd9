/**
 * What `convert_pdf_to_text` hands back, page by page: when no page text and no table's markdown
 * holds the character `페`, splitting the assembled text at its markers recovers every page, in
 * order, with its number, and the documents are the chunks of each page's sections followed by
 * the page's closing rule. As written, none of those documents carries a page number; under the
 * corrected reading of the header each carries its page's number.
 */
module ConvertedText {
  import opened Wrappers
  import opened Strings
  import opened TableDetect
  import opened PageSplit
  import opened Assembly
  import opened Documents

  /** Neither the page's text nor any of its tables' markdown holds a `페`. */
  predicate FreeOfPageChar(r: PageRecord) {
    PageChar !in r.text && forall t :: t in r.tables ==> PageChar !in t.markdown
  }

  predicate AllFreeOfPageChar(rs: seq<PageRecord>) {
    forall k :: 0 <= k < |rs| ==> FreeOfPageChar(rs[k])
  }

  lemma DigitsFree(s: string)
    requires AllDigits(s)
    ensures PageChar !in s
  {
  }

  lemma TableTextFree(t: TableRecord)
    requires PageChar !in t.markdown
    ensures PageChar !in TableText(t)
  {
    DigitsFree(NatToString(t.tableIndex));
    assert PageChar !in SourceName(t.source);
  }

  lemma {:induction false} TablesTextFree(ts: seq<TableRecord>)
    requires forall t :: t in ts ==> PageChar !in t.markdown
    ensures PageChar !in TablesText(ts)
  {
    if ts != [] {
      TablesTextFree(ts[..|ts| - 1]);
      TableTextFree(ts[|ts| - 1]);
    }
  }

  /** The sections written for a page hold a `페` only where its text or markdown does. */
  lemma BodyFree(r: PageRecord)
    requires FreeOfPageChar(r)
    ensures PageChar !in Body(r)
  {
    TablesTextFree(r.tables);
    DigitsFree(NatToString(|r.tables|));
  }

  /** What follows a page's marker up to the next marker (or the end): its sections and its rule. */
  function Content(rs: seq<PageRecord>): string
    requires rs != []
  {
    Body(rs[0]) + (if |rs| == 1 then Trailer() else Rule())
  }

  /** The (header, content) pairs the split of the assembled text should give: one per page. */
  function PageList(rs: seq<PageRecord>): seq<(string, string)> {
    if rs == [] then [] else [(NatToString(rs[0].page), Content(rs))] + PageList(rs[1..])
  }

  /** The assembled text after the first page's marker. */
  function Tail(rs: seq<PageRecord>): string
    requires rs != []
  {
    Body(rs[0]) + Trailer() + AssembledText(rs[1..])
  }

  /** The parts of the split of `Tail(rs)`: each page's content, then the next page's number. */
  function PartsOf(rs: seq<PageRecord>): seq<string>
    requires rs != []
  {
    [Content(rs)] + (if |rs| == 1 then [] else [NatToString(rs[1].page)] + PartsOf(rs[1..]))
  }

  /** The assembled text read from the front: the first page's block, then the rest. */
  lemma {:induction false} AssembledFront(rs: seq<PageRecord>)
    requires rs != []
    ensures AssembledText(rs) == PageBlock(rs[0]) + AssembledText(rs[1..])
  {
    if |rs| == 1 {
      AssembledSingle(rs);
    } else {
      var init := rs[..|rs| - 1];
      AssembledFront(init);
      AssembledFrontStep(rs);
    }
  }

  lemma AssembledSingle(rs: seq<PageRecord>)
    requires |rs| == 1
    ensures AssembledText(rs) == PageBlock(rs[0]) + AssembledText(rs[1..])
  {
    assert rs[..0] == [] && rs[1..] == [];
  }

  lemma AssembledFrontStep(rs: seq<PageRecord>)
    requires |rs| >= 2
    requires var init := rs[..|rs| - 1]; AssembledText(init) == PageBlock(init[0]) + AssembledText(init[1..])
    ensures AssembledText(rs) == PageBlock(rs[0]) + AssembledText(rs[1..])
  {
    var init := rs[..|rs| - 1];
    assert init[1..] == rs[1..][..|rs| - 2];
    ConcatAssoc(PageBlock(rs[0]), AssembledText(init[1..]), PageBlock(rs[|rs| - 1]));
  }

  lemma RuleFree()
    ensures PageChar !in Rule()
  {
  }

  /** The assembled text after a marker is the first content, a blank line, the next marker and what follows it. */
  lemma TailShape(rs: seq<PageRecord>)
    requires |rs| >= 2
    ensures Tail(rs) == Content(rs) + "\n\n" + Marker(rs[1].page) + Tail(rs[1..])
  {
    AssembledFront(rs[1..]);
    Regroup(Body(rs[0]), Rule(), "\n\n", Marker(rs[1].page), Body(rs[1]), AssembledText(rs[1..][1..]));
  }

  lemma Regroup<T>(b0: seq<T>, r: seq<T>, nl: seq<T>, m: seq<T>, b1: seq<T>, a2: seq<T>)
    ensures b0 + (r + nl) + (m + b1 + (r + nl) + a2) == b0 + r + nl + m + (b1 + (r + nl) + a2)
  {
  }

  lemma {:induction false} SplitTail(rs: seq<PageRecord>)
    requires rs != [] && AllFreeOfPageChar(rs)
    ensures SplitPages(Tail(rs)) == PartsOf(rs)
  {
    if |rs| == 1 {
      SplitTailLast(rs);
    } else {
      SplitTail(rs[1..]);
      SplitTailStep(rs);
    }
  }

  lemma ContentFree(rs: seq<PageRecord>)
    requires rs != [] && FreeOfPageChar(rs[0])
    ensures PageChar !in Content(rs)
  {
    BodyFree(rs[0]);
    RuleFree();
  }

  lemma SplitTailLast(rs: seq<PageRecord>)
    requires |rs| == 1 && FreeOfPageChar(rs[0])
    ensures SplitPages(Tail(rs)) == PartsOf(rs)
  {
    ContentFree(rs);
    assert rs[1..] == [];
    assert Tail(rs) == Content(rs);
    SplitPagesPlain(Content(rs));
  }

  lemma SplitTailStep(rs: seq<PageRecord>)
    requires |rs| >= 2 && FreeOfPageChar(rs[0])
    requires SplitPages(Tail(rs[1..])) == PartsOf(rs[1..])
    ensures SplitPages(Tail(rs)) == PartsOf(rs)
  {
    ContentFree(rs);
    TailShape(rs);
    GapStep(Content(rs), rs[1].page, Tail(rs[1..]), Tail(rs), PartsOf(rs[1..]));
    PartsOfStep(rs);
  }

  lemma GapStep(x: string, page: nat, y: string, t: string, rest: seq<string>)
    requires PageChar !in x && t == x + "\n\n" + Marker(page) + y && SplitPages(y) == rest
    ensures SplitPages(t) == [x, NatToString(page)] + rest
  {
    SplitPagesGap(x, page, y);
  }

  lemma PartsOfStep(rs: seq<PageRecord>)
    requires |rs| >= 2
    ensures PartsOf(rs) == [Content(rs), NatToString(rs[1].page)] + PartsOf(rs[1..])
  {
    ConsPair(Content(rs), NatToString(rs[1].page), PartsOf(rs[1..]));
  }

  lemma ConsPair<T>(a: T, b: T, c: seq<T>)
    ensures [a] + ([b] + c) == [a, b] + c
  {
  }

  lemma {:induction false} PairsOfParts(rs: seq<PageRecord>)
    requires rs != []
    ensures Pairs([NatToString(rs[0].page)] + PartsOf(rs)) == PageList(rs)
  {
    var p := [NatToString(rs[0].page)] + PartsOf(rs);
    if |rs| == 1 {
      assert p[2..] == [];
    } else {
      assert p[2..] == [NatToString(rs[1].page)] + PartsOf(rs[1..]);
      PairsOfParts(rs[1..]);
    }
  }

  /** The assembled text is the first page's marker followed by the tail. */
  lemma AssembledHead(rs: seq<PageRecord>)
    requires rs != []
    ensures AssembledText(rs) == Marker(rs[0].page) + Tail(rs)
  {
    AssembledFront(rs);
    Regroup2(Marker(rs[0].page), Body(rs[0]), Trailer(), AssembledText(rs[1..]));
  }

  lemma Regroup2<T>(a: seq<T>, b: seq<T>, c: seq<T>, d: seq<T>)
    ensures a + b + c + d == a + (b + c + d)
  {
  }

  lemma PagePairsOfHead(d: string, rest: seq<string>)
    ensures PagePairs(["", d] + rest) == Pairs([d] + rest)
  {
    assert (["", d] + rest)[1..] == [d] + rest;
  }

  /** Splitting the assembled text gives back each page's number and content, in order. */
  lemma AssembledPages(rs: seq<PageRecord>)
    requires AllFreeOfPageChar(rs)
    ensures PagePairs(SplitPages(AssembledText(rs))) == PageList(rs)
  {
    if rs == [] {
      SplitPagesPlain("");
    } else {
      AssembledHead(rs);
      SplitPagesHead(rs[0].page, Tail(rs));
      SplitTail(rs);
      PairsOfParts(rs);
      PagePairsOfHead(NatToString(rs[0].page), PartsOf(rs));
    }
  }

  /**
   * The corrected reading: the documents of each page in turn, the chunks of its content, tagged
   * with its number.
   */
  function RecordDocs(rs: seq<PageRecord>, file: string, split: string -> seq<string>): seq<Document> {
    if rs == [] then [] else ChunkDocs(split(Content(rs)), file, Some(rs[0].page)) + RecordDocs(rs[1..], file, split)
  }

  /** A page's content ends in its rule, so it is never blank, even for a page with no text and no tables. */
  lemma ContentNotBlank(rs: seq<PageRecord>)
    requires rs != []
    ensures Strip(Content(rs)) != ""
  {
    var c := Content(rs);
    assert c[|Body(rs[0])|] == '=';
    StripEmptyIffBlank(c);
  }

  lemma {:induction false} DocsOfPageList(rs: seq<PageRecord>, file: string, split: string -> seq<string>)
    ensures DocsOfPairs(PageList(rs), file, split, PageNumber) == RecordDocs(rs, file, split)
  {
    if rs != [] {
      var pl := PageList(rs);
      assert pl[0] == (NatToString(rs[0].page), Content(rs)) && pl[1..] == PageList(rs[1..]);
      ContentNotBlank(rs);
      PageNumberOfMarker(rs[0].page);
      DocsOfPageList(rs[1..], file, split);
    }
  }

  /**
   * The corrected reading of `text_to_documents` over the text `convert_pdf_to_text` assembles:
   * every page, blank or not, yields the chunks of its sections and rule, tagged with the page's
   * number.
   */
  lemma ConvertedDocuments(rs: seq<PageRecord>, file: string, split: string -> seq<string>)
    requires AllFreeOfPageChar(rs)
    ensures TextDocuments(AssembledText(rs), file, split) == RecordDocs(rs, file, split)
  {
    AssembledPages(rs);
    DocsOfPageList(rs, file, split);
  }

  /** As written: the documents of each page in turn, the chunks of its content, with no page number. */
  function RecordDocsAsWritten(rs: seq<PageRecord>, file: string, split: string -> seq<string>): seq<Document> {
    if rs == [] then [] else ChunkDocs(split(Content(rs)), file, None) + RecordDocsAsWritten(rs[1..], file, split)
  }

  lemma {:induction false} DocsOfPageListAsWritten(rs: seq<PageRecord>, file: string, split: string -> seq<string>)
    ensures DocsOfPairs(PageList(rs), file, split, PageWordNumber) == RecordDocsAsWritten(rs, file, split)
  {
    if rs != [] {
      var pl := PageList(rs);
      assert pl[0] == (NatToString(rs[0].page), Content(rs)) && pl[1..] == PageList(rs[1..]);
      ContentNotBlank(rs);
      PageWordNumberOfDigits(NatToString(rs[0].page));
      DocsOfPageListAsWritten(rs[1..], file, split);
    }
  }

  /**
   * `text_to_documents` as written over the text `convert_pdf_to_text` assembles: every page, blank
   * or not, yields the chunks of its sections and rule, and none of them carries a page number.
   */
  lemma ConvertedDocumentsAsWritten(rs: seq<PageRecord>, file: string, split: string -> seq<string>)
    requires AllFreeOfPageChar(rs)
    ensures TextDocumentsAsWritten(AssembledText(rs), file, split) == RecordDocsAsWritten(rs, file, split)
  {
    AssembledPages(rs);
    DocsOfPageListAsWritten(rs, file, split);
  }

  /** `a` is `b` with every page number erased. */
  predicate Erased(a: seq<Document>, b: seq<Document>) {
    |a| == |b| && forall k :: 0 <= k < |b| ==> a[k] == b[k].(page := None)
  }

  lemma ErasedAppend(a: seq<Document>, b: seq<Document>, a': seq<Document>, b': seq<Document>)
    requires Erased(a, b) && Erased(a', b')
    ensures Erased(a + a', b + b')
  {
    forall k | |b| <= k < |b + b'| ensures (a + a')[k] == (b + b')[k].(page := None) {
      assert (a + a')[k] == a'[k - |b|];
    }
  }

  /** The two readings give the same documents, but for the page number the corrected one adds. */
  lemma {:induction false} RecordDocsErased(rs: seq<PageRecord>, file: string, split: string -> seq<string>)
    ensures Erased(RecordDocsAsWritten(rs, file, split), RecordDocs(rs, file, split))
  {
    if rs != [] {
      RecordDocsErased(rs[1..], file, split);
      var c := split(Content(rs));
      ErasedAppend(ChunkDocs(c, file, None), ChunkDocs(c, file, Some(rs[0].page)),
                   RecordDocsAsWritten(rs[1..], file, split), RecordDocs(rs[1..], file, split));
    }
  }

  /** Under the corrected reading, every document names the page records' pages. */
  lemma {:induction false} RecordDocsTagged(rs: seq<PageRecord>, file: string, split: string -> seq<string>)
    ensures forall d :: d in RecordDocs(rs, file, split) ==>
      d.source == file && d.page.Some? && exists k :: 0 <= k < |rs| && rs[k].page == d.page.value
  {
    if rs != [] {
      RecordDocsTagged(rs[1..], file, split);
      forall d | d in RecordDocs(rs, file, split)
        ensures d.source == file && d.page.Some? && exists k :: 0 <= k < |rs| && rs[k].page == d.page.value
      {
        if d !in ChunkDocs(split(Content(rs)), file, Some(rs[0].page)) {
          var k :| 0 <= k < |rs[1..]| && rs[1..][k].page == d.page.value;
          assert rs[k + 1].page == d.page.value;
        }
      }
    }
  }

  /**
   * Under the corrected reading, every document of a converted PDF names the file and a page
   * between one and the number of pages.
   */
  lemma ConvertedPagesInRange(pages: seq<PageInput>, file: string, split: string -> seq<string>)
    requires AllFreeOfPageChar(PageRecords(pages))
    ensures forall d :: d in TextDocuments(AssembledText(PageRecords(pages)), file, split) ==>
      d.source == file && d.page.Some? && 1 <= d.page.value <= |pages|
  {
    var rs := PageRecords(pages);
    ConvertedDocuments(rs, file, split);
    PageRecordsNumbered(pages);
    RecordDocsInRange(rs, file, split, |pages|);
  }

  lemma PageRecordsNumbered(pages: seq<PageInput>)
    ensures forall k :: 0 <= k < |PageRecords(pages)| ==> 1 <= PageRecords(pages)[k].page <= |pages|
  {
  }

  lemma RecordDocsInRange(rs: seq<PageRecord>, file: string, split: string -> seq<string>, n: nat)
    requires forall k :: 0 <= k < |rs| ==> 1 <= rs[k].page <= n
    ensures forall d :: d in RecordDocs(rs, file, split) ==> d.source == file && d.page.Some? && 1 <= d.page.value <= n
  {
    RecordDocsTagged(rs, file, split);
  }
}
