/**
 * `text_to_documents` and `convert_pdf_to_text` (utils/pdf_to_text_process.py): the assembled
 * text is cut at its page markers, each non-blank page is handed to a text splitter, and every
 * chunk becomes a document tagged with its file, page and position.
 *
 * The splitter (`RecursiveCharacterTextSplitter`) is a parameter: any function from a page's
 * text to its chunks.
 */
module Documents {
  import opened Wrappers
  import opened Strings
  import opened TableDetect
  import opened PageSplit
  import opened Assembly

  /** A `Document`: its `page_content` and the four entries of its `metadata`. */
  datatype Document = Document(pageContent: string, source: string, page: Option<nat>, chunkIndex: nat, isPageSplit: bool)

  // ---------------------------------------------------------------- the page number

  /** `페이지` starts at position `p` of `h`. */
  predicate PageWordAt(h: string, p: nat) {
    p + 3 <= |h| && h[p] == PageChar && h[p + 1] == '이' && h[p + 2] == '지'
  }

  /**
   * `re.search(r"페이지\s*(\d+)", h)` from position `p` on, and `int` of its group: the first
   * position holding `페이지`, blanks and at least one digit.
   */
  function PageWordNumberFrom(h: string, p: nat): (r: Option<nat>)
    requires p <= |h|
    ensures r.Some? ==> exists i :: p <= i < |h| && h[i] == PageChar
    decreases |h| - p
  {
    if PageWordAt(h, p) && DigitRun(h[p + 3 + SpaceRun(h[p + 3..])..]) > 0 then
      var a := p + 3 + SpaceRun(h[p + 3..]);
      DigitRunDigits(h[a..]);
      Some(ParseNat(h[a..][..DigitRun(h[a..])]))
    else if p == |h| then None
    else PageWordNumberFrom(h, p + 1)
  }

  /** The page number as `text_to_documents` reads it from a header: a search for `페이지` and digits. */
  function PageWordNumber(header: string): (r: Option<nat>)
    ensures r.Some? ==> PageChar in header
  {
    PageWordNumberFrom(header, 0)
  }

  /**
   * The page number a header of the split carries: the header is the digits the split's group
   * captured, so the number is those digits read as a decimal.
   */
  function PageNumber(header: string): Option<nat> {
    if header != [] && AllDigits(header) then Some(ParseNat(header)) else None
  }

  /** The number a marker writes is the number read back from its header. */
  lemma PageNumberOfMarker(n: nat)
    ensures PageNumber(NatToString(n)).Some? && PageNumber(NatToString(n)).value == n
  {
    ParseNatToString(n);
  }

  /** A header made of digits holds no `페이지`, so the search over it finds nothing. */
  lemma PageWordNumberOfDigits(header: string)
    requires AllDigits(header)
    ensures PageWordNumber(header).None?
  {
  }

  /** Every header `PAGE_SPLIT_RE.split` yields loses its number under the search `text_to_documents` runs on it. */
  lemma HeadersLosePageNumber(text: string)
    ensures var parts := SplitPages(text);
      forall i :: 0 <= i < |parts| && i % 2 == 1 ==> PageWordNumber(parts[i]).None?
  {
    var parts := SplitPages(text);
    SplitPagesDigits(text);
    forall i | 0 <= i < |parts| && i % 2 == 1 ensures PageWordNumber(parts[i]).None? {
      PageWordNumberOfDigits(parts[i]);
    }
  }

  /** The text of a one-page PDF whose page reads `본문`: the header is `"1"`, and the search finds no number in it. */
  lemma OnePageHeaderExample()
    ensures SplitPages(Marker(1) + "본문") == ["", "1", "본문"]
    ensures PageWordNumber("1").None?
    ensures PageNumber("1").Some? && PageNumber("1").value == 1
  {
    SplitPagesHead(1, "본문");
    SplitPagesPlain("본문");
    PageWordNumberOfDigits("1");
    PageNumberOfMarker(1);
  }

  // ---------------------------------------------------------------- documents of one page

  /**
   * The documents of one page's chunks, numbered from zero: each holds its chunk stripped, the
   * file, the page, and whether the page was cut into more than one chunk.
   */
  function ChunkDocs(chunks: seq<string>, file: string, page: Option<nat>): (docs: seq<Document>)
    ensures |docs| == |chunks|
    ensures forall j :: 0 <= j < |docs| ==> docs[j].chunkIndex == j && Stripped(docs[j].pageContent)
    ensures forall j :: 0 <= j < |docs| ==>
      docs[j].pageContent == Strip(chunks[j]) && docs[j].source == file && docs[j].page == page
      && docs[j].isPageSplit == (|chunks| > 1)
  {
    seq(|chunks|, j requires 0 <= j < |chunks| => Document(Strip(chunks[j]), file, page, j, |chunks| > 1))
  }

  /** The documents of one page: none for a blank page, otherwise one per chunk. */
  function PageDocs(header: string, content: string, file: string, split: string -> seq<string>,
                    pageOf: string -> Option<nat>): seq<Document> {
    if Strip(content) == "" then [] else ChunkDocs(split(content), file, pageOf(header))
  }

  /** `parts[1:]` read two at a time: the header and the content after it (empty when it is missing). */
  function Pairs(rest: seq<string>): seq<(string, string)>
    decreases |rest|
  {
    if rest == [] then []
    else if |rest| == 1 then [(rest[0], "")]
    else [(rest[0], rest[1])] + Pairs(rest[2..])
  }

  /** The pages of a split, as the loop `for i in range(1, len(parts), 2)` visits them. */
  function PagePairs(parts: seq<string>): seq<(string, string)> {
    if parts == [] then [] else Pairs(parts[1..])
  }

  function DocsOfPairs(pairs: seq<(string, string)>, file: string, split: string -> seq<string>,
                       pageOf: string -> Option<nat>): seq<Document>
  {
    if pairs == [] then []
    else PageDocs(pairs[0].0, pairs[0].1, file, split, pageOf) + DocsOfPairs(pairs[1..], file, split, pageOf)
  }

  /**
   * The corrected reading of `text_to_documents(text, file)`: the page number is read from the
   * header's digits, as the metadata evidently intends.
   */
  function TextDocuments(text: string, file: string, split: string -> seq<string>): seq<Document> {
    DocsOfPairs(PagePairs(SplitPages(text)), file, split, PageNumber)
  }

  /**
   * `text_to_documents(text, file)` as written, with the page number from the search for `페이지`:
   * every document names the file, and none carries a page number.
   */
  function TextDocumentsAsWritten(text: string, file: string, split: string -> seq<string>): (docs: seq<Document>)
    ensures forall d :: d in docs ==> d.source == file && d.page.None?
  {
    var pairs := PagePairs(SplitPages(text));
    HeaderPairsPageless(text);
    DocsOfPairsPageless(pairs, file, split);
    DocsOfPairsSourced(pairs, file, split, PageWordNumber);
    DocsOfPairs(pairs, file, split, PageWordNumber)
  }

  lemma {:induction false} DocsOfPairsPageless(pairs: seq<(string, string)>, file: string, split: string -> seq<string>)
    requires forall k :: 0 <= k < |pairs| ==> PageWordNumber(pairs[k].0).None?
    ensures forall d :: d in DocsOfPairs(pairs, file, split, PageWordNumber) ==> d.page.None?
  {
    if pairs != [] {
      DocsOfPairsPageless(pairs[1..], file, split);
    }
  }

  /** Every document of a run of pages names the file it came from. */
  lemma {:induction false} DocsOfPairsSourced(pairs: seq<(string, string)>, file: string, split: string -> seq<string>,
                                              pageOf: string -> Option<nat>)
    ensures forall d :: d in DocsOfPairs(pairs, file, split, pageOf) ==> d.source == file
  {
    if pairs != [] {
      DocsOfPairsSourced(pairs[1..], file, split, pageOf);
    }
  }

  /** The `k`-th pair `Pairs` builds from `parts[i:]` has the header `parts[i + 2k]`. */
  lemma {:induction false} PairsHeaders(parts: seq<string>, i: nat)
    requires i <= |parts|
    ensures forall k :: 0 <= k < |Pairs(parts[i..])| ==> i + 2 * k < |parts| && Pairs(parts[i..])[k].0 == parts[i + 2 * k]
    decreases |parts| - i
  {
    var rest := parts[i..];
    if |rest| >= 2 {
      PairsStep(parts, i);
      PairsHeaders(parts, i + 2);
      forall k | 1 <= k < |Pairs(rest)|
        ensures i + 2 * k < |parts| && Pairs(rest)[k].0 == parts[i + 2 * k]
      {
        assert Pairs(rest)[k] == Pairs(parts[i + 2..])[k - 1];
      }
    }
  }

  /** The search for `페이지` finds no number in the header of any page the split yields. */
  lemma HeaderPairsPageless(text: string)
    ensures forall k :: 0 <= k < |PagePairs(SplitPages(text))| ==> PageWordNumber(PagePairs(SplitPages(text))[k].0).None?
  {
    var parts := SplitPages(text);
    SplitPagesDigits(text);
    PairsHeaders(parts, 1);
    var pairs := PagePairs(parts);
    assert pairs == Pairs(parts[1..]);
    forall k | 0 <= k < |pairs| ensures PageWordNumber(pairs[k].0).None? {
      assert (1 + 2 * k) % 2 == 1;
      PageWordNumberOfDigits(parts[1 + 2 * k]);
    }
  }

  // ---------------------------------------------------------------- the loops of text_to_documents

  /** The inner loop: one document per chunk of the page. */
  method AppendChunks(docs0: seq<Document>, chunks: seq<string>, file: string, page: Option<nat>)
    returns (docs: seq<Document>)
    ensures docs == docs0 + ChunkDocs(chunks, file, page)
  {
    docs := docs0;
    var idx := 0;
    while idx < |chunks|
      invariant 0 <= idx <= |chunks|
      invariant |docs| == |docs0| + idx
      invariant docs[..|docs0|] == docs0
      invariant forall j :: 0 <= j < idx ==> docs[|docs0| + j] == ChunkDocs(chunks, file, page)[j]
    {
      docs := docs + [Document(Strip(chunks[idx]), file, page, idx, |chunks| > 1)];
      idx := idx + 1;
    }
    assert docs == docs0 + ChunkDocs(chunks, file, page);
  }

  lemma OddStep(i: nat, n: nat)
    requires i % 2 == 1 && n % 2 == 1 && i < n
    ensures i + 2 <= n && (i + 2) % 2 == 1
  {
  }

  /** The pairs the loop has still to visit, two parts further on. */
  lemma PairsStep(parts: seq<string>, i: nat)
    requires i + 2 <= |parts|
    ensures Pairs(parts[i..]) == [(parts[i], parts[i + 1])] + Pairs(parts[i + 2..])
  {
    assert parts[i..][2..] == parts[i + 2..];
  }

  /** The documents still to come, one page further on. */
  lemma DocsStep(parts: seq<string>, i: nat, file: string, split: string -> seq<string>, pageOf: string -> Option<nat>)
    requires i + 2 <= |parts|
    ensures DocsOfPairs(Pairs(parts[i..]), file, split, pageOf)
      == PageDocs(parts[i], parts[i + 1], file, split, pageOf) + DocsOfPairs(Pairs(parts[i + 2..]), file, split, pageOf)
  {
    PairsStep(parts, i);
    var pairs := Pairs(parts[i..]);
    assert pairs[0] == (parts[i], parts[i + 1]) && pairs[1..] == Pairs(parts[i + 2..]);
  }

  /**
   * One pass of the page loop: nothing for a blank page, otherwise its chunks' documents, with the
   * page number from the search for `페이지` in the header.
   */
  method AppendPage(docs0: seq<Document>, header: string, content: string, file: string, split: string -> seq<string>)
    returns (docs: seq<Document>)
    ensures docs == docs0 + PageDocs(header, content, file, split, PageWordNumber)
  {
    docs := docs0;
    if Strip(content) != "" {
      var pageNum := PageWordNumber(header);
      var chunks := split(content);
      docs := AppendChunks(docs, chunks, file, pageNum);
    }
  }

  /** `text_to_documents(text, file)` as written: no document it yields carries a page number. */
  method TextToDocuments(text: string, file: string, split: string -> seq<string>) returns (docs: seq<Document>)
    ensures docs == TextDocumentsAsWritten(text, file, split)
    ensures forall d :: d in docs ==> d.page.None?
  {
    var parts := SplitPages(text);
    ghost var n := |parts|;
    assert n % 2 == 1;
    docs := [];
    var i := 1;
    while i < |parts|
      invariant 1 <= i <= n && i % 2 == 1 && n == |parts|
      invariant docs + DocsOfPairs(Pairs(parts[i..]), file, split, PageWordNumber) == TextDocumentsAsWritten(text, file, split)
    {
      var header := parts[i];
      var content := if i + 1 < |parts| then parts[i + 1] else "";
      OddStep(i, n);
      DocsStep(parts, i, file, split, PageWordNumber);
      ghost var later := DocsOfPairs(Pairs(parts[i + 2..]), file, split, PageWordNumber);
      ghost var here := PageDocs(header, content, file, split, PageWordNumber);
      ConcatAssoc(docs, here, later);
      docs := AppendPage(docs, header, content, file, split);
      i := i + 2;
    }
    assert parts[i..] == [];
  }

  /** `convert_pdf_to_text(pdf, file)`: the page records, the assembled text, then its documents. */
  method ConvertPdfToText(pages: seq<PageInput>, file: string, split: string -> seq<string>)
    returns (docs: seq<Document>)
    ensures docs == TextDocumentsAsWritten(AssembledText(PageRecords(pages)), file, split)
  {
    var records := GetTextAndTables(pages);
    var txt := AssemblePages(records);
    docs := TextToDocuments(txt, file, split);
  }
}
