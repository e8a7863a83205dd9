# Portfolio PDF pipeline and page helpers, modelled in Dafny

This project models the core of a Streamlit portfolio site with a retrieval chatbot.

**PDF ingestion** (utils/pdf_to_text_process.py) turns each page of a PDF into text and Markdown tables:
- It finds tables with PyMuPDF's table finder. When that finder yields nothing, it falls back to Camelot, first the `lattice` flavour and then `stream`.
- It masks the words that lie inside a table box, groups the remaining words into lines and cleans up the text.
- It drops text lines that repeat a table row.
- It writes every page after a `=== 페이지 N ===` marker.
- It cuts the assembled text back into pages and turns each page's chunks into documents.

**Page helpers**:
- `build_skill_domains` (home_refactored.py) arranges the skills of `portfolio_data.json` into the data-engineering, backend and DevOps domains.
- app.py scores skill levels, normalises a project's technology stack and builds the rows behind the skill chart and the career table.
- `build_langchain_history` (portfolio_chatbot.py) converts the chat session into LangChain messages.

The backends (pdfplumber, PyMuPDF, Camelot) and the text splitter are not modelled. What they would return is an input of the model: the words of a page, the tables each backend reports, and the chunks of a page's text (a function parameter).

Modules:
- `Wrappers`, `Strings` and `Values`: Python's optional values, strings and loosely typed JSON values.
- `Geometry`: box overlap.
- `TextClean`: hyphen joining, whitespace collapsing and `normalize_for_compare`.
- `TableRender`: Markdown and HTML tables.
- `TableDetect`: the fitz/Camelot chain.
- `TextExtract`: text without tables.
- `Dedup`: removal of table-row lines.
- `Assembly`: `get_text_and_tables` and the page blocks of `convert_pdf_to_text`.
- `PageSplit`: `PAGE_SPLIT_RE.split`.
- `Documents`: `text_to_documents` and `convert_pdf_to_text`. The methods follow the code as written, so no document carries a page number. `TextDocuments` is the corrected reading, which takes the page number from the header's digits.
- `ConvertedText`: what the split recovers from the assembled text, and the documents under both readings.
- `Skills`: `build_skill_domains`.
- `PortfolioTables`: the app.py helpers.
- `ChatHistory`: `build_langchain_history`.

Loops that update variables are methods proved against a specification function. Expressions are functions, and the properties are lemmas about those functions.

## Model

| member | source | states |
|---|---|---|
| Geometry.RectIoU | utils/pdf_to_text_process.py:18-42 | The overlap ratio lies in [0, 1] and is 0 exactly when the boxes do not intersect. |
| Geometry.RectIoUSymmetric | utils/pdf_to_text_process.py:18-42 | The ratio does not depend on the order of the two boxes. |
| Geometry.RectIoUSelf | utils/pdf_to_text_process.py:18-42 | A box with positive area overlaps itself with ratio 1. |
| Geometry.RectIoUSeparated | utils/pdf_to_text_process.py:29-36 | Boxes separated along either axis (touching edges included) have ratio 0. |
| Geometry.RectIoUDegenerate | utils/pdf_to_text_process.py:38-41 | A box of zero width or height has ratio 0 with every box. |
| Geometry.UnionCoversIntersection | utils/pdf_to_text_process.py:38-42 | When the boxes intersect, the intersection fits in each box and the union is at least the intersection, so the division is defined and at most 1. |
| Geometry.OverlapsAny | utils/pdf_to_text_process.py:45-57 | True exactly when some region reaches the threshold ratio with the box. |
| Geometry.InsideAny | utils/pdf_to_text_process.py:155-164 | True exactly when some table box, widened by the margin on every side, contains the word box. |
| Geometry.InsideAnyOfContained | utils/pdf_to_text_process.py:155-164 | A word box lying inside a table box is masked for any non-negative margin. |
| TableDetect.FitzKeptTablesSpec | utils/pdf_to_text_process.py:79-95 | A fitz table is kept exactly when it has a box and non-empty extracted rows; kept tables keep their order. |
| TableDetect.CamelotSkippedIffNoContent | utils/pdf_to_text_process.py:115-118 | A Camelot table is skipped exactly when the Markdown renderer would find no content row in it. |
| TableDetect.CamelotKeptTablesSpec | utils/pdf_to_text_process.py:113-118 | A Camelot table is kept exactly when some cell is non-blank. |
| TableDetect.CamelotItemsContent | utils/pdf_to_text_process.py:113-136 | Every Camelot item carries its flavour's source, has a content row and a non-empty Markdown rendering. |
| TableDetect.TablesFoundPrecedence | utils/pdf_to_text_process.py:102-138 | Fitz items win when there are any. Otherwise no item is a fitz item. A stream item appears only when fitz found nothing and lattice found nothing or raised. |
| TableDetect.CamelotFlavourItems | utils/pdf_to_text_process.py:113-136 | The loop over one flavour's tables returns the kept tables as items, in order. |
| TableDetect.ExtractTables | utils/pdf_to_text_process.py:60-142 | The items of a page equal the fitz items or, failing those, the lattice-then-stream fallback. |
| TableRender.CleanRow | utils/pdf_to_text_process.py:230 | Each cell becomes its stripped text, with `None` as empty, and the row keeps its length. |
| TableRender.ContentRowsEmptyIff | utils/pdf_to_text_process.py:230-234 | No row survives exactly when every cleaned row is all empty. |
| TableRender.MaxLen | utils/pdf_to_text_process.py:237 | The width is the length of the longest row: no row is longer and some row reaches it. |
| TableRender.Fit | utils/pdf_to_text_process.py:240 | A fitted row has exactly the width, keeps the row's cells in place and pads with empty cells. |
| TableRender.EscapeCell | utils/pdf_to_text_process.py:242-244 | An escaped cell has no newline, no unescaped pipe and no surrounding whitespace. |
| TableRender.RowRoundTrip | utils/pdf_to_text_process.py:250-253 | Reading a rendered row back, by splitting at unescaped pipes and stripping, gives its cells. |
| TableRender.EscapedRowRoundTrip | utils/pdf_to_text_process.py:242-253 | Any row of cells, once escaped and rendered, reads back as its escaped cells. |
| TableRender.DashesRoundTrip | utils/pdf_to_text_process.py:251 | The separator line reads back as one `---` per column. |
| TableRender.MarkdownEmptyIffNoContent | utils/pdf_to_text_process.py:227-234 | The Markdown is empty exactly when the table has no row with a non-empty cell. |
| TableRender.MarkdownShape | utils/pdf_to_text_process.py:237-254 | The rendering has a header line, a separator line and one line per body row. Every row has the table's width. With `header_rows >= 1` the header is the first content row. |
| TableRender.MarkdownReadBack | utils/pdf_to_text_process.py:246-254 | Line 0 reads back as the escaped header, line 1 as the dashes, and line 2+k as the k-th escaped body row. |
| TableRender.MarkdownSplitLines | utils/pdf_to_text_process.py:250-254 | Splitting the Markdown at newlines recovers exactly its lines. |
| TableRender.MarkdownLinesOneLine | utils/pdf_to_text_process.py:250-253 | No rendered line holds a newline, because cell newlines are escaped away. |
| TableRender.MarkdownSingleRow | utils/pdf_to_text_process.py:246-247 | A table with one content row and a header repeats that row as its only body row. |
| TableRender.ShownRows | utils/pdf_to_text_process.py:216-217 | Only rows with a non-blank cell are rendered, and no more rows than given. |
| TableRender.RowsHtmlOfShown | utils/pdf_to_text_process.py:216-222 | Rendering all rows gives the same HTML as rendering only the shown rows. |
| TableRender.ConvertTableToHtml | utils/pdf_to_text_process.py:208-224 | An empty table gives `""`. Otherwise the output is `<table>`, the shown rows as `<tr>` of `<td>` cells, then `</table>`. |
| TextClean.FixHyphenationJoins | utils/pdf_to_text_process.py:202-205 | After fixing, no hyphen is followed by whitespace containing a newline. |
| TextClean.FixHyphenationIdempotent | utils/pdf_to_text_process.py:202-205 | Fixing hyphenation twice gives the same text as once. |
| TextClean.FixHyphenationOfJoined | utils/pdf_to_text_process.py:202-205 | A text with no broken hyphen is left unchanged. |
| TextClean.FixHyphenationOfPlain | utils/pdf_to_text_process.py:204 | A prefix without hyphens passes through unchanged. |
| TextClean.FixHyphenationExample | utils/pdf_to_text_process.py:204 | `"examp-\nle"` becomes `"example"`. |
| TextClean.CollapseBlanks | utils/pdf_to_text_process.py:197 | The result has no tab and no two adjacent spaces, is empty only for empty input and keeps a non-blank first character. |
| TextClean.CollapseNewlines | utils/pdf_to_text_process.py:198 | The result never has three newlines in a row, is empty only for empty input and keeps the first character. |
| TextClean.CollapseNewlinesKeepsBlanks | utils/pdf_to_text_process.py:197-198 | Shortening newline runs keeps a tab-free, single-spaced text so. |
| TextClean.CollapseWhitespaceSpaced | utils/pdf_to_text_process.py:263 | After collapsing, every whitespace character is a space and no two whitespace characters are adjacent. |
| TextClean.CollapseWhitespaceOfSpaced | utils/pdf_to_text_process.py:263 | A text already in that form is unchanged. |
| TextClean.CollapseWhitespaceBlank | utils/pdf_to_text_process.py:263 | Collapsing keeps a text all-whitespace exactly when it was. |
| TextClean.DropDigitCommasClean | utils/pdf_to_text_process.py:265 | After removal, no comma stands between two digits. |
| TextClean.DropDigitCommasOfClean | utils/pdf_to_text_process.py:265 | A text without such commas is unchanged. |
| TextClean.NormalizeForCompare | utils/pdf_to_text_process.py:257-260 | `None` normalises to the empty string. |
| TextClean.NormalizedForm | utils/pdf_to_text_process.py:257-266 | A normalised string is stripped, uses only plain spaces, never two in a row, and has no comma between digits. |
| TextClean.NormalizeIdempotent | utils/pdf_to_text_process.py:257-266 | Normalising a normalised string changes nothing. |
| TextClean.NormalizeEmptyIffBlank | utils/pdf_to_text_process.py:257-266 | A string normalises to `""` exactly when it is all whitespace. |
| TextExtract.OutsideTablesSpec | utils/pdf_to_text_process.py:166 | A word survives exactly when it lies in no widened table box. |
| TextExtract.SortWordsSpec | utils/pdf_to_text_process.py:172 | The sorted words are ordered by the key and are a permutation of the input. |
| TextExtract.SortWordsOfSorted | utils/pdf_to_text_process.py:172 | A sorted input is returned unchanged. |
| TextExtract.SortWordsStable | utils/pdf_to_text_process.py:172-191 | Sorting is stable: for any key, the words with that key come out in the order they went in. |
| TextExtract.GroupSpec | utils/pdf_to_text_process.py:176-192 | The lines partition the words in order, and no line is empty. |
| TextExtract.GroupLevel | utils/pdf_to_text_process.py:176-192 | Words on one level form a single line. |
| TextExtract.GroupFromBreak | utils/pdf_to_text_process.py:181-186 | A word further than `y_tol` from the line's level closes the current line. |
| TextExtract.ExtractTextWithoutTables | utils/pdf_to_text_process.py:145-199 | The word loop gives the masked, sorted, grouped, joined and cleaned text of the page. |
| TextExtract.CleanTextShape | utils/pdf_to_text_process.py:195-198 | The page text is stripped, tab-free and single-spaced, and never has three newlines in a row. |
| TextExtract.NoTextWhenAllMasked | utils/pdf_to_text_process.py:166-199 | A page whose every word lies in a table gives empty text. |
| TextExtract.ExtractedLinesCover | utils/pdf_to_text_process.py:166-192 | The lines cover exactly the kept words, sorted top-then-left, as a permutation of them. |
| Dedup.FilledCells | utils/pdf_to_text_process.py:277 | Only non-empty stripped cells are kept. |
| Dedup.TableLineSetSpec | utils/pdf_to_text_process.py:269-283 | The set holds exactly the normalised lines of the rows with enough non-empty cells. |
| Dedup.TableLineSetNormal | utils/pdf_to_text_process.py:269-283 | Every line in the set is non-empty and already normalised. |
| Dedup.BuildTableLineSet | utils/pdf_to_text_process.py:269-283 | The row loop builds exactly that set. |
| Dedup.RemoveTableLineDuplicates | utils/pdf_to_text_process.py:286-314 | The loops give the de-duplicated text. Empty text or an empty line set returns the text as is. |
| Dedup.KeptLinesSpec | utils/pdf_to_text_process.py:305-313 | A line is kept exactly when it is a line of the text, not blank, and its normalised form is not a table row. |
| Dedup.DeduplicatedLines | utils/pdf_to_text_process.py:313 | The output's lines are exactly the kept lines. |
| Dedup.DeduplicatedIdempotent | utils/pdf_to_text_process.py:286-314 | Removing table-row lines twice gives the same text as once. |
| Assembly.TableBoxesSpec | utils/pdf_to_text_process.py:336 | The boxes are exactly the boxes the items carry. |
| Assembly.NumberTables | utils/pdf_to_text_process.py:348-360 | The `enumerate` loop numbers the tables from 1 and keeps each item's Markdown, source and box. |
| Assembly.ProcessPage | utils/pdf_to_text_process.py:329-364 | One page's record is its 1-based number, its table-masked de-duplicated text and its numbered tables. |
| Assembly.GetTextAndTables | utils/pdf_to_text_process.py:317-366 | One record per page, in page order. |
| Assembly.PageTextAvoidsTableRows | utils/pdf_to_text_process.py:336-345 | When the page's tables give line patterns, no line of the page text is blank or repeats a table row. |
| Assembly.PageTablesNumbered | utils/pdf_to_text_process.py:348-360 | A record's page is index+1, and its tables are numbered 1..n with the items' Markdown, source and box. |
| Assembly.AppendTables | utils/pdf_to_text_process.py:425-429 | The table loop appends each table's heading and Markdown, in order. |
| Assembly.AppendPage | utils/pdf_to_text_process.py:417-430 | One page appends its marker, text section, tables and closing rule. |
| Assembly.AssemblePages | utils/pdf_to_text_process.py:416-430 | The page loop builds the concatenation of the page blocks. |
| PageSplit.SplitPages | utils/pdf_to_text_process.py:15 | A split has an odd number of parts: text, then a page number and the text after it, for each match. |
| PageSplit.SplitPagesDigits | utils/pdf_to_text_process.py:15 | Every captured part, at each odd index, consists only of digits. |
| PageSplit.SplitPagesPlain | utils/pdf_to_text_process.py:15 | A text without `페` is not split. |
| PageSplit.SplitPagesHead | utils/pdf_to_text_process.py:15 | A text starting with a marker splits into `""`, the page number, then the split of the rest. |
| PageSplit.SplitPagesGap | utils/pdf_to_text_process.py:15 | A `페`-free text followed by a blank line and a marker splits into that text, the page number, then the split of the rest. The blank line is consumed. |
| PageSplit.MatchOfMarker | utils/pdf_to_text_process.py:15 | The pattern matches a written marker and captures its page number exactly. |
| Documents.PageWordNumber | utils/pdf_to_text_process.py:389-390 | As written, a page number is found only in a header containing `페`. |
| Documents.HeadersLosePageNumber | utils/pdf_to_text_process.py:373-390 | The search for `페이지` never finds anything in a captured header, so the page number as written is always `None`. |
| Documents.OnePageHeaderExample | utils/pdf_to_text_process.py:373-390 | A one-page text splits into `""`, `"1"`, body. The as-written search finds no page, and the corrected one reads 1. |
| Documents.HeaderPairsPageless | utils/pdf_to_text_process.py:389-390 | As written, the search finds no page number in the header of any page of the split. |
| Documents.TextDocumentsAsWritten | utils/pdf_to_text_process.py:369-407 | Every document that `text_to_documents` produces as written names the file and has no page. |
| Documents.PageNumberOfMarker | utils/pdf_to_text_process.py:389-390 | The corrected reading returns the number a marker wrote. |
| Documents.ChunkDocs | utils/pdf_to_text_process.py:393-406 | One document per chunk. Each holds its chunk stripped, the file, the page, `chunk_index` numbered from zero, and `is_page_split` set exactly when the page has more than one chunk. |
| Documents.AppendChunks | utils/pdf_to_text_process.py:395-406 | The chunk loop appends exactly a page's chunk documents. |
| Documents.AppendPage | utils/pdf_to_text_process.py:385-406 | One pass of the page loop adds nothing for a blank page, and otherwise the page's chunk documents with the page number the search finds. |
| Documents.TextToDocuments | utils/pdf_to_text_process.py:369-407 | As written, the page loop over the split gives the documents of every non-blank page in order, none with a page number. |
| Documents.ConvertPdfToText | utils/pdf_to_text_process.py:410-434 | As written, the documents are those of the text assembled from the page records. |
| ConvertedText.ContentNotBlank | utils/pdf_to_text_process.py:385-386 | A page's content ends in its rule, so it is never skipped as blank, even with no text and no tables. |
| ConvertedText.AssembledPages | utils/pdf_to_text_process.py:373-384 | Splitting the assembled text recovers each page's number and content, in page order, when no page text or table holds `페`. |
| ConvertedText.ConvertedDocumentsAsWritten | utils/pdf_to_text_process.py:369-434 | As written, and under that condition, the documents are each page's chunks in page order, with no page number. |
| ConvertedText.ConvertedDocuments | utils/pdf_to_text_process.py:369-434 | Corrected reading: under that condition, the documents are each page's chunks tagged with that page's own number. |
| ConvertedText.RecordDocsErased | utils/pdf_to_text_process.py:389-390 | The as-written documents are the corrected ones with the page number erased, one for one. |
| ConvertedText.RecordDocsTagged | utils/pdf_to_text_process.py:395-406 | Corrected reading: every document carries the file name and the number of one of the pages. |
| ConvertedText.ConvertedPagesInRange | utils/pdf_to_text_process.py:410-434 | Corrected reading: every document of a converted PDF carries the file name and a page number between 1 and the page count. |
| Values.Get | app.py:227 | `get` finds a value exactly when some item has the key. |
| Values.GetOfUniqueKeys | app.py:272 | With distinct keys, `get` returns the value stored under the key. |
| Values.StrNonEmpty | app.py:229 | `str` of a string is the string, and `str` of any other value is non-empty. |
| Skills.NormalizeEntries | home_refactored.py:49-78 | The recursive flattening method returns the entries of the value. |
| Skills.FalsyGivesNothing | home_refactored.py:76-78 | A falsy scalar or empty collection gives no entries. |
| Skills.EntriesOfListAppend | home_refactored.py:71-75 | A list's entries are the concatenation of its items' entries. |
| Skills.EntriesOfSingleton | home_refactored.py:71-75 | A one-item list flattens like its item. |
| Skills.DictLabels | home_refactored.py:58-70 | A dictionary gives one entry per key: the key, or the key with its descriptor in parentheses when that is non-empty. |
| Skills.DedupSpec | home_refactored.py:119-122 | `dict.fromkeys` keeps every string once, repeating none. |
| Skills.DedupOfDistinct | home_refactored.py:119-122 | A list without repeats is kept as is. |
| Skills.DedupOrder | home_refactored.py:119-122 | `dict.fromkeys` keeps the strings in the order of their first occurrences. |
| Skills.CategoryDomain | home_refactored.py:97-113 | Every category maps to one of the three fixed domains. |
| Skills.AggregateSpec | home_refactored.py:109-116 | After the category loop there are exactly the three fixed domains. Each holds the entries of the categories mapped to it, and `domains` is skipped. |
| Skills.CategoryDomainsSpec | home_refactored.py:97-128 | On the category path only fixed domains appear, in order, none empty. Each holds the first occurrences of its categories' entries, and every fixed domain that some category contributes to is listed. |
| Skills.ExplicitDomainsSpec | home_refactored.py:83-95 | With explicit domains, the fixed ones come first, in order, holding their own entries. Then come the others, none twice, none empty. Every fixed domain with entries and every other item with entries is listed. |
| Skills.OtherExplicitInOrder | home_refactored.py:90-94 | The second explicit loop lists exactly the non-fixed items that have entries, in dictionary order, each with its entries. |
| Skills.FixedExplicitPresent | home_refactored.py:86-89 | The first explicit loop lists every fixed domain whose entries are not empty. |
| Skills.FixedAggregatedPresent | home_refactored.py:118-122 | The first ordering loop lists every fixed domain whose aggregated list is not empty. |
| Skills.SkillDomainsShape | home_refactored.py:38-128 | The result is always ordered (fixed domains first) and has no repeated or empty domain. |
| Skills.ExplicitDomains | home_refactored.py:83-95 | The two loops over explicit domains return the fixed domains, then the others. |
| Skills.AggregateCategories | home_refactored.py:109-116 | The category loop builds the aggregate. |
| Skills.OrderAggregated | home_refactored.py:118-128 | The ordering loops return the de-duplicated fixed domains, then the others. |
| Skills.BuildSkillDomains | home_refactored.py:38-128 | The method computes the skill domains, with `[]` for anything that is not a dictionary. |
| PortfolioTables.SkillLevelRanking | app.py:31-38 | Scores strictly decrease along 최상 … 하 and lie in 50..95. A level scores 60 exactly when it is 중하 or unknown. |
| PortfolioTables.StrippedPieces | app.py:231 | Every kept piece is non-empty and stripped. |
| PortfolioTables.StackKeyFallback | app.py:227 | `teck_stack` is read only when `tech_stack` is missing or falsy, and then as if it were `tech_stack`. |
| PortfolioTables.StackOfCollection | app.py:228-229 | A list, tuple or set gives `str` of each item, in order. |
| PortfolioTables.StackOfOtherValue | app.py:232 | Any other non-string value gives an empty stack. |
| PortfolioTables.StackOfJoined | app.py:230-231 | A comma-joined string gives its stripped non-blank pieces, none holding a comma. |
| PortfolioTables.StackRoundTrip | app.py:227-231 | Writing a stack comma-separated and normalising it gives the stack back. |
| PortfolioTables.BuildSkillRecords | app.py:235-258 | `None` or an empty value gives no rows. A dictionary gives one row per skill, in order. Any other truthy value raises. |
| PortfolioTables.SkillRecordsRanked | app.py:247-256 | A row keeps its skill and level, and a higher level gives a strictly higher score. |
| PortfolioTables.ExperiencePeriods | app.py:271-274 | One row per career item. |
| PortfolioTables.ExperiencePeriodsSpec | app.py:272 | A stored period or event, `None` included, is shown as stored. |
| PortfolioTables.ExperiencePeriodsMissing | app.py:272 | A missing period or event shows `기간 미상` or `내용 미상`. |
| ChatHistory.BuildLangchainHistory | portfolio_chatbot.py:92-109 | The turn loop returns the history's messages. |
| ChatHistory.HistoryAppend | portfolio_chatbot.py:101-109 | Converting two stretches of history one after the other is converting them together. |
| ChatHistory.HistorySpec | portfolio_chatbot.py:101-109 | The k-th message comes from the k-th user or assistant turn, in order, and every such turn yields one. |
| ChatHistory.ConvertedSpec | portfolio_chatbot.py:103-108 | A turn yields a message exactly when its role is `user` or `assistant`. It is a human message exactly for `user`. Missing content becomes `""`. |
| ChatHistory.HistoryLength | portfolio_chatbot.py:101-109 | No more messages than turns, with equality exactly when every turn is a user or assistant turn. |

## Left out

- The PDF backends, logging and the byte stream are not modelled. The words pdfplumber reports and the tables PyMuPDF and Camelot report (or whether they raised) are inputs of the model.
- pdfplumber's `dedupe_chars` and its word extraction are not modelled.
- A fitz finder that raises part-way is modelled by the tables it handed over before raising.
- Coordinates are exact reals, not floating point.
- Camelot boxes are taken as reported: the source only comments that their origin may differ and converts nothing.
- Camelot's `hasattr`/`getattr` on `_bbox` and `bbox` is modelled as attributes that may be missing or `None`. The length-4 check only guards a `pass`.
- `iou_thresh` and `x_tol` of `extract_text_without_tables` are accepted and unused by the source. `y_tol` is a parameter, and the model's default is 3.
- Unicode NFKC normalisation is the identity here. `\d` is the ASCII digits, `str.lower` acts on ASCII letters only, and `\s` is Python's whitespace set.
- Documents: the text splitter (`RecursiveCharacterTextSplitter`) is a function parameter, so its chunking rules are not modelled. That includes the sizes `convert_pdf_to_text` passes (800 characters, overlap 100) and the defaults of `text_to_documents` (500, 100).
- ConvertedText.AssembledPages: the round trip is stated only for pages whose text and table Markdown contain no `페`. A page whose own text holds a marker-like line is split there by the source too; the model does not describe that case.
- ConvertedText.ConvertedDocuments: stated under the same condition as AssembledPages, for the same reason.
- ConvertedText.ConvertedDocumentsAsWritten: stated under the same condition as AssembledPages, for the same reason. Without the condition, TextDocumentsAsWritten still states that no document has a page number.
- TextClean.NormalizeForCompare: its own contract states only the `None` case. The properties of the normalised form are stated in TextClean.NormalizedForm and NormalizeIdempotent.
- TableRender: `max_cols` is modelled as an optional non-negative width; negative slicing is not modelled and no caller passes it.
- Values: Python `str`/`repr` of strings inside containers is simplified to single quotes without escaping. Float values are not modelled. Dictionary keys are strings. A set is its iteration order.
- PortfolioTables: the DataFrame is modelled by its list of records, and `label_column` only names a column, so it is left out.
- ChatHistory: LangChain message objects carry the turn's content as given; pydantic validation of non-string content is not modelled.
- Where the design description of the pipeline and the code differ, the model follows the code:
  - The fitz path keeps a table without checking for blank cells. Only the Camelot path skips all-blank tables.
  - Camelot's stream flavour is skipped only when lattice produced tables and did not raise. A lattice run that raised after handing over tables still leads to a stream run.
  - An empty page still yields documents, because its content ends in the rule line.
  - Lines are grouped against a running average of the word tops, starting from the first word's top.
  - The page number of every document is `None` (see Findings).

## Findings

| source | as written | input that shows it | evidently intended | confidence | as-written member | corrected member |
|---|---|---|---|---|---|---|
| utils/pdf_to_text_process.py:389-390 | `re.search(r"페이지\s*(\d+)", page_header)` searches the captured group, which holds only the page's digits, so `page` metadata is always `None` | text `"=== 페이지 1 ===\n\n본문"` splits into `["", "1", "본문"]` and the search in `"1"` finds nothing | the page number is the captured digits, `int("1") == 1` | high (not executed) | Documents.HeadersLosePageNumber | ConvertedText.ConvertedDocuments |
