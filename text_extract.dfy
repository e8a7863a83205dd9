/**
 * Page text without its tables (`extract_text_without_tables` in utils/pdf_to_text_process.py):
 * the words pdfplumber reports are filtered against the table boxes, ordered by position,
 * grouped into lines by their vertical position, and the lines are joined and cleaned.
 */
module TextExtract {
  import opened Wrappers
  import opened Strings
  import opened Geometry
  import opened TextClean

  /** A word of `extract_words()`: its text and its box, `top`/`bottom` measured from the page top. */
  datatype Word = Word(text: string, x0: real, x1: real, top: real, bottom: real)

  /** `(w["x0"], w["top"], w["x1"], w["bottom"])` */
  function WordBox(w: Word): Rect {
    Rect(w.x0, w.top, w.x1, w.bottom)
  }

  /** The vertical tolerance `y_tol` of line grouping. */
  const YTol: real := 3.0

  function Abs(x: real): real { if x < 0.0 then -x else x }

  // ---------------------------------------------------------------- masking table words

  /** `[w for w in words if not inside_any(box(w), table_bboxes)]` */
  function OutsideTables(words: seq<Word>, tableBoxes: seq<Rect>): seq<Word> {
    if words == [] then []
    else
      (if InsideAny(WordBox(words[0]), tableBoxes, InsideMargin) then [] else [words[0]])
      + OutsideTables(words[1..], tableBoxes)
  }

  /** A word survives exactly when no table box, widened by the margin, holds it. */
  lemma {:induction false} OutsideTablesSpec(words: seq<Word>, tableBoxes: seq<Rect>)
    ensures forall w :: w in OutsideTables(words, tableBoxes) <==>
      w in words && forall t :: 0 <= t < |tableBoxes| ==> !Within(WordBox(w), Widen(tableBoxes[t], InsideMargin))
  {
    if words != [] {
      OutsideTablesSpec(words[1..], tableBoxes);
      assert words == [words[0]] + words[1..];
    }
  }

  // ---------------------------------------------------------------- ordering

  /** The two orders the procedure sorts by: `(top, x0)` for the page, `x0` within a line. */
  datatype Order = ByTopThenX0 | ByX0

  /** `a` may stand before `b`: its key is not larger. */
  predicate Before(a: Word, b: Word, order: Order) {
    match order
    case ByTopThenX0 => a.top < b.top || (a.top == b.top && a.x0 <= b.x0)
    case ByX0 => a.x0 <= b.x0
  }

  predicate SortedBy(ws: seq<Word>, order: Order) {
    forall i :: 0 <= i < |ws| - 1 ==> Before(ws[i], ws[i + 1], order)
  }

  /** Insert `w` before the first word it may precede; equal keys keep `w` first. */
  function Insert(w: Word, s: seq<Word>, order: Order): (r: seq<Word>)
    ensures |r| == |s| + 1
    ensures r[0] == w || (s != [] && r[0] == s[0])
  {
    if s == [] || Before(w, s[0], order) then [w] + s else [s[0]] + Insert(w, s[1..], order)
  }

  /** Python's stable `list.sort(key=...)` for the given order. */
  function SortWords(ws: seq<Word>, order: Order): (r: seq<Word>)
    ensures |r| == |ws|
  {
    if ws == [] then [] else Insert(ws[0], SortWords(ws[1..], order), order)
  }

  lemma {:induction false} InsertSorted(w: Word, s: seq<Word>, order: Order)
    requires SortedBy(s, order)
    ensures SortedBy(Insert(w, s, order), order)
  {
    if s != [] && !Before(w, s[0], order) {
      InsertSorted(w, s[1..], order);
      var r := Insert(w, s, order);
      var t := Insert(w, s[1..], order);
      assert r == [s[0]] + t;
      assert Before(s[0], t[0], order);
      forall i | 0 <= i < |r| - 1 ensures Before(r[i], r[i + 1], order) {
        if i > 0 {
          assert r[i] == t[i - 1] && r[i + 1] == t[i];
        }
      }
    }
  }

  lemma {:induction false} InsertPermutes(w: Word, s: seq<Word>, order: Order)
    ensures multiset(Insert(w, s, order)) == multiset(s) + multiset{w}
  {
    if s != [] && !Before(w, s[0], order) {
      InsertPermutes(w, s[1..], order);
      assert s == [s[0]] + s[1..];
    }
  }

  /** The sort yields its input, reordered, in order. */
  lemma {:induction false} SortWordsSpec(ws: seq<Word>, order: Order)
    ensures SortedBy(SortWords(ws, order), order)
    ensures multiset(SortWords(ws, order)) == multiset(ws)
  {
    if ws != [] {
      SortWordsSpec(ws[1..], order);
      InsertSorted(ws[0], SortWords(ws[1..], order), order);
      InsertPermutes(ws[0], SortWords(ws[1..], order), order);
      assert ws == [ws[0]] + ws[1..];
    }
  }

  /** Words already in order are left exactly as they are. */
  lemma {:induction false} SortWordsOfSorted(ws: seq<Word>, order: Order)
    requires SortedBy(ws, order)
    ensures SortWords(ws, order) == ws
  {
    if ws != [] {
      SortWordsOfSorted(ws[1..], order);
    }
  }

  /** `a` and `b` have equal sort keys. */
  predicate SameKey(a: Word, b: Word, order: Order) {
    Before(a, b, order) && Before(b, a, order)
  }

  /** The words of `ws` whose key equals that of `x`, in the order they come. */
  function Ties(ws: seq<Word>, x: Word, order: Order): seq<Word> {
    if ws == [] then [] else (if SameKey(ws[0], x, order) then [ws[0]] else []) + Ties(ws[1..], x, order)
  }

  /** Inserting `w` puts it before every word with its key, and moves no other tie. */
  lemma {:induction false} InsertTies(w: Word, s: seq<Word>, x: Word, order: Order)
    ensures Ties(Insert(w, s, order), x, order) == (if SameKey(w, x, order) then [w] else []) + Ties(s, x, order)
  {
    if s != [] && !Before(w, s[0], order) {
      assert SameKey(w, x, order) ==> !SameKey(s[0], x, order);
      InsertTies(w, s[1..], x, order);
      var r := Insert(w, s, order);
      assert r[0] == s[0] && r[1..] == Insert(w, s[1..], order);
    }
  }

  /** The sort is stable: words with equal keys come out in the order they went in. */
  lemma {:induction false} SortWordsStable(ws: seq<Word>, x: Word, order: Order)
    ensures Ties(SortWords(ws, order), x, order) == Ties(ws, x, order)
  {
    if ws != [] {
      SortWordsStable(ws[1..], x, order);
      InsertTies(ws[0], SortWords(ws[1..], order), x, order);
    }
  }

  // ---------------------------------------------------------------- line grouping

  /**
   * The lines formed from `ws` when the line being built is `current` and its running
   * vertical position is `lastTop`: a word within `yTol` joins the line and moves the position
   * to the mean of the old position and its own top, any other word starts a new line.
   */
  function GroupFrom(ws: seq<Word>, current: seq<Word>, lastTop: real, yTol: real): seq<seq<Word>>
    decreases |ws|
  {
    if ws == [] then [current]
    else if Abs(ws[0].top - lastTop) <= yTol then GroupFrom(ws[1..], current + [ws[0]], (lastTop + ws[0].top) / 2.0, yTol)
    else [current] + GroupFrom(ws[1..], [ws[0]], ws[0].top, yTol)
  }

  /** The lines of a sequence of words in reading order. */
  function Group(ws: seq<Word>, yTol: real): seq<seq<Word>> {
    if ws == [] then [] else GroupFrom(ws[1..], [ws[0]], ws[0].top, yTol)
  }

  function Flatten(lines: seq<seq<Word>>): seq<Word> {
    if lines == [] then [] else lines[0] + Flatten(lines[1..])
  }

  lemma {:induction false} GroupFromFlatten(ws: seq<Word>, current: seq<Word>, lastTop: real, yTol: real)
    requires current != []
    ensures Flatten(GroupFrom(ws, current, lastTop, yTol)) == current + ws
    ensures forall k :: 0 <= k < |GroupFrom(ws, current, lastTop, yTol)| ==> GroupFrom(ws, current, lastTop, yTol)[k] != []
    decreases |ws|
  {
    if ws == [] {
      assert Flatten([current]) == current + Flatten([]);
    } else if Abs(ws[0].top - lastTop) <= yTol {
      GroupFromFlatten(ws[1..], current + [ws[0]], (lastTop + ws[0].top) / 2.0, yTol);
      assert current + [ws[0]] + ws[1..] == current + ws;
    } else {
      var rest := GroupFrom(ws[1..], [ws[0]], ws[0].top, yTol);
      GroupFromFlatten(ws[1..], [ws[0]], ws[0].top, yTol);
      assert ([current] + rest)[1..] == rest;
      assert [ws[0]] + ws[1..] == ws;
    }
  }

  /** Grouping neither loses, repeats nor reorders a word, and makes no empty line. */
  lemma GroupSpec(ws: seq<Word>, yTol: real)
    ensures Flatten(Group(ws, yTol)) == ws
    ensures forall k :: 0 <= k < |Group(ws, yTol)| ==> Group(ws, yTol)[k] != []
  {
    if ws != [] {
      GroupFromFlatten(ws[1..], [ws[0]], ws[0].top, yTol);
      assert [ws[0]] + ws[1..] == ws;
    }
  }

  lemma {:induction false} GroupFromLevel(ws: seq<Word>, current: seq<Word>, t: real, yTol: real)
    requires yTol >= 0.0
    requires forall i :: 0 <= i < |ws| ==> ws[i].top == t
    ensures GroupFrom(ws, current, t, yTol) == [current + ws]
    decreases |ws|
  {
    if ws != [] {
      assert Abs(ws[0].top - t) == 0.0 && (t + ws[0].top) / 2.0 == t;
      GroupFromLevel(ws[1..], current + [ws[0]], t, yTol);
      assert current + [ws[0]] + ws[1..] == current + ws;
    } else {
      assert current + ws == current;
    }
  }

  /** Words that all stand at the same height form a single line. */
  lemma GroupLevel(ws: seq<Word>, yTol: real)
    requires ws != [] && yTol >= 0.0
    requires forall i :: 0 <= i < |ws| ==> ws[i].top == ws[0].top
    ensures Group(ws, yTol) == [ws]
  {
    GroupFromLevel(ws[1..], [ws[0]], ws[0].top, yTol);
    assert [ws[0]] + ws[1..] == ws;
  }

  /** A word further than `yTol` from the running position of the line before starts a new line. */
  lemma GroupFromBreak(ws: seq<Word>, current: seq<Word>, lastTop: real, yTol: real)
    requires ws != [] && Abs(ws[0].top - lastTop) > yTol
    ensures GroupFrom(ws, current, lastTop, yTol)[0] == current
  {
  }

  // ---------------------------------------------------------------- the text of the lines

  function Texts(ws: seq<Word>): (r: seq<string>)
    ensures |r| == |ws| && forall i :: 0 <= i < |ws| ==> r[i] == ws[i].text
  {
    seq(|ws|, i requires 0 <= i < |ws| => ws[i].text)
  }

  /** `" ".join(x["text"] for x in sorted(line, key=x0))` */
  function LineText(line: seq<Word>): string {
    Join(" ", Texts(SortWords(line, ByX0)))
  }

  function LineTexts(lines: seq<seq<Word>>): (r: seq<string>)
    ensures |r| == |lines| && forall k :: 0 <= k < |lines| ==> r[k] == LineText(lines[k])
  {
    seq(|lines|, k requires 0 <= k < |lines| => LineText(lines[k]))
  }

  /** The final clean-up: hyphen joining, blank runs, newline runs, then `strip()`. */
  function CleanText(s: string): string {
    Strip(CollapseNewlines(CollapseBlanks(FixHyphenation(s))))
  }

  /** The lines of a page's text before clean-up. */
  function ExtractedLines(words: seq<Word>, tableBoxes: seq<Rect>, yTol: real): seq<string> {
    LineTexts(Group(SortWords(OutsideTables(words, tableBoxes), ByTopThenX0), yTol))
  }

  /** The text of a page with its table words masked. */
  function ExtractedText(words: seq<Word>, tableBoxes: seq<Rect>, yTol: real): string {
    CleanText(Join("\n", ExtractedLines(words, tableBoxes, yTol)))
  }

  lemma LineTextsAppend(lines: seq<seq<Word>>, line: seq<Word>)
    ensures LineTexts(lines + [line]) == LineTexts(lines) + [LineText(line)]
  {
  }

  lemma GroupFromStep(ws: seq<Word>, i: nat, current: seq<Word>, lastTop: real, yTol: real)
    requires i < |ws|
    ensures GroupFrom(ws[i..], current, lastTop, yTol) ==
      if Abs(ws[i].top - lastTop) <= yTol then GroupFrom(ws[i + 1..], current + [ws[i]], (lastTop + ws[i].top) / 2.0, yTol)
      else [current] + GroupFrom(ws[i + 1..], [ws[i]], ws[i].top, yTol)
  {
    assert ws[i..][0] == ws[i] && ws[i..][1..] == ws[i + 1..];
  }

  /** `extract_text_without_tables(page, table_bboxes)`, with the page's words given. */
  method ExtractTextWithoutTables(words: seq<Word>, tableBoxes: seq<Rect>, yTol: real) returns (text: string)
    ensures text == ExtractedText(words, tableBoxes, yTol)
  {
    var filtered := OutsideTables(words, tableBoxes);
    var sorted := SortWords(filtered, ByTopThenX0);
    var lines: seq<string> := [];
    var current: seq<Word> := [];
    var lastTop: Option<real> := None;
    ghost var done: seq<seq<Word>> := [];
    var i := 0;
    while i < |sorted|
      invariant 0 <= i <= |sorted|
      invariant lines == LineTexts(done)
      invariant i == 0 <==> lastTop.None?
      invariant i == 0 ==> done == [] && current == []
      invariant i > 0 ==> Group(sorted, yTol) == done + GroupFrom(sorted[i..], current, lastTop.value, yTol)
      invariant i > 0 ==> current != []
    {
      var w := sorted[i];
      if lastTop.None? {
        current := [w];
        lastTop := Some(w.top);
        assert sorted[1..] == sorted[i + 1..];
      } else {
        GroupFromStep(sorted, i, current, lastTop.value, yTol);
        if Abs(w.top - lastTop.value) <= yTol {
          current := current + [w];
          lastTop := Some((lastTop.value + w.top) / 2.0);
        } else {
          ConcatAssoc(done, [current], GroupFrom(sorted[i + 1..], [w], w.top, yTol));
          LineTextsAppend(done, current);
          lines := lines + [LineText(current)];
          done := done + [current];
          current := [w];
          lastTop := Some(w.top);
        }
      }
      i := i + 1;
    }
    assert sorted[i..] == [];
    if current != [] {
      LineTextsAppend(done, current);
      lines := lines + [LineText(current)];
      done := done + [current];
    }
    assert done == Group(sorted, yTol);
    text := Join("\n", lines);
    text := FixHyphenation(text);
    text := CollapseBlanks(text);
    text := CollapseNewlines(text);
    text := Strip(text);
  }

  // ---------------------------------------------------------------- properties of the text

  /** The cleaned text is stripped, has no tab, no double space and no run of three newlines. */
  lemma CleanTextShape(s: string)
    ensures var r := CleanText(s);
      Stripped(r) && '\t' !in r && SingleSpaced(r) && NoTripleNewline(r)
  {
    var b := CollapseBlanks(FixHyphenation(s));
    CollapseNewlinesKeepsBlanks(b);
    StripKeepsShape(CollapseNewlines(b));
  }

  lemma StripKeepsShape(n: string)
    requires '\t' !in n && SingleSpaced(n) && NoTripleNewline(n)
    ensures var r := Strip(n);
      '\t' !in r && SingleSpaced(r) && NoTripleNewline(r)
  {
    StripSlice(n);
    var r := Strip(n);
    var a := |n| - |LStrip(n)|;
    assert r == n[a..a + |r|];
    assert forall i :: 0 <= i < |r| ==> r[i] == n[a + i];
  }

  /** A page whose every word lies in a table box has no text. */
  lemma NoTextWhenAllMasked(words: seq<Word>, tableBoxes: seq<Rect>, yTol: real)
    requires forall i :: 0 <= i < |words| ==> InsideAny(WordBox(words[i]), tableBoxes, InsideMargin)
    ensures ExtractedText(words, tableBoxes, yTol) == ""
  {
    AllMasked(words, tableBoxes);
    assert FixHyphenation("") == "";
  }

  lemma {:induction false} AllMasked(words: seq<Word>, tableBoxes: seq<Rect>)
    requires forall i :: 0 <= i < |words| ==> InsideAny(WordBox(words[i]), tableBoxes, InsideMargin)
    ensures OutsideTables(words, tableBoxes) == []
  {
    if words != [] {
      AllMasked(words[1..], tableBoxes);
    }
  }

  /** Every word that survives masking appears in exactly one line, in reading order. */
  lemma ExtractedLinesCover(words: seq<Word>, tableBoxes: seq<Rect>, yTol: real)
    ensures var sorted := SortWords(OutsideTables(words, tableBoxes), ByTopThenX0);
      Flatten(Group(sorted, yTol)) == sorted
      && SortedBy(sorted, ByTopThenX0)
      && multiset(sorted) == multiset(OutsideTables(words, tableBoxes))
  {
    var filtered := OutsideTables(words, tableBoxes);
    SortWordsSpec(filtered, ByTopThenX0);
    GroupSpec(SortWords(filtered, ByTopThenX0), yTol);
  }
}
