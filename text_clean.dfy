/**
 * The regular-expression clean-ups of utils/pdf_to_text_process.py written as character-level
 * functions: hyphenation repair (`-\s*\n\s*` removed), collapsing of blank runs (`[ \t]+`), of
 * newline runs (`\n{3,}`) and of whitespace runs (`\s+`), and `normalize_for_compare`, which
 * also removes a comma standing between two digits (`(?<=\d),(?=\d)`).
 */
module TextClean {
  import opened Wrappers
  import opened Strings

  /** Length of the whitespace run at the start of `s`. */
  function WsRun(s: string): (k: nat)
    ensures k <= |s| && Blank(s[..k])
    ensures k < |s| ==> !IsSpace(s[k])
  {
    if s == [] || !IsSpace(s[0]) then 0 else 1 + WsRun(s[1..])
  }

  lemma WsRunOfBlankPrefix(w: string, t: string)
    requires Blank(w)
    requires t == [] || !IsSpace(t[0])
    ensures WsRun(w + t) == |w|
  {
    if w != [] {
      assert (w + t)[1..] == w[1..] + t;
      WsRunOfBlankPrefix(w[1..], t);
    }
  }

  // ---------------------------------------------------------------- fix_hyphenation

  /**
   * A hyphen at the head of `s` that the pattern `-\s*\n\s*` matches: the whitespace run after it
   * holds a newline. Greedy matching with backtracking then takes that whole run.
   */
  predicate BrokenHyphenAt(s: string)
    requires s != []
  {
    s[0] == '-' && '\n' in s[1..1 + WsRun(s[1..])]
  }

  /** `fix_hyphenation(text)`: scanning left to right, each broken hyphen is deleted together with its run. */
  function FixHyphenation(s: string): (r: string)
    ensures |r| <= |s|
    decreases |s|
  {
    if s == [] then []
    else if BrokenHyphenAt(s) then FixHyphenation(s[1 + WsRun(s[1..])..])
    else [s[0]] + FixHyphenation(s[1..])
  }

  /** No hyphen of `s` is followed by a whitespace run that holds a newline. */
  predicate HyphensJoined(s: string)
    decreases |s|
  {
    s == [] || (!BrokenHyphenAt(s) && HyphensJoined(s[1..]))
  }

  /** Text that starts with a non-blank character still does after hyphenation repair. */
  lemma {:induction false} FixHyphenationKeepsHead(t: string)
    requires t == [] || !IsSpace(t[0])
    ensures FixHyphenation(t) == [] || !IsSpace(FixHyphenation(t)[0])
    decreases |t|
  {
    if t != [] && BrokenHyphenAt(t) {
      FixHyphenationKeepsHead(t[1 + WsRun(t[1..])..]);
    }
  }

  /** A whitespace run is copied unchanged; the repair goes on after it. */
  lemma {:induction false} FixHyphenationOfBlank(w: string, t: string)
    requires Blank(w)
    ensures FixHyphenation(w + t) == w + FixHyphenation(t)
  {
    if w != [] {
      assert (w + t)[0] == w[0] && !BrokenHyphenAt(w + t);
      assert (w + t)[1..] == w[1..] + t;
      FixHyphenationOfBlank(w[1..], t);
      assert FixHyphenation(w + t) == [w[0]] + FixHyphenation(w[1..] + t);
      assert [w[0]] + (w[1..] + FixHyphenation(t)) == w + FixHyphenation(t);
    } else {
      assert w + t == t;
    }
  }

  /** A character put in front of hyphen-joined text keeps it joined unless it is a broken hyphen. */
  lemma HyphensJoinedCons(c: char, x: string)
    requires HyphensJoined(x)
    requires c == '-' ==> '\n' !in x[..WsRun(x)]
    ensures HyphensJoined([c] + x)
  {
    var y := [c] + x;
    assert y[1..] == x;
  }

  /** After the repair no broken hyphen is left: the deletions never create a new one. */
  lemma {:induction false} FixHyphenationJoins(s: string)
    ensures HyphensJoined(FixHyphenation(s))
    decreases |s|
  {
    if s == [] {
    } else if BrokenHyphenAt(s) {
      FixHyphenationJoins(s[1 + WsRun(s[1..])..]);
    } else {
      var rest := s[1..];
      FixHyphenationJoins(rest);
      assert FixHyphenation(s) == [s[0]] + FixHyphenation(rest);
      if s[0] == '-' {
        HyphenKeptBefore(s);
      }
      HyphensJoinedCons(s[0], FixHyphenation(rest));
    }
  }

  /** A hyphen that is kept is followed, after the repair, by the same blanks it was followed by, so no line break. */
  lemma HyphenKeptBefore(s: string)
    requires s != [] && s[0] == '-' && !BrokenHyphenAt(s)
    ensures var rest := FixHyphenation(s[1..]); '\n' !in rest[..WsRun(rest)]
  {
    var rest := s[1..];
    var k := WsRun(rest);
    var w, t := rest[..k], rest[k..];
    assert rest == w + t;
    assert '\n' !in w;
    FixHyphenationOfBlank(w, t);
    FixHyphenationKeepsHead(t);
    WsRunOfBlankPrefix(w, FixHyphenation(t));
    assert FixHyphenation(rest)[..WsRun(FixHyphenation(rest))] == w;
  }

  /** Text without a broken hyphen is left as it is. */
  lemma {:induction false} FixHyphenationOfJoined(s: string)
    requires HyphensJoined(s)
    ensures FixHyphenation(s) == s
    decreases |s|
  {
    if s != [] {
      FixHyphenationOfJoined(s[1..]);
    }
  }

  /** Repairing hyphenation twice is the same as once. */
  lemma FixHyphenationIdempotent(s: string)
    ensures FixHyphenation(FixHyphenation(s)) == FixHyphenation(s)
  {
    FixHyphenationJoins(s);
    FixHyphenationOfJoined(FixHyphenation(s));
  }

  /** Text without a hyphen passes through unchanged ahead of the rest. */
  lemma {:induction false} FixHyphenationOfPlain(a: string, t: string)
    requires '-' !in a
    ensures FixHyphenation(a + t) == a + FixHyphenation(t)
  {
    if a != [] {
      assert (a + t)[0] == a[0] && !BrokenHyphenAt(a + t);
      assert (a + t)[1..] == a[1..] + t;
      FixHyphenationOfPlain(a[1..], t);
      assert FixHyphenation(a + t) == [a[0]] + FixHyphenation(a[1..] + t);
      assert [a[0]] + (a[1..] + FixHyphenation(t)) == a + FixHyphenation(t);
    } else {
      assert a + t == t;
    }
  }

  /** A hyphen followed by a line break and indentation disappears with them: `"examp-\nle"` gives `"example"`. */
  lemma FixHyphenationExample()
    ensures FixHyphenation("examp-\nle") == "example"
  {
    var tail := "-\nle";
    assert "examp-\nle" == "examp" + tail;
    FixHyphenationOfPlain("examp", tail);
    assert WsRun(tail[1..]) == 1 by { WsRunOfBlankPrefix("\n", "le"); }
    assert BrokenHyphenAt(tail);
    assert tail[2..] == "le";
    FixHyphenationOfPlain("le", "");
    assert "le" + "" == "le";
  }

  // ---------------------------------------------------------------- run collapsing

  predicate IsBlankChar(c: char) { c == ' ' || c == '\t' }

  function BlankRun(s: string): (k: nat)
    ensures k <= |s| && forall i :: 0 <= i < k ==> IsBlankChar(s[i])
    ensures k < |s| ==> !IsBlankChar(s[k])
  {
    if s == [] || !IsBlankChar(s[0]) then 0 else 1 + BlankRun(s[1..])
  }

  /** `re.sub(r"[ \t]+", " ", s)`: every run of spaces and tabs becomes one space. */
  function CollapseBlanks(s: string): (r: string)
    ensures '\t' !in r
    ensures forall i :: 0 <= i < |r| - 1 ==> !(r[i] == ' ' && r[i + 1] == ' ')
    ensures r == [] <==> s == []
    ensures s != [] && !IsBlankChar(s[0]) ==> r[0] == s[0]
    decreases |s|
  {
    if s == [] then []
    else if IsBlankChar(s[0]) then
      var rest := s[BlankRun(s)..];
      var r := [' '] + CollapseBlanks(rest);
      assert r[1..] == CollapseBlanks(rest);
      r
    else
      var r := [s[0]] + CollapseBlanks(s[1..]);
      assert r[1..] == CollapseBlanks(s[1..]);
      r
  }

  function NewlineRun(s: string): (k: nat)
    ensures k <= |s| && forall i :: 0 <= i < k ==> s[i] == '\n'
    ensures k < |s| ==> s[k] != '\n'
  {
    if s == [] || s[0] != '\n' then 0 else 1 + NewlineRun(s[1..])
  }

  /** `re.sub(r"\n{3,}", "\n\n", s)`: a run of three or more newlines becomes exactly two. */
  function CollapseNewlines(s: string): (r: string)
    ensures forall i :: 0 <= i < |r| - 2 ==> !(r[i] == '\n' && r[i + 1] == '\n' && r[i + 2] == '\n')
    ensures r == [] <==> s == []
    ensures s != [] ==> r[0] == s[0]
    decreases |s|
  {
    if s == [] then []
    else if s[0] == '\n' then
      var k := NewlineRun(s);
      var rest := CollapseNewlines(s[k..]);
      var r := Repeat('\n', if k >= 3 then 2 else k) + rest;
      assert rest == [] || rest[0] != '\n';
      assert r[|r| - |rest|..] == rest;
      r
    else
      var r := [s[0]] + CollapseNewlines(s[1..]);
      assert r[1..] == CollapseNewlines(s[1..]);
      r
  }

  /** No two spaces stand next to each other. */
  predicate SingleSpaced(s: string) {
    forall i :: 0 <= i < |s| - 1 ==> !(s[i] == ' ' && s[i + 1] == ' ')
  }

  /** Nowhere three newlines in a row. */
  predicate NoTripleNewline(s: string) {
    forall i :: 0 <= i < |s| - 2 ==> !(s[i] == '\n' && s[i + 1] == '\n' && s[i + 2] == '\n')
  }

  /** Shortening newline runs keeps a text free of tabs and of double spaces. */
  lemma {:induction false} CollapseNewlinesKeepsBlanks(s: string)
    requires '\t' !in s && SingleSpaced(s)
    ensures '\t' !in CollapseNewlines(s) && SingleSpaced(CollapseNewlines(s))
    decreases |s|
  {
    if s != [] {
      if s[0] == '\n' {
        var k := NewlineRun(s);
        var rest := CollapseNewlines(s[k..]);
        CollapseNewlinesKeepsBlanks(s[k..]);
        var m := if k >= 3 then 2 else k;
        var r := Repeat('\n', m) + rest;
        assert CollapseNewlines(s) == r;
        forall i | 0 <= i < |r| - 1 ensures !(r[i] == ' ' && r[i + 1] == ' ') {
          if i >= m {
            assert r[i] == rest[i - m] && r[i + 1] == rest[i + 1 - m];
          }
        }
        assert forall i :: m <= i < |r| ==> r[i] == rest[i - m];
      } else {
        var rest := CollapseNewlines(s[1..]);
        CollapseNewlinesKeepsBlanks(s[1..]);
        var r := [s[0]] + rest;
        assert CollapseNewlines(s) == r;
        assert forall i :: 1 <= i < |r| ==> r[i] == rest[i - 1];
        if |s| > 1 {
          assert r[1] == s[1];
        }
      }
    }
  }

  /** `re.sub(r"\s+", " ", s)`: every run of whitespace becomes one plain space. */
  function CollapseWhitespace(s: string): (r: string)
    ensures s != [] && !IsSpace(s[0]) ==> r != [] && r[0] == s[0]
    ensures r == [] ==> s == []
    decreases |s|
  {
    if s == [] then []
    else if IsSpace(s[0]) then [' '] + CollapseWhitespace(s[WsRun(s)..])
    else [s[0]] + CollapseWhitespace(s[1..])
  }

  /** Every whitespace character is a plain space. */
  predicate PlainSpaces(s: string) {
    forall i :: 0 <= i < |s| ==> IsSpace(s[i]) ==> s[i] == ' '
  }

  /** No two whitespace characters stand next to each other. */
  predicate NoDoubleSpace(s: string) {
    forall i :: 0 <= i < |s| - 1 ==> !(IsSpace(s[i]) && IsSpace(s[i + 1]))
  }

  lemma {:induction false} CollapseWhitespaceSpaced(s: string)
    ensures PlainSpaces(CollapseWhitespace(s)) && NoDoubleSpace(CollapseWhitespace(s))
    decreases |s|
  {
    if s != [] {
      var rest := if IsSpace(s[0]) then s[WsRun(s)..] else s[1..];
      CollapseWhitespaceSpaced(rest);
      var r := CollapseWhitespace(s);
      assert r[1..] == CollapseWhitespace(rest);
    }
  }

  lemma {:induction false} CollapseWhitespaceOfSpaced(s: string)
    requires PlainSpaces(s) && NoDoubleSpace(s)
    ensures CollapseWhitespace(s) == s
    decreases |s|
  {
    if s != [] {
      if IsSpace(s[0]) {
        assert WsRun(s) == 1 by {
          if |s| > 1 { assert !IsSpace(s[1]); assert WsRun(s[1..]) == 0; }
        }
      }
      CollapseWhitespaceOfSpaced(s[1..]);
    }
  }

  // ---------------------------------------------------------------- digit commas

  /**
   * `re.sub(r"(?<=\d),(?=\d)", "", s)`: a comma is removed when the character before it in the
   * ORIGINAL string and the one after it are digits; `afterDigit` says whether the character
   * before `s` was a digit. The character after a removed comma therefore has a comma before it.
   */
  function DropDigitCommas(afterDigit: bool, s: string): (r: string)
    ensures |r| <= |s|
    ensures forall i :: 0 <= i < |r| ==> r[i] in s
    decreases |s|
  {
    if s == [] then []
    else if s[0] == ',' && afterDigit && |s| > 1 && IsDigit(s[1]) then DropDigitCommas(false, s[1..])
    else [s[0]] + DropDigitCommas(IsDigit(s[0]), s[1..])
  }

  /** No comma of `s` stands between two digits (the first with `afterDigit` before it). */
  predicate NoDigitCommaFrom(afterDigit: bool, s: string)
    decreases |s|
  {
    s == [] || (!(s[0] == ',' && afterDigit && |s| > 1 && IsDigit(s[1])) && NoDigitCommaFrom(IsDigit(s[0]), s[1..]))
  }

  /** No comma stands between two digits. */
  predicate NoDigitComma(s: string) {
    forall i :: 0 < i < |s| - 1 && s[i] == ',' ==> !(IsDigit(s[i - 1]) && IsDigit(s[i + 1]))
  }

  lemma {:induction false} NoDigitCommaFromQuantified(afterDigit: bool, s: string)
    requires NoDigitCommaFrom(afterDigit, s)
    ensures NoDigitComma(s)
    decreases |s|
  {
    if s != [] {
      NoDigitCommaFromQuantified(IsDigit(s[0]), s[1..]);
      forall i | 0 < i < |s| - 1 && s[i] == ','
        ensures !(IsDigit(s[i - 1]) && IsDigit(s[i + 1]))
      {
        if i > 1 {
          assert s[1..][i - 1] == s[i];
        } else {
          assert !(s[1..][0] == ',' && IsDigit(s[0]) && |s[1..]| > 1 && IsDigit(s[1..][1]));
        }
      }
    }
  }

  /** The head is kept whenever it cannot be a removable comma. */
  lemma DropDigitCommasHead(afterDigit: bool, s: string)
    requires s != [] && (!afterDigit || s[0] != ',')
    ensures DropDigitCommas(afterDigit, s) == [s[0]] + DropDigitCommas(IsDigit(s[0]), s[1..])
  {
  }

  /** After removal no comma stands between two digits. */
  lemma {:induction false} DropDigitCommasClean(afterDigit: bool, s: string)
    ensures NoDigitCommaFrom(afterDigit, DropDigitCommas(afterDigit, s))
    decreases |s|
  {
    if s == [] {
    } else if s[0] == ',' && afterDigit && |s| > 1 && IsDigit(s[1]) {
      var t := s[1..];
      DropDigitCommasHead(false, t);
      DropDigitCommasClean(IsDigit(t[0]), t[1..]);
    } else {
      DropDigitCommasClean(IsDigit(s[0]), s[1..]);
      if s[0] == ',' && afterDigit && |s| > 1 {
        DropDigitCommasHead(false, s[1..]);
      }
    }
  }

  lemma {:induction false} DropDigitCommasOfClean(afterDigit: bool, s: string)
    requires NoDigitCommaFrom(afterDigit, s)
    ensures DropDigitCommas(afterDigit, s) == s
    decreases |s|
  {
    if s != [] {
      DropDigitCommasOfClean(IsDigit(s[0]), s[1..]);
    }
  }

  /** The last character is never a removable comma, so it is kept. */
  lemma {:induction false} DropDigitCommasLast(afterDigit: bool, s: string)
    requires s != []
    ensures var r := DropDigitCommas(afterDigit, s); r != [] && r[|r| - 1] == s[|s| - 1]
    decreases |s|
  {
    if |s| > 1 {
      var p := if s[0] == ',' && afterDigit && IsDigit(s[1]) then false else IsDigit(s[0]);
      DropDigitCommasLast(p, s[1..]);
    }
  }

  lemma NoDoubleSpaceCons(c: char, x: string)
    requires NoDoubleSpace(x)
    requires x != [] && IsSpace(c) ==> !IsSpace(x[0])
    ensures NoDoubleSpace([c] + x)
  {
    var y := [c] + x;
    forall i | 0 <= i < |y| - 1
      ensures !(IsSpace(y[i]) && IsSpace(y[i + 1]))
    {
      if i > 0 {
        assert y[i] == x[i - 1] && y[i + 1] == x[i];
      }
    }
  }

  /** Removing commas never makes two whitespace characters meet. */
  lemma {:induction false} DropDigitCommasSpacing(afterDigit: bool, s: string)
    requires NoDoubleSpace(s)
    ensures NoDoubleSpace(DropDigitCommas(afterDigit, s))
    decreases |s|
  {
    if s != [] {
      var t := s[1..];
      assert NoDoubleSpace(t) by {
        forall i | 0 <= i < |t| - 1 ensures !(IsSpace(t[i]) && IsSpace(t[i + 1])) {
          assert t[i] == s[i + 1] && t[i + 1] == s[i + 2];
        }
      }
      if s[0] == ',' && afterDigit && |s| > 1 && IsDigit(s[1]) {
        DropDigitCommasSpacing(false, t);
      } else {
        DropDigitCommasSpacing(IsDigit(s[0]), t);
        if IsSpace(s[0]) && t != [] {
          DropDigitCommasHead(false, t);
          assert !IsSpace(s[1]);
        }
        NoDoubleSpaceCons(s[0], DropDigitCommas(IsDigit(s[0]), t));
      }
    }
  }

  // ---------------------------------------------------------------- normalize_for_compare

  /**
   * Unicode normalization form NFKC. It is taken as the identity here: its tables are not part
   * of this model.
   */
  function Nfkc(s: string): string { s }

  /**
   * `normalize_for_compare(s)`: `None` gives `""`; otherwise NFKC, whitespace runs collapsed to one
   * space, the ends stripped, and commas between digits removed.
   */
  function NormalizeForCompare(s: Option<string>): (r: string)
    ensures s == None ==> r == ""
  {
    match s
    case None => ""
    case Some(text) => DropDigitCommas(false, Strip(CollapseWhitespace(Nfkc(text))))
  }

  /** A normalized string is stripped, has only plain single spaces and no comma between digits. */
  lemma NormalizedForm(s: Option<string>)
    ensures var r := NormalizeForCompare(s);
      Stripped(r) && PlainSpaces(r) && NoDoubleSpace(r) && NoDigitComma(r)
  {
    if s.Some? {
      var collapsed := CollapseWhitespace(Nfkc(s.value));
      CollapseWhitespaceSpaced(Nfkc(s.value));
      StripKeepsSpacing(collapsed);
      DroppedNormal(Strip(collapsed));
    }
  }

  lemma DroppedNormal(s: string)
    requires Stripped(s) && PlainSpaces(s) && NoDoubleSpace(s)
    ensures var r := DropDigitCommas(false, s);
      Stripped(r) && PlainSpaces(r) && NoDoubleSpace(r) && NoDigitComma(r)
  {
    var r := DropDigitCommas(false, s);
    if s != [] {
      DropDigitCommasHead(false, s);
      DropDigitCommasLast(false, s);
    }
    DropDigitCommasSpacing(false, s);
    DropDigitCommasClean(false, s);
    NoDigitCommaFromQuantified(false, r);
  }

  lemma StripKeepsSpacing(s: string)
    requires PlainSpaces(s) && NoDoubleSpace(s)
    ensures PlainSpaces(Strip(s)) && NoDoubleSpace(Strip(s))
  {
    StripSlice(s);
  }

  /** Normalizing a normalized string changes nothing. */
  lemma {:induction false} NormalizeIdempotent(s: Option<string>)
    ensures NormalizeForCompare(Some(NormalizeForCompare(s))) == NormalizeForCompare(s)
  {
    var r := NormalizeForCompare(s);
    NormalizedForm(s);
    CollapseWhitespaceOfSpaced(r);
    StripOfStripped(r);
    NoDigitCommaFromOfQuantified(false, r);
    DropDigitCommasOfClean(false, r);
  }

  lemma {:induction false} NoDigitCommaFromOfQuantified(afterDigit: bool, s: string)
    requires NoDigitComma(s)
    requires s != [] && s[0] == ',' && |s| > 1 && IsDigit(s[1]) ==> !afterDigit
    ensures NoDigitCommaFrom(afterDigit, s)
    decreases |s|
  {
    if s != [] {
      var t := s[1..];
      assert NoDigitComma(t) by {
        forall i | 0 < i < |t| - 1 && t[i] == ','
          ensures !(IsDigit(t[i - 1]) && IsDigit(t[i + 1]))
        {
          assert s[i + 1] == t[i];
        }
      }
      NoDigitCommaFromOfQuantified(IsDigit(s[0]), t);
    }
  }

  /** A blank string normalizes to the empty string and any other string to a non-empty one. */
  lemma NormalizeEmptyIffBlank(s: string)
    ensures NormalizeForCompare(Some(s)) == "" <==> Blank(s)
  {
    var c := CollapseWhitespace(s);
    CollapseWhitespaceBlank(s);
    StripEmptyIffBlank(c);
    var spaced := Strip(c);
    if spaced != [] {
      DropDigitCommasHead(false, spaced);
    }
  }

  lemma {:induction false} CollapseWhitespaceBlank(s: string)
    ensures Blank(CollapseWhitespace(s)) <==> Blank(s)
    decreases |s|
  {
    if s != [] {
      var k := if IsSpace(s[0]) then WsRun(s) else 1;
      CollapseWhitespaceBlank(s[k..]);
      BlankSplit(s, k);
      BlankSplit(CollapseWhitespace(s), 1);
    }
  }

  /** A string is blank exactly when both its halves are. */
  lemma BlankSplit(s: string, k: nat)
    requires k <= |s|
    ensures Blank(s) <==> Blank(s[..k]) && Blank(s[k..])
  {
    assert s == s[..k] + s[k..];
    if Blank(s[..k]) && Blank(s[k..]) {
      forall i | 0 <= i < |s| ensures IsSpace(s[i]) {
        if i < k { assert s[i] == s[..k][i]; } else { assert s[i] == s[k..][i - k]; }
      }
    }
  }
}
