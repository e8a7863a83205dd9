/**
 * The page splitter of `text_to_documents` in utils/pdf_to_text_process.py:
 * `PAGE_SPLIT_RE.split(text)` with `PAGE_SPLIT_RE = \n{0,2}=== 페이지\s*(\d+)\s*===\n{0,2}`.
 * `re.split` with one group returns the text before the first match, then for each match its
 * group (the page number) and the text up to the next match. The pattern is written out as a
 * character-level matcher, with the greedy choices and the backtracking it implies.
 */
module PageSplit {
  import opened Wrappers
  import opened Strings

  /** A character every match holds, in the first seven characters after its newline prefix. */
  const PageChar: char := '페'

  /** `t` starts with the literal `=== 페이지` that opens the pattern's core. */
  predicate HeadAt(t: string) {
    |t| >= 7 && t[0] == '=' && t[1] == '=' && t[2] == '=' && t[3] == ' '
    && t[4] == PageChar && t[5] == '이' && t[6] == '지'
  }

  /** `t` holds the literal `===` at position `e`. */
  predicate RuleAt(t: string, e: nat) {
    e + 3 <= |t| && t[e] == '=' && t[e + 1] == '=' && t[e + 2] == '='
  }

  // The run lengths below carry no quantified postcondition: the matcher unfolds them at every
  // position it tries, and their facts are proved where they are needed.

  /** Length of the run of whitespace (`\s`) at the start of `s`. */
  function SpaceRun(s: string): (k: nat)
    ensures k <= |s|
  {
    if s == [] || !IsSpace(s[0]) then 0 else 1 + SpaceRun(s[1..])
  }

  /** Length of the run of digits (`\d`) at the start of `s`. */
  function DigitRun(s: string): (k: nat)
    ensures k <= |s|
  {
    if s == [] || !IsDigit(s[0]) then 0 else 1 + DigitRun(s[1..])
  }

  /** Length of the run of newlines at the start of `s`. */
  function NewlineRun(s: string): (k: nat)
    ensures k <= |s|
  {
    if s == [] || s[0] != '\n' then 0 else 1 + NewlineRun(s[1..])
  }

  lemma {:induction false} DigitRunDigits(s: string)
    ensures AllDigits(s[..DigitRun(s)])
  {
    if s != [] && IsDigit(s[0]) {
      DigitRunDigits(s[1..]);
      assert s[..DigitRun(s)] == [s[0]] + s[1..][..DigitRun(s[1..])];
    }
  }

  lemma {:induction false} DigitRunOfDigits(d: string, rest: string)
    requires AllDigits(d)
    requires rest == [] || !IsDigit(rest[0])
    ensures DigitRun(d + rest) == |d|
  {
    if d != [] {
      assert (d + rest)[1..] == d[1..] + rest;
      DigitRunOfDigits(d[1..], rest);
    }
  }

  /** A match relative to where it starts: the bounds of the group and the end of the match. */
  datatype Hit = Hit(groupStart: nat, groupEnd: nat, end: nat)

  /** The group of a hit lies inside the text, after the head, and is followed by more of the match. */
  predicate WellPlaced(h: Hit, len: nat) {
    7 <= h.groupStart < h.groupEnd <= h.end <= len
  }

  /**
   * The pattern after its newline prefix, `=== 페이지\s*(\d+)\s*===\n{0,2}`, at the start of `t`.
   * No backtracking is possible inside it: whitespace is never a digit and `=` is neither.
   */
  function CoreOf(t: string): (r: Option<Hit>)
    ensures r.Some? ==> WellPlaced(r.value, |t|) && HeadAt(t)
  {
    if !HeadAt(t) then None
    else
      var a := 7 + SpaceRun(t[7..]);
      var k := DigitRun(t[a..]);
      if k == 0 then None
      else
        var b := a + k;
        var e := b + SpaceRun(t[b..]);
        if RuleAt(t, e) then
          var n := NewlineRun(t[e + 3..]);
          Some(Hit(a, b, e + 3 + (if n >= 2 then 2 else n)))
        else None
  }

  /** The group of a core match is a run of digits. */
  lemma CoreOfDigits(t: string, h: Hit)
    requires CoreOf(t).Some? && CoreOf(t).value == h
    ensures AllDigits(t[h.groupStart..h.groupEnd])
  {
    var a := 7 + SpaceRun(t[7..]);
    var k := DigitRun(t[a..]);
    DigitRunDigits(t[a..]);
    assert t[a..a + k] == t[a..][..k];
  }

  function Shift(h: Hit, k: nat): Hit {
    Hit(h.groupStart + k, h.groupEnd + k, h.end + k)
  }

  /** The whole pattern at the start of `t`. `\n{0,2}` is greedy: two newlines are tried first, then one, then none. */
  function MatchOf(t: string): (r: Option<Hit>)
    ensures r.Some? ==> WellPlaced(r.value, |t|)
    ensures r.Some? ==> t[4] == PageChar || t[5] == PageChar || t[6] == PageChar
  {
    if |t| >= 2 && t[0] == '\n' && t[1] == '\n' && CoreOf(t[2..]).Some? then
      Some(Shift(CoreOf(t[2..]).value, 2))
    else if |t| >= 1 && t[0] == '\n' && CoreOf(t[1..]).Some? then
      Some(Shift(CoreOf(t[1..]).value, 1))
    else
      CoreOf(t)
  }

  lemma AllDigitsShift(t: string, k: nat, a: nat, b: nat)
    requires k + b <= |t| && a <= b
    requires AllDigits(t[k..][a..b])
    ensures AllDigits(t[k + a..k + b])
  {
    assert t[k + a..k + b] == t[k..][a..b];
  }

  /** The group of a core match `k` characters into `t` is a run of digits. */
  lemma ShiftedCoreDigits(t: string, k: nat, h: Hit)
    requires k <= |t| && CoreOf(t[k..]).Some? && CoreOf(t[k..]).value == h
    ensures Shift(h, k).groupEnd <= |t| && AllDigits(t[Shift(h, k).groupStart..Shift(h, k).groupEnd])
  {
    CoreOfDigits(t[k..], h);
    ShiftedDigits(t, k, h);
  }

  lemma ShiftedDigits(t: string, k: nat, h: Hit)
    requires k <= |t| && WellPlaced(h, |t| - k)
    requires AllDigits(t[k..][h.groupStart..h.groupEnd])
    ensures Shift(h, k).groupEnd <= |t| && AllDigits(t[Shift(h, k).groupStart..Shift(h, k).groupEnd])
  {
    AllDigitsShift(t, k, h.groupStart, h.groupEnd);
  }

  /** The group of a match is a run of digits. */
  lemma MatchOfDigits(t: string, h: Hit)
    requires MatchOf(t).Some? && MatchOf(t).value == h
    ensures AllDigits(t[h.groupStart..h.groupEnd])
  {
    if |t| >= 2 && t[0] == '\n' && t[1] == '\n' && CoreOf(t[2..]).Some? {
      ShiftedCoreDigits(t, 2, CoreOf(t[2..]).value);
      assert h == Shift(CoreOf(t[2..]).value, 2);
    } else if |t| >= 1 && t[0] == '\n' && CoreOf(t[1..]).Some? {
      ShiftedCoreDigits(t, 1, CoreOf(t[1..]).value);
      assert h == Shift(CoreOf(t[1..]).value, 1);
    } else {
      CoreOfDigits(t, h);
    }
  }

  /** A match in absolute positions. */
  datatype Match = Match(start: nat, groupStart: nat, groupEnd: nat, end: nat)

  /** The leftmost match that starts at `p` or later. */
  function FirstMatch(s: string, p: nat): (r: Option<Match>)
    requires p <= |s|
    ensures r.Some? ==> p <= r.value.start && r.value.start + 7 <= r.value.groupStart < r.value.groupEnd <= r.value.end <= |s|
    decreases |s| - p
  {
    match MatchOf(s[p..])
    case Some(h) => Some(Match(p, p + h.groupStart, p + h.groupEnd, p + h.end))
    case None => if p == |s| then None else FirstMatch(s, p + 1)
  }

  /**
   * `PAGE_SPLIT_RE.split(s)`: an odd number of parts, every odd-numbered one the digits of a
   * page number.
   */
  function SplitPages(s: string): (parts: seq<string>)
    ensures |parts| % 2 == 1
    decreases |s|
  {
    match FirstMatch(s, 0)
    case None => [s]
    case Some(m) =>
      var rest := SplitPages(s[m.end..]);
      var parts := [s[..m.start], s[m.groupStart..m.groupEnd]] + rest;
      assert forall i :: 2 <= i < |parts| ==> parts[i] == rest[i - 2];
      parts
  }

  /** Without a match at `p`, the leftmost match from `p` on is the leftmost one from `p + 1` on. */
  lemma FirstMatchSkip(s: string, p: nat)
    requires p < |s| && MatchOf(s[p..]).None?
    ensures FirstMatch(s, p).Some? == FirstMatch(s, p + 1).Some?
    ensures FirstMatch(s, p).Some? ==> FirstMatch(s, p).value == FirstMatch(s, p + 1).value
  {
  }

  /** The group of the leftmost match is a run of digits. */
  lemma {:induction false} FirstMatchDigits(s: string, p: nat, m: Match)
    requires p <= |s|
    requires FirstMatch(s, p).Some? && FirstMatch(s, p).value == m
    ensures AllDigits(s[m.groupStart..m.groupEnd])
    decreases |s| - p
  {
    if MatchOf(s[p..]).Some? {
      FoundMatchDigits(s, p, m);
    } else if p < |s| {
      FirstMatchSkip(s, p);
      FirstMatchDigits(s, p + 1, m);
    }
  }

  lemma FoundMatchDigits(s: string, p: nat, m: Match)
    requires p <= |s| && MatchOf(s[p..]).Some?
    requires FirstMatch(s, p).Some? && FirstMatch(s, p).value == m
    ensures AllDigits(s[m.groupStart..m.groupEnd])
  {
    var h := MatchOf(s[p..]).value;
    FirstMatchHere(s, p, h);
    MatchOfDigits(s[p..], h);
    GroupDigits(s, p, h, m);
  }

  /** A match `p` characters into `s` has the same group as the hit it was placed from. */
  lemma GroupDigits(s: string, p: nat, h: Hit, m: Match)
    requires p <= |s| && WellPlaced(h, |s| - p)
    requires m.groupStart == p + h.groupStart && m.groupEnd == p + h.groupEnd
    requires AllDigits(s[p..][h.groupStart..h.groupEnd])
    ensures AllDigits(s[m.groupStart..m.groupEnd])
  {
    AllDigitsShift(s, p, h.groupStart, h.groupEnd);
  }

  /** Every odd-numbered part of a split is the digits of a page number. */
  lemma {:induction false} SplitPagesDigits(s: string)
    ensures forall i :: 0 <= i < |SplitPages(s)| && i % 2 == 1 ==> AllDigits(SplitPages(s)[i])
    decreases |s|
  {
    match FirstMatch(s, 0)
    case None =>
    case Some(m) =>
      FirstMatchDigits(s, 0, m);
      SplitPagesDigits(s[m.end..]);
      SplitPagesOfFirst(s, m);
      OddPartsDigits(s[..m.start], s[m.groupStart..m.groupEnd], SplitPages(s[m.end..]));
  }

  lemma OddPartsDigits(head: string, group: string, rest: seq<string>)
    requires AllDigits(group)
    requires forall i :: 0 <= i < |rest| && i % 2 == 1 ==> AllDigits(rest[i])
    ensures var parts := [head, group] + rest;
      forall i :: 0 <= i < |parts| && i % 2 == 1 ==> AllDigits(parts[i])
  {
    var parts := [head, group] + rest;
    forall i | 0 <= i < |parts| && i % 2 == 1 ensures AllDigits(parts[i]) {
      if i >= 2 {
        assert parts[i] == rest[i - 2];
      }
    }
  }

  // ---------------------------------------------------------------- the markers convert_pdf_to_text writes

  /** The line written in front of each page, with the blank line after it. */
  function Marker(page: nat): string {
    "=== 페이지 " + NatToString(page) + " ===\n\n"
  }

  /** What follows the page number in a marker: a space, the closing `===` and a blank line. */
  lemma MarkerTail(y: string)
    ensures var tail := " ===\n\n" + y;
      SpaceRun(tail) == 1 && RuleAt(tail, 1) && NewlineRun(tail[4..]) >= 2
  {
    var tail := " ===\n\n" + y;
    assert tail[1..][0] == '=';
    assert tail[4..][0] == '\n' && tail[4..][1..][0] == '\n';
  }

  /** The head of a marker, up to the page number: the literal, one space, then the digits. */
  lemma MarkerHead(page: nat, y: string)
    ensures var d := NatToString(page);
      var t := Marker(page) + y;
      HeadAt(t) && SpaceRun(t[7..]) == 1 && DigitRun(t[8..]) == |d| && t[8 + |d|..] == " ===\n\n" + y
  {
    var d := NatToString(page);
    var t := Marker(page) + y;
    var tail := " ===\n\n" + y;
    assert t == "=== 페이지 " + (d + tail);
    assert t[7..][1..] == t[8..] == d + tail;
    assert !IsSpace(t[8]);
    DigitRunOfDigits(d, tail);
  }

  /** The core of the pattern matches a marker whole, with the page number as its group. */
  lemma CoreOfMarker(page: nat, y: string)
    ensures var d := NatToString(page);
      CoreOf(Marker(page) + y).Some? && CoreOf(Marker(page) + y).value == Hit(8, 8 + |d|, |Marker(page)|)
  {
    var d := NatToString(page);
    var t := Marker(page) + y;
    var tail := " ===\n\n" + y;
    var b := 8 + |d|;
    MarkerHead(page, y);
    MarkerTail(y);
    assert t[b..] == tail;
    assert t[b + 4..] == tail[4..];
    assert RuleAt(t, b + 1);
    assert b + 4 + 2 == |Marker(page)|;
  }

  /** At the start of a marker the pattern matches with an empty newline prefix. */
  lemma MatchOfMarker(page: nat, y: string)
    ensures var d := NatToString(page);
      MatchOf(Marker(page) + y).Some? && MatchOf(Marker(page) + y).value == Hit(8, 8 + |d|, |Marker(page)|)
  {
    CoreOfMarker(page, y);
    assert (Marker(page) + y)[0] == '=';
  }

  /** Before a marker preceded by a blank line, the pattern takes the two newlines as its prefix. */
  lemma MatchOfGapMarker(page: nat, y: string)
    ensures var d := NatToString(page);
      MatchOf("\n\n" + Marker(page) + y).Some? && MatchOf("\n\n" + Marker(page) + y).value == Hit(10, 10 + |d|, 2 + |Marker(page)|)
  {
    var t := "\n\n" + Marker(page) + y;
    assert t[2..] == Marker(page) + y;
    CoreOfMarker(page, y);
  }

  /** No match starts where the next seven characters after the prefix hold no `페`. */
  lemma NoMatchWithoutPageChar(t: string)
    requires forall i :: 4 <= i < 7 && i < |t| ==> t[i] != PageChar
    ensures MatchOf(t).None?
  {
  }

  lemma {:induction false} FirstMatchNone(s: string, p: nat)
    requires p <= |s|
    requires forall j :: p <= j <= |s| ==> MatchOf(s[j..]).None?
    ensures FirstMatch(s, p).None?
    decreases |s| - p
  {
    if p < |s| {
      FirstMatchNone(s, p + 1);
    }
  }

  /** Text without a `페` is not split at all. */
  lemma SplitPagesPlain(x: string)
    requires PageChar !in x
    ensures SplitPages(x) == [x]
  {
    forall j | 0 <= j <= |x| ensures MatchOf(x[j..]).None? {
      NoMatchWithoutPageChar(x[j..]);
    }
    FirstMatchNone(x, 0);
  }

  /** A match at `p` is the leftmost one from `p` on. */
  lemma FirstMatchHere(s: string, p: nat, h: Hit)
    requires p <= |s|
    requires MatchOf(s[p..]).Some? && MatchOf(s[p..]).value == h
    ensures FirstMatch(s, p).Some? && FirstMatch(s, p).value == Match(p, p + h.groupStart, p + h.groupEnd, p + h.end)
  {
  }

  /** With no match from `p` up to `q`, the leftmost match from `p` on is the one at `q`. */
  lemma {:induction false} FirstMatchAt(s: string, p: nat, q: nat, h: Hit)
    requires p <= q <= |s|
    requires forall j :: p <= j < q ==> MatchOf(s[j..]).None?
    requires MatchOf(s[q..]).Some? && MatchOf(s[q..]).value == h
    ensures FirstMatch(s, p).Some? && FirstMatch(s, p).value == Match(q, q + h.groupStart, q + h.groupEnd, q + h.end)
    decreases q - p
  {
    if p < q {
      FirstMatchAt(s, p + 1, q, h);
    } else {
      FirstMatchHere(s, p, h);
    }
  }

  /** The split unfolds at its leftmost match. */
  lemma SplitPagesOfFirst(s: string, m: Match)
    requires FirstMatch(s, 0).Some? && FirstMatch(s, 0).value == m
    ensures m.end <= |s| && m.groupStart <= m.groupEnd
    ensures SplitPages(s) == [s[..m.start], s[m.groupStart..m.groupEnd]] + SplitPages(s[m.end..])
  {
  }

  /** A text that starts with a marker splits into an empty head, the page number and the split of the rest. */
  lemma SplitPagesHead(page: nat, y: string)
    ensures SplitPages(Marker(page) + y) == ["", NatToString(page)] + SplitPages(y)
  {
    var s := Marker(page) + y;
    var d := NatToString(page);
    MarkerFirstMatch(page, y);
    SplitPagesOfFirst(s, Match(0, 8, 8 + |d|, |Marker(page)|));
    MarkerSlices(page, y);
  }

  lemma MarkerFirstMatch(page: nat, y: string)
    ensures var s := Marker(page) + y; var d := NatToString(page);
      FirstMatch(s, 0).Some? && FirstMatch(s, 0).value == Match(0, 8, 8 + |d|, |Marker(page)|)
  {
    var s := Marker(page) + y;
    assert s[0..] == s;
    MatchOfMarker(page, y);
    FirstMatchHere(s, 0, Hit(8, 8 + |NatToString(page)|, |Marker(page)|));
  }

  lemma MarkerSlices(page: nat, y: string)
    ensures var s := Marker(page) + y; var d := NatToString(page);
      |Marker(page)| <= |s| && s[..0] == "" && s[8..8 + |d|] == d && s[|Marker(page)|..] == y
  {
    var s := Marker(page) + y;
    var d := NatToString(page);
    assert s == "=== 페이지 " + d + " ===\n\n" + y;
    assert s[8..8 + |d|] == d;
  }

  /** Up to the `페` of the marker, text without a `페` followed by a blank line and a marker holds none. */
  lemma GapFreeOfPageChar(x: string, page: nat, y: string)
    requires PageChar !in x
    ensures var s := x + "\n\n" + Marker(page) + y;
      forall i :: 0 <= i < |x| + 6 ==> s[i] != PageChar
  {
    var s := x + "\n\n" + Marker(page) + y;
    var g := "\n\n=== ";
    assert s == (x + g) + (s[|x| + 6..]);
    assert forall i :: 0 <= i < |x| ==> s[i] == x[i];
    assert forall i :: |x| <= i < |x| + 6 ==> s[i] == g[i - |x|];
  }

  /** No match starts inside text without a `페` that a blank line and a marker follow. */
  lemma NoMatchBeforeGap(x: string, page: nat, y: string)
    requires PageChar !in x
    ensures var s := x + "\n\n" + Marker(page) + y;
      forall j :: 0 <= j < |x| ==> MatchOf(s[j..]).None?
  {
    var s := x + "\n\n" + Marker(page) + y;
    GapFreeOfPageChar(x, page, y);
    forall j | 0 <= j < |x| ensures MatchOf(s[j..]).None? {
      var t := s[j..];
      assert forall i :: 4 <= i < 7 && i < |t| ==> t[i] == s[j + i];
      NoMatchWithoutPageChar(t);
    }
  }

  /** The leftmost match in text without a `페` followed by a blank line and a marker is the marker, blank line included. */
  lemma GapFirstMatch(x: string, page: nat, y: string)
    requires PageChar !in x
    ensures var s := x + "\n\n" + Marker(page) + y;
      var q := |x|;
      FirstMatch(s, 0).Some?
      && FirstMatch(s, 0).value == Match(q, q + 10, q + 10 + |NatToString(page)|, q + 2 + |Marker(page)|)
  {
    var s := x + "\n\n" + Marker(page) + y;
    var q := |x|;
    NoMatchBeforeGap(x, page, y);
    assert s[q..] == "\n\n" + Marker(page) + y;
    MatchOfGapMarker(page, y);
    FirstMatchAt(s, 0, q, Hit(10, 10 + |NatToString(page)|, 2 + |Marker(page)|));
  }

  /**
   * Text without a `페` followed by a blank line and a marker: the text is one part, and the
   * blank line belongs to the match.
   */
  lemma SplitPagesGap(x: string, page: nat, y: string)
    requires PageChar !in x
    ensures SplitPages(x + "\n\n" + Marker(page) + y) == [x, NatToString(page)] + SplitPages(y)
  {
    var s := x + "\n\n" + Marker(page) + y;
    var d := NatToString(page);
    var q := |x|;
    var m := |Marker(page)|;
    GapFirstMatch(x, page, y);
    SplitPagesOfFirst(s, Match(q, q + 10, q + 10 + |d|, q + 2 + m));
    assert s[..q] == x;
    assert s[q + 10..q + 10 + |d|] == d;
    assert s[q + 2 + m..] == y;
  }
}
