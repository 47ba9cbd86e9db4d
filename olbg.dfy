/** The OLBG tips scraper: every tip block becomes a row, and its confidence
    is the number written before a `%` in the block's style attribute,
    `re.search(r"(\d+)%", style).group(1)`, or "" when there is none. */
module Olbg {
  import opened Wrappers
  import opened Text
  import opened Numbers
  import opened Seqs

  /** The texts of one tip block; `time` is the `datetime` attribute (None
      when absent), `style` the confidence element's style (None when the
      element or the attribute is missing), `comments` None when the
      comment counter is missing. */
  datatype ScrapedTip = ScrapedTip(
    fixture: string, pick: string, competition: string, time: Option<string>,
    winInfo: string, style: Option<string>, comments: Option<string>)

  /** One output row: Fixture, Pick, Competition, Time, Win Info,
      Confidence %, Comments. */
  datatype TipRow = TipRow(
    fixture: string, pick: string, competition: string, time: Option<string>,
    winInfo: string, confidence: string, comments: string)

  /** End of the run of digits starting at `i`. */
  function DigitRunEnd(s: string, i: nat): (j: nat)
    requires i <= |s|
    ensures i <= j <= |s|
    ensures forall k :: i <= k < j ==> IsDigit(s[k])
    ensures j < |s| ==> !IsDigit(s[j])
    decreases |s| - i
  {
    if i < |s| && IsDigit(s[i]) then DigitRunEnd(s, i + 1) else i
  }

  /** `(\d+)%` matches at `a`: the greedy digit run from `a` is followed by
      `%` (a shorter run is followed by a digit, so backtracking cannot help). */
  predicate MatchesAt(s: string, a: nat) {
    a < |s| && IsDigit(s[a]) && DigitRunEnd(s, a) < |s| && s[DigitRunEnd(s, a)] == '%'
  }

  /** The leftmost match at or after `i`; its group is the digit run. */
  function SearchFrom(s: string, i: nat): Option<string>
    requires i <= |s|
    decreases |s| - i
  {
    if i == |s| then None
    else if MatchesAt(s, i) then Some(s[i..DigitRunEnd(s, i)])
    else SearchFrom(s, i + 1)
  }

  function PercentNumber(s: string): Option<string> {
    SearchFrom(s, 0)
  }

  /** The search result is the group of the leftmost match position. */
  lemma {:induction false} SearchFromLeftmost(s: string, i: nat)
    requires i <= |s|
    ensures SearchFrom(s, i).None? <==> forall a :: i <= a < |s| ==> !MatchesAt(s, a)
    ensures SearchFrom(s, i).Some? ==>
      exists a :: i <= a < |s| && MatchesAt(s, a) && SearchFrom(s, i).value == s[a..DigitRunEnd(s, a)] &&
                  forall b :: i <= b < a ==> !MatchesAt(s, b)
    decreases |s| - i
  {
    if i < |s| && !MatchesAt(s, i) {
      SearchFromLeftmost(s, i + 1);
      if SearchFrom(s, i).Some? {
        var a :| i + 1 <= a < |s| && MatchesAt(s, a) && SearchFrom(s, i + 1).value == s[a..DigitRunEnd(s, a)] &&
                 forall b :: i + 1 <= b < a ==> !MatchesAt(s, b);
        assert forall b :: i <= b < a ==> !MatchesAt(s, b);
      }
    }
  }

  /** Position `k` holds a `%` right after a digit. */
  predicate PercentAfterDigit(s: string, k: int) {
    0 < k < |s| && s[k] == '%' && IsDigit(s[k - 1])
  }

  /** A digit run that reaches a `%` ends there. */
  lemma RunToPercent(s: string, k: int)
    requires PercentAfterDigit(s, k)
    ensures MatchesAt(s, k - 1) && DigitRunEnd(s, k - 1) == k
  {
  }

  /** A run starting one digit earlier ends at the same place. */
  lemma RunExtends(s: string, a: nat)
    requires 0 < a < |s| && IsDigit(s[a - 1])
    ensures DigitRunEnd(s, a - 1) == DigitRunEnd(s, a)
  {
  }

  /** A digit that does not start a match is not followed by `%`. */
  lemma NoPercentAfter(s: string, k: int)
    requires 0 < k < |s| && IsDigit(s[k - 1]) && !MatchesAt(s, k - 1)
    ensures s[k] != '%'
  {
    if !IsDigit(s[k]) {
      assert DigitRunEnd(s, k - 1) == k;
    }
  }

  /** A match that no earlier position shares starts a run of digits. */
  lemma RunStartsAfterNonDigit(s: string, a: nat)
    requires 0 < a < |s| && MatchesAt(s, a) && !MatchesAt(s, a - 1)
    ensures !IsDigit(s[a - 1])
  {
    if IsDigit(s[a - 1]) {
      RunExtends(s, a);
    }
  }

  /** No match exactly when no `%` follows a digit; a match is the whole run
      of digits before the first `%` that follows a digit. */
  lemma PercentNumberSpec(s: string)
    ensures PercentNumber(s).None? <==> forall k :: !PercentAfterDigit(s, k)
    ensures PercentNumber(s).Some? ==>
      var d := PercentNumber(s).value;
      d != [] && AllDigits(d) &&
      exists e :: PercentAfterDigit(s, e) && |d| <= e && d == s[e - |d|..e] &&
                  (e == |d| || !IsDigit(s[e - |d| - 1])) &&
                  forall k :: k < e ==> !PercentAfterDigit(s, k)
  {
    PercentNumberNone(s);
    if PercentNumber(s).Some? {
      PercentNumberSome(s);
    }
  }

  lemma PercentNumberNone(s: string)
    ensures PercentNumber(s).None? <==> forall k :: !PercentAfterDigit(s, k)
  {
    SearchFromLeftmost(s, 0);
    forall k | PercentAfterDigit(s, k) ensures MatchesAt(s, k - 1) {
      RunToPercent(s, k);
    }
    if PercentNumber(s).Some? {
      var a :| 0 <= a < |s| && MatchesAt(s, a);
      assert PercentAfterDigit(s, DigitRunEnd(s, a));
    }
  }

  lemma PercentNumberSome(s: string)
    requires PercentNumber(s).Some?
    ensures var d := PercentNumber(s).value;
      d != [] && AllDigits(d) &&
      exists e :: PercentAfterDigit(s, e) && |d| <= e && d == s[e - |d|..e] &&
                  (e == |d| || !IsDigit(s[e - |d| - 1])) &&
                  forall k :: k < e ==> !PercentAfterDigit(s, k)
  {
    SearchFromLeftmost(s, 0);
    var d := PercentNumber(s).value;
    var a :| 0 <= a < |s| && MatchesAt(s, a) && d == s[a..DigitRunEnd(s, a)] &&
             forall b :: 0 <= b < a ==> !MatchesAt(s, b);
    var e := DigitRunEnd(s, a);
    assert |d| == e - a && e - |d| == a;
    assert PercentAfterDigit(s, e);
    if a > 0 {
      RunStartsAfterNonDigit(s, a);
    }
    NoEarlierPercent(s, a);
  }

  /** Before the end of the leftmost match no `%` follows a digit. */
  lemma NoEarlierPercent(s: string, a: nat)
    requires a < |s| && MatchesAt(s, a) && forall b :: 0 <= b < a ==> !MatchesAt(s, b)
    ensures forall k :: k < DigitRunEnd(s, a) ==> !PercentAfterDigit(s, k)
  {
    var e := DigitRunEnd(s, a);
    forall k | k < e ensures !PercentAfterDigit(s, k) {
      if 0 < k < |s| && IsDigit(s[k - 1]) {
        if k - 1 < a {
          NoPercentAfter(s, k);
        } else {
          assert IsDigit(s[k]);
        }
      }
    }
  }

  /** The Confidence % cell: "" when the style is missing or empty or holds
      no match. */
  function Confidence(style: Option<string>): string {
    match style
    case None => ""
    case Some(st) =>
      if st == "" then ""
      else
        match PercentNumber(st)
        case None => ""
        case Some(d) => d
  }

  /** The confidence is empty exactly when the style is missing or no
      `%` in it follows a digit. */
  lemma ConfidenceEmpty(style: Option<string>)
    ensures Confidence(style) == "" <==> style.None? || forall k :: !PercentAfterDigit(style.value, k)
  {
    if style.Some? {
      PercentNumberSpec(style.value);
    }
  }

  /** A non-empty confidence is a run of digits written right before a `%`
      of the style. */
  lemma ConfidenceWritten(style: Option<string>)
    requires Confidence(style) != ""
    ensures AllDigits(Confidence(style)) && Contains(style.value, Confidence(style) + "%")
  {
    var st, c := style.value, Confidence(style);
    assert PercentNumber(st) == Some(c);
    PercentNumberSpec(st);
    var e :| PercentAfterDigit(st, e) && |c| <= e && c == st[e - |c|..e];
    PercentAt(st, c, e);
  }

  lemma PercentAt(st: string, c: string, e: nat)
    requires |c| <= e < |st| && st[e] == '%' && c == st[e - |c|..e]
    ensures Contains(st, c + "%")
  {
    assert st[e - |c|..e + 1] == c + "%";
    assert c + "%" <= st[e - |c|..];
  }

  function Row(m: ScrapedTip): TipRow {
    TipRow(Strip(m.fixture), Strip(m.pick), Strip(m.competition), m.time, Strip(m.winInfo),
           Confidence(m.style), match m.comments case None => "0" case Some(c) => Strip(c))
  }

  /** The scraping loop: one row per tip block, in page order. */
  method OlbgGet(matches: seq<ScrapedTip>) returns (data: seq<TipRow>)
    ensures data == Map(matches, Row)
  {
    data := [];
    for i := 0 to |matches|
      invariant data == Map(matches[..i], Row)
    {
      MapStep(matches, i, data, Row);
      data := data + [Row(matches[i])];
    }
    assert matches[..|matches|] == matches;
  }
}
