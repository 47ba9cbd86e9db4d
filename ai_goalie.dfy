/** The AI Goalie scraper: one prediction row of the page becomes one table
    row (date, fixture, expected goals, pick, goals line, win percentage,
    result, total goals, under), rows from other days or that fail to parse
    are skipped, and the table is cut down to the confident predictions. */
module AiGoalie {
  import opened Wrappers
  import opened Text
  import opened Numbers
  import opened Seqs

  /** The texts of one `tr.match` row, as read from the page and before
      stripping; `pick` is None when the row has no underlined team. */
  datatype ScrapedRow = ScrapedRow(
    date: string, home: string, score: string, away: string,
    pick: Option<string>, winPercent: string, result: string, expectedGoals: string)

  /** One output row, column by column: Date, Fixture, XG, Pick, Goals_Pick,
      Win %, Result, Total, Under.  An empty XG cell is None. */
  datatype AiRow = AiRow(
    date: string, fixture: string, xg: Option<real>, pick: string,
    goalsPick: Option<real>, winPercent: string, result: string,
    total: Option<int>, under: Option<bool>)

  /** The expected-goals columns of a row. */
  datatype Goals = Goals(xg: Option<real>, line: Option<real>, under: Option<bool>)

  function Fixture(home: string, away: string, score: string): string {
    home + " - " + away + ": " + score
  }

  /** `int(parts[0]) + int(parts[1])` for `parts = score.split(":")`; None
      where that raises. */
  function ScoreTotal(score: string): Option<int> {
    PartsTotal(SplitOn(score, ':'))
  }

  function PartsTotal(parts: seq<string>): Option<int> {
    if |parts| < 2 then None
    else
      var home, away := ParseInt(parts[0]), ParseInt(parts[1]);
      if home.Some? && away.Some? then Some(home.value + away.value) else None
  }

  /** A score written "h:a" with decimal digits on each side adds up to
      the two numbers. */
  lemma ScoreTotalOf(h: string, a: string)
    requires h != [] && a != [] && AllDigits(h) && AllDigits(a)
    ensures ScoreTotal(h + [':'] + a) == Some(DigitsValue(h) + DigitsValue(a) as int)
  {
    SplitScore(h, a);
    DigitPartsTotal(h, a);
  }

  lemma DigitPartsTotal(h: string, a: string)
    requires h != [] && a != [] && AllDigits(h) && AllDigits(a)
    ensures PartsTotal([h, a]) == Some(DigitsValue(h) + DigitsValue(a) as int)
  {
    ParseIntDigits(h);
    SecondPartTotal(h, a, DigitsValue(h));
  }

  lemma SecondPartTotal(h: string, a: string, x: int)
    requires ParseInt(h) == Some(x) && a != [] && AllDigits(a)
    ensures PartsTotal([h, a]) == Some(x + DigitsValue(a) as int)
  {
    ParseIntDigits(a);
    PartsTotalOf(h, a, x, DigitsValue(a));
  }

  lemma PartsTotalOf(h: string, a: string, x: int, y: int)
    requires ParseInt(h) == Some(x) && ParseInt(a) == Some(y)
    ensures PartsTotal([h, a]) == Some(x + y)
  {
    var parts := [h, a];
    assert parts[0] == h && parts[1] == a;
  }

  lemma SplitScore(h: string, a: string)
    requires AllDigits(h) && AllDigits(a)
    ensures SplitOn(h + [':'] + a, ':') == [h, a]
  {
    NoColon(h);
    NoColon(a);
    SplitOnFirst(h, ':', a);
    assert SplitOn(a, ':') == [a];
  }

  lemma NoColon(s: string)
    requires AllDigits(s)
    ensures ':' !in s
  {
    assert forall i :: 0 <= i < |s| ==> s[i] != ':';
  }

  /** A character that the pattern `[^\d.]` leaves in place. */
  predicate IsNumeral(c: char) { IsDigit(c) || c == '.' }

  /** `re.sub(r"[^\d.]", "", s)`: keeps the digits and decimal points. */
  function KeepNumeral(s: string): (r: string)
    ensures |r| <= |s|
    ensures forall i :: 0 <= i < |r| ==> IsDigit(r[i]) || r[i] == '.'
    decreases |s|
  {
    if s == [] then []
    else
      var rest := KeepNumeral(s[1..]);
      assert forall i :: 1 <= i < |s| ==> s[i] == s[1..][i - 1];
      if IsDigit(s[0]) || s[0] == '.' then [s[0]] + rest else rest
  }

  /** The substitution keeps exactly the digits and points of the text, in
      their order: it is the text filtered by `IsNumeral`. */
  lemma {:induction false} KeepNumeralFilter(s: string)
    ensures KeepNumeral(s) == Filter(s, IsNumeral)
    decreases |s|
  {
    if s != [] {
      KeepNumeralFilter(s[1..]);
      assert s == [s[0]] + s[1..];
      FilterAppend([s[0]], s[1..], IsNumeral);
      FilterSnoc([], s[0], IsNumeral);
      assert [] + [s[0]] == [s[0]];
    }
  }

  /** A character is in the result exactly when it is a digit or a point
      of the text. */
  lemma KeepNumeralMembers(s: string)
    ensures forall c :: c in KeepNumeral(s) <==> c in s && IsNumeral(c)
  {
    KeepNumeralFilter(s);
    forall c ensures c in Filter(s, IsNumeral) <==> c in s && IsNumeral(c) {
      FilterMember(s, IsNumeral, c);
    }
  }

  /** `math.ceil(xg) + 0.5`: the half-goal line just above the expected goals. */
  function GoalsLine(xg: real): (line: real)
    ensures line == Ceil(xg) as real + 0.5
    ensures xg + 0.5 <= line < xg + 1.5
  {
    Ceil(xg) as real + 0.5
  }

  /** A match stays under the line exactly when its total is at most the
      expected goals rounded up. */
  lemma UnderLine(xg: real, total: int)
    ensures GoalsLine(xg) > total as real <==> total <= Ceil(xg)
  {
  }

  /** The XG, Goals_Pick and Under columns, given the total; None where
      `float()` raises. */
  function ExpectedGoals(text: string, total: Option<int>): (r: Option<Goals>)
    ensures r.Some? && r.value.xg.None? ==> r.value.line.None? && r.value.under.None?
    ensures r.Some? && r.value.xg.Some? ==> r.value.line == Some(GoalsLine(r.value.xg.value))
    ensures r.Some? ==> (r.value.under.Some? <==> r.value.xg.Some? && total.Some?)
    ensures r.Some? && r.value.under.Some? ==>
      (r.value.under.value <==> total.value <= Ceil(r.value.xg.value))
    ensures r.None? <==> KeepNumeral(Strip(text)) != [] && ParseDecimal(KeepNumeral(Strip(text))).None?
    ensures KeepNumeral(Strip(text)) == [] ==> r == Some(Goals(None, None, None))
    ensures r.Some? && KeepNumeral(Strip(text)) != [] ==> r.value.xg == ParseDecimal(KeepNumeral(Strip(text)))
  {
    var digits := KeepNumeral(Strip(text));
    if digits == [] then Some(Goals(None, None, None))
    else
      match ParseDecimal(digits)
      case None => None
      case Some(x) =>
        var line := GoalsLine(x);
        UnderLine(x, if total.Some? then total.value else 0);
        Some(Goals(Some(x), Some(line), if total.None? then None else Some(line > total.value as real)))
  }

  /** XG text whose digits and points read as `x` gives the line above `x`,
      and Under compares the total with `x` rounded up. */
  lemma ExpectedGoalsOf(text: string, total: Option<int>, x: real)
    requires KeepNumeral(Strip(text)) != [] && ParseDecimal(KeepNumeral(Strip(text))) == Some(x)
    ensures ExpectedGoals(text, total) ==
      Some(Goals(Some(x), Some(GoalsLine(x)), if total.None? then None else Some(total.value <= Ceil(x))))
  {
    if total.Some? {
      UnderLine(x, total.value);
    }
  }

  /** The number at the end of the date text, `int(date.split()[-1])`. */
  function DayOf(date: string): Option<int> {
    var parts := Split(date);
    if parts == [] then None else ParseInt(parts[|parts| - 1])
  }

  /** The Pick column: the underlined team's name, or "" without one. */
  function StrippedPick(pick: Option<string>): string {
    match pick
    case None => ""
    case Some(p) => Strip(p)
  }

  /** A row of the past-results page, kept only when its date falls on `day`.
      A played match (non-empty result) must have a readable score. */
  function PastRow(raw: ScrapedRow, day: int): (r: Option<AiRow>)
    ensures var total := if Strip(raw.result) != "" then ScoreTotal(Strip(raw.score)) else None;
      var g := ExpectedGoals(raw.expectedGoals, total);
      (r.Some? <==> (Strip(raw.result) != "" ==> total.Some?) && g.Some? && DayOf(Strip(raw.date)) == Some(day)) &&
      (r.Some? ==>
         r.value.pick == StrippedPick(raw.pick) && r.value.total == total &&
         r.value.xg == g.value.xg && r.value.goalsPick == g.value.line && r.value.under == g.value.under)
    ensures r.Some? ==> DayOf(r.value.date) == Some(day) && r.value.date == Strip(raw.date)
    ensures r.Some? ==> r.value.fixture == Fixture(Strip(raw.home), Strip(raw.away), Strip(raw.score))
    ensures r.Some? ==> r.value.result == Strip(raw.result) && r.value.winPercent == Strip(raw.winPercent)
    ensures r.Some? ==> (r.value.total.Some? <==> r.value.result != "")
    ensures r.Some? && r.value.total.Some? ==> r.value.total == ScoreTotal(Strip(raw.score))
    ensures r.Some? && r.value.under.Some? ==>
      r.value.total.Some? && r.value.xg.Some? && (r.value.under.value <==> r.value.total.value <= Ceil(r.value.xg.value))
  {
    var date, score, result := Strip(raw.date), Strip(raw.score), Strip(raw.result);
    var total := if result != "" then ScoreTotal(score) else None;
    if result != "" && total.None? then None
    else
      match ExpectedGoals(raw.expectedGoals, total)
      case None => None
      case Some(g) =>
        if DayOf(date) == Some(day) then
          Some(AiRow(date, Fixture(Strip(raw.home), Strip(raw.away), score), g.xg, StrippedPick(raw.pick),
                     g.line, Strip(raw.winPercent), result, total, g.under))
        else None
  }

  /** A row of today's page: no result yet, the total is always read from
      the score, and any date ending in a number is accepted. */
  function TodayRow(raw: ScrapedRow): (r: Option<AiRow>)
    ensures var total := ScoreTotal(Strip(raw.score));
      var g := ExpectedGoals(raw.expectedGoals, total);
      (r.Some? <==> total.Some? && g.Some? && DayOf(Strip(raw.date)).Some?) &&
      (r.Some? ==>
         r.value.pick == StrippedPick(raw.pick) && r.value.total == total &&
         r.value.xg == g.value.xg && r.value.goalsPick == g.value.line && r.value.under == g.value.under)
    ensures r.Some? ==> DayOf(r.value.date).Some? && r.value.date == Strip(raw.date)
    ensures r.Some? ==> r.value.fixture == Fixture(Strip(raw.home), Strip(raw.away), Strip(raw.score))
    ensures r.Some? ==> r.value.result == "" && r.value.winPercent == Strip(raw.winPercent)
    ensures r.Some? ==> r.value.total.Some? && r.value.total == ScoreTotal(Strip(raw.score))
    ensures r.Some? ==> (r.value.under.Some? <==> r.value.xg.Some?)
    ensures r.Some? && r.value.under.Some? ==>
      (r.value.under.value <==> r.value.total.value <= Ceil(r.value.xg.value))
  {
    var date, score := Strip(raw.date), Strip(raw.score);
    var total := ScoreTotal(score);
    if total.None? then None
    else
      match ExpectedGoals(raw.expectedGoals, total)
      case None => None
      case Some(g) =>
        if DayOf(date).Some? then
          Some(AiRow(date, Fixture(Strip(raw.home), Strip(raw.away), score), g.xg, StrippedPick(raw.pick),
                     g.line, Strip(raw.winPercent), "", total, g.under))
        else None
  }

  /** For a played match the two pages agree: the past page keeps the row
      exactly when today's page would and the day matches, with the result
      filled in. */
  lemma PastAgreesWithToday(raw: ScrapedRow, day: int)
    requires Strip(raw.result) != ""
    ensures PastRow(raw, day) ==
      match TodayRow(raw)
      case None => None
      case Some(t) => if DayOf(t.date) == Some(day) then Some(t.(result := Strip(raw.result))) else None
  {
  }

  function PastRowOf(day: int): ScrapedRow -> Option<AiRow> {
    raw => PastRow(raw, day)
  }

  /** `float(win.replace("%", "").strip())`. */
  function WinValue(r: AiRow): Option<real> {
    ParseDecimal(Strip(RemoveAll(r.winPercent, "%")))
  }

  /** The Win % filter: a row whose percentage does not parse is dropped. */
  predicate WinAtLeast(threshold: int, r: AiRow) {
    WinValue(r).Some? && WinValue(r).value >= threshold as real
  }

  function KeepsWin(threshold: int): AiRow -> bool {
    r => WinAtLeast(threshold, r)
  }

  /** A Win % written as a whole percentage reads as that number, and the
      row reaches a threshold exactly when the number does. */
  lemma WinWholePercent(r: AiRow, n: nat, threshold: int)
    requires r.winPercent == NatToString(n) + "%"
    ensures WinValue(r) == Some(n as real)
    ensures WinAtLeast(threshold, r) <==> n >= threshold
  {
    CleanPercentWhole(n);
  }

  /** A row with a whole Win % is kept by the filter exactly when it is in
      the table and its percentage reaches the threshold. */
  lemma KeptAtWholePercent(data: seq<AiRow>, r: AiRow, n: nat, threshold: int)
    requires r.winPercent == NatToString(n) + "%"
    ensures r in Filter(data, KeepsWin(threshold)) <==> r in data && n >= threshold
  {
    FilterMember(data, KeepsWin(threshold), r);
    WinWholePercent(r, n, threshold);
  }

  /** The confidence filter loop, shared by both pages. */
  method FilterByWin(data: seq<AiRow>, threshold: int) returns (clean: seq<AiRow>)
    ensures clean == Filter(data, KeepsWin(threshold))
    ensures forall r :: r in clean <==> r in data && WinAtLeast(threshold, r)
  {
    clean := [];
    for i := 0 to |data|
      invariant clean == Filter(data[..i], KeepsWin(threshold))
    {
      FilterStep(data, i, clean, KeepsWin(threshold));
      if WinAtLeast(threshold, data[i]) {
        clean := clean + [data[i]];
      }
    }
    assert data[..|data|] == data;
    forall r ensures r in clean <==> r in data && WinAtLeast(threshold, r) {
      FilterMember(data, KeepsWin(threshold), r);
    }
  }

  /** The past-results page for `day`: rows of that day whose win percentage
      is at least 60, in page order. */
  method AiGoalieGetPast(rows: seq<ScrapedRow>, day: int) returns (clean: seq<AiRow>)
    ensures clean == Filter(FilterMap(rows, PastRowOf(day)), KeepsWin(60))
    ensures forall r :: r in clean ==> DayOf(r.date) == Some(day) && WinAtLeast(60, r)
  {
    var data: seq<AiRow> := [];
    for i := 0 to |rows|
      invariant data == FilterMap(rows[..i], PastRowOf(day))
    {
      FilterMapStep(rows, i, data, PastRowOf(day));
      var built := PastRow(rows[i], day);
      if built.Some? {
        data := data + [built.value];
      }
    }
    assert rows[..|rows|] == rows;
    clean := FilterByWin(data, 60);
    forall r | r in clean ensures DayOf(r.date) == Some(day) {
      PastRowsOfDay(rows, day, r);
    }
  }

  lemma PastRowsOfDay(rows: seq<ScrapedRow>, day: int, r: AiRow)
    requires r in FilterMap(rows, PastRowOf(day))
    ensures DayOf(r.date) == Some(day)
  {
    FilterMapMember(rows, PastRowOf(day), r);
    var i :| 0 <= i < |rows| && PastRowOf(day)(rows[i]) == Some(r);
  }

  /** Today's page: the full table, and the rows whose win percentage is at
      least 55. */
  method AiGoalieGet(rows: seq<ScrapedRow>) returns (full: seq<AiRow>, clean: seq<AiRow>)
    ensures full == FilterMap(rows, TodayRow)
    ensures clean == Filter(full, KeepsWin(55))
    ensures forall r :: r in clean <==> r in full && WinAtLeast(55, r)
  {
    full := [];
    for i := 0 to |rows|
      invariant full == FilterMap(rows[..i], TodayRow)
    {
      FilterMapStep(rows, i, full, TodayRow);
      var built := TodayRow(rows[i]);
      if built.Some? {
        full := full + [built.value];
      }
    }
    assert rows[..|rows|] == rows;
    clean := FilterByWin(full, 55);
  }

  /** Filtering at 55 and then at 60 is filtering at 60: the past page's
      threshold is the stricter one. */
  lemma {:induction false} StricterThreshold(data: seq<AiRow>)
    ensures Filter(Filter(data, KeepsWin(55)), KeepsWin(60)) == Filter(data, KeepsWin(60))
    decreases |data|
  {
    if data != [] {
      var init, last := data[..|data| - 1], data[|data| - 1];
      StricterThreshold(init);
      var once := Filter(init, KeepsWin(55));
      var keep := if WinAtLeast(55, last) then [last] else [];
      assert Filter(data, KeepsWin(55)) == once + keep;
      FilterAppend(once, keep, KeepsWin(60));
      if WinAtLeast(55, last) {
        FilterSnoc([], last, KeepsWin(60));
      }
    }
  }
}
