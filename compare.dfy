/** The cross-source comparison: every AI Goalie prediction is looked up in
    the OLBG and Oddspedia tables by the words of its pick, and a record
    joining the three confidences is written for every prediction that at
    least one other source also tips. */
module Compare {
  import opened Wrappers
  import opened Text
  import opened Numbers
  import opened Seqs
  import opened Tokens

  /** The columns of an AI Goalie row read back from its sheet; a None cell
      is a missing (NaN) value. */
  datatype PrimaryRow = PrimaryRow(
    fixture: Option<string>, pick: Option<string>, winPercent: Option<string>, result: Option<string>)

  /** The columns of an OLBG row that the comparison reads. */
  datatype OlbgEntry = OlbgEntry(pick: Option<string>, confidence: Option<string>)

  /** The columns of an Oddspedia row that the comparison reads. */
  datatype OddspediaEntry = OddspediaEntry(pick: Option<string>, confidence: Option<string>, odds: Option<string>)

  /** A record as the loop appends it, before the confidences are converted. */
  datatype Comparison = Comparison(
    fixture: Option<string>, pick: Option<string>, aiConfidence: string,
    olbgConfidence: Option<string>, oddspediaConfidence: Option<string>,
    odds: Option<string>, result: Option<string>)

  /** A record of the saved table: the three confidences are numbers or
      missing. */
  datatype Merged = Merged(
    fixture: Option<string>, pick: Option<string>, aiConfidence: Option<real>,
    olbgConfidence: Option<real>, oddspediaConfidence: Option<real>,
    odds: Option<string>, result: Option<string>)

  // ------------------------------------------------------------------------
  // Matching

  /** The `Pick_Text` column: `str(pick).lower()`. */
  function PickText(pick: Option<string>): string {
    Lower(PyStr(pick))
  }

  function OlbgText(e: OlbgEntry): string { PickText(e.pick) }

  function OddspediaText(e: OddspediaEntry): string { PickText(e.pick) }

  /** `any(token in text for token in tokens)`. */
  predicate Mentions(tokens: set<string>, text: string) {
    exists t :: t in tokens && Contains(text, t)
  }

  /** `df[df['Pick_Text'].apply(...)].iloc[0]`: the index of the first row
      whose pick text mentions a token. */
  function FirstMention(tokens: set<string>, texts: seq<string>): (r: Option<nat>)
    ensures r.None? <==> forall j :: 0 <= j < |texts| ==> !Mentions(tokens, texts[j])
    ensures r.Some? ==>
      r.value < |texts| && Mentions(tokens, texts[r.value]) &&
      forall j :: 0 <= j < r.value ==> !Mentions(tokens, texts[j])
  {
    if texts == [] then None
    else if Mentions(tokens, texts[0]) then Some(0)
    else
      match FirstMention(tokens, texts[1..])
      case None => None
      case Some(k) => Some(k + 1)
  }

  /** Without tokens no row is ever a candidate. */
  lemma NoTokensNoMention(texts: seq<string>)
    ensures FirstMention({}, texts) == None
  {
  }

  // ------------------------------------------------------------------------
  // One AI Goalie row

  /** `str(win).replace('%', '').strip()`. */
  function AiConfidenceText(win: Option<string>): string {
    Strip(RemoveAll(PyStr(win), "%"))
  }

  /** `if ai_result: result = ai_result`.  An empty text is falsy; a missing
      cell is NaN, which Python treats as true, so it is copied and stays
      missing. */
  function ResultOf(result: Option<string>): (r: Option<string>)
    ensures r.Some? ==> r.value != "" && r == result
    ensures result.Some? && result.value != "" ==> r == result
  {
    if result == Some("") then None else result
  }

  /** The record for one AI Goalie row whose pick has the given tokens, if
      OLBG or Oddspedia tips it. */
  function Record(tokens: set<string>, p: PrimaryRow, olbg: seq<OlbgEntry>, odds: seq<OddspediaEntry>)
    : Option<Comparison>
  {
    var o := FirstMention(tokens, Map(olbg, OlbgText));
    var d := FirstMention(tokens, Map(odds, OddspediaText));
    if o.None? && d.None? then None
    else
      Some(Comparison(
        p.fixture, p.pick, AiConfidenceText(p.winPercent),
        if o.Some? then olbg[o.value].confidence else None,
        if d.Some? then odds[d.value].confidence else None,
        if d.Some? then odds[d.value].odds else None,
        ResultOf(p.result)))
  }

  function CompareRow(p: PrimaryRow, olbg: seq<OlbgEntry>, odds: seq<OddspediaEntry>): Option<Comparison> {
    Record(MatchTokens(p.pick), p, olbg, odds)
  }

  function CompareWith(olbg: seq<OlbgEntry>, odds: seq<OddspediaEntry>): PrimaryRow -> Option<Comparison> {
    p => CompareRow(p, olbg, odds)
  }

  /** The `comparison_data` list. */
  function Comparisons(ai: seq<PrimaryRow>, olbg: seq<OlbgEntry>, odds: seq<OddspediaEntry>): seq<Comparison> {
    FilterMap(ai, CompareWith(olbg, odds))
  }

  // ------------------------------------------------------------------------
  // Numeric conversion

  /** `pd.to_numeric(str(v).replace('%', '').strip(), errors='coerce')`;
      None when the text is not a number. */
  function ToNumber(v: Option<string>): Option<real> {
    ParseDecimal(Strip(RemoveAll(PyStr(v), "%")))
  }

  function Convert(c: Comparison): Merged {
    Merged(c.fixture, c.pick, ToNumber(Some(c.aiConfidence)), ToNumber(c.olbgConfidence),
           ToNumber(c.oddspediaConfidence), c.odds, c.result)
  }

  // ------------------------------------------------------------------------
  // The comparison loop

  /** The loop body for one AI Goalie row, with the variables the source
      resets and reassigns. */
  method CompareOne(p: PrimaryRow, olbg: seq<OlbgEntry>, olbgText: seq<string>,
                    odds: seq<OddspediaEntry>, oddsText: seq<string>)
    returns (record: Option<Comparison>)
    requires olbgText == Map(olbg, OlbgText) && oddsText == Map(odds, OddspediaText)
    ensures record == Record(MatchTokens(p.pick), p, olbg, odds)
  {
    var tokens := MatchTokens(p.pick);
    var aiConfidence := AiConfidenceText(p.winPercent);
    var olbgConfidence: Option<string> := None;
    var oddspediaConfidence: Option<string> := None;
    var result: Option<string> := None;
    var oddsValue: Option<string> := None;
    var olbgMatch := FirstMention(tokens, olbgText);
    if p.result != Some("") {
      result := p.result;
    }
    if olbgMatch.Some? {
      olbgConfidence := olbg[olbgMatch.value].confidence;
    }
    var oddspediaMatch := FirstMention(tokens, oddsText);
    if oddspediaMatch.Some? {
      oddspediaConfidence := odds[oddspediaMatch.value].confidence;
      oddsValue := odds[oddspediaMatch.value].odds;
    }
    record := None;
    if olbgMatch.Some? || oddspediaMatch.Some? {
      record := Some(Comparison(p.fixture, p.pick, aiConfidence, olbgConfidence,
                                oddspediaConfidence, oddsValue, result));
    }
  }

  /** `compare_confidence_sources` on the three tables already loaded. */
  method CompareConfidenceSources(ai: seq<PrimaryRow>, olbg: seq<OlbgEntry>, odds: seq<OddspediaEntry>)
    returns (merged: seq<Merged>)
    ensures merged == Map(Comparisons(ai, olbg, odds), Convert)
  {
    var olbgText := Map(olbg, OlbgText);
    var oddsText := Map(odds, OddspediaText);
    var comparison: seq<Comparison> := [];
    for i := 0 to |ai|
      invariant comparison == FilterMap(ai[..i], CompareWith(olbg, odds))
    {
      var record := CompareOne(ai[i], olbg, olbgText, odds, oddsText);
      assert record == CompareWith(olbg, odds)(ai[i]);
      FilterMapStep(ai, i, comparison, CompareWith(olbg, odds));
      comparison := comparison + Emit(record);
    }
    assert ai[..|ai|] == ai;
    merged := Map(comparison, Convert);
  }

  // ------------------------------------------------------------------------
  // Properties

  /** A record is written exactly when some OLBG or Oddspedia pick text
      contains one of the tokens. */
  lemma RecordIffMention(tokens: set<string>, p: PrimaryRow, olbg: seq<OlbgEntry>, odds: seq<OddspediaEntry>)
    ensures Record(tokens, p, olbg, odds).Some? <==>
      (exists j :: 0 <= j < |olbg| && Mentions(tokens, OlbgText(olbg[j]))) ||
      (exists j :: 0 <= j < |odds| && Mentions(tokens, OddspediaText(odds[j])))
  {
    var ot, dt := Map(olbg, OlbgText), Map(odds, OddspediaText);
    if exists j :: 0 <= j < |olbg| && Mentions(tokens, OlbgText(olbg[j])) {
      var j :| 0 <= j < |olbg| && Mentions(tokens, OlbgText(olbg[j]));
      assert Mentions(tokens, ot[j]);
    }
    if exists j :: 0 <= j < |odds| && Mentions(tokens, OddspediaText(odds[j])) {
      var j :| 0 <= j < |odds| && Mentions(tokens, OddspediaText(odds[j]));
      assert Mentions(tokens, dt[j]);
    }
  }

  /** A row without a pick, or whose pick has no tokens, yields no record. */
  lemma NoTokensNoRecord(p: PrimaryRow, olbg: seq<OlbgEntry>, odds: seq<OddspediaEntry>)
    requires MatchTokens(p.pick) == {}
    ensures CompareRow(p, olbg, odds) == None
  {
    NoTokensNoMention(Map(olbg, OlbgText));
    NoTokensNoMention(Map(odds, OddspediaText));
  }

  /** The OLBG confidence comes from the first OLBG row that mentions a
      token; with no such row it stays None. */
  lemma FirstOlbgSupplies(tokens: set<string>, p: PrimaryRow, olbg: seq<OlbgEntry>, odds: seq<OddspediaEntry>)
    requires Record(tokens, p, olbg, odds).Some?
    ensures var c := Record(tokens, p, olbg, odds).value;
      (exists j :: 0 <= j < |olbg| && Mentions(tokens, OlbgText(olbg[j])) &&
                   (forall i :: 0 <= i < j ==> !Mentions(tokens, OlbgText(olbg[i]))) &&
                   c.olbgConfidence == olbg[j].confidence) ||
      ((forall j :: 0 <= j < |olbg| ==> !Mentions(tokens, OlbgText(olbg[j]))) && c.olbgConfidence == None)
  {
    var ot := Map(olbg, OlbgText);
    var o := FirstMention(tokens, ot);
    if o.Some? {
      var j := o.value;
      assert forall i :: 0 <= i < j ==> !Mentions(tokens, OlbgText(olbg[i])) by {
        forall i | 0 <= i < j ensures !Mentions(tokens, OlbgText(olbg[i])) {
          assert ot[i] == OlbgText(olbg[i]);
        }
      }
      assert Mentions(tokens, OlbgText(olbg[j]));
    } else {
      assert forall j :: 0 <= j < |olbg| ==> !Mentions(tokens, OlbgText(olbg[j])) by {
        forall j | 0 <= j < |olbg| ensures !Mentions(tokens, OlbgText(olbg[j])) {
          assert ot[j] == OlbgText(olbg[j]);
        }
      }
    }
  }

  /** The Oddspedia confidence and the odds come from one and the same row,
      the first that mentions a token; with no such row both stay None. */
  lemma FirstOddspediaSupplies(tokens: set<string>, p: PrimaryRow, olbg: seq<OlbgEntry>, odds: seq<OddspediaEntry>)
    requires Record(tokens, p, olbg, odds).Some?
    ensures var c := Record(tokens, p, olbg, odds).value;
      (exists j :: 0 <= j < |odds| && Mentions(tokens, OddspediaText(odds[j])) &&
                   (forall i :: 0 <= i < j ==> !Mentions(tokens, OddspediaText(odds[i]))) &&
                   c.oddspediaConfidence == odds[j].confidence && c.odds == odds[j].odds) ||
      ((forall j :: 0 <= j < |odds| ==> !Mentions(tokens, OddspediaText(odds[j]))) &&
       c.oddspediaConfidence == None && c.odds == None)
  {
    var dt := Map(odds, OddspediaText);
    var d := FirstMention(tokens, dt);
    if d.Some? {
      var j := d.value;
      assert forall i :: 0 <= i < j ==> !Mentions(tokens, OddspediaText(odds[i])) by {
        forall i | 0 <= i < j ensures !Mentions(tokens, OddspediaText(odds[i])) {
          assert dt[i] == OddspediaText(odds[i]);
        }
      }
      assert Mentions(tokens, OddspediaText(odds[j]));
    } else {
      assert forall j :: 0 <= j < |odds| ==> !Mentions(tokens, OddspediaText(odds[j])) by {
        forall j | 0 <= j < |odds| ensures !Mentions(tokens, OddspediaText(odds[j])) {
          assert dt[j] == OddspediaText(odds[j]);
        }
      }
    }
  }

  /** A record keeps the row's fixture, original pick, cleaned AI confidence
      and truthy result. */
  lemma RecordCopiesRow(tokens: set<string>, p: PrimaryRow, olbg: seq<OlbgEntry>, odds: seq<OddspediaEntry>)
    requires Record(tokens, p, olbg, odds).Some?
    ensures var c := Record(tokens, p, olbg, odds).value;
      c.fixture == p.fixture && c.pick == p.pick && c.aiConfidence == AiConfidenceText(p.winPercent) &&
      c.result == ResultOf(p.result)
  {
  }

  /** Records follow the order of the AI Goalie rows, one record per row at
      most: comparing two tables one after the other is comparing their
      concatenation. */
  lemma ComparisonsInOrder(a: seq<PrimaryRow>, b: seq<PrimaryRow>, olbg: seq<OlbgEntry>, odds: seq<OddspediaEntry>)
    ensures Comparisons(a + b, olbg, odds) == Comparisons(a, olbg, odds) + Comparisons(b, olbg, odds)
    ensures |Comparisons(a, olbg, odds)| <= |a|
  {
    FilterMapAppend(a, b, CompareWith(olbg, odds));
    FilterMapLength(a, CompareWith(olbg, odds));
  }

  /** A single row gives its own record or nothing. */
  lemma ComparisonsOfOne(p: PrimaryRow, olbg: seq<OlbgEntry>, odds: seq<OddspediaEntry>)
    ensures Comparisons([p], olbg, odds) == Emit(CompareRow(p, olbg, odds))
  {
    FilterMapSingle(p, CompareWith(olbg, odds));
  }

  /** The conversion drops no record and changes nothing but the three
      confidence columns. */
  lemma ConversionKeepsRecords(cs: seq<Comparison>)
    ensures |Map(cs, Convert)| == |cs|
    ensures forall k :: 0 <= k < |cs| ==>
      var m, c := Map(cs, Convert)[k], cs[k];
      m.fixture == c.fixture && m.pick == c.pick && m.odds == c.odds && m.result == c.result
  {
  }

  /** A missing confidence stays missing: `str(nan)` is not a number. */
  lemma MissingStaysMissing()
    ensures ToNumber(None) == None
  {
    var t := PyStr(None);
    assert t == "nan";
    RemoveAllChar(t, '%');
    StripTrimmed(t);
    ParseDecimalNeedsNumerals(t, 0);
  }

  /** A whole percentage as the AI Goalie page writes it converts to that
      number. */
  lemma ToNumberWholePercent(n: nat)
    ensures ToNumber(Some(NatToString(n) + "%")) == Some(n as real)
  {
    CleanPercentWhole(n);
  }

  /** A digit string, as the OLBG and Oddspedia sheets hold their
      confidences, converts to its value. */
  lemma ToNumberDigits(s: string)
    requires s != [] && AllDigits(s)
    ensures ToNumber(Some(s)) == Some(DigitsValue(s) as real)
  {
    DigitsLack(s, '%');
    RemoveAllChar(s, '%');
    assert IsDigit(s[0]) && IsDigit(s[|s| - 1]);
    StripTrimmed(s);
    ParseDecimalDigits(s);
  }

  /** "72%" converts to 72. */
  lemma SeventyTwoPercent()
    ensures ToNumber(Some("72%")) == Some(72 as real)
  {
    SeventyTwo();
    ToNumberWholePercent(72);
  }

  lemma SeventyTwo()
    ensures NatToString(72) + "%" == "72%"
  {
    assert NatToString(72) == NatToString(7) + [DigitChar(2)];
  }

  /** No `%` is left after the AI confidence is cleaned. */
  lemma AiConfidenceNoPercent(win: Option<string>)
    ensures '%' !in AiConfidenceText(win)
  {
    RemoveAllChar(PyStr(win), '%');
    StripKeepsOut(RemoveAll(PyStr(win), "%"), '%');
  }

  /** The AI confidence is already clean, so converting it reads exactly
      the text the loop stored. */
  lemma AiConfidenceClean(win: Option<string>)
    ensures ToNumber(Some(AiConfidenceText(win))) == ParseDecimal(AiConfidenceText(win))
  {
    var t := AiConfidenceText(win);
    AiConfidenceNoPercent(win);
    RemoveAllChar(t, '%');
    StripIdempotent(RemoveAll(PyStr(win), "%"));
  }
}
