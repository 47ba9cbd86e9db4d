/** The Oddspedia consensus-tips scraper: the pick is cleaned of its
    "Full Time Result:" label, picks on goals, handicaps and draws are
    skipped, and only tips with a consensus of at least 60% are kept. */
module Oddspedia {
  import opened Wrappers
  import opened Text
  import opened Numbers
  import opened Seqs

  /** The texts of one `div.tip-by-consensus` block, before stripping;
      `time` is None when the block shows no kick-off time. */
  datatype ScrapedTip = ScrapedTip(
    competition: string, home: string, away: string, meta: string, odds: string,
    time: Option<string>, tipAmounts: string, confidence: string)

  /** One output row: Fixture, Pick, Competition, Time, Win Info,
      Confidence %, Odds. */
  datatype TipRow = TipRow(
    fixture: string, pick: string, competition: string, time: string,
    winInfo: string, confidence: string, odds: string)

  const ExclusionKeywords: seq<string> := ["Yes", "Over", "Under", "-", "+", "Draw"]

  const ResultLabel: string := "Full Time Result:"

  const MinConfidence: int := 60

  /** The pick text with its label removed. */
  function CleanPick(meta: string): string {
    Strip(RemoveAll(Strip(meta), ResultLabel))
  }

  /** The pick names a market other than the full-time winner:
      some keyword occurs in it, case-sensitively. */
  predicate Excluded(pick: string) {
    exists k :: 0 <= k < |ExclusionKeywords| && Contains(pick, ExclusionKeywords[k])
  }

  /** The `skip_match` flag loop. */
  method CheckExcluded(pick: string) returns (skip: bool)
    ensures skip == Excluded(pick)
  {
    skip := false;
    var k := 0;
    while k < |ExclusionKeywords|
      invariant 0 <= k <= |ExclusionKeywords|
      invariant forall j :: 0 <= j < k ==> !Contains(pick, ExclusionKeywords[j])
    {
      if Contains(pick, ExclusionKeywords[k]) {
        skip := true;
        break;
      }
      k := k + 1;
    }
  }

  /** A pick with a hyphen in it is always skipped, so is every pick on a
      team whose name is hyphenated. */
  lemma HyphenExcluded(pick: string, i: nat)
    requires i < |pick| && pick[i] == '-'
    ensures Excluded(pick)
  {
    assert ExclusionKeywords[3] == "-";
    assert "-" <= pick[i..];
  }

  /** `confidence_text.strip().replace("%", "")`. */
  function ConfidenceText(text: string): string {
    RemoveAll(Strip(text), "%")
  }

  /** `" ".join(text.split())` for the optional kick-off time; the
      `.replace(' ', ' ')` after it changes nothing. */
  function TimeText(time: Option<string>): string {
    match time
    case None => ""
    case Some(t) => JoinWords(Split(t))
  }

  /** The row a tip block yields, if it passes both filters. */
  function Tip(m: ScrapedTip): Option<TipRow> {
    var pick := CleanPick(m.meta);
    var confidence := ConfidenceText(m.confidence);
    var value := ParseInt(confidence);
    if !Excluded(pick) && value.Some? && value.value >= MinConfidence then
      Some(TipRow(Strip(m.home) + " vs " + Strip(m.away), pick, Strip(m.competition), TimeText(m.time),
                  Strip(m.tipAmounts), confidence, Strip(m.odds)))
    else None
  }

  /** A tip is kept exactly when its cleaned pick has no exclusion keyword
      and its confidence reads as an integer of at least 60; the row carries
      that pick, confidence and the stripped odds. */
  lemma TipKept(m: ScrapedTip)
    ensures Tip(m).Some? <==>
      !Excluded(CleanPick(m.meta)) &&
      ParseInt(ConfidenceText(m.confidence)).Some? &&
      ParseInt(ConfidenceText(m.confidence)).value >= MinConfidence
    ensures Tip(m).Some? ==>
      Tip(m).value.pick == CleanPick(m.meta) && Tip(m).value.confidence == ConfidenceText(m.confidence) &&
      Tip(m).value.fixture == Strip(m.home) + " vs " + Strip(m.away) && Tip(m).value.odds == Strip(m.odds)
  {
  }

  /** The body of the scraping loop for one tip block. */
  method ReadTip(m: ScrapedTip) returns (row: Option<TipRow>)
    ensures row == Tip(m)
  {
    row := None;
    var pick := CleanPick(m.meta);
    var skip := CheckExcluded(pick);
    if !skip {
      var confidence := ConfidenceText(m.confidence);
      var value := ParseInt(confidence);
      if value.Some? && value.value >= MinConfidence {
        row := Some(TipRow(Strip(m.home) + " vs " + Strip(m.away), pick, Strip(m.competition),
                           TimeText(m.time), Strip(m.tipAmounts), confidence, Strip(m.odds)));
      }
    }
  }

  /** The scraping loop over the tip blocks, in page order. */
  method OddspediaGet(matches: seq<ScrapedTip>) returns (data: seq<TipRow>)
    ensures data == FilterMap(matches, Tip)
  {
    data := [];
    for i := 0 to |matches|
      invariant data == FilterMap(matches[..i], Tip)
    {
      var row := ReadTip(matches[i]);
      FilterMapStep(matches, i, data, Tip);
      data := data + Emit(row);
    }
    assert matches[..|matches|] == matches;
  }

  /** Every kept row is a winner pick with a consensus of at least 60%. */
  lemma KeptTips(matches: seq<ScrapedTip>, r: TipRow)
    requires r in FilterMap(matches, Tip)
    ensures !Excluded(r.pick)
    ensures ParseInt(r.confidence).Some? && ParseInt(r.confidence).value >= MinConfidence
  {
    FilterMapMember(matches, Tip, r);
    var i :| 0 <= i < |matches| && Tip(matches[i]) == Some(r);
    TipKept(matches[i]);
  }
}
