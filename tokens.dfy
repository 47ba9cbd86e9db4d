/** `get_match_tokens`: the set of significant lower-case words of a pick,
    the key on which picks of different sites are compared. */
module Tokens {
  import opened Wrappers
  import opened Text

  /** The alternatives of the stop-word pattern, in the order they are written. */
  const Stopwords: seq<string> :=
    ["fc", "utd", "united", "city", "ac", "cf", "sc", "tsv", "sv", "fk", "sk",
     "draw", "the", "and", "or", "of", "a", "an"]

  /** Alternatives that are all non-empty runs of lower-case letters.  The
      substitution is defined and proved for any such list, and used with
      the stop-words. */
  predicate LowerWords(alts: seq<string>) {
    forall j :: 0 <= j < |alts| ==>
      alts[j] != [] && forall m :: 0 <= m < |alts[j]| ==> IsLower(alts[j][m])
  }

  lemma StopwordsAreLowerWords()
    ensures LowerWords(Stopwords)
  {
  }

  /** `\w` of Python's `re`, on ASCII text. */
  predicate IsWordChar(c: char) { IsUpper(c) || IsLower(c) || IsDigit(c) || c == '_' }

  /** `\b` between positions i - 1 and i. */
  predicate IsBoundary(s: string, i: nat)
    requires i <= |s|
  {
    (i > 0 && IsWordChar(s[i - 1])) != (i < |s| && IsWordChar(s[i]))
  }

  /** The first of the alternatives `alts` that starts at i and is followed
      by `\b`, trying them in order as the regular expression does. */
  function AlternativeAt(s: string, i: nat, alts: seq<string>): (r: Option<string>)
    requires i <= |s|
    ensures r.Some? ==> r.value in alts && r.value <= s[i..]
                        && IsBoundary(s, i + |r.value|)
    ensures r.None? ==> forall j :: 0 <= j < |alts| ==>
                          !(alts[j] <= s[i..] && IsBoundary(s, i + |alts[j]|))
  {
    if alts == [] then None
    else if alts[0] <= s[i..] && IsBoundary(s, i + |alts[0]|) then Some(alts[0])
    else
      var r := AlternativeAt(s, i, alts[1..]);
      assert r.None? ==> forall j :: 1 <= j < |alts| ==> alts[j] == alts[1..][j - 1];
      r
  }

  /** What the pattern `\b(alt|...|alt)\b` matches at position i. */
  function PatternAt(s: string, i: nat, alts: seq<string>): (r: Option<string>)
    requires i <= |s| && LowerWords(alts)
    ensures r.Some? ==> r.value != [] && i + |r.value| <= |s|
  {
    if IsBoundary(s, i) then AlternativeAt(s, i, alts) else None
  }

  /** `re.sub(pattern, ' ', s)` scanning from position i: each match becomes
      one space, every other character is kept. */
  function SubFrom(s: string, i: nat, alts: seq<string>): string
    requires i <= |s| && LowerWords(alts)
    decreases |s| - i
  {
    if i == |s| then []
    else
      var m := PatternAt(s, i, alts);
      if m.Some? then " " + SubFrom(s, i + |m.value|, alts) else [s[i]] + SubFrom(s, i + 1, alts)
  }

  /** `re.sub(r'\b(fc|utd|...|a|an)\b', ' ', s)`. */
  function StripStopwords(s: string): string {
    StopwordsAreLowerWords();
    SubFrom(s, 0, Stopwords)
  }

  /** `re.sub(r'[^a-z0-9\s]', ' ', c)` for one character. */
  function CleanChar(c: char): char {
    if IsLower(c) || IsDigit(c) || IsSpace(c) then c else ' '
  }

  function Clean(s: string): (r: string)
    ensures |r| == |s|
    ensures forall i :: 0 <= i < |s| ==> r[i] == CleanChar(s[i])
  {
    seq(|s|, i requires 0 <= i < |s| => CleanChar(s[i]))
  }

  lemma CleanAppend(a: string, b: string)
    ensures Clean(a + b) == Clean(a) + Clean(b)
  {
    assert |Clean(a + b)| == |Clean(a) + Clean(b)|;
    forall i | 0 <= i < |a + b| ensures Clean(a + b)[i] == (Clean(a) + Clean(b))[i] {
      if i < |a| { } else { assert (a + b)[i] == b[i - |a|]; }
    }
  }

  /** `get_match_tokens`: a missing value has no tokens; otherwise lower-case,
      blank the stop-words, blank every character outside `[a-z0-9\s]`, split
      on white space and keep the words longer than two characters. */
  function MatchTokens(name: Option<string>): (r: set<string>)
    ensures name.None? ==> r == {}
    ensures forall t :: t in r ==> |t| > 2 && forall i :: 0 <= i < |t| ==> IsLower(t[i]) || IsDigit(t[i])
  {
    match name
    case None => {}
    case Some(x) =>
      var cleaned := Clean(StripStopwords(Lower(x)));
      SplitPiecesFrom(cleaned, c => IsLower(c) || IsDigit(c));
      set w | w in Split(cleaned) && |w| > 2
  }

  // ------------------------------------------------------------------------
  // Reference definition: blanking the alternatives in the text is the same
  // as dropping them from its list of words.

  /** The words of a list that are not among `alts`, in order. */
  function DropWords(ws: seq<string>, alts: seq<string>): (r: seq<string>)
    ensures forall w :: w in r <==> w in ws && w !in alts
  {
    if ws == [] then []
    else if ws[0] in alts then DropWords(ws[1..], alts)
    else [ws[0]] + DropWords(ws[1..], alts)
  }

  /** Text already lower-cased that holds no `_`: its word characters are
      exactly the characters `[a-z0-9]` that survive cleaning. */
  predicate Prepared(s: string) {
    forall i :: 0 <= i < |s| ==> s[i] != '_' && !IsUpper(s[i])
  }

  /** A position that is not strictly inside a run of word characters. */
  predicate Fresh(s: string, i: nat)
    requires i <= |s|
  {
    i == 0 || i == |s| || !IsWordChar(s[i - 1]) || !IsWordChar(s[i])
  }

  /** End of the run of word characters that starts at i. */
  function RunEnd(s: string, i: nat): (j: nat)
    requires i <= |s|
    ensures i <= j <= |s|
    ensures forall k :: i <= k < j ==> IsWordChar(s[k])
    ensures j < |s| ==> !IsWordChar(s[j])
    decreases |s| - i
  {
    if i == |s| || !IsWordChar(s[i]) then i else RunEnd(s, i + 1)
  }

  /** Inside a run of word characters there is no `\b`, so nothing is replaced. */
  lemma {:induction false} InsideRun(s: string, k: nat, j: nat, alts: seq<string>)
    requires LowerWords(alts)
    requires 0 < k <= j <= |s|
    requires forall m :: k - 1 <= m < j ==> IsWordChar(s[m])
    ensures SubFrom(s, k, alts) == s[k..j] + SubFrom(s, j, alts)
    decreases j - k
  {
    if k < j {
      NoMatchInside(s, k, alts);
      KeptChar(s, k, alts);
      InsideRun(s, k + 1, j, alts);
      SliceCons(s, k, j);
      AppendAssoc([s[k]], s[k + 1..j], SubFrom(s, j, alts));
    }
  }

  /** Between two word characters there is no `\b`, so no match starts there. */
  lemma NoMatchInside(s: string, k: nat, alts: seq<string>)
    requires LowerWords(alts)
    requires 0 < k < |s| && IsWordChar(s[k - 1]) && IsWordChar(s[k])
    ensures PatternAt(s, k, alts) == None
  {
    assert !IsBoundary(s, k);
  }

  /** At the start of a run of word characters, the pattern matches exactly
      when the whole run is an alternative, and then it matches the whole run. */
  lemma RunStart(s: string, i: nat, alts: seq<string>)
    requires LowerWords(alts)
    requires i < |s| && IsWordChar(s[i]) && (i == 0 || !IsWordChar(s[i - 1]))
    ensures PatternAt(s, i, alts).Some? <==> s[i..RunEnd(s, i)] in alts
    ensures PatternAt(s, i, alts).Some? ==> PatternAt(s, i, alts).value == s[i..RunEnd(s, i)]
  {
    assert IsBoundary(s, i);
    var r := AlternativeAt(s, i, alts);
    if r.Some? {
      var jj :| 0 <= jj < |alts| && alts[jj] == r.value;
      MatchIsWholeRun(s, i, r.value);
    } else {
      NoAlternativeNotRun(s, i, alts);
    }
  }

  /** When no alternative matches, the run is none of them. */
  lemma NoAlternativeNotRun(s: string, i: nat, alts: seq<string>)
    requires i < |s| && IsWordChar(s[i])
    requires forall j :: 0 <= j < |alts| ==> !(alts[j] <= s[i..] && IsBoundary(s, i + |alts[j]|))
    ensures s[i..RunEnd(s, i)] !in alts
  {
    var j := RunEnd(s, i);
    var w := s[i..j];
    assert |w| == j - i;
    assert w <= s[i..] && IsBoundary(s, i + |w|);
    forall jj | 0 <= jj < |alts| ensures alts[jj] != w {
    }
  }

  /** A lower-case match at the start of a run covers exactly the run. */
  lemma MatchIsWholeRun(s: string, i: nat, v: string)
    requires i < |s| && (i == 0 || !IsWordChar(s[i - 1]))
    requires v != [] && forall m :: 0 <= m < |v| ==> IsLower(v[m])
    requires v <= s[i..] && IsBoundary(s, i + |v|)
    ensures RunEnd(s, i) == i + |v| && v == s[i..i + |v|]
  {
    assert forall m :: i <= m < i + |v| ==> s[m] == v[m - i];
    assert forall m :: i <= m < i + |v| ==> IsWordChar(s[m]);
  }

  /** A character that is not a word character is kept by the substitution. */
  lemma NonWordKept(s: string, i: nat, alts: seq<string>)
    requires LowerWords(alts)
    requires i < |s| && !IsWordChar(s[i])
    ensures SubFrom(s, i, alts) == [s[i]] + SubFrom(s, i + 1, alts)
  {
  }

  /** What follows a run: nothing, or a character that cleans to white space. */
  predicate StartsSpaced(t: string) { t == [] || IsSpace(t[0]) }

  lemma AfterRun(s: string, j: nat, alts: seq<string>)
    requires LowerWords(alts)
    requires Prepared(s) && j <= |s| && (j == |s| || !IsWordChar(s[j]))
    ensures StartsSpaced(Clean(SubFrom(s, j, alts)))
  {
    if j < |s| {
      NonWordKept(s, j, alts);
      CleanAppend([s[j]], SubFrom(s, j + 1, alts));
    }
  }

  lemma AfterRunText(s: string, j: nat)
    requires Prepared(s) && j <= |s| && (j == |s| || !IsWordChar(s[j]))
    ensures StartsSpaced(Clean(s[j..]))
  {
    if j < |s| {
      assert s[j..] == [s[j]] + s[j + 1..];
      CleanAppend([s[j]], s[j + 1..]);
    }
  }

  lemma {:induction false} RemovalFrom(s: string, i: nat, alts: seq<string>)
    requires LowerWords(alts)
    requires Prepared(s) && i <= |s| && Fresh(s, i)
    ensures Split(Clean(SubFrom(s, i, alts))) == DropWords(Split(Clean(s[i..])), alts)
    decreases |s| - i
  {
    if i == |s| {
      assert s[i..] == [];
    } else if !IsWordChar(s[i]) {
      RemovalFrom(s, i + 1, alts);
      NonWordStep(s, i, alts);
    } else {
      var j := RunEnd(s, i);
      RemovalFrom(s, j, alts);
      RunStep(s, i, alts);
    }
  }

  /** A character that is not a word character cleans to white space and
      disappears from both sides. */
  lemma NonWordStep(s: string, i: nat, alts: seq<string>)
    requires LowerWords(alts)
    requires Prepared(s) && i < |s| && !IsWordChar(s[i])
    ensures Split(Clean(SubFrom(s, i, alts))) == Split(Clean(SubFrom(s, i + 1, alts)))
    ensures Split(Clean(s[i..])) == Split(Clean(s[i + 1..]))
  {
    NonWordKept(s, i, alts);
    assert s[i..] == [s[i]] + s[i + 1..];
    SpacedSplit(s[i], SubFrom(s, i + 1, alts));
    SpacedSplit(s[i], s[i + 1..]);
  }

  /** A character that cleans to white space vanishes from the split. */
  lemma SpacedSplit(c: char, t: string)
    requires !IsWordChar(c) && c != '_' && !IsUpper(c)
    ensures Split(Clean([c] + t)) == Split(Clean(t))
  {
    CleanAppend([c], t);
    assert Clean([c] + t) == [CleanChar(c)] + Clean(t);
    SplitSpace(CleanChar(c), Clean(t));
  }

  /** A whole run w of word characters: the text side splits as [w] then the
      rest; the substituted side drops w exactly when it is an alternative. */
  lemma RunStep(s: string, i: nat, alts: seq<string>)
    requires LowerWords(alts)
    requires Prepared(s) && i < |s| && IsWordChar(s[i]) && (i == 0 || !IsWordChar(s[i - 1]))
    ensures var j := RunEnd(s, i);
            && Split(Clean(s[i..])) == [s[i..j]] + Split(Clean(s[j..]))
            && Split(Clean(SubFrom(s, i, alts)))
               == (if s[i..j] in alts then [] else [s[i..j]]) + Split(Clean(SubFrom(s, j, alts)))
  {
    var j := RunEnd(s, i);
    RunText(s, i);
    RunStart(s, i, alts);
    if s[i..j] in alts {
      RunReplaced(s, i, alts);
    } else {
      RunKept(s, i, alts);
    }
  }

  /** A run is a clean word with white space (or nothing) after it. */
  lemma RunIsWord(s: string, i: nat)
    requires Prepared(s) && i <= |s|
    ensures var w := s[i..RunEnd(s, i)]; Clean(w) == w && !HasSpace(w)
  {
  }

  lemma RunText(s: string, i: nat)
    requires Prepared(s) && i < |s| && IsWordChar(s[i])
    ensures var j := RunEnd(s, i); Split(Clean(s[i..])) == [s[i..j]] + Split(Clean(s[j..]))
  {
    var j := RunEnd(s, i);
    var w := s[i..j];
    assert s[i..] == w + s[j..];
    CleanAppend(w, s[j..]);
    RunIsWord(s, i);
    AfterRunText(s, j);
    SplitWord(w, Clean(s[j..]));
  }

  /** A run the pattern matches becomes one space, which the split drops. */
  lemma RunReplaced(s: string, i: nat, alts: seq<string>)
    requires LowerWords(alts) && i < |s|
    requires PatternAt(s, i, alts).Some? && i + |PatternAt(s, i, alts).value| == RunEnd(s, i)
    ensures Split(Clean(SubFrom(s, i, alts))) == Split(Clean(SubFrom(s, RunEnd(s, i), alts)))
  {
    var j := RunEnd(s, i);
    MatchReplaced(s, i, alts);
    ShiftSubFrom(s, i, i + |PatternAt(s, i, alts).value|, j, alts);
    SpacedPrefix(SubFrom(s, i, alts), SubFrom(s, j, alts));
  }

  /** Restates a replacement with the end of the match written differently. */
  lemma ShiftSubFrom(s: string, i: nat, k: nat, j: nat, alts: seq<string>)
    requires LowerWords(alts)
    requires i < |s| && k <= |s| && k == j
    requires SubFrom(s, i, alts) == " " + SubFrom(s, k, alts)
    ensures SubFrom(s, i, alts) == " " + SubFrom(s, j, alts)
  {
  }

  /** A leading space vanishes from the split. */
  lemma SpacedPrefix(a: string, x: string)
    requires a == " " + x
    ensures Split(Clean(a)) == Split(Clean(x))
  {
    SpacedSplit(' ', x);
  }

  /** A match is replaced by one space. */
  lemma MatchReplaced(s: string, i: nat, alts: seq<string>)
    requires LowerWords(alts)
    requires i < |s| && PatternAt(s, i, alts).Some?
    ensures SubFrom(s, i, alts) == " " + SubFrom(s, i + |PatternAt(s, i, alts).value|, alts)
  {
  }

  lemma RunKept(s: string, i: nat, alts: seq<string>)
    requires LowerWords(alts)
    requires Prepared(s) && i < |s| && IsWordChar(s[i])
    requires PatternAt(s, i, alts) == None
    ensures var j := RunEnd(s, i);
            Split(Clean(SubFrom(s, i, alts))) == [s[i..j]] + Split(Clean(SubFrom(s, j, alts)))
  {
    var j := RunEnd(s, i);
    var w := s[i..j];
    KeptChar(s, i, alts);
    KeptFirst(s, i, alts);
    assert SubFrom(s, i, alts) == w + SubFrom(s, j, alts);
    CleanAppend(w, SubFrom(s, j, alts));
    RunIsWord(s, i);
    AfterRun(s, j, alts);
    SplitWord(w, Clean(SubFrom(s, j, alts)));
  }

  lemma KeptChar(s: string, i: nat, alts: seq<string>)
    requires LowerWords(alts)
    requires i < |s| && PatternAt(s, i, alts) == None
    ensures SubFrom(s, i, alts) == [s[i]] + SubFrom(s, i + 1, alts)
  {
  }

  /** When nothing matches at the start of a run, the whole run is kept. */
  lemma KeptFirst(s: string, i: nat, alts: seq<string>)
    requires LowerWords(alts)
    requires i < |s| && IsWordChar(s[i])
    requires SubFrom(s, i, alts) == [s[i]] + SubFrom(s, i + 1, alts)
    ensures SubFrom(s, i, alts) == s[i..RunEnd(s, i)] + SubFrom(s, RunEnd(s, i), alts)
  {
    var j := RunEnd(s, i);
    InsideRun(s, i + 1, j, alts);
    SliceCons(s, i, j);
    var x := SubFrom(s, j, alts);
    AppendAssoc([s[i]], s[i + 1..j], x);
  }

  /** Blanking the alternatives and then splitting gives the words of the
      cleaned text with the alternatives left out, in the same order. */
  lemma Removal(s: string, alts: seq<string>)
    requires LowerWords(alts) && Prepared(s)
    ensures Split(Clean(SubFrom(s, 0, alts))) == DropWords(Split(Clean(s)), alts)
  {
    RemovalFrom(s, 0, alts);
    assert s[0..] == s;
  }

  /** Blanking the stop-words and then splitting gives the words of the
      cleaned text with the stop-words left out, in the same order. */
  lemma StopwordRemoval(s: string)
    requires Prepared(s)
    ensures Split(Clean(StripStopwords(s))) == DropWords(Split(Clean(s)), Stopwords)
  {
    StopwordsAreLowerWords();
    Removal(s, Stopwords);
  }

  /** For text without `_`, the tokens are the cleaned words of the
      lower-cased text that are not stop-words and are longer than two. */
  lemma TokensReference(x: string)
    requires forall i :: 0 <= i < |x| ==> x[i] != '_'
    ensures MatchTokens(Some(x))
            == set w | w in Split(Clean(Lower(x))) && w !in Stopwords && |w| > 2
  {
    StopwordRemoval(Lower(x));
  }

  /** The tokens of a text whose cleaned words are known. */
  lemma TokensOfWords(x: string, ws: seq<string>)
    requires forall i :: 0 <= i < |x| ==> x[i] != '_'
    requires Split(Clean(Lower(x))) == ws
    ensures MatchTokens(Some(x)) == set w | w in ws && w !in Stopwords && |w| > 2
  {
    TokensReference(x);
  }

  /** No token is a stop-word, so "FC" or "United" never makes two picks match. */
  lemma NoStopwordToken(x: string)
    requires forall i :: 0 <= i < |x| ==> x[i] != '_'
    ensures forall t :: t in MatchTokens(Some(x)) ==> t !in Stopwords
  {
    TokensReference(x);
  }

  // ------------------------------------------------------------------------
  // Worked examples

  /** "Manchester United FC" gives {"manchester"}: "united" and "fc" are stop-words. */
  lemma ExampleManchesterUnited(x: string)
    requires x == "Manchester United FC"
    ensures MatchTokens(Some(x)) == {"manchester"}
  {
    var ws := ["manchester", "united", "fc"];
    WordsManchesterUnited();
    NoUnderscoreManchesterUnited(x);
    TokensOfWords(x, ws);
    KeptManchesterUnited();
  }

  lemma NoUnderscoreManchesterUnited(x: string)
    requires x == "Manchester United FC"
    ensures forall i :: 0 <= i < |x| ==> x[i] != '_'
  {
  }

  lemma WordsManchesterUnited()
    ensures Split(Clean(Lower("Manchester United FC"))) == ["manchester", "united", "fc"]
  {
    LowerManchesterUnited();
    CleanManchesterUnited();
    SplitManchesterUnited();
  }

  lemma LowerManchesterUnited()
    ensures Lower("Manchester United FC") == "manchester united fc"
  {
    var x, l := "Manchester United FC", "manchester united fc";
    forall i | 0 <= i < |l| ensures Lower(x)[i] == l[i] { }
  }

  lemma CleanManchesterUnited()
    ensures Clean("manchester united fc") == "manchester united fc"
  {
    var l := "manchester united fc";
    forall i | 0 <= i < |l| ensures Clean(l)[i] == l[i] { }
  }

  lemma SplitManchesterUnited()
    ensures Split("manchester united fc") == ["manchester", "united", "fc"]
  {
    var ws := ["manchester", "united", "fc"];
    SplitJoinWords(ws);
    JoinThree("manchester", "united", "fc");
    TextManchesterUnited();
  }

  lemma TextManchesterUnited()
    ensures "manchester" + " " + "united" + " " + "fc" == "manchester united fc"
  {
    var a, l := "manchester" + " " + "united" + " " + "fc", "manchester united fc";
    forall i | 0 <= i < |l| ensures a[i] == l[i] { }
  }

  lemma KeptManchesterUnited()
    ensures (set w | w in ["manchester", "united", "fc"] && w !in Stopwords && |w| > 2)
            == {"manchester"}
  {
    assert "united" == Stopwords[2];
  }

  /** "AC Lyon" gives {"lyon"}: "ac" is a stop-word. */
  lemma ExampleAcLyon(x: string)
    requires x == "AC Lyon"
    ensures MatchTokens(Some(x)) == {"lyon"}
  {
    var ws := ["ac", "lyon"];
    WordsAcLyon();
    NoUnderscoreAcLyon(x);
    TokensOfWords(x, ws);
    KeptAcLyon();
  }

  lemma NoUnderscoreAcLyon(x: string)
    requires x == "AC Lyon"
    ensures forall i :: 0 <= i < |x| ==> x[i] != '_'
  {
  }

  lemma WordsAcLyon()
    ensures Split(Clean(Lower("AC Lyon"))) == ["ac", "lyon"]
  {
    LowerAcLyon();
    CleanAcLyon();
    SplitAcLyon();
  }

  lemma LowerAcLyon()
    ensures Lower("AC Lyon") == "ac lyon"
  {
    var x, l := "AC Lyon", "ac lyon";
    forall i | 0 <= i < |l| ensures Lower(x)[i] == l[i] { }
  }

  lemma CleanAcLyon()
    ensures Clean("ac lyon") == "ac lyon"
  {
    var l := "ac lyon";
    forall i | 0 <= i < |l| ensures Clean(l)[i] == l[i] { }
  }

  lemma SplitAcLyon()
    ensures Split("ac lyon") == ["ac", "lyon"]
  {
    var ws := ["ac", "lyon"];
    SplitJoinWords(ws);
    assert JoinWords(ws) == "ac lyon";
  }

  lemma KeptAcLyon()
    ensures (set w | w in ["ac", "lyon"] && w !in Stopwords && |w| > 2) == {"lyon"}
  {
    assert "ac" == Stopwords[4];
  }
}
