/** The few Python `str` operations the scripts rely on, on Dafny strings.
    Case mapping is ASCII only; white space is exactly the set of characters
    for which Python's `str.isspace()` holds. */
module Text {
  import opened Wrappers

  /** Python's `str.isspace()` for one character (also the `\s` class of `re`). */
  predicate IsSpace(c: char) {
    var n := c as int;
    (9 <= n <= 13) || (28 <= n <= 32) || n == 0x85 || n == 0xA0 || n == 0x1680
    || (0x2000 <= n <= 0x200A) || n == 0x2028 || n == 0x2029 || n == 0x202F
    || n == 0x205F || n == 0x3000
  }

  predicate IsDigit(c: char) { '0' <= c <= '9' }
  predicate IsUpper(c: char) { 'A' <= c <= 'Z' }
  predicate IsLower(c: char) { 'a' <= c <= 'z' }

  /** A string made of white space only (the empty string included). */
  predicate IsBlank(s: string) { forall i :: 0 <= i < |s| ==> IsSpace(s[i]) }

  function LowerChar(c: char): (r: char)
    ensures IsUpper(c) ==> IsLower(r)
    ensures !IsUpper(c) ==> r == c
  {
    if IsUpper(c) then (c as int - 'A' as int + 'a' as int) as char else c
  }

  /** `str.lower()`, mapping the ASCII capitals only. */
  function Lower(s: string): (r: string)
    ensures |r| == |s|
    ensures forall i :: 0 <= i < |s| ==> r[i] == LowerChar(s[i])
    ensures forall i :: 0 <= i < |r| ==> !IsUpper(r[i])
  {
    seq(|s|, i requires 0 <= i < |s| => LowerChar(s[i]))
  }

  /** `str(v)` of a spreadsheet cell: a missing value (NaN) prints as "nan". */
  function PyStr(v: Option<string>): string {
    match v
    case Some(s) => s
    case None => "nan"
  }

  predicate EndsWith(s: string, c: char) { |s| > 0 && s[|s| - 1] == c }

  /** Python's `pat in s`: `pat` occurs somewhere in `s`. */
  predicate Contains(s: string, pat: string) {
    exists i :: 0 <= i <= |s| - |pat| && pat <= s[i..]
  }

  lemma AppendAssoc<T>(a: seq<T>, b: seq<T>, c: seq<T>)
    ensures a + (b + c) == (a + b) + c
  {
  }

  /** A slice is its first character followed by the rest of the slice. */
  lemma SliceCons(s: string, i: nat, j: nat)
    requires i < j <= |s|
    ensures s[i..j] == [s[i]] + s[i + 1..j]
  {
  }

  // ---------------------------------------------------------------- strip

  /** Index of the first character that is not white space (|s| if none). */
  function StartIndex(s: string): (a: nat)
    ensures a <= |s|
    ensures forall k :: 0 <= k < a ==> IsSpace(s[k])
    ensures a < |s| ==> !IsSpace(s[a])
  {
    if s == [] || !IsSpace(s[0]) then 0 else 1 + StartIndex(s[1..])
  }

  /** One past the last character that is not white space (0 if none). */
  function EndIndex(s: string): (b: nat)
    ensures b <= |s|
    ensures forall k :: b <= k < |s| ==> IsSpace(s[k])
    ensures b > 0 ==> !IsSpace(s[b - 1])
    decreases |s|
  {
    if s == [] || !IsSpace(s[|s| - 1]) then |s| else EndIndex(s[..|s| - 1])
  }

  /** `str.strip()`: drops leading and trailing white space. */
  function Strip(s: string): (r: string)
    ensures r == [] || (!IsSpace(r[0]) && !IsSpace(r[|r| - 1]))
    ensures r == [] <==> IsBlank(s)
  {
    var a, b := StartIndex(s), EndIndex(s);
    if a < b then
      s[a..b]
    else
      assert IsBlank(s) by {
        forall k | 0 <= k < |s| ensures IsSpace(s[k]) { }
      }
      []
  }

  /** A string with no white space at either end is its own `strip()`. */
  lemma StripTrimmed(s: string)
    requires s == [] || (!IsSpace(s[0]) && !IsSpace(s[|s| - 1]))
    ensures Strip(s) == s
  {
  }

  /** Stripping adds no character. */
  lemma StripKeepsOut(s: string, c: char)
    requires c !in s
    ensures c !in Strip(s)
  {
    var a, b := StartIndex(s), EndIndex(s);
    if a < b {
      var t := s[a..b];
      assert Strip(s) == t;
      forall i | 0 <= i < |t| ensures t[i] != c {
        assert t[i] == s[a + i];
      }
    }
  }

  lemma StripIdempotent(s: string)
    ensures Strip(Strip(s)) == Strip(s)
  {
    StripTrimmed(Strip(s));
  }

  // ---------------------------------------------------------------- replace

  /** `s.replace(pat, "")`: deletes the non-overlapping occurrences of `pat`
      found scanning left to right (the empty pattern deletes nothing). */
  function RemoveAll(s: string, pat: string): (r: string)
    ensures |r| <= |s|
    decreases |s|
  {
    if pat == [] || s == [] then s
    else if pat <= s then RemoveAll(s[|pat|..], pat)
    else [s[0]] + RemoveAll(s[1..], pat)
  }

  /** Deleting every occurrence of one character: none is left, and every
      other character stays, in order. */
  lemma {:induction false} RemoveAllChar(s: string, c: char)
    ensures c !in RemoveAll(s, [c])
    ensures c !in s ==> RemoveAll(s, [c]) == s
    decreases |s|
  {
    if s != [] {
      RemoveAllChar(s[1..], c);
      if [c] <= s {
        assert s[1..] == s[|[c]|..];
      } else {
        assert s[0] != c;
      }
    }
  }

  // ---------------------------------------------------------------- find

  /** Deleting a character from text that holds it only at its end gives
      the text without that last character. */
  lemma {:induction false} RemoveAllTrailing(a: string, c: char)
    requires c !in a
    ensures RemoveAll(a + [c], [c]) == a
    decreases |a|
  {
    if a == [] {
      assert [c][|[c]|..] == [];
    } else {
      assert (a + [c])[0] == a[0] != c;
      assert (a + [c])[1..] == a[1..] + [c];
      RemoveAllTrailing(a[1..], c);
      assert a == [a[0]] + a[1..];
    }
  }

  /** Index of the first `c` in `s`. */
  function FindChar(s: string, c: char): (r: Option<nat>)
    ensures r.None? <==> c !in s
    ensures r.Some? ==> r.value < |s| && s[r.value] == c && c !in s[..r.value]
  {
    if s == [] then None
    else if s[0] == c then Some(0)
    else match FindChar(s[1..], c)
      case None => None
      case Some(k) => assert s[..k + 1] == [s[0]] + s[1..][..k]; Some(k + 1)
  }

  // ---------------------------------------------------------------- split

  /** `s.split(sep)` for a one-character separator: always at least one piece. */
  function SplitOn(s: string, sep: char): (r: seq<string>)
    ensures |r| >= 1
    ensures forall k :: 0 <= k < |r| ==> sep !in r[k]
    decreases |s|
  {
    match FindChar(s, sep)
    case None => [s]
    case Some(k) => [s[..k]] + SplitOn(s[k + 1..], sep)
  }

  /** `sep.join(pieces)`. */
  function Join(pieces: seq<string>, sep: char): string
    requires |pieces| >= 1
  {
    if |pieces| == 1 then pieces[0] else pieces[0] + [sep] + Join(pieces[1..], sep)
  }

  /** `" ".join(words)`, empty for no words. */
  function JoinWords(words: seq<string>): string {
    if words == [] then "" else Join(words, ' ')
  }

  /** `"".join(pieces)`. */
  function Concat(pieces: seq<string>): string {
    if pieces == [] then "" else pieces[0] + Concat(pieces[1..])
  }

  /** Joined pieces that all begin with `c` begin with `c`, and are empty
      only when there are no pieces. */
  lemma ConcatStart(pieces: seq<string>, c: char)
    requires forall k :: 0 <= k < |pieces| ==> pieces[k] != [] && pieces[k][0] == c
    ensures Concat(pieces) == [] <==> pieces == []
    ensures pieces != [] ==> Concat(pieces)[0] == c
  {
  }

  /** Splitting at the first separator when the part before it holds none. */
  lemma SplitOnFirst(a: string, sep: char, b: string)
    requires sep !in a
    ensures SplitOn(a + [sep] + b, sep) == [a] + SplitOn(b, sep)
  {
    var s := a + [sep] + b;
    assert s[..|a|] == a && s[|a| + 1..] == b;
    FindCharAfter(a, sep, b);
  }

  /** The first `c` is the one right after a part holding none. */
  lemma {:induction false} FindCharAfter(a: string, c: char, b: string)
    requires c !in a
    ensures FindChar(a + [c] + b, c) == Some(|a|)
  {
    var s := a + [c] + b;
    if a != [] {
      assert s[0] == a[0] != c;
      assert s[1..] == a[1..] + [c] + b;
      FindCharAfter(a[1..], c, b);
    }
  }

  /** Length of the leading run of characters that are not white space. */
  function WordLength(s: string): (n: nat)
    ensures n <= |s|
    ensures forall k :: 0 <= k < n ==> !IsSpace(s[k])
    ensures n < |s| ==> IsSpace(s[n])
  {
    if s == [] || IsSpace(s[0]) then 0 else 1 + WordLength(s[1..])
  }

  /** `s.split()` with no argument: the maximal runs of non-white-space. */
  function Split(s: string): (r: seq<string>)
    ensures forall k :: 0 <= k < |r| ==> r[k] != [] && !HasSpace(r[k])
    decreases |s|
  {
    if s == [] then []
    else if IsSpace(s[0]) then Split(s[1..])
    else
      var n := WordLength(s);
      [s[..n]] + Split(s[n..])
  }

  /** Some character of `s` is white space. */
  predicate HasSpace(s: string) { exists i :: 0 <= i < |s| && IsSpace(s[i]) }

  /** Leading white space is skipped by `split()`. */
  lemma SplitSpace(c: char, s: string)
    requires IsSpace(c)
    ensures Split([c] + s) == Split(s)
  {
    assert ([c] + s)[1..] == s;
  }

  /** A run of non-white-space followed by white space (or by nothing) is the
      first piece of `split()`. */
  lemma SplitWord(w: string, s: string)
    requires w != [] && !HasSpace(w)
    requires s == [] || IsSpace(s[0])
    ensures Split(w + s) == [w] + Split(s)
  {
    var t := w + s;
    WordLengthOf(w, s);
    assert t[..|w|] == w && t[|w|..] == s;
  }

  lemma {:induction false} WordLengthOf(w: string, s: string)
    requires !HasSpace(w)
    requires s == [] || IsSpace(s[0])
    ensures WordLength(w + s) == |w|
    decreases |w|
  {
    if w == [] {
      assert w + s == s;
    } else {
      assert !IsSpace(w[0]);
      assert (w + s)[1..] == w[1..] + s;
      assert !HasSpace(w[1..]) by {
        forall i | 0 <= i < |w[1..]| ensures !IsSpace(w[1..][i]) { assert w[1..][i] == w[i + 1]; }
      }
      WordLengthOf(w[1..], s);
    }
  }

  /** Three words joined by single spaces. */
  lemma JoinThree(a: string, b: string, c: string)
    ensures JoinWords([a, b, c]) == a + " " + b + " " + c
  {
    assert [a, b, c][1..] == [b, c] && [b, c][1..] == [c];
    assert Join([b, c], ' ') == b + [' '] + c;
    AppendAssoc(a + " " + b, " ", c);
    AppendAssoc(a + " ", b, " " + c);
    AppendAssoc(a, " ", b + " " + c);
  }

  /** Splitting words joined by single spaces gives the words back. */
  lemma {:induction false} SplitJoinWords(ws: seq<string>)
    requires forall k :: 0 <= k < |ws| ==> ws[k] != [] && !HasSpace(ws[k])
    ensures Split(JoinWords(ws)) == ws
    decreases |ws|
  {
    if |ws| == 1 {
      SplitWord(ws[0], "");
      assert ws[0] + "" == ws[0];
      assert [ws[0]] == ws;
    } else if |ws| > 1 {
      var rest := JoinWords(ws[1..]);
      SplitJoinWords(ws[1..]);
      assert JoinWords(ws) == ws[0] + ([' '] + rest);
      SplitWord(ws[0], [' '] + rest);
      SplitSpace(' ', rest);
      assert ws == [ws[0]] + ws[1..];
    }
  }

  /** Every piece of `split()` is a run of characters of `s`. */
  lemma {:induction false} SplitPiecesFrom(s: string, P: char -> bool)
    requires forall i :: 0 <= i < |s| ==> IsSpace(s[i]) || P(s[i])
    ensures forall w :: w in Split(s) ==> forall i :: 0 <= i < |w| ==> P(w[i])
    decreases |s|
  {
    if s != [] {
      if IsSpace(s[0]) {
        SplitPiecesFrom(s[1..], P);
      } else {
        var n := WordLength(s);
        SplitPiecesFrom(s[n..], P);
        forall i | 0 <= i < n ensures P(s[..n][i]) { }
      }
    }
  }
}
