/**
 * Tokenising and cleaning of words, as the text analyser does it before it
 * computes any statistic: split on runs of whitespace (Python's `str.split()`
 * with no separator), strip the punctuation characters `.,!?;:"()[]{}` from
 * both ends of each token (`str.strip(chars)`), and lowercase what is left
 * (`str.lower()`, ASCII letters only in this model).
 */
module Words {

  /** Python's whitespace for `str.split()`, `str.strip()` and `str.isspace()`:
      tab to carriage return, the four information separators, space, NEL,
      no-break space, and the Unicode space separators and line/paragraph
      separators. */
  predicate IsSpace(c: char) {
    || c == ' '
    || ('\t' <= c <= '\r')
    || ('\U{1C}' <= c <= '\U{1F}')
    || c == '\U{85}' || c == '\U{A0}' || c == '\U{1680}'
    || ('\U{2000}' <= c <= '\U{200A}')
    || c == '\U{2028}' || c == '\U{2029}' || c == '\U{202F}'
    || c == '\U{205F}' || c == '\U{3000}'
  }

  /** The characters the analyser strips from both ends of every token:
      the argument `.,!?;:"()[]{}` of its `strip` call. */
  predicate IsPunct(c: char) {
    || c == '.' || c == ',' || c == '!' || c == '?' || c == ';' || c == ':'
    || c == '"' || c == '(' || c == ')' || c == '[' || c == ']' || c == '{' || c == '}'
  }

  predicate IsUpper(c: char) {
    'A' <= c <= 'Z'
  }

  predicate IsBlank(s: string) {
    forall i | 0 <= i < |s| :: IsSpace(s[i])
  }

  predicate NoSpace(s: string) {
    forall i | 0 <= i < |s| :: !IsSpace(s[i])
  }

  predicate AllPunct(s: string) {
    forall i | 0 <= i < |s| :: IsPunct(s[i])
  }

  predicate IsLowerCase(s: string) {
    forall i | 0 <= i < |s| :: !IsUpper(s[i])
  }

  /** A token as `str.split()` produces it: non-empty, without whitespace. */
  predicate IsToken(t: string) {
    t != [] && NoSpace(t)
  }

  /** A word as the analyser keeps it: non-empty, lowercase, without
      whitespace, and neither starting nor ending with a stripped character. */
  predicate IsCleanWord(w: string) {
    && w != []
    && NoSpace(w)
    && IsLowerCase(w)
    && !IsPunct(w[0])
    && !IsPunct(w[|w| - 1])
  }

  // ---------------------------------------------------------------------
  // Splitting on whitespace
  // ---------------------------------------------------------------------

  /** The length of the run of non-whitespace characters that starts s. */
  function RunLength(s: string): (n: nat)
    ensures n <= |s|
    ensures NoSpace(s[..n])
    ensures n < |s| ==> IsSpace(s[n])
  {
    if s == [] || IsSpace(s[0]) then 0
    else
      var n := 1 + RunLength(s[1..]);
      assert s[..n] == [s[0]] + s[1..][..n - 1];
      n
  }

  /** `s.split()`: the maximal runs of non-whitespace characters, in order. */
  function Split(s: string): (tokens: seq<string>)
    ensures forall k | 0 <= k < |tokens| :: IsToken(tokens[k])
    decreases |s|
  {
    if s == [] then []
    else if IsSpace(s[0]) then Split(s[1..])
    else
      var n := RunLength(s);
      [s[..n]] + Split(s[n..])
  }

  /** The tokens glued together with one space between neighbours:
      `" ".join(tokens)`. */
  function JoinWithSpace(tokens: seq<string>): string {
    if |tokens| == 0 then []
    else if |tokens| == 1 then tokens[0]
    else tokens[0] + " " + JoinWithSpace(tokens[1..])
  }

  /** The tokens glued together with nothing between them. */
  function Concat(tokens: seq<string>): string {
    if tokens == [] then [] else tokens[0] + Concat(tokens[1..])
  }

  /** The characters of s that are not whitespace, in order. */
  function NonSpace(s: string): string {
    if s == [] then []
    else (if IsSpace(s[0]) then [] else [s[0]]) + NonSpace(s[1..])
  }

  lemma {:induction false} NonSpaceAppend(a: string, b: string)
    ensures NonSpace(a + b) == NonSpace(a) + NonSpace(b)
  {
    if a == [] {
      assert a + b == b;
    } else {
      assert (a + b)[1..] == a[1..] + b;
      NonSpaceAppend(a[1..], b);
    }
  }

  lemma {:induction false} NonSpaceOfNoSpace(a: string)
    requires NoSpace(a)
    ensures NonSpace(a) == a
  {
    if a != [] {
      NonSpaceOfNoSpace(a[1..]);
    }
  }

  /** Splitting loses exactly the whitespace: the tokens, concatenated, are
      the non-whitespace characters of the input in their original order. */
  lemma {:induction false} SplitKeepsNonSpace(s: string)
    ensures Concat(Split(s)) == NonSpace(s)
    decreases |s|
  {
    if s == [] {
    } else if IsSpace(s[0]) {
      SplitKeepsNonSpace(s[1..]);
    } else {
      var n := RunLength(s);
      SplitKeepsNonSpace(s[n..]);
      assert s == s[..n] + s[n..];
      NonSpaceAppend(s[..n], s[n..]);
      NonSpaceOfNoSpace(s[..n]);
      assert ([s[..n]] + Split(s[n..]))[1..] == Split(s[n..]);
    }
  }

  /** `s.split()` is empty exactly when s is empty or only whitespace. */
  lemma {:induction false} SplitEmptyIffBlank(s: string)
    ensures Split(s) == [] <==> IsBlank(s)
    decreases |s|
  {
    if s != [] {
      SplitEmptyIffBlank(s[1..]);
      if IsSpace(s[0]) {
        assert IsBlank(s) <==> IsBlank(s[1..]) by {
          assert forall i | 1 <= i < |s| :: s[i] == s[1..][i - 1];
        }
      }
    }
  }

  lemma {:induction false} RunLengthOfToken(t: string, rest: string)
    requires NoSpace(t)
    requires rest == [] || IsSpace(rest[0])
    ensures RunLength(t + rest) == |t|
  {
    var s := t + rest;
    var n := RunLength(s);
    assert forall i | 0 <= i < |t| :: s[i] == t[i];
    assert |t| < |s| ==> s[|t|] == rest[0];
    if n < |t| {
      assert false;
    } else if n > |t| {
      assert false;
    }
  }

  /** A whitespace character (or the end) after a prefix ends the first run
      within that prefix: appending such a rest never lengthens the run. */
  lemma {:induction false} RunLengthBeforeSpace(a: string, rest: string)
    requires rest == [] || IsSpace(rest[0])
    ensures RunLength(a + rest) == RunLength(a)
    decreases |a|
  {
    if a == [] {
      assert a + rest == rest;
    } else if !IsSpace(a[0]) {
      assert (a + rest)[1..] == a[1..] + rest;
      RunLengthBeforeSpace(a[1..], rest);
    }
  }

  /** Every whitespace character separates tokens: splitting at it splits
      the two sides independently, so `"a  b".split()` is `["a", "b"]`. */
  lemma {:induction false} SplitAtSpace(a: string, c: char, b: string)
    requires IsSpace(c)
    ensures Split(a + [c] + b) == Split(a) + Split(b)
    decreases |a|
  {
    var rest := [c] + b;
    assert a + [c] + b == a + rest;
    assert Split(rest) == Split(b) by {
      assert rest[1..] == b;
    }
    if a != [] {
      var s := a + rest;
      assert s[0] == a[0];
      if IsSpace(a[0]) {
        assert s[1..] == a[1..] + rest;
        SplitAtSpace(a[1..], c, b);
        assert a[1..] + [c] + b == a[1..] + rest;
      } else {
        var m := RunLength(a);
        RunLengthBeforeSpace(a, rest);
        assert s[..m] == a[..m];
        assert s[m..] == a[m..] + rest;
        SplitAtSpace(a[m..], c, b);
        assert a[m..] + [c] + b == a[m..] + rest;
      }
    }
  }

  /** Round trip: joining well-formed tokens with single spaces and splitting
      the result gives the same tokens back. */
  lemma {:induction false} SplitJoinWithSpace(tokens: seq<string>)
    requires forall k | 0 <= k < |tokens| :: IsToken(tokens[k])
    ensures Split(JoinWithSpace(tokens)) == tokens
  {
    if |tokens| == 1 {
      var t := tokens[0];
      RunLengthOfToken(t, []);
      assert t + [] == t;
      assert t[|t|..] == [];
    } else if |tokens| > 1 {
      var t, rest := tokens[0], JoinWithSpace(tokens[1..]);
      var s := t + " " + rest;
      assert s == t + (" " + rest);
      RunLengthOfToken(t, " " + rest);
      assert s[..|t|] == t;
      assert s[|t|..] == " " + rest;
      assert (" " + rest)[1..] == rest;
      SplitJoinWithSpace(tokens[1..]);
    }
  }

  // ---------------------------------------------------------------------
  // Stripping punctuation from both ends
  // ---------------------------------------------------------------------

  /** The left scan of `strip`: the first index from i on whose character is
      not a stripped one, or the end of w. */
  function LeftFrom(w: string, i: nat): (l: nat)
    requires i <= |w|
    ensures i <= l <= |w|
    ensures forall k | i <= k < l :: IsPunct(w[k])
    ensures l < |w| ==> !IsPunct(w[l])
    decreases |w| - i
  {
    if i < |w| && IsPunct(w[i]) then LeftFrom(w, i + 1) else i
  }

  /** The right scan of `strip`: moving down from j, but not below lo, past
      stripped characters; the result is where the kept part ends. */
  function RightFrom(w: string, lo: nat, j: nat): (r: nat)
    requires lo <= j <= |w|
    ensures lo <= r <= j
    ensures forall k | r <= k < j :: IsPunct(w[k])
    ensures r > lo ==> !IsPunct(w[r - 1])
    decreases j
  {
    if j > lo && IsPunct(w[j - 1]) then RightFrom(w, lo, j - 1) else j
  }

  /** `w.strip(Punctuation)`: it neither starts nor ends with a stripped
      character, and it is empty exactly when w is made only of them. */
  function Strip(w: string): (r: string)
    ensures |r| <= |w|
    ensures r != [] ==> !IsPunct(r[0]) && !IsPunct(r[|r| - 1])
    ensures r == [] <==> AllPunct(w)
  {
    var i := LeftFrom(w, 0);
    var j := RightFrom(w, i, |w|);
    w[i..j]
  }

  /** What stripping removes: the result is the infix of w between a prefix
      and a suffix made only of stripped characters. */
  lemma StripIsInfix(w: string)
    ensures exists i, j :: 0 <= i <= j <= |w| && Strip(w) == w[i..j]
                           && AllPunct(w[..i]) && AllPunct(w[j..])
  {
    var i := LeftFrom(w, 0);
    var j := RightFrom(w, i, |w|);
    assert AllPunct(w[..i]) by {
      assert forall k | 0 <= k < i :: w[..i][k] == w[k];
    }
    assert AllPunct(w[j..]) by {
      assert forall k | 0 <= k < |w| - j :: w[j..][k] == w[j + k];
    }
    assert Strip(w) == w[i..j];
  }

  /** Stripping a token without whitespace leaves a word without whitespace. */
  lemma StripKeepsNoSpace(w: string)
    requires NoSpace(w)
    ensures NoSpace(Strip(w))
  {
    var i := LeftFrom(w, 0);
    var j := RightFrom(w, i, |w|);
    assert forall k | 0 <= k < j - i :: w[i..j][k] == w[i + k];
  }

  /** A word that neither starts nor ends with a stripped character is left
      as it is. */
  lemma StripOfStripped(w: string)
    requires w != [] ==> !IsPunct(w[0]) && !IsPunct(w[|w| - 1])
    ensures Strip(w) == w
  {
    assert w[0..|w|] == w;
  }

  /** Stripping twice is stripping once. */
  lemma StripIdempotent(w: string)
    ensures Strip(Strip(w)) == Strip(w)
  {
    StripOfStripped(Strip(w));
  }

  // ---------------------------------------------------------------------
  // Lowercasing
  // ---------------------------------------------------------------------

  function LowerChar(c: char): (d: char)
    ensures !IsUpper(d)
    ensures IsSpace(d) <==> IsSpace(c)
    ensures IsPunct(d) <==> IsPunct(c)
  {
    if IsUpper(c) then (c as int + 32) as char else c
  }

  /** `w.lower()` on ASCII letters: every upper-case letter becomes its
      lower-case counterpart, every other character is kept. */
  function ToLower(w: string): (r: string)
    ensures |r| == |w|
    ensures IsLowerCase(r)
    ensures forall i | 0 <= i < |w| ::
              r[i] == w[i] || (IsUpper(w[i]) && r[i] as int == w[i] as int + 32)
    ensures forall i | 0 <= i < |w| :: IsSpace(r[i]) == IsSpace(w[i]) && IsPunct(r[i]) == IsPunct(w[i])
  {
    seq(|w|, i requires 0 <= i < |w| => LowerChar(w[i]))
  }

  /** The words that lowercasing leaves alone are exactly the lowercase ones,
      so lowercasing twice is lowercasing once. */
  lemma ToLowerFixedIffLowerCase(w: string)
    ensures ToLower(w) == w <==> IsLowerCase(w)
    ensures ToLower(ToLower(w)) == ToLower(w)
  {
    if IsLowerCase(w) {
      assert forall i | 0 <= i < |w| :: ToLower(w)[i] == w[i];
    }
    assert forall i | 0 <= i < |w| :: ToLower(ToLower(w))[i] == ToLower(w)[i];
  }

  // ---------------------------------------------------------------------
  // Cleaning a list of tokens
  // ---------------------------------------------------------------------

  /** One token through the body of the cleaning loop: stripped, dropped
      when nothing is left, lowercased otherwise. */
  function CleanToken(t: string): (ws: seq<string>)
    ensures |ws| <= 1
    ensures ws == [] <==> AllPunct(t)
  {
    var stripped := Strip(t);
    if stripped == [] then [] else [ToLower(stripped)]
  }

  /** What survives cleaning a token without whitespace is a clean word. */
  lemma CleanTokenIsClean(t: string)
    requires NoSpace(t)
    ensures forall k | 0 <= k < |CleanToken(t)| :: IsCleanWord(CleanToken(t)[k])
  {
    if Strip(t) != [] {
      StripKeepsNoSpace(t);
    }
  }

  /** The list the cleaning loop builds from the tokens, in order. */
  function CleanAll(tokens: seq<string>): (words: seq<string>)
    ensures |words| <= |tokens|
  {
    if tokens == [] then []
    else CleanAll(tokens[..|tokens| - 1]) + CleanToken(tokens[|tokens| - 1])
  }

  /** Every cleaned word of whitespace-free tokens is non-empty, lowercase,
      free of whitespace, and neither starts nor ends with a stripped
      character. */
  lemma {:induction false} CleanAllWordsClean(tokens: seq<string>)
    requires forall k | 0 <= k < |tokens| :: NoSpace(tokens[k])
    ensures forall k | 0 <= k < |CleanAll(tokens)| :: IsCleanWord(CleanAll(tokens)[k])
  {
    if tokens != [] {
      var init, t := tokens[..|tokens| - 1], tokens[|tokens| - 1];
      assert forall k | 0 <= k < |init| :: init[k] == tokens[k];
      CleanAllWordsClean(init);
      CleanTokenIsClean(t);
      var a, b := CleanAll(init), CleanToken(t);
      assert forall k | |a| <= k < |a + b| :: (a + b)[k] == b[k - |a|];
    }
  }

  /** Cleaning drops every token exactly when every token is made only of
      stripped characters. */
  lemma {:induction false} CleanAllEmptyIff(tokens: seq<string>)
    ensures CleanAll(tokens) == [] <==> forall k | 0 <= k < |tokens| :: AllPunct(tokens[k])
  {
    if tokens != [] {
      var init, t := tokens[..|tokens| - 1], tokens[|tokens| - 1];
      CleanAllEmptyIff(init);
      assert CleanAll(tokens) == [] <==> CleanAll(init) == [] && CleanToken(t) == [];
      assert (forall k | 0 <= k < |tokens| :: AllPunct(tokens[k])) <==>
             (forall k | 0 <= k < |init| :: AllPunct(init[k])) && AllPunct(t) by {
        assert forall k | 0 <= k < |init| :: init[k] == tokens[k];
      }
    }
  }

  /** The number of tokens that hold at least one character other than the
      stripped ones. */
  function CountWordTokens(tokens: seq<string>): nat {
    if tokens == [] then 0
    else CountWordTokens(tokens[..|tokens| - 1]) + (if AllPunct(tokens[|tokens| - 1]) then 0 else 1)
  }

  /** Cleaning keeps one word per token that is not made only of stripped
      characters. */
  lemma {:induction false} CleanAllCount(tokens: seq<string>)
    ensures |CleanAll(tokens)| == CountWordTokens(tokens)
  {
    if tokens != [] {
      CleanAllCount(tokens[..|tokens| - 1]);
    }
  }

  lemma AllPunctAppend(a: string, b: string)
    ensures AllPunct(a + b) <==> AllPunct(a) && AllPunct(b)
  {
    assert forall i | 0 <= i < |a| :: (a + b)[i] == a[i];
    assert forall i | 0 <= i < |b| :: (a + b)[|a| + i] == b[i];
  }

  lemma {:induction false} AllPunctConcat(tokens: seq<string>)
    ensures AllPunct(Concat(tokens)) <==> forall k | 0 <= k < |tokens| :: AllPunct(tokens[k])
  {
    if tokens != [] {
      AllPunctConcat(tokens[1..]);
      AllPunctAppend(tokens[0], Concat(tokens[1..]));
      assert forall k | 1 <= k < |tokens| :: tokens[k] == tokens[1..][k - 1];
    }
  }

  lemma {:induction false} AllPunctNonSpace(s: string)
    ensures AllPunct(NonSpace(s)) <==> forall i | 0 <= i < |s| :: IsSpace(s[i]) || IsPunct(s[i])
  {
    if s != [] {
      var rest := s[1..];
      AllPunctNonSpace(rest);
      var head := if IsSpace(s[0]) then [] else [s[0]];
      assert NonSpace(s) == head + NonSpace(rest);
      AllPunctAppend(head, NonSpace(rest));
      assert AllPunct(head) <==> IsSpace(s[0]) || IsPunct(s[0]);
      assert (forall i | 0 <= i < |s| :: IsSpace(s[i]) || IsPunct(s[i])) <==>
             (IsSpace(s[0]) || IsPunct(s[0])) && forall i | 0 <= i < |rest| :: IsSpace(rest[i]) || IsPunct(rest[i])
      by {
        assert forall i | 1 <= i < |s| :: s[i] == rest[i - 1];
      }
    }
  }

  /** No token survives cleaning exactly when every character of s is
      whitespace or a stripped character. */
  lemma NoWordsIff(s: string)
    ensures CleanAll(Split(s)) == [] <==> forall i | 0 <= i < |s| :: IsSpace(s[i]) || IsPunct(s[i])
  {
    CleanAllEmptyIff(Split(s));
    AllPunctConcat(Split(s));
    SplitKeepsNonSpace(s);
    AllPunctNonSpace(s);
  }

  // ---------------------------------------------------------------------
  // Case does not matter
  // ---------------------------------------------------------------------

  /** Every token lowercased. */
  function LowerAll(tokens: seq<string>): (r: seq<string>)
    ensures |r| == |tokens|
    ensures forall k | 0 <= k < |tokens| :: r[k] == ToLower(tokens[k])
  {
    seq(|tokens|, k requires 0 <= k < |tokens| => ToLower(tokens[k]))
  }

  lemma ToLowerSlice(s: string, a: nat, b: nat)
    requires a <= b <= |s|
    ensures ToLower(s)[a..b] == ToLower(s[a..b])
  {
  }

  /** Two strings with whitespace at the same positions start with runs of
      the same length. */
  lemma RunLengthSameSpaces(x: string, y: string)
    requires |x| == |y|
    requires forall i | 0 <= i < |x| :: IsSpace(x[i]) == IsSpace(y[i])
    ensures RunLength(x) == RunLength(y)
  {
    var n1, n2 := RunLength(x), RunLength(y);
    assert forall i | 0 <= i < n1 :: x[..n1][i] == x[i];
    assert forall i | 0 <= i < n2 :: y[..n2][i] == y[i];
    if n1 < n2 {
      assert false;
    } else if n2 < n1 {
      assert false;
    }
  }

  lemma LowerAllCons(t: string, ts: seq<string>)
    ensures LowerAll([t] + ts) == [ToLower(t)] + LowerAll(ts)
  {
  }

  /** Lowercasing a text lowercases its tokens and changes nothing else about
      how it splits. */
  lemma {:induction false} SplitLower(s: string)
    ensures Split(ToLower(s)) == LowerAll(Split(s))
    decreases |s|
  {
    if s == [] {
      assert ToLower(s) == [];
    } else {
      var t := ToLower(s);
      assert IsSpace(t[0]) == IsSpace(s[0]);
      if IsSpace(s[0]) {
        assert t[1..] == ToLower(s[1..]);
        SplitLower(s[1..]);
      } else {
        SplitLowerRun(s);
      }
    }
  }

  lemma {:induction false} SplitLowerRun(s: string)
    requires s != [] && !IsSpace(s[0])
    ensures Split(ToLower(s)) == LowerAll(Split(s))
    decreases |s|, 0
  {
    var t := ToLower(s);
    var n := RunLength(s);
    RunLengthSameSpaces(t, s);
    assert t[..n] == ToLower(s[..n]);
    assert t[n..] == ToLower(s[n..]);
    assert Split(t) == [t[..n]] + Split(t[n..]);
    SplitLower(s[n..]);
    LowerAllCons(s[..n], Split(s[n..]));
  }

  lemma {:induction false} LeftFromLower(w: string, i: nat)
    requires i <= |w|
    ensures LeftFrom(ToLower(w), i) == LeftFrom(w, i)
    decreases |w| - i
  {
    if i < |w| {
      assert IsPunct(ToLower(w)[i]) == IsPunct(w[i]);
      LeftFromLower(w, i + 1);
    }
  }

  lemma {:induction false} RightFromLower(w: string, lo: nat, j: nat)
    requires lo <= j <= |w|
    ensures RightFrom(ToLower(w), lo, j) == RightFrom(w, lo, j)
    decreases j
  {
    if j > lo {
      assert IsPunct(ToLower(w)[j - 1]) == IsPunct(w[j - 1]);
      RightFromLower(w, lo, j - 1);
    }
  }

  /** Lowercasing and stripping commute, and cleaning a token gives the same
      words whatever the case of its letters. */
  lemma CleanTokenLower(t: string)
    ensures Strip(ToLower(t)) == ToLower(Strip(t))
    ensures CleanToken(ToLower(t)) == CleanToken(t)
  {
    var i := LeftFrom(t, 0);
    LeftFromLower(t, 0);
    RightFromLower(t, i, |t|);
    ToLowerSlice(t, i, RightFrom(t, i, |t|));
    ToLowerFixedIffLowerCase(Strip(t));
  }

  lemma {:induction false} CleanAllLower(tokens: seq<string>)
    ensures CleanAll(LowerAll(tokens)) == CleanAll(tokens)
  {
    if tokens != [] {
      var init := tokens[..|tokens| - 1];
      assert LowerAll(tokens)[..|tokens| - 1] == LowerAll(init);
      CleanAllLower(init);
      CleanTokenLower(tokens[|tokens| - 1]);
    }
  }

  /** Cleaning the tokens of a text gives the same words whatever the case of
      its letters. */
  lemma CleanedIgnoresCase(s: string)
    ensures CleanAll(Split(ToLower(s))) == CleanAll(Split(s))
    ensures IsBlank(ToLower(s)) == IsBlank(s)
  {
    SplitLower(s);
    CleanAllLower(Split(s));
  }
}
