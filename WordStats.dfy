/**
 * The statistics the text analyser computes over its list of cleaned words:
 * the total length, the maximum length, the distinct longest words in order
 * of first appearance (`list(dict.fromkeys(...))` over a filtered list), and
 * the frequency table.
 */
module WordStats {

  predicate NoDups<T(==)>(s: seq<T>) {
    forall i, j | 0 <= i < j < |s| :: s[i] != s[j]
  }

  /** The position where x first occurs in s. */
  function FirstIndex<T(==)>(s: seq<T>, x: T): (i: nat)
    requires x in s
    ensures i < |s| && s[i] == x && x !in s[..i]
  {
    if s[0] == x then 0
    else
      var i := 1 + FirstIndex(s[1..], x);
      assert s[..i] == [s[0]] + s[1..][..i - 1];
      i
  }

  lemma {:induction false} FirstIndexSnoc<T>(s: seq<T>, l: T, x: T)
    requires x in s + [l]
    ensures x in s ==> FirstIndex(s + [l], x) == FirstIndex(s, x)
    ensures x !in s ==> FirstIndex(s + [l], x) == |s|
  {
    if s != [] && s[0] != x {
      assert (s + [l])[1..] == s[1..] + [l];
      FirstIndexSnoc(s[1..], l, x);
    }
  }

  // ---------------------------------------------------------------------
  // Lengths
  // ---------------------------------------------------------------------

  /** `sum(len(word) for word in words)`. */
  function TotalLength(words: seq<string>): nat {
    if words == [] then 0
    else TotalLength(words[..|words| - 1]) + |words[|words| - 1]|
  }

  /** `max(len(word) for word in words)`: a length that no word exceeds and
      that some word has. */
  function MaxLength(words: seq<string>): (m: nat)
    requires words != []
    ensures forall k | 0 <= k < |words| :: |words[k]| <= m
    ensures exists k | 0 <= k < |words| :: |words[k]| == m
  {
    var last := |words[|words| - 1]|;
    if |words| == 1 then last
    else
      var init := words[..|words| - 1];
      var m := MaxLength(init);
      assert forall k | 0 <= k < |init| :: words[k] == init[k];
      if m < last then last else m
  }

  /** A total length of at least one per word. */
  lemma {:induction false} TotalLengthAtLeastCount(words: seq<string>)
    requires forall k | 0 <= k < |words| :: words[k] != []
    ensures |words| <= TotalLength(words)
  {
    if words != [] {
      var init := words[..|words| - 1];
      assert forall k | 0 <= k < |init| :: init[k] == words[k];
      TotalLengthAtLeastCount(init);
    }
  }

  /** A total length of at most n per word, when no word is longer than n. */
  lemma {:induction false} TotalLengthAtMost(words: seq<string>, n: nat)
    requires forall k | 0 <= k < |words| :: |words[k]| <= n
    ensures TotalLength(words) <= n * |words|
  {
    if words != [] {
      var init := words[..|words| - 1];
      assert forall k | 0 <= k < |init| :: init[k] == words[k];
      TotalLengthAtMost(init, n);
      assert n * |words| == n * |init| + n;
    }
  }

  /** Each word is between 1 and the maximum length long, so the total length
      lies between the word count and the maximum length times the word
      count. */
  lemma TotalLengthBounds(words: seq<string>)
    requires words != []
    requires forall k | 0 <= k < |words| :: words[k] != []
    ensures |words| <= TotalLength(words) <= MaxLength(words) * |words|
  {
    TotalLengthAtLeastCount(words);
    TotalLengthAtMost(words, MaxLength(words));
  }

  // ---------------------------------------------------------------------
  // Longest words
  // ---------------------------------------------------------------------

  /** `[w for w in words if len(w) == n]`. */
  function WithLength(words: seq<string>, n: nat): seq<string> {
    if words == [] then []
    else
      var last := words[|words| - 1];
      if |last| == n then WithLength(words[..|words| - 1], n) + [last]
      else WithLength(words[..|words| - 1], n)
  }

  /** The filtered list holds exactly the words of length n. */
  lemma {:induction false} WithLengthMember(words: seq<string>, n: nat, x: string)
    ensures x in WithLength(words, n) <==> x in words && |x| == n
  {
    if words != [] {
      var init, last := words[..|words| - 1], words[|words| - 1];
      assert words == init + [last];
      WithLengthMember(init, n, x);
    }
  }

  /** `list(dict.fromkeys(s))`: the elements of s without repetition, each
      kept at its first occurrence. */
  function Distinct(s: seq<string>): (r: seq<string>)
    ensures NoDups(r)
    ensures forall x :: x in r <==> x in s
  {
    if s == [] then []
    else
      var init := s[..|s| - 1];
      var last := s[|s| - 1];
      assert s == init + [last];
      var d := Distinct(init);
      if last in d then d else d + [last]
  }

  /** `Distinct` lists elements in the order of their first occurrence. */
  lemma {:induction false} DistinctInOrder(s: seq<string>)
    ensures forall i, j | 0 <= i < j < |Distinct(s)| ::
              FirstIndex(s, Distinct(s)[i]) < FirstIndex(s, Distinct(s)[j])
  {
    if s != [] {
      var init, last := s[..|s| - 1], s[|s| - 1];
      assert s == init + [last];
      var d := Distinct(init);
      DistinctInOrder(init);
      forall x | x in d
        ensures FirstIndex(s, x) == FirstIndex(init, x) < |init|
      {
        FirstIndexSnoc(init, last, x);
      }
      if last !in d {
        FirstIndexSnoc(init, last, last);
        assert Distinct(s) == d + [last];
      }
    }
  }

  /** Filtering by length keeps the relative order of first occurrences. */
  lemma {:induction false} WithLengthKeepsOrder(words: seq<string>, n: nat, x: string, y: string)
    requires x in WithLength(words, n) && y in WithLength(words, n)
    requires FirstIndex(WithLength(words, n), x) < FirstIndex(WithLength(words, n), y)
    ensures x in words && y in words
    ensures FirstIndex(words, x) < FirstIndex(words, y)
  {
    var init, last := words[..|words| - 1], words[|words| - 1];
    assert words == init + [last];
    var f := WithLength(init, n);
    WithLengthMember(words, n, x);
    WithLengthMember(words, n, y);
    WithLengthMember(init, n, x);
    WithLengthMember(init, n, y);
    FirstIndexSnoc(init, last, x);
    FirstIndexSnoc(init, last, y);
    if |last| == n {
      assert WithLength(words, n) == f + [last];
      FirstIndexSnoc(f, last, x);
      FirstIndexSnoc(f, last, y);
      if x in f && y in f {
        WithLengthKeepsOrder(init, n, x, y);
      }
    } else {
      assert WithLength(words, n) == f;
      WithLengthKeepsOrder(init, n, x, y);
    }
  }

  /** The longest words: every distinct word of maximum length, listed once,
      in the order of first occurrence. */
  function LongestWords(words: seq<string>): seq<string>
    requires words != []
  {
    Distinct(WithLength(words, MaxLength(words)))
  }

  /** What the longest-word list holds: it is non-empty; its entries are words
      of the input that no word is longer than; every word that no word is
      longer than is in it; it has no duplicates; and it follows the order in
      which the words first occur. */
  lemma LongestWordsSpec(words: seq<string>)
    requires words != []
    ensures LongestWords(words) != []
    ensures forall x | x in LongestWords(words) ::
              x in words && forall k | 0 <= k < |words| :: |words[k]| <= |x|
    ensures forall k | 0 <= k < |words| ::
              (forall j | 0 <= j < |words| :: |words[j]| <= |words[k]|) ==>
                words[k] in LongestWords(words)
    ensures NoDups(LongestWords(words))
    ensures forall i, j | 0 <= i < j < |LongestWords(words)| ::
              FirstIndex(words, LongestWords(words)[i]) < FirstIndex(words, LongestWords(words)[j])
  {
    var m := MaxLength(words);
    var f := WithLength(words, m);
    var r := Distinct(f);
    forall x
      ensures x in f <==> x in words && |x| == m
    {
      WithLengthMember(words, m, x);
    }
    var k :| 0 <= k < |words| && |words[k]| == m;
    assert words[k] in r;
    DistinctInOrder(f);
    forall i, j | 0 <= i < j < |r|
      ensures FirstIndex(words, r[i]) < FirstIndex(words, r[j])
    {
      WithLengthKeepsOrder(words, m, r[i], r[j]);
    }
  }

  lemma {:induction false} WithLengthOfEqualLengths(words: seq<string>, n: nat)
    requires forall k | 0 <= k < |words| :: |words[k]| == n
    ensures WithLength(words, n) == words
  {
    if words != [] {
      var init, last := words[..|words| - 1], words[|words| - 1];
      assert forall k | 0 <= k < |init| :: |init[k]| == n by {
        assert forall k | 0 <= k < |init| :: init[k] == words[k];
      }
      WithLengthOfEqualLengths(init, n);
      assert words == init + [last];
      assert WithLength(words, n) == WithLength(init, n) + [last];
    }
  }

  lemma {:induction false} DistinctOfNoDups(s: seq<string>)
    requires NoDups(s)
    ensures Distinct(s) == s
  {
    if s != [] {
      var init := s[..|s| - 1];
      assert NoDups(init) by {
        assert forall k | 0 <= k < |init| :: init[k] == s[k];
      }
      DistinctOfNoDups(init);
      assert s[|s| - 1] !in init;
      assert s == init + [s[|s| - 1]];
    }
  }

  /** Ties are all kept: when distinct words all have the same length, every
      one of them is a longest word, in the order given. */
  lemma LongestWordsAllTied(words: seq<string>)
    requires words != [] && NoDups(words)
    requires forall k | 0 <= k < |words| :: |words[k]| == |words[0]|
    ensures LongestWords(words) == words
  {
    WithLengthOfEqualLengths(words, |words[0]|);
    DistinctOfNoDups(words);
  }

  // ---------------------------------------------------------------------
  // Frequencies
  // ---------------------------------------------------------------------

  /** The frequency table: one key per distinct word, mapped to the number of
      times that word occurs. */
  function FrequencyTable(words: seq<string>): map<string, nat> {
    map w | w in words :: multiset(words)[w]
  }

  /** Appending a word bumps its count by one (from nothing to one when it is
      new) and leaves every other count alone. */
  lemma FrequencyTableSnoc(words: seq<string>, w: string)
    ensures FrequencyTable(words + [w]) ==
              FrequencyTable(words)[w := if w in words then multiset(words)[w] + 1 else 1]
  {
    assert multiset(words + [w]) == multiset(words) + multiset{w};
  }

  /** The sum of m's values at the keys ks, counting each position of ks. */
  function SumAt(m: map<string, nat>, ks: seq<string>): nat
    requires forall k | k in ks :: k in m
  {
    if ks == [] then 0
    else SumAt(m, ks[..|ks| - 1]) + m[ks[|ks| - 1]]
  }

  lemma {:induction false} SumAtUnchanged(m: map<string, nat>, m': map<string, nat>, ks: seq<string>)
    requires forall k | k in ks :: k in m && k in m' && m[k] == m'[k]
    ensures SumAt(m, ks) == SumAt(m', ks)
  {
    if ks != [] {
      SumAtUnchanged(m, m', ks[..|ks| - 1]);
    }
  }

  lemma {:induction false} SumAtBump(m: map<string, nat>, ks: seq<string>, w: string)
    requires forall k | k in ks :: k in m
    requires w in ks && NoDups(ks)
    ensures SumAt(m[w := m[w] + 1], ks) == SumAt(m, ks) + 1
  {
    var init, last := ks[..|ks| - 1], ks[|ks| - 1];
    assert ks == init + [last];
    if last == w {
      SumAtUnchanged(m, m[w := m[w] + 1], init);
    } else {
      SumAtBump(m, init, w);
    }
  }

  /** The frequencies, summed over every distinct word once, add up to the
      number of words. */
  lemma {:induction false} FrequencySum(words: seq<string>)
    ensures SumAt(FrequencyTable(words), Distinct(words)) == |words|
  {
    if words != [] {
      var init, w := words[..|words| - 1], words[|words| - 1];
      assert words == init + [w];
      var m, d := FrequencyTable(init), Distinct(init);
      FrequencySum(init);
      FrequencyTableSnoc(init, w);
      if w in init {
        SumAtBump(m, d, w);
      } else {
        SumAtUnchanged(m, m[w := 1], d);
      }
    }
  }
}
