/**
 * `analyze_text`: reject blank input, split it into tokens, clean each token,
 * reject input with no word left, and report the word count, the total
 * length, the distinct longest words and the case-insensitive frequency
 * table of the cleaned words.
 */
module TextAnalyzer {
  import opened Words
  import opened WordStats

  /** What the analyser gives back: one of its two `ValueError`s, or its
      statistics. The average word length is `totalLength / wordCount`
      rounded to two decimals; the model reports the two integers. */
  datatype Analysis =
    | EmptyInput
    | NoValidWords
    | Stats(wordCount: nat, totalLength: nat, longestWords: seq<string>, frequency: map<string, nat>)

  /** The cleaned words of a text, in order. */
  function CleanedWords(text: string): seq<string> {
    CleanAll(Split(text))
  }

  /** The analyser as one function of its input. */
  function Analyze(text: string): Analysis {
    if IsBlank(text) then EmptyInput
    else
      var words := CleanedWords(text);
      if words == [] then NoValidWords
      else Stats(|words|, TotalLength(words), LongestWords(words), FrequencyTable(words))
  }

  /** The loop that fills the cleaned list: each token is stripped of edge
      punctuation, dropped if nothing is left, and appended lowercased. */
  method CleanWords(tokens: seq<string>) returns (cleaned: seq<string>)
    ensures cleaned == CleanAll(tokens)
  {
    cleaned := [];
    for i := 0 to |tokens|
      invariant cleaned == CleanAll(tokens[..i])
    {
      assert tokens[..i + 1][..i] == tokens[..i];
      var stripped := Strip(tokens[i]);
      if stripped != [] {
        cleaned := cleaned + [ToLower(stripped)];
      }
    }
    assert tokens[..|tokens|] == tokens;
  }

  /** The loop that fills the frequency table: one key per distinct word,
      mapped to its number of occurrences. */
  method CountFrequencies(words: seq<string>) returns (freq: map<string, nat>)
    ensures freq == FrequencyTable(words)
    ensures forall w :: w in freq <==> w in words
    ensures forall w | w in freq :: freq[w] == multiset(words)[w] >= 1
  {
    freq := map[];
    for i := 0 to |words|
      invariant freq == FrequencyTable(words[..i])
    {
      var w := words[i];
      assert words[..i + 1] == words[..i] + [w];
      FrequencyTableSnoc(words[..i], w);
      freq := freq[w := (if w in freq then freq[w] else 0) + 1];
    }
    assert words[..|words|] == words;
  }

  /** `analyze_text` step by step. */
  method AnalyzeText(text: string) returns (r: Analysis)
    ensures r == Analyze(text)
    ensures r == EmptyInput <==> IsBlank(text)
    ensures r == NoValidWords <==>
              !IsBlank(text) && forall i | 0 <= i < |text| :: IsSpace(text[i]) || IsPunct(text[i])
  {
    ErrorsExact(text);
    if IsBlank(text) {
      return EmptyInput;
    }
    var tokens := Split(text);
    var cleaned := CleanWords(tokens);
    if cleaned == [] {
      return NoValidWords;
    }
    var wordCount := |cleaned|;
    var totalLength := TotalLength(cleaned);
    var maxLength := MaxLength(cleaned);
    var longest := Distinct(WithLength(cleaned, maxLength));
    var frequency := CountFrequencies(cleaned);
    r := Stats(wordCount, totalLength, longest, frequency);
  }

  // ---------------------------------------------------------------------
  // Properties of the analysis
  // ---------------------------------------------------------------------

  /** The two errors are exact: blank input (empty or only whitespace) is
      `EmptyInput`; input that is not blank but whose every character is
      whitespace or a stripped character is `NoValidWords`; every other
      input has statistics. */
  lemma ErrorsExact(text: string)
    ensures Analyze(text) == EmptyInput <==> IsBlank(text)
    ensures Analyze(text) == NoValidWords <==>
              !IsBlank(text) && forall i | 0 <= i < |text| :: IsSpace(text[i]) || IsPunct(text[i])
    ensures Analyze(text).Stats? <==>
              exists i | 0 <= i < |text| :: !IsSpace(text[i]) && !IsPunct(text[i])
  {
    NoWordsIff(text);
  }

  /** The word count is the number of whitespace-separated tokens that hold a
      character other than the stripped ones. */
  lemma WordCountSpec(text: string)
    requires Analyze(text).Stats?
    ensures Analyze(text).wordCount == CountWordTokens(Split(text))
    ensures 1 <= Analyze(text).wordCount <= |Split(text)|
  {
    CleanAllCount(Split(text));
  }

  /** Every word the statistics mention is a clean word: non-empty,
      lowercase, free of whitespace, and neither starting nor ending with a
      stripped character. */
  lemma StatsWordsClean(text: string)
    requires Analyze(text).Stats?
    ensures forall w | w in Analyze(text).frequency :: IsCleanWord(w)
    ensures forall w | w in Analyze(text).longestWords :: IsCleanWord(w)
  {
    var words := CleanedWords(text);
    CleanAllWordsClean(Split(text));
    LongestWordsSpec(words);
  }

  /** The frequency table has one key per distinct cleaned word, mapped to
      its number of occurrences, and its values sum to the word count. */
  lemma FrequencySpec(text: string)
    requires Analyze(text).Stats?
    ensures forall w :: w in Analyze(text).frequency <==> w in CleanedWords(text)
    ensures forall w | w in Analyze(text).frequency ::
              Analyze(text).frequency[w] == multiset(CleanedWords(text))[w] >= 1
    ensures SumAt(Analyze(text).frequency, Distinct(CleanedWords(text))) == Analyze(text).wordCount
  {
    FrequencySum(CleanedWords(text));
  }

  /** The longest-word list is non-empty, holds exactly the cleaned words no
      cleaned word is longer than, each once, in order of first occurrence. */
  lemma LongestWordsOfText(text: string)
    requires Analyze(text).Stats?
    ensures var words, r := CleanedWords(text), Analyze(text).longestWords;
            && r != []
            && (forall x | x in r :: x in words && forall k | 0 <= k < |words| :: |words[k]| <= |x|)
            && (forall k | 0 <= k < |words| ::
                  (forall j | 0 <= j < |words| :: |words[j]| <= |words[k]|) ==> words[k] in r)
            && NoDups(r)
            && (forall i, j | 0 <= i < j < |r| :: FirstIndex(words, r[i]) < FirstIndex(words, r[j]))
  {
    LongestWordsSpec(CleanedWords(text));
  }

  /** The total length lies between the word count and the maximum word
      length times the word count. */
  lemma LengthBounds(text: string)
    requires Analyze(text).Stats?
    ensures var a := Analyze(text);
            a.wordCount <= a.totalLength <= MaxLength(CleanedWords(text)) * a.wordCount
  {
    var words := CleanedWords(text);
    CleanAllWordsClean(Split(text));
    assert forall k | 0 <= k < |words| :: words[k] != [] by {
      assert forall k | 0 <= k < |words| :: IsCleanWord(words[k]);
    }
    TotalLengthBounds(words);
  }

  /** The analysis is case-insensitive: two texts that differ only in the
      case of their letters get the same result, so "Hello hello HELLO"
      counts one word three times. */
  lemma CaseInsensitive(a: string, b: string)
    requires ToLower(a) == ToLower(b)
    ensures Analyze(a) == Analyze(b)
  {
    CleanedIgnoresCase(a);
    CleanedIgnoresCase(b);
  }
}
