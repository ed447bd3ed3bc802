# Smart text analyser, modelled in Dafny

The model covers `analyze_text` from the smart text analyser. It takes a string and either rejects it or
returns word statistics. The steps, in the source's order:

1. Input that is empty or only whitespace is rejected (`EmptyInput`).
2. The text is split on runs of whitespace (`str.split()`).
3. The characters `.,!?;:"()[]{}` are stripped from both ends of each token.
   Tokens with nothing left are dropped. The others are lowercased.
4. Input with no word left is rejected (`NoValidWords`).
5. Otherwise the result holds the word count, the total length of the words,
   the distinct longest words in order of first occurrence, and a frequency
   table keyed by lowercased word.

Files:

- `Words.dfy` (module `Words`) holds the character classes, the tokeniser, the
  punctuation strip, ASCII lowercasing and the cleaning of a token list. It
  also holds their properties: split/join round trip, what stripping removes,
  when cleaning drops everything, and why letter case does not matter.
- `WordStats.dfy` (module `WordStats`) holds the statistics over the cleaned words:
  total and maximum length, `list(dict.fromkeys(...))` as `Distinct`, the
  longest-word list and the frequency table, with their properties.
- `TextAnalyzer.dfy` (module `TextAnalyzer`) holds the result type `Analysis`, the
  analyser as one function `Analyze`, and the two loops of the source as
  methods proved against it: `CleanWords` fills the cleaned list and
  `CountFrequencies` fills the frequency table. `AnalyzeText` runs the steps
  in order, and lemmas state what a result means in terms of the input text.

Whitespace is Python's own set for `str.split()`: tab to carriage return,
U+001C to U+001F, space, U+0085, U+00A0, U+1680, U+2000 to U+200A, U+2028,
U+2029, U+202F, U+205F and U+3000. Lowercasing maps only `A`-`Z` to `a`-`z`.

## Model

| member | source | states |
|---|---|---|
| `Words.IsSpace` | task1-smart-text-analyzer/text_analyzer.py:34-39 | the characters `str.strip()` and `str.split()` treat as whitespace: tab to carriage return, U+001C to U+001F, space, U+0085, U+00A0, U+1680, U+2000 to U+200A, U+2028, U+2029, U+202F, U+205F and U+3000 |
| `Words.IsPunct` | task1-smart-text-analyzer/text_analyzer.py:45 | the thirteen characters stripped from both ends of a token: `.,!?;:"()[]{}` |
| `Words.RunLength` | task1-smart-text-analyzer/text_analyzer.py:39 | the result is the length of the longest whitespace-free prefix: nothing in it is whitespace and the next character, if any, is |
| `Words.Split` | task1-smart-text-analyzer/text_analyzer.py:39 | every token `text.split()` yields is non-empty and holds no whitespace |
| `Words.SplitKeepsNonSpace` | task1-smart-text-analyzer/text_analyzer.py:39 | the tokens, concatenated, are exactly the non-whitespace characters of the input in their order: splitting loses only whitespace |
| `Words.SplitEmptyIffBlank` | task1-smart-text-analyzer/text_analyzer.py:34-39 | splitting yields no token exactly when the input is empty or only whitespace |
| `Words.SplitJoinWithSpace` | task1-smart-text-analyzer/text_analyzer.py:39 | round trip: joining non-empty whitespace-free tokens with single spaces and splitting the result gives the same tokens |
| `Words.RunLengthBeforeSpace` | task1-smart-text-analyzer/text_analyzer.py:39 | a whitespace character (or the end) right after a prefix ends the leading run within that prefix |
| `Words.SplitAtSpace` | task1-smart-text-analyzer/text_analyzer.py:39 | every whitespace character separates tokens: splitting a + c + b at a whitespace c gives the tokens of a followed by the tokens of b, so runs of whitespace never glue words together |
| `Words.LeftFrom` | task1-smart-text-analyzer/text_analyzer.py:45 | the left scan of `strip` stops at the first character that is not stripped, or at the end, and everything it passed over is a stripped character |
| `Words.RightFrom` | task1-smart-text-analyzer/text_analyzer.py:45 | the right scan of `strip` stops, no lower than the left scan, just after the last character that is not stripped, and everything it passed over is a stripped character |
| `Words.Strip` | task1-smart-text-analyzer/text_analyzer.py:45-46 | the stripped token neither starts nor ends with a stripped character, and it is empty exactly when the token is made only of them |
| `Words.StripIsInfix` | task1-smart-text-analyzer/text_analyzer.py:45 | the stripped token is the infix of the token between a prefix and a suffix made only of stripped characters |
| `Words.StripOfStripped` | task1-smart-text-analyzer/text_analyzer.py:45 | a word that neither starts nor ends with a stripped character is left unchanged by stripping |
| `Words.StripIdempotent` | task1-smart-text-analyzer/text_analyzer.py:45 | stripping twice gives the same as stripping once |
| `Words.StripKeepsNoSpace` | task1-smart-text-analyzer/text_analyzer.py:45 | stripping a whitespace-free token leaves a whitespace-free word |
| `Words.ToLower` | task1-smart-text-analyzer/text_analyzer.py:47 | same length, no upper-case letter left, each character either kept or an upper-case letter replaced by its lower-case counterpart, whitespace and stripped characters kept where they were |
| `Words.ToLowerFixedIffLowerCase` | task1-smart-text-analyzer/text_analyzer.py:47 | lowercasing leaves a word unchanged exactly when it has no upper-case letter, and lowercasing twice is lowercasing once |
| `Words.CleanToken` | task1-smart-text-analyzer/text_analyzer.py:45-47 | one token gives at most one word, and none exactly when the token is made only of stripped characters |
| `Words.CleanTokenIsClean` | task1-smart-text-analyzer/text_analyzer.py:45-47 | a whitespace-free token that survives cleaning gives a non-empty, lowercase, whitespace-free word that neither starts nor ends with a stripped character |
| `Words.CleanAll` | task1-smart-text-analyzer/text_analyzer.py:42-47 | cleaning never yields more words than there are tokens |
| `Words.CleanAllWordsClean` | task1-smart-text-analyzer/text_analyzer.py:42-47 | every word cleaned from whitespace-free tokens is non-empty, lowercase and whitespace-free, and neither starts nor ends with a stripped character |
| `Words.CleanAllEmptyIff` | task1-smart-text-analyzer/text_analyzer.py:42-50 | cleaning drops every token exactly when every token is made only of stripped characters |
| `Words.CleanAllCount` | task1-smart-text-analyzer/text_analyzer.py:42-53 | the number of cleaned words is the number of tokens holding some character that is not stripped |
| `Words.NoWordsIff` | task1-smart-text-analyzer/text_analyzer.py:39-50 | no word survives exactly when every character of the text is whitespace or a stripped character |
| `Words.SplitLower` | task1-smart-text-analyzer/text_analyzer.py:39-47 | splitting a lowercased text gives the lowercased tokens of the text |
| `Words.CleanTokenLower` | task1-smart-text-analyzer/text_analyzer.py:45-47 | stripping and lowercasing commute, and a token cleans to the same words whatever the case of its letters |
| `Words.CleanAllLower` | task1-smart-text-analyzer/text_analyzer.py:42-47 | lowercasing the tokens first does not change the cleaned words |
| `Words.CleanedIgnoresCase` | task1-smart-text-analyzer/text_analyzer.py:34-47 | a text and its lowercased form are equally blank and give the same cleaned words |
| `WordStats.TotalLength` | task1-smart-text-analyzer/text_analyzer.py:56 | the sum of the lengths of the words |
| `WordStats.MaxLength` | task1-smart-text-analyzer/text_analyzer.py:60 | no word is longer than the result, and some word has exactly that length |
| `WordStats.TotalLengthAtLeastCount` | task1-smart-text-analyzer/text_analyzer.py:56 | when no word is empty, the total length is at least the number of words |
| `WordStats.TotalLengthAtMost` | task1-smart-text-analyzer/text_analyzer.py:56 | when no word is longer than n, the total length is at most n times the number of words |
| `WordStats.TotalLengthBounds` | task1-smart-text-analyzer/text_analyzer.py:56-60 | word count <= total length <= maximum length * word count for non-empty words |
| `WordStats.WithLength` | task1-smart-text-analyzer/text_analyzer.py:61 | the words of the given length, in their order, repetitions kept |
| `WordStats.WithLengthMember` | task1-smart-text-analyzer/text_analyzer.py:61 | a word is in the filtered list exactly when it is in the input and has the given length |
| `WordStats.WithLengthKeepsOrder` | task1-smart-text-analyzer/text_analyzer.py:61 | two words of the filtered list are words of the input, and their first occurrences come in the same relative order in both |
| `WordStats.WithLengthOfEqualLengths` | task1-smart-text-analyzer/text_analyzer.py:61 | filtering words that all have the given length keeps them all |
| `WordStats.Distinct` | task1-smart-text-analyzer/text_analyzer.py:63 | the deduplicated list has no repeated element and the same elements as its input |
| `WordStats.DistinctInOrder` | task1-smart-text-analyzer/text_analyzer.py:63 | the deduplicated list follows the order of first occurrence in its input |
| `WordStats.DistinctOfNoDups` | task1-smart-text-analyzer/text_analyzer.py:63 | deduplicating a list without repetitions gives it back unchanged |
| `WordStats.LongestWords` | task1-smart-text-analyzer/text_analyzer.py:60-63 | the words of maximum length, deduplicated in order of first occurrence |
| `WordStats.LongestWordsSpec` | task1-smart-text-analyzer/text_analyzer.py:60-63 | the longest-word list is non-empty, holds only words no word is longer than, holds every such word, has no duplicates and follows first-occurrence order |
| `WordStats.LongestWordsAllTied` | task1-smart-text-analyzer/text_analyzer.py:60-63 | when distinct words all have one length they are all longest words, in their order ("cat dog bat") |
| `WordStats.FrequencyTable` | task1-smart-text-analyzer/text_analyzer.py:66-68 | the map from each distinct word to its number of occurrences |
| `WordStats.FrequencyTableSnoc` | task1-smart-text-analyzer/text_analyzer.py:66-68 | one more word raises its own count by one, or adds it with count one, and leaves every other count alone |
| `WordStats.FrequencySum` | task1-smart-text-analyzer/text_analyzer.py:66-68 | the counts, summed once over each distinct word, add up to the number of words |
| `TextAnalyzer.CleanedWords` | task1-smart-text-analyzer/text_analyzer.py:39-47 | the cleaned words of the text: its tokens, stripped, lowercased, the empty ones dropped |
| `TextAnalyzer.Analyze` | task1-smart-text-analyzer/text_analyzer.py:12-75 | the whole analysis as one function: `EmptyInput` for blank text, `NoValidWords` when no word survives cleaning, otherwise word count, total length, longest words and frequency table of the cleaned words |
| `TextAnalyzer.CleanWords` | task1-smart-text-analyzer/text_analyzer.py:42-47 | the loop builds exactly the cleaned list `CleanAll(tokens)` |
| `TextAnalyzer.CountFrequencies` | task1-smart-text-analyzer/text_analyzer.py:66-68 | the loop builds a table whose keys are exactly the words and whose value for each word is its number of occurrences (at least 1) |
| `TextAnalyzer.AnalyzeText` | task1-smart-text-analyzer/text_analyzer.py:12-75 | the step-by-step analyser returns `Analyze(text)`; `EmptyInput` exactly for blank input; `NoValidWords` exactly for non-blank input made only of whitespace and stripped characters |
| `TextAnalyzer.ErrorsExact` | task1-smart-text-analyzer/text_analyzer.py:34-50 | `EmptyInput` exactly when the text is blank; `NoValidWords` exactly when it is not blank but every character is whitespace or stripped; statistics exactly when some character is neither |
| `TextAnalyzer.WordCountSpec` | task1-smart-text-analyzer/text_analyzer.py:39-53 | the word count is the number of tokens that hold a non-stripped character, between 1 and the number of tokens |
| `TextAnalyzer.StatsWordsClean` | task1-smart-text-analyzer/text_analyzer.py:42-68 | every frequency key and every longest word is non-empty, lowercase and whitespace-free, and neither starts nor ends with a stripped character |
| `TextAnalyzer.FrequencySpec` | task1-smart-text-analyzer/text_analyzer.py:66-68 | the frequency keys are exactly the cleaned words, each value is that word's number of occurrences, and the values sum to the word count |
| `TextAnalyzer.LongestWordsOfText` | task1-smart-text-analyzer/text_analyzer.py:60-63 | the longest words are non-empty, exactly the cleaned words of maximal length, without duplicates, in first-occurrence order |
| `TextAnalyzer.LengthBounds` | task1-smart-text-analyzer/text_analyzer.py:53-60 | word count <= total length <= maximum word length * word count |
| `TextAnalyzer.CaseInsensitive` | task1-smart-text-analyzer/text_analyzer.py:42-68 | two texts that differ only in letter case get the same analysis, so "Hello hello HELLO" counts one word three times |

## Left out

- `average_word_length` (text_analyzer.py:57) is not modelled. It is a float division rounded to two decimals. The result holds the integers `totalLength` and `wordCount` instead.
- The `TypeError` for non-string input (text_analyzer.py:31-32) is not modelled. Dafny's typing makes it impossible.
- Words.ToLower: lowercases only the ASCII letters `A`-`Z`. Python's `str.lower()` also maps other letters, and some of them change length (U+0130 becomes two characters). `CaseInsensitive` holds for ASCII case only.
- Python strings may hold lone surrogate code points. Dafny's `char` cannot, so such input is outside the model.
- The order of the keys in `word_frequency` is not modelled. A Python dict keeps first-insertion order, and a Dafny `map` has no order. `FrequencySpec` sums the values in the order of `Distinct(CleanedWords(text))`.
- The error messages of the two `ValueError`s are not modelled. They appear as the constructors `EmptyInput` and `NoValidWords`.
- The `__main__` demonstration (text_analyzer.py:78-91) and `test_text_analyzer.py` are not modelled. They only print and assert nothing. Their cases appear as general lemmas: `LongestWordsAllTied` for "cat dog bat" and `CaseInsensitive` for "Hello hello HELLO".
