# RAKE keyphrase post-processing, modelled in Dafny

This project models the code of the RAKE keyphrase tool that sits between the `rake_nltk` scoring
library and the screen. The library's outputs are taken as inputs: its ranked `(score, phrase)`
list and its word-frequency and word-degree tables. Scores are exact `real`s.

- `Text` (`text.dfy`) holds Python's `str.strip()` and `str.lower()` over a stated character table.
- `Ranking` (`ranking.dfy`) covers `extract_keyphrases`:
  - it removes duplicates by the key `phrase.strip().lower()`, keeping the first entry of each key (`Deduplicate`, a loop over a `seen` set);
  - it then cuts the list with Python's slice `[:top_k]` (`PrefixSlice`).
  - The dedup facts are proved for any key function.
- `Explanation` (`explanation.dfy`) covers `explain_phrase`:
  - the phrase is lower-cased;
  - `re.split` splits it on runs of characters outside the word class `[A-Za-zА-Яа-яЁё0-9_'’\-‐‑]`, and empty pieces are dropped;
  - each token is looked up in the two tables, with 0 as the default;
  - each token contributes `degree / frequency`, or 0.0 when the frequency is 0;
  - the phrase score is the sum of those contributions.
- `Display` (`display.dfy`), from `Rake_with_sort.py`:
  - `main`'s selection loop takes the first five phrases whose `split(' ')` has 2 to 4 parts, and warns when fewer than five were found;
  - `create_worldcloud`'s weight map divides each score by the highest score, or gives 0 when that score is not positive;
  - `main`'s flow chains the two, with the "not found" exit for an empty ranking.

The main properties proved:
- the deduplicated ranking has no repeated key, and it keeps every key that occurs;
- each kept entry is the first one with its key, its order is that of the input, and a non-increasing ranking stays non-increasing;
- for `top_k >= 0`, the result has `min(top_k, number of distinct keys)` entries;
- the tokens of a phrase are non-empty, lower case, made only of word characters, and in the phrase's order;
- the phrase score is the sum of the breakdown, and it is non-negative when the tables are;
- selection picks exactly the first `min(5, n)` of the `n` qualifying phrases, and the warning fires exactly when `n < 5`;
- with non-negative scores the weights lie in [0, 1], and, when its score is positive, the top phrase of the selection weighs exactly 1.

`extract_keyphrases`'s documentation describes the result as truncated to `top_k`. The code uses
Python's slice `unique_ranked[:top_k]`, so a negative `top_k` drops that many entries from the
end instead of returning an empty list. The model follows the code: `PrefixSlice` counts from the
end for a negative `k`, and `ExtractKeyphrases` states the length for both signs.

## Model

| member | source | states |
|---|---|---|
| Text.Strip | GenAI-2-07/src/rake_keyphrase_extraction.py:85 | `strip()` returns a contiguous slice of the input. Everything cut before and after it is whitespace, and the result neither starts nor ends with whitespace. |
| Text.LowerIsLowercase | GenAI-2-07/src/rake_keyphrase_extraction.py:39 | Every character of a lower-cased string is already lower case. |
| Ranking.KeysOf | GenAI-2-07/src/rake_keyphrase_extraction.py:82-88 | The set of keys seen is exactly the set of keys of the entries read. |
| Ranking.Deduplicate | GenAI-2-07/src/rake_keyphrase_extraction.py:82-89 | The loop with the `seen` set returns exactly the entries whose key did not occur earlier, in input order. |
| Ranking.FirstOccurrencesKeys | GenAI-2-07/src/rake_keyphrase_extraction.py:82-89 | The deduplicated list never repeats a key, and it has the same set of keys as the input. |
| Ranking.FirstIndicesSpec | GenAI-2-07/src/rake_keyphrase_extraction.py:84-89 | The deduplicated list is the input at strictly increasing positions. Each kept position holds the first entry with its key. |
| Ranking.FirstIndicesIncreasing | GenAI-2-07/src/rake_keyphrase_extraction.py:84-89 | The kept positions lie in the input and strictly increase. |
| Ranking.FirstIndicesMatch | GenAI-2-07/src/rake_keyphrase_extraction.py:89 | The kept entries are the input's entries at the kept positions. |
| Ranking.FirstIndicesEarliest | GenAI-2-07/src/rake_keyphrase_extraction.py:85-88 | No entry before a kept position has the same key. |
| Ranking.FirstOccurrencesNonIncreasing | GenAI-2-07/src/rake_keyphrase_extraction.py:84-89 | Deduplication keeps a non-increasing ranking non-increasing. |
| Ranking.DistinctKeysCount | GenAI-2-07/src/rake_keyphrase_extraction.py:82-89 | A list without repeated keys has as many keys as entries. |
| Ranking.FirstOccurrencesLength | GenAI-2-07/src/rake_keyphrase_extraction.py:82-89 | The deduplicated list has one entry per distinct key of the input. |
| Ranking.PrefixSlice | GenAI-2-07/src/rake_keyphrase_extraction.py:91 | `[:k]` is a prefix of length `min(k, n)` for `k >= 0`, and of length `max(0, n + k)` for a negative `k`. |
| Ranking.PrefixSliceKeeps | GenAI-2-07/src/rake_keyphrase_extraction.py:91 | Cutting a prefix keeps keys distinct and keeps a non-increasing order. |
| Ranking.ExtractKeyphrases | GenAI-2-07/src/rake_keyphrase_extraction.py:82-91 | The result is the `[:top_k]` slice of the deduplicated ranking. Its keys are distinct, its order is non-increasing if the input's is, and its length is `min(top_k, distinct keys)`, or `max(0, distinct keys + top_k)` for a negative `top_k`. |
| Ranking.DedupSliceDistinct | GenAI-2-07/src/rake_keyphrase_extraction.py:82-91 | For any key function, dedup followed by the slice repeats no key. |
| Ranking.DedupSliceLength | GenAI-2-07/src/rake_keyphrase_extraction.py:82-91 | For any key function, dedup followed by the slice gives the slice length of the number of distinct keys. |
| Ranking.DedupSliceOrder | GenAI-2-07/src/rake_keyphrase_extraction.py:82-91 | For any key function, dedup followed by the slice keeps a non-increasing ranking non-increasing. |
| Explanation.LowerKeepsWordClass | GenAI-2-07/src/rake_keyphrase_extraction.py:38-39 | Lower-casing maps word characters to word characters and separators to separators. |
| Explanation.DropSeparators | GenAI-2-07/src/rake_keyphrase_extraction.py:38-39 | Skipping a run of separators shortens the text when it starts with one, and stops at a word character. |
| Explanation.DropSeparatorsSuffix | GenAI-2-07/src/rake_keyphrase_extraction.py:38-39 | Skipping separators leaves a suffix of the text. |
| Explanation.NonEmpty | GenAI-2-07/src/rake_keyphrase_extraction.py:39 | `[w for w in pieces if w]` keeps only non-empty pieces, each of them taken from the input. |
| Explanation.NonEmptyAppend | GenAI-2-07/src/rake_keyphrase_extraction.py:39 | Dropping empty pieces distributes over concatenation. |
| Explanation.ConcatSplitFrom | GenAI-2-07/src/rake_keyphrase_extraction.py:38-39 | The split's pieces, run together, are the text's word characters in order. |
| Explanation.SplitFromPieces | GenAI-2-07/src/rake_keyphrase_extraction.py:38-39 | Every piece of the split is made only of word characters from the text. |
| Explanation.SplitFromWord | GenAI-2-07/src/rake_keyphrase_extraction.py:38-39 | A run of word characters is never split. |
| Explanation.SplitFromSeparator | GenAI-2-07/src/rake_keyphrase_extraction.py:38-39 | A separator cuts the text in two: the non-empty pieces of `a + c + b` are those of `a` followed by those of `b`. |
| Explanation.WordsAreTokens | GenAI-2-07/src/rake_keyphrase_extraction.py:38-39 | Every token is non-empty, lower case and made of word characters only. Run together, the tokens are the lower-cased phrase's word characters in order. |
| Explanation.WordsSeparator | GenAI-2-07/src/rake_keyphrase_extraction.py:38-39 | The tokens of `a + c + b`, for a separator `c`, are the tokens of `a` followed by those of `b`. |
| Explanation.WordsOfWord | GenAI-2-07/src/rake_keyphrase_extraction.py:38-39 | A phrase of word characters only is one token, its lower-case form, or no token when it is empty. |
| Explanation.Ratio | GenAI-2-07/src/rake_keyphrase_extraction.py:48 | With a non-zero frequency, the ratio times the frequency is the degree. With a zero frequency the ratio is 0.0. It is non-negative for non-negative inputs. |
| Explanation.SumRatiosIsRakeScore | GenAI-2-07/src/rake_keyphrase_extraction.py:45-50 | Summing the breakdown ratios gives the RAKE score, the sum of degree over frequency per token. |
| Explanation.RakeScoreNonNegative | GenAI-2-07/src/rake_keyphrase_extraction.py:50 | With non-negative tables the phrase score is non-negative. |
| Explanation.RakeScoreAppend | GenAI-2-07/src/rake_keyphrase_extraction.py:50 | The score of concatenated token lists is the sum of their scores. |
| Explanation.PhraseScoreSeparator | GenAI-2-07/src/rake_keyphrase_extraction.py:38-50 | The score of `a + c + b`, for a separator `c`, is the score of `a` plus the score of `b`. |
| Explanation.ExplainPhrase | GenAI-2-07/src/rake_keyphrase_extraction.py:38-51 | There is one breakdown entry per non-empty token, in order. Each entry holds the token, its `get(w, 0)` degree and frequency, and their ratio. The total is the breakdown's sum, which equals the RAKE score, and it is non-negative for non-negative tables. |
| Explanation.UnknownTokenContributesNothing | GenAI-2-07/src/rake_keyphrase_extraction.py:46-48 | A token missing from both tables yields `(w, 0, 0, 0.0)`. |
| Display.SplitOnSpaceSpec | GenAI-2-07/src/Rake_with_sort.py:116 | `split(' ')` is undone by `' '.join`. It has one more part than the phrase has spaces, and no part holds a space. |
| Display.JoinSplitSpaceFrom | GenAI-2-07/src/Rake_with_sort.py:116 | Joining the parts with single spaces restores the text. |
| Display.SplitSpaceFromParts | GenAI-2-07/src/Rake_with_sort.py:116 | The parts are one more than the spaces and hold no space. |
| Display.Qualifying | GenAI-2-07/src/Rake_with_sort.py:116-118 | Filtering by part count never lengthens the list. |
| Display.QualifyingSpec | GenAI-2-07/src/Rake_with_sort.py:116-118 | The filtered list holds only input entries with 2 to 4 parts, and every such entry. |
| Display.QualifyingAppend | GenAI-2-07/src/Rake_with_sort.py:110-118 | Filtering distributes over concatenation. |
| Display.ShownOnceFull | GenAI-2-07/src/Rake_with_sort.py:112-113 | Once five qualifying entries are found, they are the shown ones and at least five qualify. |
| Display.SelectForDisplay | GenAI-2-07/src/Rake_with_sort.py:107-126 | The shown list is the first `min(5, n)` of the `n` qualifying entries, in order. It holds at most five entries, each of 2 to 4 parts. The warning fires exactly when fewer than five entries qualify. |
| Display.MaxScore | GenAI-2-07/src/Rake_with_sort.py:42 | The maximum is at least every score and equals one of them. |
| Display.NormalizedWeight | GenAI-2-07/src/Rake_with_sort.py:49 | With a positive maximum, the weight times the maximum is the score. Otherwise the weight is 0. |
| Display.WeightsKeys | GenAI-2-07/src/Rake_with_sort.py:47-50 | The weight map's keys are exactly the phrases of the input. |
| Display.WeightsLastWins | GenAI-2-07/src/Rake_with_sort.py:47-50 | A phrase's weight comes from its last entry, so a later duplicate overwrites an earlier one. |
| Display.WeightsFromEntries | GenAI-2-07/src/Rake_with_sort.py:47-50 | Every weight is the normalised score of some entry with that phrase. |
| Display.WeightsInUnitInterval | GenAI-2-07/src/Rake_with_sort.py:41-50 | With non-negative scores every weight lies in [0, 1]. |
| Display.WeightsNonPositive | GenAI-2-07/src/Rake_with_sort.py:41-50 | When no score is positive, every weight is 0. |
| Display.TopScoreWeighsOne | GenAI-2-07/src/Rake_with_sort.py:41-50 | With distinct phrases, a phrase of highest positive score weighs exactly 1. |
| Display.NormalizationExample | GenAI-2-07/src/Rake_with_sort.py:41-50 | Scores 9, 6 and 3 weigh 1, 2/3 and 1/3. |
| Display.CreateWeights | GenAI-2-07/src/Rake_with_sort.py:38-50 | The loop builds the weight map described above. It is empty for an empty list, and its keys are exactly the input phrases. |
| Display.Present | GenAI-2-07/src/Rake_with_sort.py:101-128 | An empty ranking gives only the "not found" outcome. Otherwise the outcome holds the selection, the warning flag and the weights of the selection. |
| Display.QualifyingDistinct | GenAI-2-07/src/Rake_with_sort.py:110-121 | Filtering keeps keys distinct. |
| Display.ShownDistinct | GenAI-2-07/src/Rake_with_sort.py:110-123 | The shown entries of a ranking with distinct keys have distinct keys and distinct phrases. |
| Display.RankAndPresent | GenAI-2-07/src/Rake_with_sort.py:97-128 | From the extracted ranking, the script shows distinct phrases. The best shown phrase weighs exactly 1 when its score is positive, and an empty ranking gives "not found". |

## Left out

- The NLTK resource downloads (`rake_keyphrase_extraction.py:5-6`) involve the network and global setup.
- The `Rake` library is foreign code:
  - its construction, candidate extraction and co-occurrence scoring are left out;
  - its ranked list and its frequency and degree tables are inputs of the model.
- The rest of both `main` functions is input and output and is not modelled:
  - argument parsing and its defaults (`top_k` 5 or 20, the language);
  - file reading and the `print` formatting;
  - the `--explain`/`--normalize` display loop of `rake_keyphrase_extraction.py:122-133`, which divides by the first score for printing only.
- The WordCloud and matplotlib rendering (`Rake_with_sort.py:52-71`) are foreign UI calls. Only the weight map handed to them is modelled, so what the library does with an empty map is outside the model.
- Text.LowerChar: Python's full Unicode `lower()` is not modelled. Only ASCII A–Z, the Latin-1 capitals U+00C0–U+00DE except U+00D7, and the Cyrillic capitals U+0400–U+042F are mapped; every other character is left unchanged. This changes the tokens, not only the dedup keys, where Python turns a separator into a word character: U+212A KELVIN SIGN lower-cases to `k`, and U+0130 to `i` followed by U+0307. For such phrases Explanation.Words differs from Python's token list, and Explanation.LowerKeepsWordClass holds only for the table modelled.
- Floating-point rounding of `deg / freq` and `score / max_score` is not modelled. Scores are exact reals.
- Display.TopScoreWeighsOne: the weight 1 is stated only for lists with distinct phrases. With duplicates, a later duplicate of the top phrase with a lower score overwrites its weight. Display.RankAndPresent shows that the lists actually reaching the weight map have distinct phrases.
