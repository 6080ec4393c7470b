# Keyword ranking of the trend collector, in Dafny

The trend collector gathers text from news, social, shopping and search
sources. It turns that text into weighted keyword rankings. This project
models the ranking logic and proves what it computes:

- **Tokenizer** (`extractKeywords`). It replaces every character other than
  `\w`, `\s` and a Hangul syllable with a space. It then splits on runs of
  `\s`, keeps tokens of 2 to 10 characters and drops stop words.
- **Per-source scorer** (`processKeywords`). It counts the keywords in a
  JavaScript object, sorts the entries by count (highest first), keeps ten of
  them and weights each count by the source (news 3, social 2, shopping 1.5,
  anything else 1).
- **Cross-source aggregator** (the middle of `POST` in the hybrid-trends
  route). It adds up the scores per keyword over the news, social, shopping and
  search lists, in that order. It keeps the twenty best totals, tagged
  `combined`.
- **RSS title counter** (the middle of `POST` in the collect-news route). It
  deletes every character outside `[가-힣a-zA-Z0-9 ]` from each title. It
  splits on single spaces, counts the pieces of two or more characters and
  keeps the twenty most frequent, tagged `google_rss`.

Modules:

- `Text` (`text.dfy`) models JavaScript's `\s`, `\w`, `split(/\s+/)` and
  `split(' ')`.
- `Tally` (`tally.dfy`) models the insertion-ordered plain object
  `obj[k] = (obj[k] || 0) + x`, written as a class with a ghost history of
  additions, and what `Object.entries` returns.
- `Ranking` (`ranking.dfy`) models the stable descending sort and
  `.slice(0, k)`.
- `HybridTrends` (`hybrid_trends.dfy`) models the tokenizer, the scorer and
  the aggregator.
- `CollectNews` (`collect_news.dfy`) models the RSS title counter.

The loops that update objects in place are methods over a `Tally` object:
`ProcessKeywords`, `Combine` with `AddScores`, and `CollectNewsKeywords` with
`CountWords`. Each method is proved equal to a specification function, and the
lemmas state the properties of that function. JavaScript numbers are modelled
as `real`. Counts, weights and scores are multiples of 0.5, which doubles hold
exactly at realistic sizes.

Three places where the code differs from a prose description of it:

- `\w` includes the underscore, so `extractKeywords` keeps `_` inside tokens.
- The collect-news cleaner deletes characters rather than replacing them with
  a space, so `"a-b"` becomes one word `"ab"`.
- The collect-news counter has no upper length bound and no stop words.

The model follows the code in each case.

## Model

| member | source | states |
|---|---|---|
| Text.SplitOnSpaceRunsContent | app/api/hybrid-trends/route.ts:179 | the pieces of `split(/\s+/)` hold no `\s`, and laid end to end they are the text with its `\s` characters removed |
| Text.SplitOnSpaceRunsShape | app/api/hybrid-trends/route.ts:179 | only the first piece (exactly when the text is empty or starts with `\s`) and the last piece (exactly when it is empty or ends with `\s`) can be empty |
| Text.SplitOnSpaceRunsChars | app/api/hybrid-trends/route.ts:179 | every character of a piece comes from the text and is not `\s` |
| Text.SplitOnSpaceRunsAppend | app/api/hybrid-trends/route.ts:179 | splitting `a + sep + b` on `\s` runs, where `sep` is `\s`, gives the nonempty pieces of `a` followed by those of `b` |
| Text.SplitOnSpaceRunsWord | app/api/hybrid-trends/route.ts:179 | a nonempty text without `\s` is one piece, itself, so with `SplitOnSpaceRunsAppend` the nonempty pieces are exactly the maximal runs of non-`\s` characters |
| Text.SplitOnPieces | app/api/collect-news/route.ts:24 | `split(' ')` yields one more piece than there are spaces, and no piece contains a space |
| Text.SplitOnJoin | app/api/collect-news/route.ts:24 | joining the pieces of `split(sep)` with `sep` gives back the string |
| Text.SplitOnChars | app/api/collect-news/route.ts:24 | every character of a piece comes from the string |
| Tally.Tally.constructor | app/api/hybrid-trends/route.ts:193 | a new object has no keys and no additions |
| Tally.Tally.Add | app/api/hybrid-trends/route.ts:195 | `obj[k] = (obj[k] \|\| 0) + x` records one more addition and keeps the key order and the totals tied to all additions so far |
| Tally.Tally.Entries | app/api/hybrid-trends/route.ts:209 | `Object.entries` equals the accumulated entries of the additions made so far |
| Tally.AddStepOrder | app/api/hybrid-trends/route.ts:195 | an addition appends its key to the key order exactly when the key is new |
| Tally.AddStepTotals | app/api/hybrid-trends/route.ts:195 | an addition adds its amount to the key's total, starting from 0 for a new key, and leaves the other totals alone |
| Tally.DistinctProperties | app/api/hybrid-trends/route.ts:209 | the keys of the entries are the keys added, each once, in order of first insertion |
| Tally.AccumulatedKeys | app/api/hybrid-trends/route.ts:209 | an entry is listed exactly when its key was added and its value is that key's total; keys are listed once each, in first-insertion order |
| Tally.SumForOnes | app/api/hybrid-trends/route.ts:194-196 | when each word adds 1, a word's total is its number of occurrences |
| Tally.SumAllOnes | app/api/collect-news/route.ts:22-27 | when each word adds 1, the totals add up to the number of words |
| Tally.AccumulatedTotal | app/api/hybrid-trends/route.ts:272-278 | the totals over all keys add up to the sum of all amounts added |
| Tally.AccumulatedAdded | app/api/hybrid-trends/route.ts:276 | one more addition raises the sum of the totals by exactly its amount |
| Tally.SumForAppend | app/api/hybrid-trends/route.ts:272-278 | a key's total over two runs of additions is the sum of its totals over each run |
| Ranking.SortDescPermutes | app/api/hybrid-trends/route.ts:210 | the sort returns a permutation of its input |
| Ranking.SortDescSorted | app/api/hybrid-trends/route.ts:210 | the sort's output has non-increasing values |
| Ranking.SortDescStable | app/api/hybrid-trends/route.ts:210 | entries with equal values keep their input order, as `Array.prototype.sort` guarantees |
| Ranking.SortDescDistinctKeys | app/api/hybrid-trends/route.ts:209-210 | keys that are distinct before sorting stay distinct |
| Ranking.TopKSelects | app/api/hybrid-trends/route.ts:209-211 | `.slice(0, k)` of the sorted entries has `min(k, n)` entries, is sorted and draws only from the input, and keeps all of them when `n <= k` |
| Ranking.TopKOmitted | app/api/hybrid-trends/route.ts:209-211 | no entry left out is worth more than any entry kept |
| Ranking.TopKOrder | app/api/hybrid-trends/route.ts:209-211 | the kept entries inherit stability and distinct keys |
| Ranking.TopTotalsSelects | app/api/hybrid-trends/route.ts:209-211 | the top `k` totals have `min(k, distinct keys)` entries with distinct keys, sorted, each key added and paired with its total |
| Ranking.TopTotalsOmitted | app/api/hybrid-trends/route.ts:209-211 | no key left out has a larger total than a key kept |
| Ranking.TopTotalsComplete | app/api/hybrid-trends/route.ts:209-211 | with at most `k` distinct keys, every key is kept |
| Ranking.TopTotalsTies | app/api/hybrid-trends/route.ts:209-211 | keys with equal totals keep their first-insertion order |
| Ranking.TopCountsSelects | app/api/hybrid-trends/route.ts:193-211 | the `k` most frequent words: `min(k, distinct words)` entries, distinct, sorted, each word paired with its number of occurrences |
| Ranking.TopCountsEntry | app/api/hybrid-trends/route.ts:193-211 | each kept word occurs in the input and is paired with its number of occurrences |
| Ranking.TopCountsOmitted | app/api/hybrid-trends/route.ts:193-211 | no word left out occurs more often than a word kept |
| Ranking.TopCountsTies | app/api/hybrid-trends/route.ts:193-211 | words with equal counts keep the order of their first occurrence |
| HybridTrends.Clean | app/api/hybrid-trends/route.ts:178 | cleaning keeps the length, leaves `\w`, `\s` and Hangul syllables in place and turns every other character into a space |
| HybridTrends.LengthFilteredCounts | app/api/hybrid-trends/route.ts:182 | the filter keeps every word of 2 to 10 characters as often as it occurs, and nothing else |
| HybridTrends.LengthFilteredMember | app/api/hybrid-trends/route.ts:182 | each kept word is an input word of 2 to 10 characters |
| HybridTrends.LengthFilteredAppend | app/api/hybrid-trends/route.ts:182 | the filter works word by word, so it keeps input order |
| HybridTrends.LengthFilteredNonEmpty | app/api/hybrid-trends/route.ts:179-182 | the empty pieces of the split never pass the length filter |
| HybridTrends.StopWordsRemoveNothing | app/api/hybrid-trends/route.ts:185-186 | every stop word has one character, so words of two or more characters all survive the stop-word filter |
| HybridTrends.ExtractKeywordsIsLengthFilter | app/api/hybrid-trends/route.ts:176-187 | the keywords are the length-filtered pieces of the cleaned text, in order, each as often as it occurs |
| HybridTrends.ExtractKeywordsTokens | app/api/hybrid-trends/route.ts:178-182 | every keyword has 2 to 10 characters, each an ASCII letter, digit, underscore or Hangul syllable |
| HybridTrends.ExtractKeywordsAppend | app/api/hybrid-trends/route.ts:89 | the keywords of `title + " " + description` are those of the title followed by those of the description |
| HybridTrends.Weight | app/api/hybrid-trends/route.ts:199-206 | the weight is 3, 2, 1.5 or 1, never below 1 |
| HybridTrends.ProcessKeywords | app/api/hybrid-trends/route.ts:189-219 | the counting loop followed by sort, slice and map returns the per-source ranking of the keywords |
| HybridTrends.PerSourceSize | app/api/hybrid-trends/route.ts:190-211 | the list has `min(10, distinct keywords)` entries and is empty exactly when there are no keywords |
| HybridTrends.PerSourceSelects | app/api/hybrid-trends/route.ts:193-218 | each entry's keyword is an input keyword, its count is that keyword's number of occurrences, its score is count × weight and its source is the given one |
| HybridTrends.PerSourceDistinct | app/api/hybrid-trends/route.ts:193-211 | no keyword appears twice |
| HybridTrends.PerSourceSorted | app/api/hybrid-trends/route.ts:209-218 | counts, and so scores, never increase along the list |
| HybridTrends.PerSourceOmitted | app/api/hybrid-trends/route.ts:209-211 | no keyword left out occurs more often than any keyword kept |
| HybridTrends.PerSourceTies | app/api/hybrid-trends/route.ts:209-211 | keywords with equal counts come in the order of their first occurrence |
| HybridTrends.Combine | app/api/hybrid-trends/route.ts:270-289 | the nested loops over news, social, shopping and search, then sort, slice and map, return the combined ranking of the four lists |
| HybridTrends.AddScores | app/api/hybrid-trends/route.ts:273-277 | the inner loop adds every entry's (keyword, score) of one list, in order |
| HybridTrends.SumForPairs | app/api/hybrid-trends/route.ts:273-277 | the total added for a keyword from one list is the sum of that keyword's scores in it |
| HybridTrends.AllPairsSums | app/api/hybrid-trends/route.ts:270-278 | a keyword's total over all lists is the sum of its scores, list by list |
| HybridTrends.AllPairsKeys | app/api/hybrid-trends/route.ts:272-278 | keys are added in list order: news, then social, shopping and search |
| HybridTrends.CombinedSelects | app/api/hybrid-trends/route.ts:270-289 | the combined list has `min(20, distinct keywords)` entries with distinct keywords, each score the sum of that keyword's scores over the four lists, each tagged `combined` |
| HybridTrends.CombinedSorted | app/api/hybrid-trends/route.ts:281-283 | scores never increase along the combined list |
| HybridTrends.CombinedOmitted | app/api/hybrid-trends/route.ts:281-283 | no keyword left out has a larger total than a keyword kept |
| HybridTrends.CombinedTies | app/api/hybrid-trends/route.ts:272-283 | keywords with equal totals come in the order they first appear in news, then social, shopping and search |
| CollectNews.StripTitleCounts | app/api/collect-news/route.ts:24 | stripping keeps each character of `[가-힣a-zA-Z0-9 ]` as often as it occurs and deletes every other character |
| CollectNews.StripTitleAppend | app/api/collect-news/route.ts:24 | stripping works character by character, so it keeps order |
| CollectNews.StripTitleKeeps | app/api/collect-news/route.ts:24 | a title made only of kept characters is unchanged |
| CollectNews.StripTitleJoins | app/api/collect-news/route.ts:24 | `"a-b"` becomes `"ab"`: deleted characters are not replaced by a space |
| CollectNews.CollectNewsKeywords | app/api/collect-news/route.ts:21-33 | the nested counting loops followed by sort, slice and map return the news keywords of the feed |
| CollectNews.CountWords | app/api/collect-news/route.ts:24-27 | the inner loop adds one `1` per piece of two or more characters, in order |
| CollectNews.LongWordsCounts | app/api/collect-news/route.ts:25 | exactly the pieces of two or more characters are counted, each as often as it occurs |
| CollectNews.LongWordCounted | app/api/collect-news/route.ts:25-26 | a counted word is a piece of two or more characters, counted as often as it occurs |
| CollectNews.LongWordsCount | app/api/collect-news/route.ts:25-26 | a word of two or more characters is counted as often as it occurs |
| CollectNews.LongWordsAppend | app/api/collect-news/route.ts:24-26 | the counted pieces of two runs of pieces are those of each run, in order |
| CollectNews.WordsAppend | app/api/collect-news/route.ts:22-24 | the pieces of two runs of items are those of each run, in order |
| CollectNews.CountedTitle | app/api/collect-news/route.ts:22-27 | counting one more title adds that title's counted pieces after those of the titles before it |
| CollectNews.TitleWordsChars | app/api/collect-news/route.ts:24 | the pieces of one title hold no space and only kept characters |
| CollectNews.WordsChars | app/api/collect-news/route.ts:22-24 | the pieces of every title hold no space and only kept characters |
| CollectNews.WordCountTotal | app/api/collect-news/route.ts:22-27 | the counts add up to the number of pieces of two or more characters |
| CollectNews.WordsMissingTitle | app/api/collect-news/route.ts:23-24 | an item without a title contributes one empty piece |
| CollectNews.LongWordsEmptyPiece | app/api/collect-news/route.ts:25 | an empty piece is never counted |
| CollectNews.MissingTitle | app/api/collect-news/route.ts:23-25 | an item without a title changes neither the word count nor the output, wherever it sits in the feed |
| CollectNews.RankedSelects | app/api/collect-news/route.ts:30-33 | at most 20 entries, `min(20, distinct counted words)`, with distinct keywords, each a piece of two or more characters scored by its number of occurrences and tagged `google_rss` |
| CollectNews.RankedOrder | app/api/collect-news/route.ts:30-32 | scores never increase, and no word of two or more characters that was left out occurs more often than a kept one |
| CollectNews.RankedTies | app/api/collect-news/route.ts:30-32 | words with equal counts come in the order they were first counted |
| CollectNews.NewsKeywordsChars | app/api/collect-news/route.ts:24-33 | every output keyword is made only of Hangul syllables, ASCII letters and digits |

## Left out

- Fetching, scraping and the RSS parse are not modelled. This covers the four collectors (app/api/hybrid-trends/route.ts:19-174) and the empty-feed check (app/api/collect-news/route.ts:14-18). Their results come from the network; the model takes the keyword lists and feed items as parameters.
- The Supabase reads and writes, the one-second sleeps, the timestamps and the environment-variable checks are not modelled. They are I/O with no effect on the ranking.
- The React pages and components, the thin API wrappers and the hard-coded test fixture are not part of this model.
- Property order of JavaScript objects is modelled as pure insertion order. `Object.entries` lists integer-like keys such as `"2024"` first, in numeric order, so among keywords with equal counts such keys come first in the real program. Where keywords tie at the cut-off (10th or 20th place), this also changes which of them are kept, so `HybridTrends.PerSourceRanking`, `HybridTrends.CombinedRanking` and `CollectNews.NewsKeywords` can then differ from the program's lists. The tie-order lemmas (`Ranking.TopTotalsTies`, `Ranking.TopCountsTies`, `HybridTrends.PerSourceTies`, `HybridTrends.CombinedTies`, `CollectNews.RankedTies`) hold only for keywords that are not integer-like. The other properties, apart from which tied keywords are kept, do not depend on this order.
- Keys inherited from `Object.prototype` are not modelled. A token such as `toString` or `__proto__` reads an inherited member through `obj[k] || 0`; `weights[source]` does the same for such a source name. The model treats every key as absent until it is added.
- JavaScript strings are UTF-16, and the model's characters are code points. A character outside the Basic Multilingual Plane is two code units. The hybrid-trends cleaner turns each half into a space, and the collect-news cleaner deletes both halves. Either way such a character never ends up in a token, so the tokens and their lengths are those the model computes.
- IEEE-754 doubles are modelled as exact `real` numbers. Sums of many fractional scores could round in the real program, and NaN arises only through the inherited `Object.prototype` keys described above: `fn + 1` is a string, so `count * weight` is NaN and the aggregation concatenates strings.
