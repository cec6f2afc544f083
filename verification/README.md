# questions.py ranking core, modelled in Dafny

`questions.py` answers a question from a corpus of text files in two
rounds of tf-idf ranking:

- `count_words` and `compute_idfs` give every word its inverse document
  frequency (IDF), `ln(number of documents / number of documents holding the
  word)`.
- `top_files` scores each file by the sum, over the query words it holds, of
  the word's count in the file times its IDF. It returns the names of the
  best `n` files.
- `top_sentences` scores each sentence of those files by the pair (matching
  word measure, query term density). The MWM is the sum of the IDFs of the
  query words present. The QTD is the number of tokens that are query words
  over the sentence length. It returns the best `n` sentences.

The model has six modules:

- `Corpus` (corpus.dfy): a dictionary of token lists (`Collection`) whose
  `keys` sequence records the dictionary's insertion order, plus document
  frequency and its bounds.
- `Sums` (sums.dfy): `Total`, the sum of a map's values in no particular
  order. It stands for a running sum over a Python `set`.
- `Ranking` (ranking.dfy): Python's stable `sorted(..., reverse=True)` as a
  descending insertion sort, and the slice `[:n]`.
- `Idf` (idf.dfy): `count_words` and `compute_idfs`.
- `FileRanker` (file_ranker.dfy): `top_files`.
- `SentenceRanker` (sentence_ranker.dfy): `top_sentences`.

The methods follow the source's loops. A query is a `set`, and the
methods visit it in an arbitrary order, as Python does. Each method is
proved equal to a specification function (`FileScore`,
`MatchingWordMeasure`, `QueryTermDensity`, `Top`). The lemmas state what
the rankings promise about those functions.

## Model

| member | source | states |
|---|---|---|
| `Corpus.Collection.Valid` | questions.py:21 | a dictionary of token lists: its iteration order lists every name once, and exactly the names the dictionary maps |
| `Corpus.WordSet` | questions.py:22 | `set(tokens)`: the distinct words of a token list |
| `Corpus.Occurrences` | questions.py:141 | `tokens.count(w)`: how many tokens equal `w`; positive exactly when `w` is one of the tokens |
| `Corpus.OccurrencesAppend` | questions.py:141 | one more token adds 1 to the count of its own word and changes no other count |
| `Corpus.Containing` | questions.py:25-30 | the documents whose token list holds `w` |
| `Corpus.DocumentFrequency` | questions.py:25-30 | what `count_words` computes for `w`: the number of documents holding it, each counted once |
| `Corpus.Occurs` | questions.py:107-108 | `w` appears in at least one document, the condition for having an IDF |
| `Corpus.IdfsCover` | questions.py:141 | every query word that some document holds has an IDF, so the lookups `idfs[word]` at lines 141 and 171 raise no `KeyError` |
| `Idf.Idf` | questions.py:118 | the IDF of a word that occurs: `ln(number of documents / document frequency)` |
| `Idf.CountWords` | questions.py:11-31 | the result holds exactly the words that occur in some document, and maps each to the number of documents that hold it (its document frequency) |
| `Idf.CountSet` | questions.py:25-30 | one document's word set raises the count of each of its words by 1, and a word seen for the first time starts at 1; no other count changes |
| `Idf.ComputeIdfs` | questions.py:102-120 | the result holds exactly the words that occur in some document, and maps each to `ln(number of documents / document frequency)` |
| `Idf.IdfArgumentAtLeastOne` | questions.py:112-118 | the divisor is never 0 (every counted word has frequency at least 1), and the logarithm's argument is at least 1 |
| `Idf.IdfNonNegative` | questions.py:118 | for a logarithm that is 0 at 1 and increasing from there, every IDF is at least 0 |
| `Idf.IdfOfUbiquitousWord` | questions.py:118 | a word that every document holds has IDF `ln(1)` |
| `Idf.IdfOfRareWord` | questions.py:118 | a word held by exactly one document has IDF `ln(number of documents)` |
| `Corpus.DocumentFrequencyBounds` | questions.py:21-30 | a word's document frequency is at least 1 exactly when the word occurs, and at most the number of documents |
| `Corpus.UbiquitousWordFrequency` | questions.py:21-30 | a word held by every document has the number of documents as its frequency |
| `Corpus.FrequencyDependsOnWordSets` | questions.py:22 | document frequency depends only on each document's set of words, not on token order or repetition |
| `Corpus.RepeatedTokenCountsOnce` | questions.py:22 | another copy of a token a document already holds changes no word's frequency |
| `FileRanker.TfIdf` | questions.py:141 | one term of a file's score: `files[file].count(word) * idfs[word]`; 0 when the file lacks the word |
| `FileRanker.TfIdfTerms` | questions.py:137-141 | the terms of a file's score, one per query word the file holds |
| `FileRanker.FileScore` | questions.py:132-141 | a file's tf-idf score: the sum of its terms, in no particular order |
| `FileRanker.FileKeys` | questions.py:144 | the sort key of every file: its tf-idf score |
| `FileRanker.AddQueryTerms` | questions.py:137-141 | after visiting all query words in any order, the running score has grown by the file's tf-idf score, the sum over the query words it holds of count times IDF |
| `FileRanker.TfIdfStep` | questions.py:138-141 | visiting one more query word adds its count times its IDF when the file holds it, and nothing otherwise |
| `FileRanker.TopFiles` | questions.py:123-149 | the result is the first `n` file names after a stable sort by tf-idf score, highest first, over the files in dictionary order |
| `FileRanker.RankFiles` | questions.py:45-51 | the first round of `main`: the IDFs computed from the files hold exactly the words that occur in a file, each mapped to `ln(number of files / document frequency)`, and cover every query word a file holds, and the ranking is that of `top_files` with those IDFs |
| `FileRanker.TopFilesRanking` | questions.py:143-147 | the result has `min(n, number of files)` names for `n >= 0`, repeats none, names only files, its scores never increase, and no file left out scores above a file returned |
| `FileRanker.AbsentWordsAddNothing` | questions.py:138 | query words the file does not hold do not change its score, whether or not they have an IDF |
| `FileRanker.SingleWordScore` | questions.py:137-141 | a one-word query scores a file by the word's count times its IDF, and 0 when the file does not hold it |
| `FileRanker.TfIdfNonNegative` | questions.py:141 | a count times a non-negative IDF is non-negative |
| `FileRanker.FileScoreNonNegative` | questions.py:141 | with non-negative IDFs no file scores below 0 |
| `FileRanker.TokenScore` | questions.py:137-141 | the tf-idf score read token by token: every token that is a query word adds its word's IDF |
| `FileRanker.TermsAfterAppend` | questions.py:141 | after one more token, the score terms change only for that token's word |
| `FileRanker.TermGrows` | questions.py:141 | a word held once more raises its term `count * idf` by its IDF |
| `FileRanker.ScoreAppend` | questions.py:137-141 | one more token raises the file's score by its IDF when it is a query word, and by 0 otherwise |
| `FileRanker.FileScoreIsTokenSum` | questions.py:137-141 | summing `count * idf` over the distinct query words a file holds equals adding the IDF of every token that is a query word |
| `FileRanker.TopFilesWithoutMatches` | questions.py:132-147 | when no file holds a query word, no IDF is looked up, every score is 0, and the result is the first `n` files in dictionary order |
| `FileRanker.ScoresGiveFileKeys` | questions.py:132-144 | the score table that the loop builds gives every file its tf-idf score |
| `Ranking.AtLeast` | questions.py:181 | Python's `>=` on the key tuples: lexicographic, first number first |
| `Ranking.Descending` | questions.py:144 | keys never increase along a list |
| `Ranking.WithKey` | questions.py:181 | the items with one given key, in list order: what a stable sort must preserve |
| `Ranking.RankDescending` | questions.py:144 | the sorted list is a permutation of the input whose keys never increase |
| `Ranking.RankDescendingDistinct` | questions.py:144 | sorting items that are pairwise different keeps them so |
| `Ranking.RankDescendingIsStable` | questions.py:181 | for every key, the items with that key leave the sort in the order they entered it (Python's sort is stable, also in reverse) |
| `Ranking.Insert` | questions.py:144 | inserting an item adds exactly that item to the list's multiset |
| `Ranking.InsertDescending` | questions.py:144 | inserting into a list whose keys never increase keeps them so |
| `Ranking.InsertWithKey` | questions.py:181 | insertion puts the new item before all items of its own key |
| `Ranking.InsertMembers` | questions.py:144 | after insertion the list holds the new item and the old ones, and nothing else |
| `Ranking.InsertDistinct` | questions.py:144 | inserting a new item into a list without repeats makes no repeat |
| `Ranking.SliceTo` | questions.py:147 | `s[:n]` is a prefix of `s` of length `min(n, len(s))` for `n >= 0`, and `max(len(s) + n, 0)` for `n < 0` |
| `Ranking.SortedItems` | questions.py:144 | sorting keeps the number of items, and every sorted item is a name with its own key |
| `Ranking.SortedNames` | questions.py:144-147 | the sorted names repeat none and lose none |
| `Ranking.SortedNamesDistinct` | questions.py:144-147 | the sorted names repeat none |
| `Ranking.SortedNamesComplete` | questions.py:144-147 | every name appears among the sorted names |
| `Ranking.Ids` | questions.py:147 | the names of a sorted list, dropping the keys: `[file[0] for file in files_scores]`, and likewise at line 181 |
| `Ranking.Entries` | questions.py:144 | the list handed to `sorted`: each name with its key, in dictionary order |
| `Ranking.Top` | questions.py:144-147 | `[name for name, key in sorted(items, reverse=True)][:n]`: the names of the first `n` items after a stable sort by key, highest first |
| `Ranking.TopShape` | questions.py:147 | the ranking has as many names as the slice asks for, repeats none, and holds only ranked names |
| `Ranking.TopDescending` | questions.py:144-147 | keys never increase along the ranking |
| `Ranking.TopOrdersStrictly` | questions.py:181-184 | of two names in the ranking, one whose key is strictly above the other's comes first |
| `Ranking.TopKeepsBest` | questions.py:144-147 | no name left out of the ranking has a key above a name in it |
| `Ranking.TopOfTies` | questions.py:144-147 | when every name has the same key, the ranking is the first `n` names in their original order |
| `Ranking.AllWithKey` | questions.py:181 | a list whose items all have key `k` is its own subsequence of key `k` |
| `SentenceRanker.NonEmptySentences` | questions.py:58-60 | every sentence has at least one token, as the `if tokens:` filter in `main` ensures, so the division at line 176 is defined |
| `SentenceRanker.MatchedIdfs` | questions.py:169-171 | the IDF of each distinct query word the sentence holds |
| `SentenceRanker.MatchedCounts` | questions.py:169-173 | the count in the sentence of each distinct query word it holds |
| `SentenceRanker.MatchingWordMeasure` | questions.py:167-171 | MWM: the sum of the IDFs of the query words the sentence holds, each counted once |
| `SentenceRanker.QueryTermDensity` | questions.py:167-176 | QTD: the summed counts of those words over the sentence length |
| `SentenceRanker.SentenceKeys` | questions.py:181 | the sort key of every sentence: the tuple (MWM, QTD) |
| `SentenceRanker.MatchQuery` | questions.py:167-173 | after visiting all query words in any order, the MWM is the sum of the IDFs of the query words the sentence holds, each counted once, and the match count is the sum of their occurrence counts |
| `SentenceRanker.IdfStep` | questions.py:169-171 | visiting one more query word adds its IDF to the MWM when the sentence holds it |
| `SentenceRanker.CountStep` | questions.py:169-173 | visiting one more query word adds its occurrence count when the sentence holds it |
| `SentenceRanker.MatchStep` | questions.py:167-173 | one visit of a query word updates both running totals together |
| `SentenceRanker.TopSentences` | questions.py:151-184 | the result is the first `n` sentences after a stable sort by (MWM, QTD), highest first, over the sentences in dictionary order |
| `SentenceRanker.RankSentences` | questions.py:54-66 | the second round of `main`: the IDFs computed from the sentences hold exactly the words that occur in a sentence, each mapped to `ln(number of sentences / document frequency)`, and cover every query word a sentence holds, and the ranking is that of `top_sentences` with those IDFs |
| `SentenceRanker.TopSentencesRanking` | questions.py:181-184 | the result has `min(n, number of sentences)` sentences for `n >= 0`, repeats none, holds only sentences, is ordered by MWM and then by QTD, and no sentence left out has a higher pair than a sentence returned |
| `SentenceRanker.HigherScoreFirst` | questions.py:156-157 | a returned sentence with a higher MWM, or the same MWM and a higher QTD, comes before the other |
| `SentenceRanker.QueryTokens` | questions.py:173 | the number of tokens that are query words is at most the sentence length |
| `SentenceRanker.CountsAfterAppend` | questions.py:173 | after one more token, the per-word counts of the query words change only for that token's word, which gains 1 |
| `SentenceRanker.CountsAppend` | questions.py:173 | one more token raises the summed counts by 1 when it is a query word, and by 0 otherwise |
| `SentenceRanker.MatchedCountsAreQueryTokens` | questions.py:167-173 | summing the occurrence counts of the distinct query words present counts exactly the sentence's tokens that are query words |
| `SentenceRanker.DensityIsFraction` | questions.py:175-176 | QTD is the fraction of the sentence's tokens that are query words, so it lies between 0 and 1 |
| `SentenceRanker.MatchingWordMeasureNonNegative` | questions.py:171 | with non-negative IDFs no sentence has a negative MWM |
| `Sums.Total` | questions.py:137-141 | the sum of a map's values, taken in an unspecified order: a running sum over a Python set |
| `Sums.TotalAt` | questions.py:137-141 | a sum is the value at any one key (0 when missing) plus the sum of the rest |
| `Sums.TotalUpdate` | questions.py:141 | two maps that agree except at one key, whose value grows by `d`, have sums that differ by `d` |
| `Sums.TotalRemove` | questions.py:137 | the sum over a set does not depend on the visiting order: any element may be taken out first |
| `Sums.TotalAdd` | questions.py:141 | adding a term for a new key adds its value to the sum |
| `Sums.TotalSingleton` | questions.py:137-141 | the sum of one term is that term |
| `Sums.TotalNonNegative` | questions.py:141 | a sum of non-negative terms is non-negative |

## Left out

- `load_files`, `tokenize`, the sentence splitting with
  `nltk.sent_tokenize`, and the reading and printing in `main`: file and
  console I/O and NLTK calls. The two ranking rounds of `main` are
  `FileRanker.RankFiles` and `SentenceRanker.RankSentences`. The model
  starts from dictionaries of token lists. The constants `FILE_MATCHES` and
  `SENTENCE_MATCHES` are values of the parameter `n`.
- `math.log` is the parameter `ln: real -> real` of `ComputeIdfs` and `Idf`.
  The lemmas about IDF signs take as hypotheses only that `ln(1) = 0` and
  that `ln` is increasing from 1 on.
- Floating-point arithmetic: scores, IDFs and densities are exact reals. No
  rounding is modelled, and neither is the order in which Python's float
  additions round.
- The iteration order of the query set is not modelled. Each method picks
  the next word arbitrarily, and `Sums.TotalRemove` shows that the sums do
  not depend on that order. Tie order between files or sentences comes from
  the dictionary's insertion order, which `Collection.keys` records.
- The inner loops of `count_words`, `top_files` and `top_sentences` are the
  methods `Idf.CountSet`, `FileRanker.AddQueryTerms` and
  `SentenceRanker.MatchQuery`. The outer loops call them, and in every other
  respect they behave as the nested loops do.
- `FileRanker.TopFiles` and `SentenceRanker.TopSentences` require every
  query word that occurs in a file or sentence to have an IDF. Otherwise
  `idfs[word]` raises `KeyError` in the source. `main` always passes IDFs
  computed from the same dictionary, so the error path is not reachable
  from `main`: `FileRanker.RankFiles` and `SentenceRanker.RankSentences`
  compute the IDFs with `ComputeIdfs` and meet the requirement.
- `SentenceRanker.TopSentences` requires every sentence to have at least
  one token. Otherwise the division by the sentence length raises
  `ZeroDivisionError`. `main` drops empty sentences.
- An empty corpus raises nothing: it has no words, so `compute_idfs`
  divides nothing and returns an empty dictionary. `ComputeIdfs` gives the
  empty map in that case.
