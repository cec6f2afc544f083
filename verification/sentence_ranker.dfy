/**
 * The sentence ranker of questions.py (`top_sentences`): scores every
 * sentence by its matching word measure (MWM) and its query term density
 * (QTD), and returns the best `n` sentences by the pair (MWM, QTD).
 */
module SentenceRanker {
  import opened Corpus
  import opened Sums
  import opened Ranking
  import Idf

  /** The IDF of every distinct query word the sentence holds. */
  function MatchedIdfs(query: set<Word>, words: seq<Word>, idfs: map<Word, real>): map<Word, real>
    requires forall w :: w in query && w in words ==> w in idfs
  {
    map w | w in query && w in words :: idfs[w]
  }

  /** How often the sentence holds each distinct query word it holds. */
  function MatchedCounts(query: set<Word>, words: seq<Word>): map<Word, real> {
    map w | w in query && w in words :: Occurrences(words, w) as real
  }

  /** MWM: the sum of the IDFs of the query words present, each counted once. */
  ghost function MatchingWordMeasure(query: set<Word>, words: seq<Word>, idfs: map<Word, real>): real
    requires forall w :: w in query && w in words ==> w in idfs
  {
    Total(MatchedIdfs(query, words, idfs))
  }

  /** QTD: the occurrences of query words, counting repeats, over the sentence length. */
  ghost function QueryTermDensity(query: set<Word>, words: seq<Word>): real
    requires |words| > 0
  {
    Total(MatchedCounts(query, words)) / |words| as real
  }

  /** Every sentence has a non-empty token list (`main` drops the empty ones). */
  predicate NonEmptySentences(sentences: Collection) {
    forall name :: name in sentences.tokens ==> |sentences.tokens[name]| > 0
  }

  /** The sort key of every sentence: the pair (MWM, QTD). */
  ghost function SentenceKeys(query: set<Word>, sentences: Collection, idfs: map<Word, real>): map<string, Key>
    requires NonEmptySentences(sentences)
    requires IdfsCover(idfs, query, sentences)
  {
    map name | name in sentences.tokens ::
      Key(MatchingWordMeasure(query, sentences.tokens[name], idfs),
          QueryTermDensity(query, sentences.tokens[name]))
  }

  /** Visiting one more query word adds its IDF when the sentence holds it. */
  lemma IdfStep(done: set<Word>, word: Word, words: seq<Word>, idfs: map<Word, real>)
    requires word !in done
    requires forall w :: w in done + {word} && w in words ==> w in idfs
    ensures Total(MatchedIdfs(done + {word}, words, idfs))
         == Total(MatchedIdfs(done, words, idfs)) + (if word in words then idfs[word] else 0.0)
  {
    if word in words {
      TotalAdd(MatchedIdfs(done, words, idfs), word, idfs[word]);
      assert MatchedIdfs(done + {word}, words, idfs) == MatchedIdfs(done, words, idfs)[word := idfs[word]];
    } else {
      assert MatchedIdfs(done + {word}, words, idfs) == MatchedIdfs(done, words, idfs);
    }
  }

  /** Visiting one more query word adds its count when the sentence holds it. */
  lemma CountStep(done: set<Word>, word: Word, words: seq<Word>)
    requires word !in done
    ensures Total(MatchedCounts(done + {word}, words))
         == Total(MatchedCounts(done, words)) + (if word in words then Occurrences(words, word) as real else 0.0)
  {
    if word in words {
      TotalAdd(MatchedCounts(done, words), word, Occurrences(words, word) as real);
      assert MatchedCounts(done + {word}, words) == MatchedCounts(done, words)[word := Occurrences(words, word) as real];
    } else {
      assert MatchedCounts(done + {word}, words) == MatchedCounts(done, words);
    }
  }

  /** One step of the inner loop of `top_sentences`, on both running totals. */
  lemma MatchStep(done: set<Word>, word: Word, words: seq<Word>, idfs: map<Word, real>, mwm: real, matches: real)
    requires word !in done
    requires forall w :: w in done + {word} && w in words ==> w in idfs
    requires mwm == Total(MatchedIdfs(done, words, idfs))
    requires matches == Total(MatchedCounts(done, words))
    ensures word in words ==> mwm + idfs[word] == Total(MatchedIdfs(done + {word}, words, idfs))
    ensures word in words ==> matches + Occurrences(words, word) as real == Total(MatchedCounts(done + {word}, words))
    ensures word !in words ==> mwm == Total(MatchedIdfs(done + {word}, words, idfs))
    ensures word !in words ==> matches == Total(MatchedCounts(done + {word}, words))
  {
    IdfStep(done, word, words, idfs);
    CountStep(done, word, words);
  }

  /**
   * The inner loop of `top_sentences`: visits the query words in any order
   * and, for each one the sentence holds, adds its IDF to the MWM and its
   * number of occurrences to the match count.
   */
  method MatchQuery(query: set<Word>, words: seq<Word>, idfs: map<Word, real>)
    returns (mwm: real, matches: nat)
    requires forall w :: w in query && w in words ==> w in idfs
    ensures mwm == MatchingWordMeasure(query, words, idfs)
    ensures matches as real == Total(MatchedCounts(query, words))
  {
    mwm, matches := 0.0, 0;
    var rest := query;
    ghost var done: set<Word> := {};
    assert MatchedIdfs({}, words, idfs) == map[];
    assert MatchedCounts({}, words) == map[];
    while rest != {}
      invariant done + rest == query && done !! rest
      invariant mwm == Total(MatchedIdfs(done, words, idfs))
      invariant matches as real == Total(MatchedCounts(done, words))
    {
      var word :| word in rest;
      MatchStep(done, word, words, idfs, mwm, matches as real);
      if word in words {
        mwm := mwm + idfs[word];
        matches := matches + Occurrences(words, word);
      }
      rest := rest - {word};
      done := done + {word};
    }
  }

  /**
   * `top_sentences`: scores each sentence, in the dictionary's order, by
   * the pair (MWM, QTD), sorts by that pair highest first (ties keep the
   * dictionary's order), and returns the first `n` sentences. Every token
   * list must be non-empty, since QTD divides by its length.
   */
  method TopSentences(query: set<Word>, sentences: Collection, idfs: map<Word, real>, n: int)
    returns (ranking: seq<string>)
    requires sentences.Valid()
    requires NonEmptySentences(sentences)
    requires IdfsCover(idfs, query, sentences)
    ensures ranking == Top(sentences.keys, SentenceKeys(query, sentences, idfs), n)
  {
    ghost var keyOf := SentenceKeys(query, sentences, idfs);
    var topS: seq<Ranked> := [];

    for i := 0 to |sentences.keys|
      invariant topS == Entries(sentences.keys[..i], keyOf)
    {
      var sentence := sentences.keys[i];
      var words := sentences.tokens[sentence];
      var mwm, matches := MatchQuery(query, words, idfs);
      var qtd := matches as real / |words| as real;
      topS := topS + [Ranked(sentence, Key(mwm, qtd))];
      assert sentences.keys[..i + 1] == sentences.keys[..i] + [sentence];
    }

    assert sentences.keys[..|sentences.keys|] == sentences.keys;
    ranking := SliceTo(Ids(RankDescending(topS)), n);
  }

  /**
   * The second round of `main`: the IDFs are computed from the sentences
   * themselves, so every query word a sentence holds has one.
   */
  method RankSentences(query: set<Word>, sentences: Collection, ln: real -> real, n: int)
    returns (idfs: map<Word, real>, ranking: seq<string>)
    requires sentences.Valid()
    requires NonEmptySentences(sentences)
    ensures forall w :: w in idfs <==> Occurs(sentences, w)
    ensures forall w :: w in idfs ==> idfs[w] == Idf.Idf(sentences, ln, w)
    ensures IdfsCover(idfs, query, sentences)
    ensures ranking == Top(sentences.keys, SentenceKeys(query, sentences, idfs), n)
  {
    idfs := Idf.ComputeIdfs(sentences, ln);
    ranking := TopSentences(query, sentences, idfs, n);
  }

  /**
   * What `top_sentences` returns: `min(n, number of sentences)` sentences
   * for `n >= 0`, none twice, only sentences that were ranked, ordered by
   * (MWM, QTD) descending and lexicographically, and no sentence left out
   * with a pair above that of a sentence returned.
   */
  lemma TopSentencesRanking(query: set<Word>, sentences: Collection, idfs: map<Word, real>, n: int)
    requires sentences.Valid()
    requires NonEmptySentences(sentences)
    requires IdfsCover(idfs, query, sentences)
    ensures var r := Top(sentences.keys, SentenceKeys(query, sentences, idfs), n);
      && (n >= 0 ==> |r| == if n < |sentences.keys| then n else |sentences.keys|)
      && Distinct(r)
      && (forall s :: s in r ==> s in sentences.tokens)
      && (forall i, j :: 0 <= i < j < |r| ==>
            var a, b := sentences.tokens[r[i]], sentences.tokens[r[j]];
            || MatchingWordMeasure(query, a, idfs) > MatchingWordMeasure(query, b, idfs)
            || (&& MatchingWordMeasure(query, a, idfs) == MatchingWordMeasure(query, b, idfs)
                && QueryTermDensity(query, a) >= QueryTermDensity(query, b)))
      && (forall s, t :: s in r && t in sentences.tokens && t !in r ==>
            AtLeast(SentenceKeys(query, sentences, idfs)[s], SentenceKeys(query, sentences, idfs)[t]))
  {
    var keyOf := SentenceKeys(query, sentences, idfs);
    TopShape(sentences.keys, keyOf, n);
    TopDescending(sentences.keys, keyOf, n);
    TopKeepsBest(sentences.keys, keyOf, n);
  }

  /**
   * The tie-break: of two returned sentences with the same MWM, the one with
   * the higher QTD comes first; and a higher MWM always comes first.
   */
  lemma HigherScoreFirst(query: set<Word>, sentences: Collection, idfs: map<Word, real>, n: int, i: nat, j: nat)
    requires sentences.Valid()
    requires NonEmptySentences(sentences)
    requires IdfsCover(idfs, query, sentences)
    requires i < |Top(sentences.keys, SentenceKeys(query, sentences, idfs), n)|
    requires j < |Top(sentences.keys, SentenceKeys(query, sentences, idfs), n)|
    ensures var r := Top(sentences.keys, SentenceKeys(query, sentences, idfs), n);
      && r[i] in sentences.tokens && r[j] in sentences.tokens
      && var a, b := sentences.tokens[r[i]], sentences.tokens[r[j]];
         (|| MatchingWordMeasure(query, a, idfs) > MatchingWordMeasure(query, b, idfs)
          || (&& MatchingWordMeasure(query, a, idfs) == MatchingWordMeasure(query, b, idfs)
              && QueryTermDensity(query, a) > QueryTermDensity(query, b)))
         ==> i < j
  {
    var keyOf := SentenceKeys(query, sentences, idfs);
    TopOrdersStrictly(sentences.keys, keyOf, n, i, j);
  }

  /** The number of tokens of `words` that are query words, repeats included. */
  function QueryTokens(query: set<Word>, words: seq<Word>): (k: nat)
    ensures k <= |words|
  {
    if words == [] then 0
    else QueryTokens(query, words[..|words| - 1]) + (if words[|words| - 1] in query then 1 else 0)
  }

  /** The counts of the query words after one more token, key by key. */
  lemma CountsAfterAppend(query: set<Word>, init: seq<Word>, x: Word)
    ensures forall w :: w in MatchedCounts(query, init + [x]) <==>
      w in MatchedCounts(query, init) || (w == x && x in query)
    ensures forall w :: w in MatchedCounts(query, init + [x]) && w != x ==>
      MatchedCounts(query, init + [x])[w] == MatchedCounts(query, init)[w]
    ensures x in query ==>
      MatchedCounts(query, init + [x])[x] == Occurrences(init, x) as real + 1.0
  {
    forall w
      ensures w in init + [x] <==> w in init || w == x
      ensures Occurrences(init + [x], w) == Occurrences(init, w) + (if w == x then 1 else 0)
    {
      OccurrencesAppend(init, x, w);
    }
  }

  /** One more token adds 1 to the count of its word, when it is a query word. */
  lemma CountsAppend(query: set<Word>, init: seq<Word>, x: Word)
    ensures Total(MatchedCounts(query, init + [x]))
         == Total(MatchedCounts(query, init)) + (if x in query then 1.0 else 0.0)
  {
    var before := MatchedCounts(query, init);
    var after := MatchedCounts(query, init + [x]);
    CountsAfterAppend(query, init, x);
    assert ValueAt(after, x) == ValueAt(before, x) + (if x in query then 1.0 else 0.0);
    TotalUpdate(before, after, x, if x in query then 1.0 else 0.0);
  }

  /**
   * Adding up the occurrence counts of the distinct query words present
   * counts exactly the tokens that are query words.
   */
  lemma {:induction false} MatchedCountsAreQueryTokens(query: set<Word>, words: seq<Word>)
    ensures Total(MatchedCounts(query, words)) == QueryTokens(query, words) as real
  {
    if words == [] {
      assert MatchedCounts(query, words) == map[];
    } else {
      var init := words[..|words| - 1];
      var x := words[|words| - 1];
      assert words == init + [x];
      MatchedCountsAreQueryTokens(query, init);
      CountsAppend(query, init, x);
    }
  }

  /** Kept apart so that the non-linear step is checked without the sums in scope. */
  lemma FractionBounds(k: real, len: real)
    requires 0.0 <= k <= len && len > 0.0
    ensures 0.0 <= k / len <= 1.0
  {
    assert k / len * len == k;
  }

  /**
   * QTD is the fraction of the sentence's tokens that are query words, so it
   * lies between 0 and 1.
   */
  lemma DensityIsFraction(query: set<Word>, words: seq<Word>)
    requires |words| > 0
    ensures QueryTermDensity(query, words) == QueryTokens(query, words) as real / |words| as real
    ensures 0.0 <= QueryTermDensity(query, words) <= 1.0
  {
    MatchedCountsAreQueryTokens(query, words);
    FractionBounds(QueryTokens(query, words) as real, |words| as real);
  }

  /** With non-negative IDF values no sentence has a negative MWM. */
  lemma MatchingWordMeasureNonNegative(query: set<Word>, words: seq<Word>, idfs: map<Word, real>)
    requires forall w :: w in query && w in words ==> w in idfs
    requires forall w :: w in idfs ==> idfs[w] >= 0.0
    ensures MatchingWordMeasure(query, words, idfs) >= 0.0
  {
    TotalNonNegative(MatchedIdfs(query, words, idfs));
  }
}
