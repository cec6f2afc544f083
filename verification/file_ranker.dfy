/**
 * The file ranker of questions.py (`top_files`): scores every file by the
 * tf-idf of the query words it holds and returns the names of the best `n`.
 */
module FileRanker {
  import opened Corpus
  import opened Sums
  import opened Ranking
  import Idf

  /** The tf-idf of one word in one file: `words.count(w) * idfs[w]`, 0 when the file lacks `w`. */
  function TfIdf(w: Word, words: seq<Word>, idfs: map<Word, real>): (r: real)
    requires w in idfs
    ensures w !in words ==> r == 0.0
  {
    Occurrences(words, w) as real * idfs[w]
  }

  /** One term per query word the file holds. */
  function TfIdfTerms(query: set<Word>, words: seq<Word>, idfs: map<Word, real>): map<Word, real>
    requires forall w :: w in query && w in words ==> w in idfs
  {
    map w | w in query && w in words :: TfIdf(w, words, idfs)
  }

  /** A file's tf-idf score: the sum of its terms. */
  ghost function FileScore(query: set<Word>, words: seq<Word>, idfs: map<Word, real>): real
    requires forall w :: w in query && w in words ==> w in idfs
  {
    Total(TfIdfTerms(query, words, idfs))
  }

  /** Visiting one more query word adds its term when the file holds it. */
  lemma TfIdfStep(done: set<Word>, word: Word, words: seq<Word>, idfs: map<Word, real>)
    requires word !in done
    requires forall w :: w in done + {word} && w in words ==> w in idfs
    ensures Total(TfIdfTerms(done + {word}, words, idfs))
         == Total(TfIdfTerms(done, words, idfs))
            + (if word in words then TfIdf(word, words, idfs) else 0.0)
  {
    if word in words {
      var term := TfIdf(word, words, idfs);
      TotalAdd(TfIdfTerms(done, words, idfs), word, term);
      assert TfIdfTerms(done + {word}, words, idfs) == TfIdfTerms(done, words, idfs)[word := term];
    } else {
      assert TfIdfTerms(done + {word}, words, idfs) == TfIdfTerms(done, words, idfs);
    }
  }

  /** The sort key of every file: its score. */
  ghost function FileKeys(query: set<Word>, files: Collection, idfs: map<Word, real>): map<string, Key>
    requires IdfsCover(idfs, query, files)
  {
    map name | name in files.tokens :: Key(FileScore(query, files.tokens[name], idfs), 0.0)
  }

  /**
   * The inner loop of `top_files`: visits the query words in any order and,
   * for each one the file holds, adds its tf-idf to the file's running
   * score, which starts at `start`.
   */
  method AddQueryTerms(query: set<Word>, words: seq<Word>, idfs: map<Word, real>, start: real)
    returns (score: real)
    requires forall w :: w in query && w in words ==> w in idfs
    ensures score == start + FileScore(query, words, idfs)
  {
    score := start;
    var rest := query;
    assert TfIdfTerms({}, words, idfs) == map[];
    while rest != {}
      invariant rest <= query
      invariant score == start + Total(TfIdfTerms(query - rest, words, idfs))
    {
      var word :| word in rest;
      TfIdfStep(query - rest, word, words, idfs);
      assert query - (rest - {word}) == (query - rest) + {word};
      if word in words {
        score := score + TfIdf(word, words, idfs);
      }
      rest := rest - {word};
    }
    assert query - rest == query;
  }

  /**
   * `top_files`: every file starts at score 0 and gains, for each query word
   * it holds, that word's count in the file times its IDF; the files are then
   * sorted by score, highest first (ties keep the dictionary's order), and
   * the first `n` names are returned.
   */
  method TopFiles(query: set<Word>, files: Collection, idfs: map<Word, real>, n: int)
    returns (ranking: seq<string>)
    requires files.Valid()
    requires IdfsCover(idfs, query, files)
    ensures ranking == Top(files.keys, FileKeys(query, files, idfs), n)
  {
    var filesScores: map<string, real> := map name | name in files.keys :: 0.0;

    for i := 0 to |files.keys|
      invariant filesScores.Keys == files.tokens.Keys
      invariant forall j :: 0 <= j < i ==>
        filesScores[files.keys[j]] == FileScore(query, files.tokens[files.keys[j]], idfs)
      invariant forall j :: i <= j < |files.keys| ==> filesScores[files.keys[j]] == 0.0
    {
      var file := files.keys[i];
      var score := AddQueryTerms(query, files.tokens[file], idfs, filesScores[file]);
      filesScores := filesScores[file := score];
      assert forall j :: 0 <= j < |files.keys| && j != i ==> files.keys[j] != file;
    }

    var keyOf := map name | name in filesScores :: Key(filesScores[name], 0.0);
    ScoresGiveFileKeys(query, files, idfs, filesScores);
    ranking := Top(files.keys, keyOf, n);
  }

  /**
   * The first round of `main`: the IDFs are computed from the files
   * themselves, so every query word a file holds has one and `top_files`
   * cannot fail on a lookup.
   */
  method RankFiles(query: set<Word>, files: Collection, ln: real -> real, n: int)
    returns (idfs: map<Word, real>, ranking: seq<string>)
    requires files.Valid()
    ensures forall w :: w in idfs <==> Occurs(files, w)
    ensures forall w :: w in idfs ==> idfs[w] == Idf.Idf(files, ln, w)
    ensures IdfsCover(idfs, query, files)
    ensures ranking == Top(files.keys, FileKeys(query, files, idfs), n)
  {
    idfs := Idf.ComputeIdfs(files, ln);
    ranking := TopFiles(query, files, idfs, n);
  }

  lemma ScoresGiveFileKeys(query: set<Word>, files: Collection, idfs: map<Word, real>, scores: map<string, real>)
    requires files.Valid()
    requires IdfsCover(idfs, query, files)
    requires scores.Keys == files.tokens.Keys
    requires forall j :: 0 <= j < |files.keys| ==>
      scores[files.keys[j]] == FileScore(query, files.tokens[files.keys[j]], idfs)
    ensures (map name | name in scores :: Key(scores[name], 0.0)) == FileKeys(query, files, idfs)
  {
    forall name | name in scores
      ensures scores[name] == FileScore(query, files.tokens[name], idfs)
    {
      var j :| 0 <= j < |files.keys| && files.keys[j] == name;
    }
  }

  /**
   * What `top_files` returns: `min(n, number of files)` names for `n >= 0`,
   * no name twice, only names of files, scores never increasing along the
   * result, and no file left out that scores above a file returned.
   */
  lemma TopFilesRanking(query: set<Word>, files: Collection, idfs: map<Word, real>, n: int)
    requires files.Valid()
    requires IdfsCover(idfs, query, files)
    ensures var r := Top(files.keys, FileKeys(query, files, idfs), n);
      && (n >= 0 ==> |r| == if n < |files.keys| then n else |files.keys|)
      && Distinct(r)
      && (forall name :: name in r ==> name in files.tokens)
      && (forall i, j :: 0 <= i < j < |r| ==>
            FileScore(query, files.tokens[r[i]], idfs) >= FileScore(query, files.tokens[r[j]], idfs))
      && (forall f, g :: f in r && g in files.tokens && g !in r ==>
            FileScore(query, files.tokens[f], idfs) >= FileScore(query, files.tokens[g], idfs))
  {
    var keyOf := FileKeys(query, files, idfs);
    TopShape(files.keys, keyOf, n);
    TopDescending(files.keys, keyOf, n);
    TopKeepsBest(files.keys, keyOf, n);
  }

  /**
   * A query word the file does not hold adds nothing to its score, whether
   * or not it has an IDF value.
   */
  lemma AbsentWordsAddNothing(query: set<Word>, extra: set<Word>, words: seq<Word>, idfs: map<Word, real>)
    requires forall w :: w in query && w in words ==> w in idfs
    requires forall w :: w in extra ==> w !in words
    ensures FileScore(query + extra, words, idfs) == FileScore(query, words, idfs)
  {
    assert TfIdfTerms(query + extra, words, idfs) == TfIdfTerms(query, words, idfs);
  }

  /**
   * A one-word query scores a file by that word's count in the file times
   * its IDF, and 0 when the file does not hold it.
   */
  lemma SingleWordScore(w: Word, words: seq<Word>, idfs: map<Word, real>)
    requires w in words ==> w in idfs
    ensures FileScore({w}, words, idfs)
         == if w in words then Occurrences(words, w) as real * idfs[w] else 0.0
  {
    if w in words {
      assert TfIdfTerms({w}, words, idfs) == map[w := TfIdf(w, words, idfs)];
      TotalSingleton(w, TfIdf(w, words, idfs));
    } else {
      assert TfIdfTerms({w}, words, idfs) == map[];
    }
  }

  /** A count times a non-negative IDF is non-negative. */
  lemma TfIdfNonNegative(w: Word, words: seq<Word>, idfs: map<Word, real>)
    requires w in idfs && idfs[w] >= 0.0
    ensures TfIdf(w, words, idfs) >= 0.0
  {
  }

  /** With non-negative IDF values no file scores below 0. */
  lemma FileScoreNonNegative(query: set<Word>, words: seq<Word>, idfs: map<Word, real>)
    requires forall w :: w in query && w in words ==> w in idfs
    requires forall w :: w in idfs ==> idfs[w] >= 0.0
    ensures FileScore(query, words, idfs) >= 0.0
  {
    var terms := TfIdfTerms(query, words, idfs);
    forall w | w in terms
      ensures terms[w] >= 0.0
    {
      TfIdfNonNegative(w, words, idfs);
    }
    TotalNonNegative(terms);
  }

  /**
   * When no file holds any query word every score is 0, and the ranking is
   * the first `n` files in the dictionary's order.
   */
  lemma TopFilesWithoutMatches(query: set<Word>, files: Collection, idfs: map<Word, real>, n: int)
    requires files.Valid()
    requires forall w :: w in query ==> !Occurs(files, w)
    ensures IdfsCover(idfs, query, files)
    ensures forall name :: name in files.tokens ==> FileScore(query, files.tokens[name], idfs) == 0.0
    ensures Top(files.keys, FileKeys(query, files, idfs), n) == SliceTo(files.keys, n)
  {
    forall name | name in files.tokens
      ensures FileScore(query, files.tokens[name], idfs) == 0.0
    {
      assert TfIdfTerms(query, files.tokens[name], idfs) == map[];
    }
    TopOfTies(files.keys, FileKeys(query, files, idfs), Key(0.0, 0.0), n);
  }

  /**
   * The tf-idf score read token by token: every token that is a query word
   * adds that word's IDF once, so a word held `k` times adds `k * idf`.
   */
  function TokenScore(query: set<Word>, words: seq<Word>, idfs: map<Word, real>): real
    requires forall w :: w in query && w in words ==> w in idfs
  {
    if words == [] then 0.0
    else
      var last := words[|words| - 1];
      assert forall w :: w in words[..|words| - 1] ==> w in words;
      TokenScore(query, words[..|words| - 1], idfs) + (if last in query then idfs[last] else 0.0)
  }

  /** The terms of the score after one more token, key by key. */
  lemma TermsAfterAppend(query: set<Word>, init: seq<Word>, x: Word, idfs: map<Word, real>)
    requires forall w :: w in query && w in init + [x] ==> w in idfs
    ensures forall w :: w in query && w in init ==> w in idfs
    ensures forall w :: w in TfIdfTerms(query, init + [x], idfs) <==>
      w in TfIdfTerms(query, init, idfs) || (w == x && x in query)
    ensures forall w :: w in TfIdfTerms(query, init + [x], idfs) && w != x ==>
      TfIdfTerms(query, init + [x], idfs)[w] == TfIdfTerms(query, init, idfs)[w]
  {
    forall w | w in query && w in init
      ensures w in idfs
    {
      OccurrencesAppend(init, x, w);
    }
    var before := TfIdfTerms(query, init, idfs);
    var after := TfIdfTerms(query, init + [x], idfs);
    forall w
      ensures w in after <==> w in before || (w == x && x in query)
      ensures w in after && w != x ==> after[w] == before[w]
    {
      OccurrencesAppend(init, x, w);
    }
  }

  /** A query word held once more raises its term by its IDF. */
  lemma TermGrows(init: seq<Word>, x: Word, idfs: map<Word, real>)
    requires x in idfs
    ensures TfIdf(x, init + [x], idfs) == TfIdf(x, init, idfs) + idfs[x]
  {
    OccurrencesAppend(init, x, x);
    var k := Occurrences(init, x) as real;
    assert (k + 1.0) * idfs[x] == k * idfs[x] + idfs[x];
  }

  /** One more token raises the score by its IDF when it is a query word. */
  lemma ScoreAppend(query: set<Word>, init: seq<Word>, x: Word, idfs: map<Word, real>)
    requires forall w :: w in query && w in init + [x] ==> w in idfs
    ensures forall w :: w in query && w in init ==> w in idfs
    ensures FileScore(query, init + [x], idfs)
         == FileScore(query, init, idfs) + (if x in query then idfs[x] else 0.0)
  {
    TermsAfterAppend(query, init, x, idfs);
    var before := TfIdfTerms(query, init, idfs);
    var after := TfIdfTerms(query, init + [x], idfs);
    if x in query {
      TermGrows(init, x, idfs);
    }
    assert ValueAt(after, x) == ValueAt(before, x) + (if x in query then idfs[x] else 0.0);
    TotalUpdate(before, after, x, if x in query then idfs[x] else 0.0);
  }

  /**
   * Summing `count * idf` over the distinct query words a file holds equals
   * adding the IDF of every token that is a query word.
   */
  lemma {:induction false} FileScoreIsTokenSum(query: set<Word>, words: seq<Word>, idfs: map<Word, real>)
    requires forall w :: w in query && w in words ==> w in idfs
    ensures FileScore(query, words, idfs) == TokenScore(query, words, idfs)
  {
    if words == [] {
      assert TfIdfTerms(query, words, idfs) == map[];
    } else {
      var init := words[..|words| - 1];
      var x := words[|words| - 1];
      assert words == init + [x];
      ScoreAppend(query, init, x, idfs);
      FileScoreIsTokenSum(query, init, idfs);
    }
  }
}
