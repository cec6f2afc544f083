/**
 * Documents, token lists and document frequency: the vocabulary shared by
 * the IDF calculator and both rankers of questions.py.
 */
module Corpus {

  /** A normalised token, as the tokenizer produces it. */
  type Word = string

  predicate Distinct<T(==)>(s: seq<T>) {
    forall i, j :: 0 <= i < j < |s| ==> s[i] != s[j]
  }

  /** Python's `set(tokens)`. */
  function WordSet(words: seq<Word>): set<Word> {
    set w | w in words
  }

  /** Python's `tokens.count(w)`: positive exactly when `w` is one of the tokens. */
  function Occurrences(words: seq<Word>, w: Word): (k: nat)
    ensures k > 0 <==> w in words
  {
    multiset(words)[w]
  }

  /** One more token adds 1 to the count of its own word only. */
  lemma OccurrencesAppend(init: seq<Word>, x: Word, w: Word)
    ensures w in init + [x] <==> w in init || w == x
    ensures Occurrences(init + [x], w) == Occurrences(init, w) + (if w == x then 1 else 0)
  {
    assert multiset(init + [x]) == multiset(init) + multiset{x};
  }

  /**
   * A Python dictionary from a document name (a file name, or a sentence
   * that is its own key) to the document's token list. `keys` is the
   * dictionary's insertion order, the order in which Python iterates it.
   */
  datatype Collection = Collection(keys: seq<string>, tokens: map<string, seq<Word>>) {
    predicate Valid() {
      && Distinct(keys)
      && (forall k :: k in keys ==> k in tokens)
      && (forall k :: k in tokens ==> k in keys)
    }
  }

  /** The documents whose token list holds `w`. */
  function Containing(c: Collection, w: Word): set<string> {
    set k | k in c.tokens && w in c.tokens[k]
  }

  /** The number of documents that hold `w`, however often each holds it. */
  function DocumentFrequency(c: Collection, w: Word): nat {
    |Containing(c, w)|
  }

  /** `w` is in at least one document's token list. */
  predicate Occurs(c: Collection, w: Word) {
    exists k :: k in c.tokens && w in c.tokens[k]
  }

  /**
   * Every query word that some document holds has an IDF value: what the
   * rankers need before they can look `idfs[word]` up.
   */
  predicate IdfsCover(idfs: map<Word, real>, query: set<Word>, c: Collection) {
    forall k, w :: k in c.tokens && w in query && w in c.tokens[k] ==> w in idfs
  }

  lemma {:induction false} DistinctCardinality<T>(s: seq<T>)
    requires Distinct(s)
    ensures |set x | x in s| == |s|
  {
    if s != [] {
      var init := s[..|s| - 1];
      assert Distinct(init);
      DistinctCardinality(init);
      assert (set x | x in s) == (set x | x in init) + {s[|s| - 1]};
    }
  }

  lemma SubsetCardinality<T>(a: set<T>, b: set<T>)
    requires a <= b
    ensures |a| <= |b|
  {
    assert b == a + (b - a);
  }

  /**
   * A word's document frequency is at least 1 exactly when the word occurs,
   * and never more than the number of documents.
   */
  lemma DocumentFrequencyBounds(c: Collection, w: Word)
    requires c.Valid()
    ensures Occurs(c, w) <==> DocumentFrequency(c, w) >= 1
    ensures DocumentFrequency(c, w) <= |c.keys|
  {
    DistinctCardinality(c.keys);
    assert c.tokens.Keys == set k | k in c.keys;
    SubsetCardinality(Containing(c, w), c.tokens.Keys);
    if Occurs(c, w) {
      var k :| k in c.tokens && w in c.tokens[k];
      assert k in Containing(c, w);
    }
  }

  /**
   * A word that every document holds has the number of documents as its
   * document frequency.
   */
  lemma UbiquitousWordFrequency(c: Collection, w: Word)
    requires c.Valid()
    requires forall k :: k in c.tokens ==> w in c.tokens[k]
    ensures DocumentFrequency(c, w) == |c.keys|
  {
    DistinctCardinality(c.keys);
    assert Containing(c, w) == set k | k in c.keys;
  }

  /**
   * Document frequency sees each document as the set of its words: two
   * collections whose documents have the same word sets give every word the
   * same frequency, whatever the order or repetition of tokens.
   */
  lemma FrequencyDependsOnWordSets(c: Collection, d: Collection, w: Word)
    requires c.tokens.Keys == d.tokens.Keys
    requires forall k :: k in c.tokens ==> WordSet(c.tokens[k]) == WordSet(d.tokens[k])
    ensures DocumentFrequency(c, w) == DocumentFrequency(d, w)
  {
    forall k | k in c.tokens
      ensures w in c.tokens[k] <==> w in d.tokens[k]
    {
      assert w in c.tokens[k] <==> w in WordSet(c.tokens[k]);
      assert w in d.tokens[k] <==> w in WordSet(d.tokens[k]);
    }
    assert Containing(c, w) == Containing(d, w);
  }

  /**
   * A word repeated within one document adds only 1 to its count: appending
   * another copy of a token a document already holds changes no frequency.
   */
  lemma RepeatedTokenCountsOnce(c: Collection, name: string, x: Word, w: Word)
    requires name in c.tokens && x in c.tokens[name]
    ensures DocumentFrequency(Collection(c.keys, c.tokens[name := c.tokens[name] + [x]]), w)
         == DocumentFrequency(c, w)
  {
    var d := Collection(c.keys, c.tokens[name := c.tokens[name] + [x]]);
    assert WordSet(c.tokens[name] + [x]) == WordSet(c.tokens[name]);
    FrequencyDependsOnWordSets(d, c, w);
  }
}
