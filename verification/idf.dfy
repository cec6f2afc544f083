/**
 * The IDF calculator of questions.py: `count_words` counts in how many
 * documents each word occurs, and `compute_idfs` turns those counts into
 * inverse document frequencies.
 */
module Idf {
  import opened Corpus

  /** The documents among `names` whose token list holds `w`. */
  ghost function ContainingAmong(c: Collection, names: seq<string>, w: Word): set<string> {
    set k | k in names && k in c.tokens && w in c.tokens[k]
  }

  /** Taking one more document into account adds it when it holds `w`. */
  lemma ContainingAmongStep(c: Collection, i: nat, w: Word)
    requires c.Valid() && i < |c.keys|
    ensures |ContainingAmong(c, c.keys[..i + 1], w)|
         == |ContainingAmong(c, c.keys[..i], w)| + (if w in c.tokens[c.keys[i]] then 1 else 0)
    ensures ContainingAmong(c, c.keys[..i + 1], w) != {}
         <==> ContainingAmong(c, c.keys[..i], w) != {} || w in c.tokens[c.keys[i]]
  {
    var before := ContainingAmong(c, c.keys[..i], w);
    var after := ContainingAmong(c, c.keys[..i + 1], w);
    var name := c.keys[i];
    assert name !in c.keys[..i];
    assert name !in before;
    var added := if w in c.tokens[name] then {name} else {};
    forall k
      ensures k in after <==> k in before + added
    {
      assert k in c.keys[..i + 1] <==> k in c.keys[..i] || k == name;
    }
    assert after == before + added;
  }

  /**
   * `count_words`: maps every word that occurs in some document to the
   * number of documents that hold it. Each document is first reduced to the
   * set of its words, so a repeated word counts once per document.
   */
  method CountWords(documents: Collection) returns (occurr: map<Word, nat>)
    requires documents.Valid()
    ensures forall w :: w in occurr <==> Occurs(documents, w)
    ensures forall w :: w in occurr ==> occurr[w] == DocumentFrequency(documents, w)
  {
    occurr := map[];
    var sets: seq<set<Word>> := [];

    // Create sets from the words of the documents
    for i := 0 to |documents.keys|
      invariant |sets| == i
      invariant forall j :: 0 <= j < i ==> sets[j] == WordSet(documents.tokens[documents.keys[j]])
    {
      sets := sets + [WordSet(documents.tokens[documents.keys[i]])];
    }

    // Count the sets each word belongs to
    for i := 0 to |sets|
      invariant forall w :: w in occurr <==> ContainingAmong(documents, documents.keys[..i], w) != {}
      invariant forall w :: w in occurr ==> occurr[w] == |ContainingAmong(documents, documents.keys[..i], w)|
    {
      occurr := CountSet(occurr, sets[i]);
      forall w
        ensures |ContainingAmong(documents, documents.keys[..i + 1], w)|
             == |ContainingAmong(documents, documents.keys[..i], w)| + (if w in sets[i] then 1 else 0)
        ensures ContainingAmong(documents, documents.keys[..i + 1], w) != {}
             <==> ContainingAmong(documents, documents.keys[..i], w) != {} || w in sets[i]
      {
        ContainingAmongStep(documents, i, w);
      }
    }

    assert documents.keys[..|documents.keys|] == documents.keys;
    forall w
      ensures ContainingAmong(documents, documents.keys, w) == Containing(documents, w)
      ensures Occurs(documents, w) <==> Containing(documents, w) != {}
    {
      if Occurs(documents, w) {
        var k :| k in documents.tokens && w in documents.tokens[k];
        assert k in Containing(documents, w);
      }
    }
  }

  /**
   * The inner loop of `count_words`: every word of one document's word set
   * gains 1, and a word seen for the first time starts at 1.
   */
  method CountSet(counts: map<Word, nat>, words: set<Word>) returns (occurr: map<Word, nat>)
    ensures forall w :: w in occurr <==> w in counts || w in words
    ensures forall w :: w in occurr ==>
      occurr[w] == (if w in counts then counts[w] else 0) + (if w in words then 1 else 0)
  {
    occurr := counts;
    var rest := words;
    while rest != {}
      invariant rest <= words
      invariant forall w :: w in occurr <==> w in counts || w in words - rest
      invariant forall w :: w in occurr ==>
        occurr[w] == (if w in counts then counts[w] else 0) + (if w in words - rest then 1 else 0)
    {
      var word :| word in rest;
      if word in occurr {
        occurr := occurr[word := occurr[word] + 1];
      } else {
        occurr := occurr[word := 1];
      }
      rest := rest - {word};
    }
  }

  /**
   * The IDF of a word that occurs: `ln(number of documents / document
   * frequency)`, where `ln` stands for Python's `math.log`.
   */
  function Idf(c: Collection, ln: real -> real, w: Word): real
    requires c.Valid() && Occurs(c, w)
  {
    DocumentFrequencyBounds(c, w);
    ln(|c.keys| as real / DocumentFrequency(c, w) as real)
  }

  /**
   * `compute_idfs`: the words of the result are exactly those that occur in
   * some document, and each has its IDF. The division never has a zero
   * denominator, since every counted word occurs at least once.
   */
  method ComputeIdfs(documents: Collection, ln: real -> real) returns (idfs: map<Word, real>)
    requires documents.Valid()
    ensures forall w :: w in idfs <==> Occurs(documents, w)
    ensures forall w :: w in idfs ==> idfs[w] == Idf(documents, ln, w)
  {
    var nDocuments := |documents.keys|;
    var occurr := CountWords(documents);
    forall w | w in occurr
      ensures occurr[w] >= 1
    {
      DocumentFrequencyBounds(documents, w);
    }
    idfs := map w | w in occurr :: ln(nDocuments as real / occurr[w] as real);
  }

  /** The argument of the logarithm is at least 1: n / df with df <= n. */
  lemma IdfArgumentAtLeastOne(c: Collection, w: Word)
    requires c.Valid() && Occurs(c, w)
    ensures DocumentFrequency(c, w) >= 1
    ensures |c.keys| as real / DocumentFrequency(c, w) as real >= 1.0
  {
    DocumentFrequencyBounds(c, w);
    QuotientAtLeastOne(|c.keys| as real, DocumentFrequency(c, w) as real);
  }

  /** Kept apart so that the non-linear step is checked without the corpus in scope. */
  lemma QuotientAtLeastOne(a: real, b: real)
    requires 0.0 < b <= a
    ensures a / b >= 1.0
  {
    assert a / b * b == a;
  }

  /**
   * With a logarithm that is 0 at 1 and increasing from there, every IDF is
   * non-negative.
   */
  lemma IdfNonNegative(c: Collection, ln: real -> real, w: Word)
    requires c.Valid() && Occurs(c, w)
    requires ln(1.0) == 0.0
    requires forall x, y :: 1.0 <= x <= y ==> ln(x) <= ln(y)
    ensures Idf(c, ln, w) >= 0.0
  {
    IdfArgumentAtLeastOne(c, w);
  }

  /**
   * A word that every document holds cannot tell documents apart: its IDF is
   * `ln(1)`. With a single document this holds of every word.
   */
  lemma IdfOfUbiquitousWord(c: Collection, ln: real -> real, w: Word)
    requires c.Valid() && |c.keys| > 0
    requires forall k :: k in c.tokens ==> w in c.tokens[k]
    ensures Occurs(c, w)
    ensures Idf(c, ln, w) == ln(1.0)
  {
    assert c.keys[0] in c.tokens;
    UbiquitousWordFrequency(c, w);
    var n := |c.keys| as real;
    assert n / n == 1.0;
  }

  /** A word that only one document holds has IDF `ln(number of documents)`. */
  lemma IdfOfRareWord(c: Collection, ln: real -> real, w: Word)
    requires c.Valid() && Occurs(c, w)
    requires DocumentFrequency(c, w) == 1
    ensures Idf(c, ln, w) == ln(|c.keys| as real)
  {
  }
}
