/**
 * The last step of both rankers: Python's stable `sorted(..., reverse=True)`
 * on a list of (name, score) items, followed by the slice `[:n]`.
 */
module Ranking {
  import opened Corpus

  /**
   * A sort key. The sentence ranker sorts by the tuple (MWM, QTD); the file
   * ranker sorts by one number, which orders exactly like (score, 0.0).
   */
  datatype Key = Key(major: real, minor: real)

  /** Python's `a >= b` on two tuples of numbers: lexicographic. */
  predicate AtLeast(a: Key, b: Key) {
    a.major > b.major || (a.major == b.major && a.minor >= b.minor)
  }

  /** One item of the list handed to `sorted`: a name with its key. */
  datatype Ranked = Ranked(id: string, key: Key)

  /** Keys never increase along `s`. */
  predicate Descending(s: seq<Ranked>) {
    forall i, j :: 0 <= i < j < |s| ==> AtLeast(s[i].key, s[j].key)
  }

  /** The items of `s` whose key is exactly `k`, in their order in `s`. */
  function WithKey(s: seq<Ranked>, k: Key): seq<Ranked> {
    if s == [] then [] else (if s[0].key == k then [s[0]] else []) + WithKey(s[1..], k)
  }

  /**
   * Puts `x` into `s` in front of the first item whose key is not above its
   * own.
   */
  function Insert(x: Ranked, s: seq<Ranked>): (r: seq<Ranked>)
    ensures multiset(r) == multiset(s) + multiset{x}
  {
    if s == [] || AtLeast(x.key, s[0].key) then [x] + s
    else
      assert s == [s[0]] + s[1..];
      [s[0]] + Insert(x, s[1..])
  }

  lemma {:induction false} InsertMembers(x: Ranked, s: seq<Ranked>)
    ensures forall y :: y in Insert(x, s) <==> y == x || y in s
  {
    forall y
      ensures y in Insert(x, s) <==> y == x || y in s
    {
      assert y in Insert(x, s) <==> y in multiset(Insert(x, s));
    }
  }

  lemma {:induction false} InsertDescending(x: Ranked, s: seq<Ranked>)
    requires Descending(s)
    ensures Descending(Insert(x, s))
  {
    if s == [] || AtLeast(x.key, s[0].key) {
      assert forall j :: 0 <= j < |s| ==> AtLeast(s[0].key, s[j].key);
    } else {
      var rest := Insert(x, s[1..]);
      InsertDescending(x, s[1..]);
      InsertMembers(x, s[1..]);
      assert forall j :: 0 <= j < |rest| ==> rest[j] in rest;
      assert Insert(x, s) == [s[0]] + rest;
    }
  }

  lemma {:induction false} InsertWithKey(x: Ranked, s: seq<Ranked>, k: Key)
    ensures WithKey(Insert(x, s), k) == (if x.key == k then [x] else []) + WithKey(s, k)
  {
    if s == [] || AtLeast(x.key, s[0].key) {
      assert ([x] + s)[1..] == s;
    } else {
      var rest := Insert(x, s[1..]);
      InsertWithKey(x, s[1..], k);
      assert ([s[0]] + rest)[1..] == rest;
      assert s == [s[0]] + s[1..];
    }
  }

  lemma {:induction false} InsertDistinct(x: Ranked, s: seq<Ranked>)
    requires Distinct(s) && x !in s
    ensures Distinct(Insert(x, s))
  {
    if !(s == [] || AtLeast(x.key, s[0].key)) {
      InsertDistinct(x, s[1..]);
      InsertMembers(x, s[1..]);
      assert s[0] !in Insert(x, s[1..]);
    }
  }

  /**
   * Python's `sorted(items, key=..., reverse=True)`: keys descending, and
   * items with equal keys keep their relative order (Python's sort is stable,
   * also in reverse).
   */
  function RankDescending(s: seq<Ranked>): (r: seq<Ranked>)
    ensures Descending(r)
    ensures multiset(r) == multiset(s)
  {
    if s == [] then []
    else
      var rest := RankDescending(s[1..]);
      InsertDescending(s[0], rest);
      assert s == [s[0]] + s[1..];
      Insert(s[0], rest)
  }

  /** Sorting items that are pairwise different keeps them so. */
  lemma {:induction false} RankDescendingDistinct(s: seq<Ranked>)
    requires Distinct(s)
    ensures Distinct(RankDescending(s))
  {
    if s != [] {
      var rest := RankDescending(s[1..]);
      assert s == [s[0]] + s[1..];
      RankDescendingDistinct(s[1..]);
      assert s[0] !in multiset(rest);
      InsertDistinct(s[0], rest);
    }
  }

  /**
   * The sort is stable: for every key, the items with that key come out in
   * the order they went in.
   */
  lemma {:induction false} RankDescendingIsStable(s: seq<Ranked>, k: Key)
    ensures WithKey(RankDescending(s), k) == WithKey(s, k)
  {
    if s != [] {
      RankDescendingIsStable(s[1..], k);
      InsertWithKey(s[0], RankDescending(s[1..]), k);
    }
  }

  /**
   * Python's slice `s[:n]`: the first `n` items, all of them when there are
   * fewer; a negative `n` drops that many items from the end.
   */
  function SliceTo<T>(s: seq<T>, n: int): (r: seq<T>)
    ensures |r| <= |s| && r == s[..|r|]
    ensures n >= 0 ==> |r| == if n < |s| then n else |s|
    ensures n < 0 ==> |r| == if |s| + n > 0 then |s| + n else 0
  {
    if n >= 0 then (if n < |s| then s[..n] else s)
    else if |s| + n > 0 then s[..|s| + n]
    else []
  }

  function Ids(s: seq<Ranked>): seq<string> {
    seq(|s|, i requires 0 <= i < |s| => s[i].id)
  }

  /** The items `(name, keyOf[name])` in the order of `ids`. */
  function Entries(ids: seq<string>, keyOf: map<string, Key>): seq<Ranked>
    requires forall id :: id in ids ==> id in keyOf
  {
    seq(|ids|, i requires 0 <= i < |ids| => Ranked(ids[i], keyOf[ids[i]]))
  }

  /** The names of the first `n` items after sorting by key, descending. */
  function Top(ids: seq<string>, keyOf: map<string, Key>, n: int): seq<string>
    requires forall id :: id in ids ==> id in keyOf
  {
    SliceTo(Ids(RankDescending(Entries(ids, keyOf))), n)
  }

  /** Every sorted item is one of the entries, so it carries its name's key. */
  lemma SortedItems(ids: seq<string>, keyOf: map<string, Key>)
    requires forall id :: id in ids ==> id in keyOf
    ensures var sorted := RankDescending(Entries(ids, keyOf));
      && |sorted| == |ids|
      && forall p :: 0 <= p < |sorted| ==> sorted[p].id in ids && sorted[p].key == keyOf[sorted[p].id]
  {
    var e := Entries(ids, keyOf);
    var sorted := RankDescending(e);
    assert |multiset(sorted)| == |multiset(e)|;
    forall p | 0 <= p < |sorted|
      ensures sorted[p].id in ids && sorted[p].key == keyOf[sorted[p].id]
    {
      assert sorted[p] in multiset(e);
      var q :| 0 <= q < |e| && e[q] == sorted[p];
    }
  }

  /** Sorting loses no name and repeats none. */
  lemma SortedNames(ids: seq<string>, keyOf: map<string, Key>)
    requires Distinct(ids)
    requires forall id :: id in ids ==> id in keyOf
    ensures Distinct(Ids(RankDescending(Entries(ids, keyOf))))
    ensures forall y :: y in ids ==> y in Ids(RankDescending(Entries(ids, keyOf)))
  {
    SortedNamesDistinct(ids, keyOf);
    SortedNamesComplete(ids, keyOf);
  }

  lemma SortedNamesDistinct(ids: seq<string>, keyOf: map<string, Key>)
    requires Distinct(ids)
    requires forall id :: id in ids ==> id in keyOf
    ensures Distinct(Ids(RankDescending(Entries(ids, keyOf))))
  {
    var e := Entries(ids, keyOf);
    var sorted := RankDescending(e);
    var names := Ids(sorted);
    SortedItems(ids, keyOf);
    assert Distinct(e);
    RankDescendingDistinct(e);
    forall a, b | 0 <= a < b < |names|
      ensures names[a] != names[b]
    {
      assert sorted[a] != sorted[b];
    }
  }

  lemma SortedNamesComplete(ids: seq<string>, keyOf: map<string, Key>)
    requires forall id :: id in ids ==> id in keyOf
    ensures forall y :: y in ids ==> y in Ids(RankDescending(Entries(ids, keyOf)))
  {
    var e := Entries(ids, keyOf);
    var sorted := RankDescending(e);
    var names := Ids(sorted);
    forall y | y in ids
      ensures y in names
    {
      var p :| 0 <= p < |ids| && ids[p] == y;
      assert e[p] in multiset(sorted);
      var q :| 0 <= q < |sorted| && sorted[q] == e[p];
      assert names[q] == y;
    }
  }

  /**
   * The shape of the ranking: as many names as the slice asks for, no name
   * twice, and only names that were ranked.
   */
  lemma TopShape(ids: seq<string>, keyOf: map<string, Key>, n: int)
    requires Distinct(ids)
    requires forall id :: id in ids ==> id in keyOf
    ensures n >= 0 ==> |Top(ids, keyOf, n)| == if n < |ids| then n else |ids|
    ensures n < 0 ==> |Top(ids, keyOf, n)| == if |ids| + n > 0 then |ids| + n else 0
    ensures Distinct(Top(ids, keyOf, n))
    ensures forall id :: id in Top(ids, keyOf, n) ==> id in ids
  {
    var sorted := RankDescending(Entries(ids, keyOf));
    var names := Ids(sorted);
    var r := Top(ids, keyOf, n);
    SortedItems(ids, keyOf);
    SortedNames(ids, keyOf);
    assert r == names[..|r|];
    assert forall i :: 0 <= i < |r| ==> r[i] == sorted[i].id;
  }

  /** Keys never increase along the ranking. */
  lemma TopDescending(ids: seq<string>, keyOf: map<string, Key>, n: int)
    requires forall id :: id in ids ==> id in keyOf
    ensures forall i, j :: 0 <= i < j < |Top(ids, keyOf, n)| ==>
              Top(ids, keyOf, n)[i] in keyOf && Top(ids, keyOf, n)[j] in keyOf &&
              AtLeast(keyOf[Top(ids, keyOf, n)[i]], keyOf[Top(ids, keyOf, n)[j]])
  {
    var sorted := RankDescending(Entries(ids, keyOf));
    var r := Top(ids, keyOf, n);
    SortedItems(ids, keyOf);
    assert forall i :: 0 <= i < |r| ==> r[i] == sorted[i].id;
    forall i, j | 0 <= i < j < |r|
      ensures AtLeast(keyOf[r[i]], keyOf[r[j]])
    {
      assert AtLeast(sorted[i].key, sorted[j].key);
    }
  }

  /** A name whose key is strictly above another's comes first in the ranking. */
  lemma TopOrdersStrictly(ids: seq<string>, keyOf: map<string, Key>, n: int, i: nat, j: nat)
    requires forall id :: id in ids ==> id in keyOf
    requires i < |Top(ids, keyOf, n)| && j < |Top(ids, keyOf, n)|
    ensures Top(ids, keyOf, n)[i] in keyOf && Top(ids, keyOf, n)[j] in keyOf
    ensures !AtLeast(keyOf[Top(ids, keyOf, n)[j]], keyOf[Top(ids, keyOf, n)[i]]) ==> i < j
  {
    var r := Top(ids, keyOf, n);
    TopDescending(ids, keyOf, n);
    SortedItems(ids, keyOf);
    assert r == Ids(RankDescending(Entries(ids, keyOf)))[..|r|];
  }

  /** No name left out of the ranking has a key above any name in it. */
  lemma TopKeepsBest(ids: seq<string>, keyOf: map<string, Key>, n: int)
    requires Distinct(ids)
    requires forall id :: id in ids ==> id in keyOf
    ensures forall x, y :: x in Top(ids, keyOf, n) && y in ids && y !in Top(ids, keyOf, n) ==>
              x in keyOf && AtLeast(keyOf[x], keyOf[y])
  {
    var sorted := RankDescending(Entries(ids, keyOf));
    var names := Ids(sorted);
    var r := Top(ids, keyOf, n);
    SortedItems(ids, keyOf);
    SortedNames(ids, keyOf);
    assert r == names[..|r|];
    forall x, y | x in r && y in ids && y !in r
      ensures x in keyOf && AtLeast(keyOf[x], keyOf[y])
    {
      var i :| 0 <= i < |r| && r[i] == x;
      var q :| 0 <= q < |names| && names[q] == y;
      assert q >= |r|;
      assert AtLeast(sorted[i].key, sorted[q].key);
    }
  }

  /**
   * When every name has the same key, sorting changes nothing (the sort is
   * stable), so the result is the first names in their original order.
   */
  lemma TopOfTies(ids: seq<string>, keyOf: map<string, Key>, k: Key, n: int)
    requires forall id :: id in ids ==> id in keyOf && keyOf[id] == k
    ensures Top(ids, keyOf, n) == SliceTo(ids, n)
  {
    var e := Entries(ids, keyOf);
    var sorted := RankDescending(e);
    AllWithKey(e, k);
    SortedItems(ids, keyOf);
    AllWithKey(sorted, k);
    RankDescendingIsStable(e, k);
    assert Ids(e) == ids;
  }

  lemma {:induction false} AllWithKey(s: seq<Ranked>, k: Key)
    requires forall i :: 0 <= i < |s| ==> s[i].key == k
    ensures WithKey(s, k) == s
  {
    if s != [] {
      AllWithKey(s[1..], k);
    }
  }
}
