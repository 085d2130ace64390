/** Python's stable `sorted`, by insertion: the result is a sorted permutation of the input, elements with
    equal keys keep their order, and a sorted list stays as it is. Keys are pairs of integers compared
    lexicographically, which covers the sort by sequence number and start time as well as the sorts by one
    of them alone. */
module Sorting {

  /** Keys compare lexicographically; a single key leaves the second part constant. */
  type Key = (int, int)

  predicate LexLe(a: Key, b: Key) {
    a.0 < b.0 || (a.0 == b.0 && a.1 <= b.1)
  }

  ghost predicate IsSorted<T(!new)>(s: seq<T>, key: T -> Key) {
    forall i, j :: 0 <= i < j < |s| ==> LexLe(key(s[i]), key(s[j]))
  }

  function Insert<T>(x: T, s: seq<T>, key: T -> Key): seq<T> {
    if s == [] || LexLe(key(x), key(s[0])) then [x] + s else [s[0]] + Insert(x, s[1..], key)
  }

  function StableSort<T>(s: seq<T>, key: T -> Key): seq<T> {
    if s == [] then [] else Insert(s[0], StableSort(s[1..], key), key)
  }

  lemma {:induction false} InsertBag<T>(x: T, s: seq<T>, key: T -> Key)
    ensures multiset(Insert(x, s, key)) == multiset(s) + multiset{x}
  {
    if s != [] && !LexLe(key(x), key(s[0])) {
      InsertBag(x, s[1..], key);
      assert s == [s[0]] + s[1..];
    }
  }

  lemma {:induction false} InsertSorts<T(!new)>(x: T, s: seq<T>, key: T -> Key)
    requires IsSorted(s, key)
    ensures IsSorted(Insert(x, s, key), key)
  {
    if s != [] && !LexLe(key(x), key(s[0])) {
      var out := Insert(x, s[1..], key);
      InsertSorts(x, s[1..], key);
      InsertBag(x, s[1..], key);
      forall j | 0 <= j < |out|
        ensures LexLe(key(s[0]), key(out[j]))
      {
        assert out[j] in multiset(out);
        assert out[j] == x || out[j] in s[1..];
      }
    }
  }

  /** The result is sorted and a permutation of the input. */
  lemma {:induction false} Sorts<T(!new)>(s: seq<T>, key: T -> Key)
    ensures IsSorted(StableSort(s, key), key) && multiset(StableSort(s, key)) == multiset(s)
  {
    if s != [] {
      Sorts(s[1..], key);
      InsertSorts(s[0], StableSort(s[1..], key), key);
      InsertBag(s[0], StableSort(s[1..], key), key);
      assert s == [s[0]] + s[1..];
    }
  }

  /** Sorting what is sorted changes nothing. */
  lemma {:induction false} SortedIsFixed<T(!new)>(s: seq<T>, key: T -> Key)
    requires IsSorted(s, key)
    ensures StableSort(s, key) == s
  {
    if s != [] {
      SortedIsFixed(s[1..], key);
      assert |s| > 1 ==> LexLe(key(s[0]), key(s[1]));
    }
  }

  function WithKey<T>(s: seq<T>, key: T -> Key, k: Key): seq<T> {
    if s == [] then [] else (if key(s[0]) == k then [s[0]] else []) + WithKey(s[1..], key, k)
  }

  lemma {:induction false} InsertStable<T>(x: T, s: seq<T>, key: T -> Key, k: Key)
    ensures WithKey(Insert(x, s, key), key, k) == WithKey([x] + s, key, k)
  {
    assert ([x] + s)[1..] == s;
    if s != [] && !LexLe(key(x), key(s[0])) {
      InsertStable(x, s[1..], key, k);
      assert ([x] + s[1..])[1..] == s[1..];
      assert ([s[0]] + Insert(x, s[1..], key))[1..] == Insert(x, s[1..], key);
    }
  }

  /** Items of equal key keep their order. */
  lemma {:induction false} Stable<T>(s: seq<T>, key: T -> Key, k: Key)
    ensures WithKey(StableSort(s, key), key, k) == WithKey(s, key, k)
  {
    if s != [] {
      Stable(s[1..], key, k);
      var sorted := StableSort(s[1..], key);
      InsertStable(s[0], sorted, key, k);
      assert ([s[0]] + sorted)[1..] == sorted;
    }
  }
}
