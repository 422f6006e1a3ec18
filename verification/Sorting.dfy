/** Stable sorting by an integer key, as the standard library's `stable_sort` and an
    insertion-ordered multimap provide it.  For sorting numbers themselves the result
    is the only sorted permutation, so it also stands for `sort`. */
module Sorting {

  ghost predicate SortedBy<T>(key: T -> int, s: seq<T>) {
    forall i, j :: 0 <= i < j < |s| ==> key(s[i]) <= key(s[j])
  }

  /** `x` put behind every element whose key is not larger. */
  function Insert<T>(key: T -> int, s: seq<T>, x: T): seq<T> {
    if s == [] || key(s[|s| - 1]) <= key(x) then s + [x]
    else Insert(key, s[..|s| - 1], x) + [s[|s| - 1]]
  }

  function StableSort<T>(key: T -> int, s: seq<T>): seq<T> {
    if s == [] then [] else Insert(key, StableSort(key, s[..|s| - 1]), s[|s| - 1])
  }

  /** The elements with key `k`, in order. */
  function WithKey<T>(key: T -> int, k: int, s: seq<T>): seq<T> {
    if s == [] then []
    else WithKey(key, k, s[..|s| - 1]) + if key(s[|s| - 1]) == k then [s[|s| - 1]] else []
  }

  lemma {:induction false} InsertPermutes<T>(key: T -> int, s: seq<T>, x: T)
    ensures multiset(Insert(key, s, x)) == multiset(s) + multiset{x}
    ensures |Insert(key, s, x)| == |s| + 1
  {
    if s != [] && key(s[|s| - 1]) > key(x) {
      InsertPermutes(key, s[..|s| - 1], x);
      assert s == s[..|s| - 1] + [s[|s| - 1]];
    }
  }

  lemma InsertMember<T>(key: T -> int, s: seq<T>, x: T, i: nat)
    requires i < |Insert(key, s, x)|
    ensures Insert(key, s, x)[i] == x || exists j :: 0 <= j < |s| && s[j] == Insert(key, s, x)[i]
  {
    InsertPermutes(key, s, x);
    var y := Insert(key, s, x)[i];
    assert y in multiset(Insert(key, s, x));
    assert y == x || y in s;
  }

  lemma {:induction false} InsertProps<T>(key: T -> int, s: seq<T>, x: T)
    requires SortedBy(key, s)
    ensures SortedBy(key, Insert(key, s, x))
    ensures multiset(Insert(key, s, x)) == multiset(s) + multiset{x}
    ensures |Insert(key, s, x)| == |s| + 1
  {
    InsertPermutes(key, s, x);
    if s != [] && key(s[|s| - 1]) > key(x) {
      var init, last := s[..|s| - 1], s[|s| - 1];
      InsertProps(key, init, x);
      var r := Insert(key, init, x);
      forall i | 0 <= i < |r| ensures key(r[i]) <= key(last) {
        InsertMember(key, init, x, i);
      }
    }
  }

  lemma WithKeyAppend<T>(key: T -> int, k: int, s: seq<T>, x: T)
    ensures WithKey(key, k, s + [x]) == WithKey(key, k, s) + if key(x) == k then [x] else []
  {
    assert (s + [x])[..|s|] == s;
  }

  lemma {:induction false} InsertStable<T>(key: T -> int, s: seq<T>, x: T, k: int)
    requires SortedBy(key, s)
    ensures WithKey(key, k, Insert(key, s, x)) == WithKey(key, k, s) + if key(x) == k then [x] else []
  {
    if s == [] || key(s[|s| - 1]) <= key(x) {
      WithKeyAppend(key, k, s, x);
    } else {
      var init, last := s[..|s| - 1], s[|s| - 1];
      InsertStable(key, init, x, k);
      WithKeyAppend(key, k, Insert(key, init, x), last);
    }
  }

  /** Sorting permutes, sorts by the key, and keeps the order of equal keys. */
  lemma {:induction false} StableSortProps<T>(key: T -> int, s: seq<T>)
    ensures SortedBy(key, StableSort(key, s))
    ensures multiset(StableSort(key, s)) == multiset(s)
    ensures |StableSort(key, s)| == |s|
    ensures forall k :: WithKey(key, k, StableSort(key, s)) == WithKey(key, k, s)
  {
    if s != [] {
      var init, last := s[..|s| - 1], s[|s| - 1];
      StableSortProps(key, init);
      InsertProps(key, StableSort(key, init), last);
      assert s == init + [last];
      forall k ensures WithKey(key, k, StableSort(key, s)) == WithKey(key, k, s) {
        InsertStable(key, StableSort(key, init), last, k);
      }
    }
  }
}
