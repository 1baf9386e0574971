/**
 * The order `SortedArray.add` leaves its data in. JavaScript's
 * `Array.prototype.sort` is stable, and the only comparator the app hands
 * it is a difference of keys (`a.weight - b.weight`), so the result of
 * sorting is the stable ascending sort by that key. It is written here as
 * an insertion sort from the right: each element goes after every element
 * whose key is not larger.
 */
module Sorting {

  /** Every key is at most the keys after it. */
  ghost predicate Sorted<T>(s: seq<T>, key: T -> int)
  {
    forall i, j :: 0 <= i < j < |s| ==> key(s[i]) <= key(s[j])
  }

  /** The elements of s whose key is k, in their order in s. */
  function WithKey<T>(s: seq<T>, key: T -> int, k: int): seq<T>
  {
    if |s| == 0 then []
    else WithKey(s[..|s| - 1], key, k) + (if key(s[|s| - 1]) == k then [s[|s| - 1]] else [])
  }

  /** x placed after the last element of s whose key is not larger than its own. */
  function Insert<T>(s: seq<T>, x: T, key: T -> int): (t: seq<T>)
    ensures |t| == |s| + 1
  {
    if |s| == 0 || key(s[|s| - 1]) <= key(x) then s + [x]
    else Insert(s[..|s| - 1], x, key) + [s[|s| - 1]]
  }

  /** The stable ascending sort of s by key. */
  function SortByKey<T>(s: seq<T>, key: T -> int): (t: seq<T>)
    ensures |t| == |s|
  {
    if |s| == 0 then [] else Insert(SortByKey(s[..|s| - 1], key), s[|s| - 1], key)
  }

  lemma {:induction false} InsertPermutes<T>(s: seq<T>, x: T, key: T -> int)
    ensures |Insert(s, x, key)| == |s| + 1
    ensures multiset(Insert(s, x, key)) == multiset(s) + multiset{x}
  {
    if |s| > 0 && key(s[|s| - 1]) > key(x) {
      InsertPermutes(s[..|s| - 1], x, key);
      assert s == s[..|s| - 1] + [s[|s| - 1]];
    }
  }

  lemma {:induction false} InsertSorted<T>(s: seq<T>, x: T, key: T -> int)
    requires Sorted(s, key)
    ensures Sorted(Insert(s, x, key), key)
  {
    if |s| > 0 && key(s[|s| - 1]) > key(x) {
      var s' := s[..|s| - 1];
      var last := s[|s| - 1];
      InsertSorted(s', x, key);
      InsertPermutes(s', x, key);
      var t := Insert(s', x, key);
      forall i | 0 <= i < |t| ensures key(t[i]) <= key(last) {
        assert t[i] in multiset(t);
        if t[i] != x {
          assert t[i] in multiset(s');
          var j :| 0 <= j < |s'| && s'[j] == t[i];
          assert s[j] == t[i];
        }
      }
    }
  }

  /** Insertion keeps the relative order of the elements of each key and puts x last among its own key. */
  lemma {:induction false} InsertStable<T>(s: seq<T>, x: T, key: T -> int, k: int)
    ensures WithKey(Insert(s, x, key), key, k) == WithKey(s, key, k) + (if key(x) == k then [x] else [])
  {
    if |s| == 0 || key(s[|s| - 1]) <= key(x) {
      WithKeyAppend(s, x, key, k);
    } else {
      var s' := s[..|s| - 1];
      var last := s[|s| - 1];
      InsertStable(s', x, key, k);
      var t := Insert(s', x, key);
      WithKeyAppend(t, last, key, k);
    }
  }

  lemma WithKeyAppend<T>(s: seq<T>, x: T, key: T -> int, k: int)
    ensures WithKey(s + [x], key, k) == WithKey(s, key, k) + (if key(x) == k then [x] else [])
  {
    assert (s + [x])[..|s + [x]| - 1] == s;
  }

  /** The sort is sorted, a permutation of its input, and stable. */
  lemma {:induction false} SortByKeyCorrect<T>(s: seq<T>, key: T -> int)
    ensures Sorted(SortByKey(s, key), key)
    ensures |SortByKey(s, key)| == |s|
    ensures multiset(SortByKey(s, key)) == multiset(s)
  {
    if |s| > 0 {
      var s' := s[..|s| - 1];
      SortByKeyCorrect(s', key);
      InsertSorted(SortByKey(s', key), s[|s| - 1], key);
      InsertPermutes(SortByKey(s', key), s[|s| - 1], key);
      assert s == s' + [s[|s| - 1]];
    }
  }

  /** Elements with equal keys keep the order they had in the input. */
  lemma {:induction false} SortByKeyStable<T>(s: seq<T>, key: T -> int, k: int)
    ensures WithKey(SortByKey(s, key), key, k) == WithKey(s, key, k)
  {
    if |s| > 0 {
      var s' := s[..|s| - 1];
      SortByKeyStable(s', key, k);
      InsertStable(SortByKey(s', key), s[|s| - 1], key, k);
    }
  }

  /** Sorting what is already sorted changes nothing. */
  lemma {:induction false} SortByKeySortedFixed<T>(s: seq<T>, key: T -> int)
    requires Sorted(s, key)
    ensures SortByKey(s, key) == s
  {
    if |s| > 0 {
      var s' := s[..|s| - 1];
      var last := s[|s| - 1];
      assert Sorted(s', key) by {
        forall i, j | 0 <= i < j < |s'| ensures key(s'[i]) <= key(s'[j]) {
          assert s'[i] == s[i] && s'[j] == s[j];
        }
      }
      SortByKeySortedFixed(s', key);
      assert SortByKey(s, key) == Insert(s', last, key);
      if |s'| > 0 {
        assert s'[|s'| - 1] == s[|s| - 2];
        assert key(s'[|s'| - 1]) <= key(last);
      }
      assert Insert(s', last, key) == s' + [last];
      assert s == s' + [last];
    }
  }

  /** Sorting one more element at the end inserts it into the sort of the rest. */
  lemma SortByKeySnoc<T>(s: seq<T>, x: T, key: T -> int)
    ensures SortByKey(s + [x], key) == Insert(SortByKey(s, key), x, key)
  {
    assert (s + [x])[..|s|] == s;
  }

  /** Pushing onto a sorted sequence and sorting the whole inserts the new element after every element of no larger key. */
  lemma PushSortIsInsert<T>(s: seq<T>, x: T, key: T -> int)
    requires Sorted(s, key)
    ensures SortByKey(s + [x], key) == Insert(s, x, key)
  {
    SortByKeySnoc(s, x, key);
    SortByKeySortedFixed(s, key);
  }

  /** Appending to a sorted sequence and sorting again is the sort of the appended input. */
  lemma SortAppend<T>(s: seq<T>, x: T, key: T -> int)
    ensures SortByKey(SortByKey(s, key) + [x], key) == SortByKey(s + [x], key)
  {
    var t := SortByKey(s, key);
    SortByKeyCorrect(s, key);
    SortByKeySortedFixed(t, key);
    assert (t + [x])[..|t + [x]| - 1] == t;
    assert (s + [x])[..|s + [x]| - 1] == s;
  }
}
