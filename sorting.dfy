/**
  * A stable sort by an integer key: what `Array.prototype.sort` does with a
  * comparator `(a, b) => key(a) - key(b)` (JavaScript's sort is stable).
  */
module Sorting {

  ghost predicate SortedBy<T>(s: seq<T>, key: T -> int) {
    forall i, j :: 0 <= i < j < |s| ==> key(s[i]) <= key(s[j])
  }

  /** The elements of `s` whose key is `v`, in their order in `s`. */
  function WithKey<T>(s: seq<T>, key: T -> int, v: int): seq<T> {
    if s == [] then []
    else (if key(s[0]) == v then [s[0]] else []) + WithKey(s[1..], key, v)
  }

  /** Places `x` before the first element whose key is not smaller than its own. */
  function Insert<T>(x: T, s: seq<T>, key: T -> int): seq<T> {
    if s == [] || key(x) <= key(s[0]) then [x] + s
    else [s[0]] + Insert(x, s[1..], key)
  }

  function SortBy<T>(s: seq<T>, key: T -> int): seq<T> {
    if s == [] then [] else Insert(s[0], SortBy(s[1..], key), key)
  }

  lemma {:induction false} InsertPermutes<T>(x: T, s: seq<T>, key: T -> int)
    ensures multiset(Insert(x, s, key)) == multiset{x} + multiset(s)
  {
    if s != [] && key(x) > key(s[0]) {
      InsertPermutes(x, s[1..], key);
      assert s == [s[0]] + s[1..];
    }
  }

  lemma {:induction false} InsertSorted<T>(x: T, s: seq<T>, key: T -> int)
    requires SortedBy(s, key)
    ensures SortedBy(Insert(x, s, key), key)
  {
    if s != [] && key(x) > key(s[0]) {
      InsertSorted(x, s[1..], key);
      InsertPermutes(x, s[1..], key);
      var t := Insert(x, s[1..], key);
      forall k | 0 <= k < |t|
        ensures key(s[0]) <= key(t[k])
      {
        assert t[k] in multiset(t);
      }
    }
  }

  lemma {:induction false} InsertWithKey<T>(x: T, s: seq<T>, key: T -> int, v: int)
    ensures WithKey(Insert(x, s, key), key, v) == (if key(x) == v then [x] else []) + WithKey(s, key, v)
  {
    if s == [] || key(x) <= key(s[0]) {
      assert ([x] + s)[1..] == s;
    } else {
      var t := Insert(x, s[1..], key);
      InsertWithKey(x, s[1..], key, v);
      assert ([s[0]] + t)[1..] == t;
      assert WithKey(Insert(x, s, key), key, v) == (if key(s[0]) == v then [s[0]] else []) + WithKey(t, key, v);
      assert WithKey(s, key, v) == (if key(s[0]) == v then [s[0]] else []) + WithKey(s[1..], key, v);
      if key(s[0]) == v {
        assert key(x) != v;
      }
    }
  }

  /** Sorting keeps exactly the elements it was given. */
  lemma {:induction false} SortByPermutes<T>(s: seq<T>, key: T -> int)
    ensures multiset(SortBy(s, key)) == multiset(s)
  {
    if s != [] {
      SortByPermutes(s[1..], key);
      InsertPermutes(s[0], SortBy(s[1..], key), key);
      assert s == [s[0]] + s[1..];
    }
  }

  /** Sorting orders the elements by key. */
  lemma {:induction false} SortBySorted<T>(s: seq<T>, key: T -> int)
    ensures SortedBy(SortBy(s, key), key)
  {
    if s != [] {
      SortBySorted(s[1..], key);
      InsertSorted(s[0], SortBy(s[1..], key), key);
    }
  }

  /** Stability: elements with equal keys keep their relative order. */
  lemma {:induction false} SortByStable<T>(s: seq<T>, key: T -> int, v: int)
    ensures WithKey(SortBy(s, key), key, v) == WithKey(s, key, v)
  {
    if s != [] {
      SortByStable(s[1..], key, v);
      InsertWithKey(s[0], SortBy(s[1..], key), key, v);
    }
  }

  lemma {:induction false} SortByLength<T>(s: seq<T>, key: T -> int)
    ensures |SortBy(s, key)| == |s|
  {
    SortByPermutes(s, key);
    assert |multiset(SortBy(s, key))| == |multiset(s)|;
  }

  /** Two elements with key `v` at distinct places put two elements into `WithKey(s, key, v)`. */
  lemma {:induction false} WithKeyTwo<T>(s: seq<T>, key: T -> int, v: int, i: int, j: int)
    requires 0 <= i < j < |s| && key(s[i]) == v && key(s[j]) == v
    ensures |WithKey(s, key, v)| >= 2
  {
    if i > 0 {
      WithKeyTwo(s[1..], key, v, i - 1, j - 1);
    } else {
      WithKeyHas(s[1..], key, v, j - 1);
    }
  }

  lemma {:induction false} WithKeyHas<T>(s: seq<T>, key: T -> int, v: int, j: int)
    requires 0 <= j < |s| && key(s[j]) == v
    ensures |WithKey(s, key, v)| >= 1
  {
    if j > 0 {
      WithKeyHas(s[1..], key, v, j - 1);
    }
  }

  lemma {:induction false} WithKeyNone<T>(s: seq<T>, key: T -> int, v: int)
    requires forall q :: 0 <= q < |s| ==> key(s[q]) != v
    ensures WithKey(s, key, v) == []
  {
    if s != [] {
      WithKeyNone(s[1..], key, v);
    }
  }

  /** With pairwise distinct keys, at most one element has any given key. */
  lemma {:induction false} WithKeyAtMostOne<T>(s: seq<T>, key: T -> int, v: int)
    requires forall p, q :: 0 <= p < q < |s| ==> key(s[p]) != key(s[q])
    ensures |WithKey(s, key, v)| <= 1
  {
    if s != [] {
      if key(s[0]) == v {
        forall q | 0 <= q < |s[1..]|
          ensures key(s[1..][q]) != v
        {
          assert s[1..][q] == s[q + 1];
        }
        WithKeyNone(s[1..], key, v);
      } else {
        WithKeyAtMostOne(s[1..], key, v);
      }
    }
  }
}
