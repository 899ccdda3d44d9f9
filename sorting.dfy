/**
 * `Array.prototype.sort` with a numeric comparator, as the pages call it.
 * Every comparator in the pages has the form `(a, b) => key(b) - key(a)`
 * (descending by an integer key) or `(a, b) => key(a) - key(b)` (ascending,
 * which is descending by the negated key), and the sort is stable. The model is
 * one stable insertion sort, descending by an integer key, followed by
 * `slice(0, n)` where a page keeps only the first `n` elements.
 */
module Sorting {
  import opened Wrappers

  /** Keys never increase along `s`. */
  ghost predicate SortedDesc<T>(s: seq<T>, key: T -> int) {
    forall i, j :: 0 <= i < j < |s| ==> key(s[i]) >= key(s[j])
  }

  /** The elements of `s` whose key is `k`, in their order in `s`: one class of ties. */
  function WithKey<T>(s: seq<T>, key: T -> int, k: int): seq<T> {
    if s == [] then [] else (if key(s[0]) == k then [s[0]] else []) + WithKey(s[1..], key, k)
  }

  /** A sorted list stays sorted with an element in front whose key is at least the first one's. */
  lemma {:induction false} ConsSorted<T>(y: T, t: seq<T>, key: T -> int)
    requires SortedDesc(t, key)
    requires t != [] ==> key(y) >= key(t[0])
    ensures SortedDesc([y] + t, key)
  {
    var r := [y] + t;
    forall i, j | 0 <= i < j < |r| ensures key(r[i]) >= key(r[j]) {
      if i == 0 {
        assert r[j] == t[j - 1];
        assert key(t[0]) >= key(t[j - 1]);
      } else {
        assert r[i] == t[i - 1] && r[j] == t[j - 1];
      }
    }
  }

  /** Places `x` in front of the first element whose key is not larger than its own. */
  function Insert<T>(x: T, s: seq<T>, key: T -> int): (r: seq<T>)
    ensures |r| == |s| + 1
    ensures multiset(r) == multiset(s) + multiset{x}
  {
    if s == [] || key(x) >= key(s[0]) then [x] + s
    else
      assert s == [s[0]] + s[1..];
      [s[0]] + Insert(x, s[1..], key)
  }

  /** Inserting into a sorted list keeps it sorted; the new first key is `x`'s or the old first one. */
  lemma {:induction false} InsertSorted<T>(x: T, s: seq<T>, key: T -> int)
    requires SortedDesc(s, key)
    ensures SortedDesc(Insert(x, s, key), key)
    ensures key(Insert(x, s, key)[0]) == key(x) || (s != [] && key(Insert(x, s, key)[0]) == key(s[0]))
  {
    if s == [] || key(x) >= key(s[0]) {
      ConsSorted(x, s, key);
    } else {
      var tail := s[1..];
      assert SortedDesc(tail, key);
      InsertSorted(x, tail, key);
      var rest := Insert(x, tail, key);
      assert tail != [] ==> key(s[0]) >= key(tail[0]);
      ConsSorted(s[0], rest, key);
      assert Insert(x, s, key) == [s[0]] + rest;
    }
  }

  /** The stable sort, descending by `key`: the result is ordered and a permutation of `s`. */
  function SortDesc<T>(s: seq<T>, key: T -> int): (r: seq<T>)
    ensures |r| == |s|
    ensures SortedDesc(r, key)
    ensures multiset(r) == multiset(s)
  {
    if s == [] then []
    else
      assert s == [s[0]] + s[1..];
      InsertSorted(s[0], SortDesc(s[1..], key), key);
      Insert(s[0], SortDesc(s[1..], key), key)
  }

  /** The tie class of `[y] + t`: `y` when its key is `k`, then the class of `t`. */
  lemma WithKeyCons<T>(y: T, t: seq<T>, key: T -> int, k: int)
    ensures WithKey([y] + t, key, k) == (if key(y) == k then [y] else []) + WithKey(t, key, k)
  {
    assert ([y] + t)[1..] == t;
  }

  /** Inserting `x` adds it to the front of its tie class and leaves every other class as it was. */
  lemma {:induction false} InsertKeepsTies<T>(x: T, s: seq<T>, key: T -> int, k: int)
    ensures WithKey(Insert(x, s, key), key, k) == (if key(x) == k then [x] else []) + WithKey(s, key, k)
  {
    var head := if key(x) == k then [x] else [];
    if s == [] || key(x) >= key(s[0]) {
      assert Insert(x, s, key) == [x] + s;
      WithKeyCons(x, s, key, k);
    } else {
      var rest := Insert(x, s[1..], key);
      assert Insert(x, s, key) == [s[0]] + rest;
      var first := if key(s[0]) == k then [s[0]] else [];
      calc {
        WithKey([s[0]] + rest, key, k);
        { WithKeyCons(s[0], rest, key, k); }
        first + WithKey(rest, key, k);
        { InsertKeepsTies(x, s[1..], key, k); }
        first + (head + WithKey(s[1..], key, k));
        { if key(x) == k { assert first == []; } else { assert head == []; } }
        head + (first + WithKey(s[1..], key, k));
        { assert s == [s[0]] + s[1..]; WithKeyCons(s[0], s[1..], key, k); }
        head + WithKey(s, key, k);
      }
    }
  }

  /**
   * Stability: within each class of equal keys the sort keeps the input order,
   * so two topics with the same date or count appear as they were stored.
   */
  lemma {:induction false} SortKeepsTies<T>(s: seq<T>, key: T -> int, k: int)
    ensures WithKey(SortDesc(s, key), key, k) == WithKey(s, key, k)
  {
    if s != [] {
      SortKeepsTies(s[1..], key, k);
      InsertKeepsTies(s[0], SortDesc(s[1..], key), key, k);
    }
  }

  /** `[...s].sort(cmp).slice(0, n)`: the first `n` elements of the sorted copy. */
  function TopN<T>(s: seq<T>, key: T -> int, n: nat): (r: seq<T>)
    ensures |r| == Min(n, |s|)
    ensures SortedDesc(r, key)
    ensures multiset(r) <= multiset(s)
  {
    var sorted := SortDesc(s, key);
    var m := Min(n, |s|);
    assert sorted == sorted[..m] + sorted[m..];
    sorted[..m]
  }

  /** The equal-key elements of a prefix are a prefix of the equal-key elements of the whole. */
  lemma {:induction false} WithKeyPrefix<T>(s: seq<T>, key: T -> int, m: nat, k: int)
    requires m <= |s|
    ensures WithKey(s[..m], key, k) <= WithKey(s, key, k)
  {
    if m > 0 {
      WithKeyPrefix(s[1..], key, m - 1, k);
      assert s[..m][1..] == s[1..][..m - 1];
    }
  }

  /**
   * Ties: among the elements with key `k`, the ones `TopN` keeps are the first
   * of them in input order, as the slice of a stable sort keeps them.
   */
  lemma {:induction false} TopNKeepsTies<T>(s: seq<T>, key: T -> int, n: nat, k: int)
    ensures WithKey(TopN(s, key, n), key, k) <= WithKey(s, key, k)
  {
    var sorted := SortDesc(s, key);
    WithKeyPrefix(sorted, key, Min(n, |s|), k);
    SortKeepsTies(s, key, k);
  }

  /** An element with more copies in `s` than in its prefix `s[..m]` occurs after the prefix. */
  lemma {:induction false} InSuffix<T>(s: seq<T>, m: nat, x: T) returns (p: nat)
    requires m <= |s| && x in multiset(s) - multiset(s[..m])
    ensures m <= p < |s| && s[p] == x
  {
    var tail := s[m..];
    assert multiset(s) == multiset(s[..m]) + multiset(tail) by {
      assert s == s[..m] + tail;
    }
    assert x in multiset(tail);
    var i :| 0 <= i < |tail| && tail[i] == x;
    p := m + i;
  }

  /** An element `TopN` leaves out sits at or after position `min(n, |s|)` of the sorted copy. */
  lemma {:induction false} LeftOutPosition<T>(s: seq<T>, key: T -> int, n: nat, x: T) returns (p: nat)
    requires x in multiset(s) - multiset(TopN(s, key, n))
    ensures Min(n, |s|) <= p < |s| && SortDesc(s, key)[p] == x
  {
    var sorted := SortDesc(s, key);
    var m := Min(n, |s|);
    assert TopN(s, key, n) == sorted[..m];
    assert multiset(sorted) == multiset(s);
    p := InSuffix(sorted, m, x);
  }

  /** Nothing that `TopN` leaves out ranks above anything it keeps. */
  lemma {:induction false} TopNKeepsLargest<T>(s: seq<T>, key: T -> int, n: nat, x: T)
    requires x in multiset(s) - multiset(TopN(s, key, n))
    ensures forall j :: 0 <= j < |TopN(s, key, n)| ==> key(x) <= key(TopN(s, key, n)[j])
  {
    var sorted := SortDesc(s, key);
    var r := TopN(s, key, n);
    var p := LeftOutPosition(s, key, n, x);
    assert SortedDesc(sorted, key);
    forall j | 0 <= j < |r| ensures key(x) <= key(r[j]) {
      assert r[j] == sorted[j] && j < p;
    }
  }

  /** `s.map(f)`. */
  function MapSeq<A, B>(s: seq<A>, f: A -> B): (r: seq<B>)
    ensures |r| == |s|
    ensures forall i :: 0 <= i < |s| ==> r[i] == f(s[i])
  {
    seq(|s|, i requires 0 <= i < |s| => f(s[i]))
  }

  /** `[y] + t` mapped is `f(y)` in front of `t` mapped. */
  lemma MapCons<A, B>(y: A, t: seq<A>, f: A -> B)
    ensures MapSeq([y] + t, f) == [f(y)] + MapSeq(t, f)
  {
    assert MapSeq([y] + t, f)[1..] == MapSeq(t, f);
  }

  /** A map that keeps the key keeps a list sorted. */
  lemma {:induction false} MapKeepsSorted<A, B>(s: seq<A>, f: A -> B, keyA: A -> int, key: B -> int)
    requires forall a :: keyA(a) == key(f(a))
    requires SortedDesc(s, keyA)
    ensures SortedDesc(MapSeq(s, f), key)
  {
    var ms := MapSeq(s, f);
    forall i, j | 0 <= i < j < |ms| ensures key(ms[i]) >= key(ms[j]) {
      assert keyA(s[i]) == key(f(s[i])) && keyA(s[j]) == key(f(s[j]));
    }
  }

  lemma {:induction false} InsertMap<A, B>(x: A, s: seq<A>, f: A -> B, keyA: A -> int, key: B -> int)
    requires forall a :: keyA(a) == key(f(a))
    requires SortedDesc(s, keyA)
    ensures SortedDesc(MapSeq(s, f), key)
    ensures MapSeq(Insert(x, s, keyA), f) == Insert(f(x), MapSeq(s, f), key)
  {
    MapKeepsSorted(s, f, keyA, key);
    var ms := MapSeq(s, f);
    if s == [] {
      assert Insert(x, s, keyA) == [x] + s;
      MapCons(x, s, f);
    } else {
      assert key(f(x)) == keyA(x) && key(ms[0]) == keyA(s[0]);
      if keyA(x) >= keyA(s[0]) {
        assert Insert(x, s, keyA) == [x] + s;
        MapCons(x, s, f);
      } else {
        var rest := Insert(x, s[1..], keyA);
        assert Insert(x, s, keyA) == [s[0]] + rest;
        assert ms[1..] == MapSeq(s[1..], f);
        InsertMap(x, s[1..], f, keyA, key);
        MapCons(s[0], rest, f);
      }
    }
  }

  /**
   * Sorting commutes with a map that keeps the key: sorting records paired
   * with extra data and then dropping the data gives the sort of the records.
   */
  lemma {:induction false} SortMap<A, B>(s: seq<A>, f: A -> B, keyA: A -> int, key: B -> int)
    requires forall a :: keyA(a) == key(f(a))
    ensures MapSeq(SortDesc(s, keyA), f) == SortDesc(MapSeq(s, f), key)
  {
    if s != [] {
      SortMap(s[1..], f, keyA, key);
      assert MapSeq(s, f)[1..] == MapSeq(s[1..], f);
      InsertMap(s[0], SortDesc(s[1..], keyA), f, keyA, key);
    }
  }

  /** The same for the first `n` of the sorted copy. */
  lemma {:induction false} TopNMap<A, B>(s: seq<A>, f: A -> B, keyA: A -> int, key: B -> int, n: nat)
    requires forall a :: keyA(a) == key(f(a))
    ensures MapSeq(TopN(s, keyA, n), f) == TopN(MapSeq(s, f), key, n)
  {
    var sorted := SortDesc(s, keyA);
    var m := Min(n, |s|);
    assert TopN(s, keyA, n) == sorted[..m];
    SortMap(s, f, keyA, key);
    var mapped := MapSeq(sorted, f);
    assert mapped == SortDesc(MapSeq(s, f), key);
    assert TopN(MapSeq(s, f), key, n) == mapped[..m];
    assert MapSeq(sorted[..m], f) == mapped[..m];
  }
}
