/** The JavaScript array operations the pages use: `indexOf`, `splice(i, 1)` and `filter`. */
module Seqs {

  /** `s.indexOf(x)`: the first position holding `x`, or -1 when there is none. */
  function IndexOf<T(==)>(s: seq<T>, x: T): (r: int)
    ensures -1 <= r < |s|
    ensures r == -1 <==> x !in s
    ensures r >= 0 ==> s[r] == x && x !in s[..r]
  {
    if s == [] then -1
    else if s[0] == x then 0
    else
      var k := IndexOf(s[1..], x);
      assert s[1..][..if k < 0 then 0 else k] == s[1..if k < 0 then 1 else k + 1];
      if k == -1 then -1 else k + 1
  }

  /**
   * `s.splice(i, 1)` on a non-negative position: removes the element at `i` and
   * shifts the later ones down by one; a position past the end removes nothing.
   */
  function RemoveAt<T>(s: seq<T>, i: nat): (r: seq<T>)
    ensures i < |s| ==> |r| == |s| - 1
    ensures i >= |s| ==> r == s
    ensures forall j :: 0 <= j < i && j < |r| ==> r[j] == s[j]
    ensures forall j :: i <= j < |r| ==> r[j] == s[j + 1]
  {
    if i < |s| then s[..i] + s[i + 1..] else s
  }

  /** Putting the removed element back where it was restores the sequence. */
  lemma {:induction false} RemoveAtThenReinsert<T>(s: seq<T>, i: nat)
    requires i < |s|
    ensures RemoveAt(s, i)[..i] + [s[i]] + RemoveAt(s, i)[i..] == s
  {
    var r := RemoveAt(s, i);
    assert r[..i] == s[..i];
    assert r[i..] == s[i + 1..];
    assert s == s[..i] + [s[i]] + s[i + 1..];
  }

  /** Removing the element just appended gives back the original sequence. */
  lemma {:induction false} RemoveLastAppended<T>(s: seq<T>, x: T)
    ensures RemoveAt(s + [x], |s|) == s
  {
    assert (s + [x])[..|s|] == s;
  }

  /** The multiset of a splice is the original multiset less the removed element. */
  lemma {:induction false} RemoveAtMultiset<T>(s: seq<T>, i: nat)
    requires i < |s|
    ensures multiset(RemoveAt(s, i)) == multiset(s) - multiset{s[i]}
  {
    assert s == s[..i] + [s[i]] + s[i + 1..];
    assert multiset(s) == multiset(s[..i]) + multiset{s[i]} + multiset(s[i + 1..]);
  }

  /** `r` is `s` with some elements left out, the rest in their original order. */
  ghost predicate IsSubsequence<T>(r: seq<T>, s: seq<T>) {
    if r == [] then true
    else if s == [] then false
    else (r[0] == s[0] && IsSubsequence(r[1..], s[1..])) || IsSubsequence(r, s[1..])
  }

  /** What `s.filter(p)` promises of its result `r`. */
  ghost predicate Filters<T>(r: seq<T>, s: seq<T>, p: T -> bool) {
    && |r| <= |s|
    && (forall k :: 0 <= k < |r| ==> p(r[k]) && r[k] in s)
    && (forall k :: 0 <= k < |s| && p(s[k]) ==> s[k] in r)
    && multiset(r) <= multiset(s)
    && (forall x :: x in s && p(x) ==> multiset(r)[x] == multiset(s)[x])
    && IsSubsequence(r, s)
  }

  /** A first element the predicate keeps goes in front of the filtered rest. */
  lemma {:induction false} FiltersKeep<T>(s: seq<T>, r: seq<T>, p: T -> bool)
    requires s != [] && p(s[0]) && Filters(r, s[1..], p)
    ensures Filters([s[0]] + r, s, p)
  {
    var x, t := s[0], s[1..];
    assert s == [x] + t;
    assert ([x] + r)[1..] == r;
    forall k | 0 <= k < |s| && p(s[k]) ensures s[k] in [x] + r {
      if k > 0 {
        assert s[k] == t[k - 1];
      }
    }
  }

  /** A first element the predicate rejects is left out. */
  lemma {:induction false} FiltersDrop<T>(s: seq<T>, r: seq<T>, p: T -> bool)
    requires s != [] && !p(s[0]) && Filters(r, s[1..], p)
    ensures Filters(r, s, p)
  {
    var x, t := s[0], s[1..];
    assert s == [x] + t;
    assert r == [] || IsSubsequence(r, t);
    forall k | 0 <= k < |s| && p(s[k]) ensures s[k] in r {
      assert k > 0 && s[k] == t[k - 1];
    }
  }

  /** `s.filter(p)`: exactly the elements satisfying `p`, every copy of them, in their original order. */
  function Filter<T(==)>(s: seq<T>, p: T -> bool): (r: seq<T>)
    ensures |r| <= |s|
    ensures forall k :: 0 <= k < |r| ==> p(r[k]) && r[k] in s
    ensures forall k :: 0 <= k < |s| && p(s[k]) ==> s[k] in r
    ensures multiset(r) <= multiset(s)
    ensures forall x :: x in s && p(x) ==> multiset(r)[x] == multiset(s)[x]
    ensures IsSubsequence(r, s)
  {
    if s == [] then []
    else
      var rest := Filter(s[1..], p);
      assert Filters(rest, s[1..], p);
      if p(s[0]) then
        FiltersKeep(s, rest, p);
        [s[0]] + rest
      else
        FiltersDrop(s, rest, p);
        rest
  }

  /** A filter keeps everything when every element satisfies the predicate. */
  lemma {:induction false} FilterAll<T>(s: seq<T>, p: T -> bool)
    requires forall k :: 0 <= k < |s| ==> p(s[k])
    ensures Filter(s, p) == s
  {
    if s != [] {
      FilterAll(s[1..], p);
    }
  }
}
