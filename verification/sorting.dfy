/** Sorting of instants. Python's `sorted` is a Timsort; on integers every
    sorting algorithm yields the same sequence (`SortedUnique`), so the model
    uses insertion sort and proves the result is the one sorted permutation. */
module Sorting {

  /** Oldest to newest. */
  ghost predicate Ascending(s: seq<int>) {
    forall i, j :: 0 <= i < j < |s| ==> s[i] <= s[j]
  }

  /** Newest to oldest (`sorted(..., reverse=True)`). */
  ghost predicate Descending(s: seq<int>) {
    forall i, j :: 0 <= i < j < |s| ==> s[i] >= s[j]
  }

  function Insert(x: int, s: seq<int>): (r: seq<int>)
    requires Ascending(s)
    ensures Ascending(r)
    ensures multiset(r) == multiset(s) + multiset{x}
  {
    if s == [] then [x]
    else if x <= s[0] then [x] + s
    else
      var tail := Insert(x, s[1..]);
      assert s == [s[0]] + s[1..];
      BoundedBelow(s[0], x, tail, s[1..]);
      AscendingCons(s[0], tail);
      [s[0]] + tail
  }

  /** A lower bound of `u` and `x` bounds any rearrangement of `u` plus `x`. */
  lemma BoundedBelow(y: int, x: int, t: seq<int>, u: seq<int>)
    requires forall k :: 0 <= k < |u| ==> y <= u[k]
    requires y <= x
    requires multiset(t) == multiset(u) + multiset{x}
    ensures forall k :: 0 <= k < |t| ==> y <= t[k]
  {
    forall k | 0 <= k < |t| ensures y <= t[k] {
      assert t[k] in multiset(t);
      if t[k] != x {
        assert t[k] in multiset(u);
        assert t[k] in u;
      }
    }
  }

  lemma AscendingCons(y: int, t: seq<int>)
    requires Ascending(t)
    requires forall k :: 0 <= k < |t| ==> y <= t[k]
    ensures Ascending([y] + t)
  {
    var r := [y] + t;
    forall i, j | 0 <= i < j < |r| ensures r[i] <= r[j] {
      assert r[j] == t[j - 1];
      if i > 0 {
        assert r[i] == t[i - 1];
      }
    }
  }

  /** The ascending rearrangement of `s`: `sorted(s)`. */
  function SortAscending(s: seq<int>): (r: seq<int>)
    ensures Ascending(r)
    ensures multiset(r) == multiset(s)
    ensures |r| == |s|
  {
    if s == [] then []
    else
      assert s == [s[0]] + s[1..];
      var r := Insert(s[0], SortAscending(s[1..]));
      assert |r| == |multiset(r)| == |multiset(s)| == |s|;
      r
  }

  function Reverse(s: seq<int>): (r: seq<int>)
    ensures |r| == |s|
    ensures forall i :: 0 <= i < |s| ==> r[i] == s[|s| - 1 - i]
  {
    if s == [] then [] else Reverse(s[1..]) + [s[0]]
  }

  lemma {:induction false} ReverseMultiset(s: seq<int>)
    ensures multiset(Reverse(s)) == multiset(s)
  {
    if s != [] {
      ReverseMultiset(s[1..]);
      assert s == [s[0]] + s[1..];
    }
  }

  /** The descending rearrangement of `s`: `sorted(s, reverse=True)`. */
  function SortDescending(s: seq<int>): (r: seq<int>)
    ensures Descending(r)
    ensures multiset(r) == multiset(s)
    ensures |r| == |s|
  {
    var a := SortAscending(s);
    ReverseMultiset(a);
    Reverse(a)
  }

  /** Two ascending sequences holding the same instants are equal: sorting has
      exactly one possible outcome. */
  lemma {:induction false} SortedUnique(a: seq<int>, b: seq<int>)
    requires Ascending(a) && Ascending(b)
    requires multiset(a) == multiset(b)
    ensures a == b
  {
    if a == [] {
      assert |b| == |multiset(b)| == 0;
    } else {
      assert |b| == |multiset(b)| == |multiset(a)| == |a|;
      var x, y := a[0], b[0];
      LeastIsFirst(a, y);
      LeastIsFirst(b, x);
      assert a == [x] + a[1..];
      assert b == [y] + b[1..];
      assert x == y;
      assert multiset(a) == multiset{x} + multiset(a[1..]);
      assert multiset(b) == multiset{x} + multiset(b[1..]);
      assert multiset(a[1..]) == multiset(a) - multiset{x};
      assert multiset(b[1..]) == multiset(b) - multiset{x};
      SortedUnique(a[1..], b[1..]);
    }
  }

  /** Every instant held by an ascending sequence is at least its first one. */
  lemma LeastIsFirst(s: seq<int>, y: int)
    requires Ascending(s) && |s| > 0
    requires y in multiset(s)
    ensures s[0] <= y
  {
    assert y in s;
    var i :| 0 <= i < |s| && s[i] == y;
    if i > 0 {
      assert s[0] <= s[i];
    }
  }

  /** Sorting forgets the input order: permutations sort to the same sequence. */
  lemma SortAscendingPermutation(a: seq<int>, b: seq<int>)
    requires multiset(a) == multiset(b)
    ensures SortAscending(a) == SortAscending(b)
  {
    SortedUnique(SortAscending(a), SortAscending(b));
  }

  lemma SortDescendingPermutation(a: seq<int>, b: seq<int>)
    requires multiset(a) == multiset(b)
    ensures SortDescending(a) == SortDescending(b)
  {
    SortAscendingPermutation(a, b);
  }

  /** Appending an instant no earlier than every other one sorts it last. */
  lemma SortAscendingAppendLatest(s: seq<int>, x: int)
    requires forall i :: 0 <= i < |s| ==> s[i] <= x
    ensures SortAscending(s + [x]) == SortAscending(s) + [x]
  {
    var a := SortAscending(s);
    forall k | 0 <= k < |a| ensures a[k] <= x {
      assert a[k] in multiset(s);
    }
    AscendingAppend(a, x);
    calc {
      multiset(a + [x]);
      multiset(a) + multiset{x};
      multiset(s) + multiset{x};
      multiset(s + [x]);
    }
    SortedUnique(SortAscending(s + [x]), a + [x]);
  }

  lemma AscendingAppend(a: seq<int>, x: int)
    requires Ascending(a)
    requires forall k :: 0 <= k < |a| ==> a[k] <= x
    ensures Ascending(a + [x])
  {
    var ax := a + [x];
    forall i, j | 0 <= i < j < |ax| ensures ax[i] <= ax[j] {
      assert ax[i] == a[i];
      if j < |a| {
        assert ax[j] == a[j];
      }
    }
  }
}
