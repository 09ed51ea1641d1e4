/** Generic operations on ordered collections that the store and the analytics
    functions share: first-match search and order-preserving filtering. */
module Seqs {
  import opened Wrappers

  /** The position of the first element satisfying `matches`, as Python's
      `for ... if ...: break` and `next(...)` searches find it. */
  function FirstIndex<T>(s: seq<T>, matches: T -> bool): (r: Option<nat>)
    ensures r.Some? ==> r.value < |s| && matches(s[r.value])
    ensures r.Some? ==> forall j :: 0 <= j < r.value ==> !matches(s[j])
    ensures r.None? <==> forall j :: 0 <= j < |s| ==> !matches(s[j])
    ensures forall i :: IsFirst(s, matches, i) <==> r == Some(i)
  {
    if s == [] then None
    else if matches(s[0]) then Some(0)
    else match FirstIndex(s[1..], matches)
      case None => None
      case Some(i) => Some(i + 1)
  }

  /** `i` is the position of the first element of `s` satisfying `matches`. */
  ghost predicate IsFirst<T>(s: seq<T>, matches: T -> bool, i: int) {
    && 0 <= i < |s|
    && matches(s[i])
    && forall j :: 0 <= j < i ==> !matches(s[j])
  }

  /** Appending an element leaves an existing first match where it was, and
      otherwise makes a matching new element the first match. */
  lemma {:induction false} FirstIndexAppend<T>(s: seq<T>, x: T, matches: T -> bool)
    ensures FirstIndex(s + [x], matches) ==
      if FirstIndex(s, matches).Some? then FirstIndex(s, matches)
      else if matches(x) then Some(|s|)
      else None
  {
    if s != [] {
      assert (s + [x])[1..] == s[1..] + [x];
      FirstIndexAppend(s[1..], x, matches);
    }
  }

  /** `s` without the element at position `i` (Python's `list.remove` once the
      position is known). */
  function RemoveAt<T>(s: seq<T>, i: nat): (r: seq<T>)
    requires i < |s|
    ensures |r| == |s| - 1
    ensures r[..i] == s[..i] && r[i..] == s[i + 1..]
    ensures multiset(r) + multiset{s[i]} == multiset(s)
    ensures Subsequence(r, s)
  {
    assert s == s[..i] + [s[i]] + s[i + 1..];
    RemovalIsSubsequence(s, i);
    s[..i] + s[i + 1..]
  }

  /** `max(f(x) for x in s)`, with 0 for an empty `s` (`max(..., default=0)`). */
  function MaxOf<T>(s: seq<T>, f: T -> nat): (m: nat)
    ensures |s| == 0 ==> m == 0
    ensures forall i :: 0 <= i < |s| ==> f(s[i]) <= m
    ensures |s| > 0 ==> exists i :: 0 <= i < |s| && f(s[i]) == m
  {
    if |s| == 0 then 0
    else
      var rest := MaxOf(s[1..], f);
      assert forall i :: 1 <= i < |s| ==> s[i] == s[1..][i - 1];
      if |s| == 1 || f(s[0]) >= rest then f(s[0])
      else
        assert exists i :: 1 <= i < |s| && f(s[i]) == rest by {
          var j :| 0 <= j < |s[1..]| && f(s[1..][j]) == rest;
          assert s[j + 1] == s[1..][j];
        }
        rest
  }

  /** `max(f(x) for x in s)` where `f` may raise: the values are computed in
      order and the first error ends the call, which raises that error. */
  function MaxOfResults<T, E>(s: seq<T>, f: T -> Result<nat, E>): (r: Result<nat, E>)
    ensures |s| == 0 ==> r == Ok(0)
    ensures r.Err? <==> exists i :: 0 <= i < |s| && f(s[i]).Err?
    ensures r.Ok? ==> forall i :: 0 <= i < |s| ==> f(s[i]).Ok? && f(s[i]).value <= r.value
    ensures r.Ok? && |s| > 0 ==> exists i :: 0 <= i < |s| && f(s[i]) == Ok(r.value)
    ensures r.Err? ==> exists i :: 0 <= i < |s| && f(s[i]) == r && forall j :: 0 <= j < i ==> f(s[j]).Ok?
  {
    if |s| == 0 then Ok(0)
    else match f(s[0])
      case Err(e) => Err(e)
      case Ok(first) =>
        var rest := MaxOfResults(s[1..], f);
        assert forall i :: 1 <= i < |s| ==> s[i] == s[1..][i - 1];
        if rest.Err? then
          assert exists i :: 1 <= i < |s| && f(s[i]).Err? by {
            var j :| 0 <= j < |s[1..]| && f(s[1..][j]).Err?;
            assert s[j + 1] == s[1..][j];
          }
          rest
        else if |s| == 1 || first >= rest.value then Ok(first)
        else
          assert exists i :: 1 <= i < |s| && f(s[i]) == rest by {
            var j :| 0 <= j < |s[1..]| && f(s[1..][j]) == rest;
            assert s[j + 1] == s[1..][j];
          }
          rest
  }

  /** `[x for x in s if keep(x)]`. */
  function Filter<T>(s: seq<T>, keep: T -> bool): (r: seq<T>)
    ensures |r| <= |s|
    ensures forall i :: 0 <= i < |r| ==> keep(r[i]) && r[i] in s
    ensures forall i :: 0 <= i < |s| && keep(s[i]) ==> s[i] in r
    ensures Subsequence(r, s)
    ensures forall i :: 0 <= i < |s| ==>
              multiset(r)[s[i]] == if keep(s[i]) then multiset(s)[s[i]] else 0
  {
    if s == [] then []
    else
      var rest := Filter(s[1..], keep);
      var r := if keep(s[0]) then [s[0]] + rest else rest;
      FilterStep(s, keep, rest, r);
      r
  }

  /** One step of `Filter`: what the contract says of the result for the
      tail carries over to the result for the whole input. */
  lemma FilterStep<T>(s: seq<T>, keep: T -> bool, rest: seq<T>, r: seq<T>)
    requires |s| > 0
    requires r == if keep(s[0]) then [s[0]] + rest else rest
    requires forall i :: 0 <= i < |rest| ==> keep(rest[i]) && rest[i] in s[1..]
    requires forall i :: 0 <= i < |s[1..]| && keep(s[1..][i]) ==> s[1..][i] in rest
    requires Subsequence(rest, s[1..])
    requires forall i :: 0 <= i < |s[1..]| ==>
               multiset(rest)[s[1..][i]] == if keep(s[1..][i]) then multiset(s[1..])[s[1..][i]] else 0
    ensures forall i :: 0 <= i < |r| ==> keep(r[i]) && r[i] in s
    ensures forall i :: 0 <= i < |s| && keep(s[i]) ==> s[i] in r
    ensures Subsequence(r, s)
    ensures forall i :: 0 <= i < |s| ==>
              multiset(r)[s[i]] == if keep(s[i]) then multiset(s)[s[i]] else 0
  {
    FilterStepMembers(s, keep, rest, r);
    FilterStepOrder(s, keep, rest, r);
    FilterStepCount(s, keep, rest, r);
  }

  /** The membership part of `FilterStep`. */
  lemma FilterStepMembers<T>(s: seq<T>, keep: T -> bool, rest: seq<T>, r: seq<T>)
    requires |s| > 0
    requires r == if keep(s[0]) then [s[0]] + rest else rest
    requires forall i :: 0 <= i < |rest| ==> keep(rest[i]) && rest[i] in s[1..]
    requires forall i :: 0 <= i < |s[1..]| && keep(s[1..][i]) ==> s[1..][i] in rest
    ensures forall i :: 0 <= i < |r| ==> keep(r[i]) && r[i] in s
    ensures forall i :: 0 <= i < |s| && keep(s[i]) ==> s[i] in r
  {
    forall i | 0 <= i < |r|
      ensures keep(r[i]) && r[i] in s
    {
      if keep(s[0]) && i > 0 {
        assert r[i] == rest[i - 1];
      }
    }
    forall i | 0 <= i < |s| && keep(s[i])
      ensures s[i] in r
    {
      if i > 0 {
        assert s[i] == s[1..][i - 1];
      }
    }
  }

  /** The ordering part of `FilterStep`. */
  lemma FilterStepOrder<T>(s: seq<T>, keep: T -> bool, rest: seq<T>, r: seq<T>)
    requires |s| > 0
    requires r == if keep(s[0]) then [s[0]] + rest else rest
    requires forall i :: 0 <= i < |rest| ==> keep(rest[i])
    requires Subsequence(rest, s[1..])
    ensures Subsequence(r, s)
  {
    if keep(s[0]) {
      assert r[1..] == rest;
    } else if rest != [] {
      assert keep(rest[0]) && rest[0] != s[0];
    }
  }

  /** The counting part of `FilterStep`. */
  lemma FilterStepCount<T>(s: seq<T>, keep: T -> bool, rest: seq<T>, r: seq<T>)
    requires |s| > 0
    requires r == if keep(s[0]) then [s[0]] + rest else rest
    requires forall i :: 0 <= i < |rest| ==> rest[i] in s[1..]
    requires forall i :: 0 <= i < |s[1..]| ==>
               multiset(rest)[s[1..][i]] == if keep(s[1..][i]) then multiset(s[1..])[s[1..][i]] else 0
    ensures forall i :: 0 <= i < |s| ==>
              multiset(r)[s[i]] == if keep(s[i]) then multiset(s)[s[i]] else 0
  {
    assert s == [s[0]] + s[1..];
    forall i | 0 <= i < |s|
      ensures multiset(r)[s[i]] == if keep(s[i]) then multiset(s)[s[i]] else 0
    {
      var x := s[i];
      assert multiset(s)[x] == (if x == s[0] then 1 else 0) + multiset(s[1..])[x];
      assert multiset(r)[x] == (if keep(s[0]) && x == s[0] then 1 else 0) + multiset(rest)[x];
      if x in s[1..] {
        var j :| 0 <= j < |s[1..]| && s[1..][j] == x;
      } else {
        assert x !in rest;
        assert multiset(rest)[x] == 0;
      }
    }
  }

  /** `r` is obtained from `s` by deleting elements, keeping the order of the rest. */
  ghost predicate Subsequence<T>(r: seq<T>, s: seq<T>)
    decreases |s|
  {
    if r == [] then true
    else if s == [] then false
    else if r[0] == s[0] then Subsequence(r[1..], s[1..])
    else Subsequence(r, s[1..])
  }

  /** Filtering distributes over concatenation: it never reorders elements
      that come from different parts of the input. */
  lemma {:induction false} FilterAppend<T>(a: seq<T>, b: seq<T>, keep: T -> bool)
    ensures Filter(a + b, keep) == Filter(a, keep) + Filter(b, keep)
  {
    if a == [] {
      assert a + b == b;
    } else {
      assert (a + b)[1..] == a[1..] + b;
      FilterAppend(a[1..], b, keep);
    }
  }

  /** Filtering a single element keeps it exactly when it passes. */
  lemma FilterSingle<T>(x: T, keep: T -> bool)
    ensures Filter([x], keep) == if keep(x) then [x] else []
  {
    assert [x][1..] == [];
  }

  /** Filtering a second time with the same test changes nothing. */
  lemma {:induction false} FilterIdempotent<T>(s: seq<T>, keep: T -> bool)
    ensures Filter(Filter(s, keep), keep) == Filter(s, keep)
  {
    if s != [] {
      FilterIdempotent(s[1..], keep);
      if keep(s[0]) {
        assert ([s[0]] + Filter(s[1..], keep))[1..] == Filter(s[1..], keep);
      }
    }
  }

  lemma {:induction false} SubsequenceReflexive<T>(s: seq<T>)
    ensures Subsequence(s, s)
    decreases |s|
  {
    if s != [] {
      SubsequenceReflexive(s[1..]);
    }
  }

  lemma {:induction false} SubsequenceOfTail<T>(s: seq<T>)
    requires |s| > 0
    ensures Subsequence(s[1..], s)
    decreases |s|
  {
    if |s| > 1 {
      if s[1] == s[0] {
        SubsequenceOfTail(s[1..]);
        assert s[1..][1..] == s[2..];
      } else {
        SubsequenceReflexive(s[1..]);
      }
    }
  }

  /** Removing the element at one position leaves a subsequence. */
  lemma {:induction false} RemovalIsSubsequence<T>(s: seq<T>, i: nat)
    requires i < |s|
    ensures Subsequence(s[..i] + s[i + 1..], s)
    decreases i
  {
    if i == 0 {
      assert s[..0] + s[1..] == s[1..];
      SubsequenceOfTail(s);
    } else {
      var r := s[..i] + s[i + 1..];
      assert r[0] == s[0];
      assert r[1..] == s[1..][..i - 1] + s[1..][i..];
      RemovalIsSubsequence(s[1..], i - 1);
    }
  }
}
