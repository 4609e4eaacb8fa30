/**
  Small shared vocabulary: optional values, results, and the two sequence
  notions the handlers keep reusing (distinct values in order of first
  appearance, and occurrence counts).
 */
module Basics {

  /** A value that may be absent: a SQL NULL, a missing query parameter, a regex that did not match. */
  datatype Option<+T> = None | Some(value: T)

  /** A computation that either produced a value or failed with an error. */
  datatype Result<+T, +E> = Ok(value: T) | Err(error: E)

  /** `x || ''` and `x or ''`: NULL and the empty string both become the empty string. */
  function OrEmpty(o: Option<string>): (s: string)
    ensures o.None? ==> s == ""
    ensures o.Some? ==> s == o.value
  {
    if o.Some? then o.value else ""
  }

  /** `x || 0` and `x or 0`: NULL (and 0) become 0. */
  function OrZero(o: Option<int>): (n: int)
    ensures o.None? ==> n == 0
    ensures o.Some? ==> n == o.value
  {
    if o.Some? then o.value else 0
  }

  /** Number of occurrences of `x` in `s`. */
  function Count<T(==)>(s: seq<T>, x: T): (n: nat)
    ensures n <= |s|
    ensures n == 0 <==> x !in s
  {
    if |s| == 0 then 0
    else Count(s[..|s| - 1], x) + (if s[|s| - 1] == x then 1 else 0)
  }

  /** No value occurs twice. */
  predicate Distinct<T(==)>(s: seq<T>) {
    forall i, j :: 0 <= i < j < |s| ==> s[i] != s[j]
  }

  /** Index of the first occurrence of `x` in `s`. */
  function FirstIndex<T(==)>(s: seq<T>, x: T): (i: nat)
    requires x in s
    ensures i < |s| && s[i] == x
    ensures forall k :: 0 <= k < i ==> s[k] != x
  {
    if s[0] == x then 0 else 1 + FirstIndex(s[1..], x)
  }

  /**
    The values of `s` without repetition, each at the place where it first
    appears — what inserting into a Python dict or a JavaScript object in a
    loop leaves as its key order.
   */
  function FirstSeen<T(==,!new)>(s: seq<T>): (r: seq<T>)
    ensures forall x :: x in r <==> x in s
    ensures Distinct(r)
    decreases |s|
  {
    if |s| == 0 then []
    else
      var p := FirstSeen(s[..|s| - 1]);
      var x := s[|s| - 1];
      if x in p then p else p + [x]
  }

  /** Appending a value adds it to FirstSeen exactly when it is new. */
  lemma FirstSeenSnoc<T(!new)>(s: seq<T>, x: T)
    ensures FirstSeen(s + [x]) == if x in s then FirstSeen(s) else FirstSeen(s) + [x]
  {
    assert (s + [x])[..|s|] == s;
  }

  /** A sequence without repetitions is its own FirstSeen. */
  lemma {:induction false} FirstSeenOfDistinct<T(!new)>(s: seq<T>)
    requires Distinct(s)
    ensures FirstSeen(s) == s
    decreases |s|
  {
    if |s| > 0 {
      var p := s[..|s| - 1];
      assert Distinct(p);
      FirstSeenOfDistinct(p);
      assert s[|s| - 1] !in p;
      assert p + [s[|s| - 1]] == s;
    }
  }

  /** A sequence without repetitions has as many distinct values as elements. */
  lemma {:induction false} DistinctCard<T>(s: seq<T>)
    requires Distinct(s)
    ensures |set x | x in s| == |s|
    decreases |s|
  {
    if |s| > 0 {
      var p := s[..|s| - 1];
      assert Distinct(p);
      DistinctCard(p);
      assert (set x | x in s) == (set x | x in p) + {s[|s| - 1]};
      assert s[|s| - 1] !in (set x | x in p);
    }
  }

  /** FirstSeen lists the values in increasing order of their first occurrence. */
  lemma {:induction false} FirstSeenOrder<T(!new)>(s: seq<T>)
    ensures forall i, j :: 0 <= i < j < |FirstSeen(s)| ==> FirstIndex(s, FirstSeen(s)[i]) < FirstIndex(s, FirstSeen(s)[j])
    decreases |s|
  {
    if |s| > 0 {
      var p := s[..|s| - 1];
      FirstSeenOrder(p);
      FirstIndexOfPrefix(s);
      var r := FirstSeen(s);
      var q := FirstSeen(p);
      forall i, j | 0 <= i < j < |r|
        ensures FirstIndex(s, r[i]) < FirstIndex(s, r[j])
      {
        assert r[i] == q[i];
        if j < |q| {
          assert r[j] == q[j];
        } else {
          assert r[j] == s[|s| - 1] && s[|s| - 1] !in p;
          assert r[i] in p;
        }
      }
    }
  }

  /** Taking one element off the end does not move any first occurrence. */
  lemma FirstIndexOfPrefix<T>(s: seq<T>)
    requires |s| > 0
    ensures forall y :: y in s[..|s| - 1] ==> y in s && FirstIndex(s, y) == FirstIndex(s[..|s| - 1], y)
    ensures s[|s| - 1] !in s[..|s| - 1] ==> FirstIndex(s, s[|s| - 1]) == |s| - 1
  {
    var p := s[..|s| - 1];
    assert forall k :: 0 <= k < |p| ==> s[k] == p[k];
    forall y | y in p
      ensures y in s && FirstIndex(s, y) == FirstIndex(p, y)
    {
      var i := FirstIndex(p, y);
      assert s[i] == y;
    }
  }
}
