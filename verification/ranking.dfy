/**
  The stable "largest first" sort both aggregations end with. The search
  handlers sort on (match count, release date); the theme list of api.py on
  the count alone (a constant date). Python's `sort(..., reverse=True)` and
  ECMAScript's `Array.prototype.sort` are both stable: elements with equal
  keys keep their relative order.
 */
module Ranking {
  import Text

  /** A sort key: a count, and a date string that breaks ties. */
  datatype SortKey = SortKey(count: int, date: string)

  /** The order of the keys: by count, then by date in code-point order. */
  predicate KeyLess(a: SortKey, b: SortKey) {
    a.count < b.count || (a.count == b.count && Text.StrLess(a.date, b.date))
  }

  lemma KeyLessIrreflexive(a: SortKey)
    ensures !KeyLess(a, a)
  {
    Text.StrLessIrreflexive(a.date);
  }

  lemma KeyLessTransitive(a: SortKey, b: SortKey, c: SortKey)
    requires KeyLess(a, b) && KeyLess(b, c)
    ensures KeyLess(a, c)
  {
    if a.count == b.count == c.count {
      Text.StrLessTransitive(a.date, b.date, c.date);
    }
  }

  lemma KeyLessTotal(a: SortKey, b: SortKey)
    ensures a == b || KeyLess(a, b) || KeyLess(b, a)
  {
    Text.StrLessTotal(a.date, b.date);
  }

  /** No element is followed by one with a larger key. */
  ghost predicate Descending<T>(key: T -> SortKey, s: seq<T>) {
    forall i, j :: 0 <= i < j < |s| ==> !KeyLess(key(s[i]), key(s[j]))
  }

  /** The elements of `s` whose key is `k`, in order. */
  function WithKey<T>(key: T -> SortKey, s: seq<T>, k: SortKey): seq<T> {
    if |s| == 0 then [] else (if key(s[0]) == k then [s[0]] else []) + WithKey(key, s[1..], k)
  }

  lemma {:induction false} WithKeyAppend<T>(key: T -> SortKey, a: seq<T>, b: seq<T>, k: SortKey)
    ensures WithKey(key, a + b, k) == WithKey(key, a, k) + WithKey(key, b, k)
    decreases |a|
  {
    if |a| > 0 {
      assert (a + b)[0] == a[0] && (a + b)[1..] == a[1..] + b;
      WithKeyAppend(key, a[1..], b, k);
    } else {
      assert a + b == b;
    }
  }

  /** Insert `x` after every element whose key is not smaller than its own. */
  function Insert<T>(key: T -> SortKey, x: T, s: seq<T>): seq<T> {
    if |s| == 0 then [x]
    else if KeyLess(key(s[0]), key(x)) then [x] + s
    else [s[0]] + Insert(key, x, s[1..])
  }

  lemma {:induction false} InsertPermutes<T>(key: T -> SortKey, x: T, s: seq<T>)
    ensures multiset(Insert(key, x, s)) == multiset(s) + multiset{x}
    decreases |s|
  {
    if |s| > 0 && !KeyLess(key(s[0]), key(x)) {
      InsertPermutes(key, x, s[1..]);
      assert s == [s[0]] + s[1..];
    }
  }

  lemma {:induction false} InsertKeepsDescending<T>(key: T -> SortKey, x: T, s: seq<T>)
    requires Descending(key, s)
    ensures Descending(key, Insert(key, x, s))
    decreases |s|
  {
    if |s| == 0 {
    } else if KeyLess(key(s[0]), key(x)) {
      var r := [x] + s;
      forall i, j | 0 <= i < j < |r|
        ensures !KeyLess(key(r[i]), key(r[j]))
      {
        if i == 0 {
          if j == 1 {
            KeyLessIrreflexive(key(x));
            if KeyLess(key(x), key(s[0])) { KeyLessTransitive(key(x), key(s[0]), key(x)); }
          } else {
            assert !KeyLess(key(s[0]), key(s[j - 1]));
            if KeyLess(key(x), key(s[j - 1])) {
              KeyLessTransitive(key(s[0]), key(x), key(s[j - 1]));
            }
          }
        }
      }
    } else {
      InsertKeepsDescending(key, x, s[1..]);
      var t := Insert(key, x, s[1..]);
      InsertPermutes(key, x, s[1..]);
      var r := [s[0]] + t;
      forall i, j | 0 <= i < j < |r|
        ensures !KeyLess(key(r[i]), key(r[j]))
      {
        if i == 0 {
          var y := r[j];
          assert y in multiset(t);
          if y != x {
            assert y in s[1..];
            var m :| 0 <= m < |s[1..]| && s[1..][m] == y;
            assert s[m + 1] == y;
          }
        }
      }
    }
  }

  lemma {:induction false} InsertIsStable<T>(key: T -> SortKey, x: T, s: seq<T>, k: SortKey)
    requires Descending(key, s)
    ensures WithKey(key, Insert(key, x, s), k) == WithKey(key, s, k) + (if key(x) == k then [x] else [])
    decreases |s|
  {
    if |s| == 0 {
    } else if KeyLess(key(s[0]), key(x)) {
      if key(x) == k {
        NothingWithLargerKey(key, s, k);
      }
      WithKeyAppend(key, [x], s, k);
    } else {
      InsertIsStable(key, x, s[1..], k);
      WithKeyAppend(key, [s[0]], Insert(key, x, s[1..]), k);
      WithKeyAppend(key, [s[0]], s[1..], k);
      assert [s[0]] + s[1..] == s;
    }
  }

  /** In a descending sequence whose head is below `k`, nothing has key `k`. */
  lemma {:induction false} NothingWithLargerKey<T>(key: T -> SortKey, s: seq<T>, k: SortKey)
    requires Descending(key, s) && |s| > 0 && KeyLess(key(s[0]), k)
    ensures WithKey(key, s, k) == []
    decreases |s|
  {
    KeyLessIrreflexive(k);
    if |s| > 1 {
      assert !KeyLess(key(s[0]), key(s[1]));
      KeyLessTotal(key(s[0]), key(s[1]));
      if key(s[1]) != key(s[0]) {
        KeyLessTransitive(key(s[1]), key(s[0]), k);
      }
      NothingWithLargerKey(key, s[1..], k);
    }
  }

  /** Inserting the last element into the sorted front keeps every key's group as it is in the whole sequence. */
  lemma InsertKeepsGroups<T>(key: T -> SortKey, x: T, prefix: seq<T>, sorted: seq<T>)
    requires Descending(key, sorted) && forall k :: WithKey(key, sorted, k) == WithKey(key, prefix, k)
    ensures forall k :: WithKey(key, Insert(key, x, sorted), k) == WithKey(key, prefix + [x], k)
  {
    forall k
      ensures WithKey(key, Insert(key, x, sorted), k) == WithKey(key, prefix + [x], k)
    {
      InsertIsStable(key, x, sorted, k);
      WithKeyAppend(key, prefix, [x], k);
    }
  }

  /**
    The stable descending sort: a permutation of `s`, largest key first, and
    the elements sharing a key in the order they had in `s`.
   */
  function SortDescending<T>(key: T -> SortKey, s: seq<T>): (r: seq<T>)
    ensures multiset(r) == multiset(s) && |r| == |s|
    ensures Descending(key, r)
    ensures forall k :: WithKey(key, r, k) == WithKey(key, s, k)
    decreases |s|
  {
    if |s| == 0 then []
    else
      var prefix := s[..|s| - 1];
      var x := s[|s| - 1];
      var sorted := SortDescending(key, prefix);
      var r := Insert(key, x, sorted);
      InsertPermutes(key, x, sorted);
      InsertKeepsDescending(key, x, sorted);
      assert s == prefix + [x];
      assert multiset(s) == multiset(prefix) + multiset{x};
      assert |r| == |s| by {
        assert |r| == |multiset(r)|;
      }
      InsertKeepsGroups(key, x, prefix, sorted);
      r
  }
  /** Elements that share a key appear in increasing `rank`. */
  ghost predicate TiesInRankOrder<T>(key: T -> SortKey, rank: T -> int, s: seq<T>) {
    forall i, j :: 0 <= i < j < |s| && key(s[i]) == key(s[j]) ==> rank(s[i]) < rank(s[j])
  }

  /** `rank` strictly increases along `s`. */
  ghost predicate Increasing<T>(rank: T -> int, s: seq<T>) {
    forall i, j :: 0 <= i < j < |s| ==> rank(s[i]) < rank(s[j])
  }

  /** No two elements agree on `f`. */
  ghost predicate DistinctBy<T, U>(f: T -> U, s: seq<T>) {
    forall i, j :: 0 <= i < j < |s| ==> f(s[i]) != f(s[j])
  }

  lemma {:induction false} InsertKeepsTiesInRankOrder<T>(key: T -> SortKey, rank: T -> int, x: T, s: seq<T>)
    requires Descending(key, s) && TiesInRankOrder(key, rank, s)
    requires forall i :: 0 <= i < |s| ==> rank(s[i]) < rank(x)
    ensures TiesInRankOrder(key, rank, Insert(key, x, s))
    decreases |s|
  {
    if |s| == 0 {
    } else if KeyLess(key(s[0]), key(x)) {
      // Nothing after x shares its key: every element of s is at most s[0] < x.
      forall m | 0 <= m < |s|
        ensures key(s[m]) != key(x)
      {
        KeyLessIrreflexive(key(x));
        if m > 0 {
          assert !KeyLess(key(s[0]), key(s[m]));
        }
      }
      var r := [x] + s;
      assert forall j :: 1 <= j < |r| ==> r[j] == s[j - 1];
    } else {
      var tail := s[1..];
      assert Descending(key, tail) && TiesInRankOrder(key, rank, tail) by {
        forall i, j | 0 <= i < j < |tail| ensures tail[i] == s[i + 1] && tail[j] == s[j + 1] { }
      }
      InsertKeepsTiesInRankOrder(key, rank, x, tail);
      var t := Insert(key, x, tail);
      var r := [s[0]] + t;
      forall i, j | 0 <= i < j < |r| && key(r[i]) == key(r[j])
        ensures rank(r[i]) < rank(r[j])
      {
        if i == 0 {
          var m := InsertSource(key, x, tail, j - 1);
        } else {
          assert r[i] == t[i - 1] && r[j] == t[j - 1];
        }
      }
    }
  }

  /** Where an element of `Insert(key, x, s)` came from: `x` itself (-1), or `s[m]`. */
  lemma InsertSource<T>(key: T -> SortKey, x: T, s: seq<T>, j: int) returns (m: int)
    requires 0 <= j < |Insert(key, x, s)|
    ensures -1 <= m < |s|
    ensures m == -1 ==> Insert(key, x, s)[j] == x
    ensures m >= 0 ==> Insert(key, x, s)[j] == s[m]
  {
    var y := Insert(key, x, s)[j];
    InsertPermutes(key, x, s);
    assert y in multiset(Insert(key, x, s));
    if y == x {
      m := -1;
    } else {
      assert y in multiset(s);
      m :| 0 <= m < |s| && s[m] == y;
    }
  }

  /**
    The sort leaves elements with equal keys in input order, stated through a
    rank that increases along the input (the position of first appearance,
    for instance).
   */
  lemma {:induction false} SortPutsTiesInRankOrder<T>(key: T -> SortKey, rank: T -> int, s: seq<T>)
    requires Increasing(rank, s)
    ensures TiesInRankOrder(key, rank, SortDescending(key, s))
    decreases |s|
  {
    if |s| > 0 {
      var prefix := s[..|s| - 1];
      var x := s[|s| - 1];
      var sorted := SortDescending(key, prefix);
      SortPutsTiesInRankOrder(key, rank, prefix);
      forall i | 0 <= i < |sorted|
        ensures rank(sorted[i]) < rank(x)
      {
        assert sorted[i] in multiset(prefix);
        var m :| 0 <= m < |prefix| && prefix[m] == sorted[i];
        assert s[m] == sorted[i];
      }
      InsertKeepsTiesInRankOrder(key, rank, x, sorted);
    }
  }

  lemma {:induction false} InsertKeepsDistinctBy<T, U>(key: T -> SortKey, f: T -> U, x: T, s: seq<T>)
    requires DistinctBy(f, s)
    requires forall i :: 0 <= i < |s| ==> f(s[i]) != f(x)
    ensures DistinctBy(f, Insert(key, x, s))
    decreases |s|
  {
    if |s| > 0 && !KeyLess(key(s[0]), key(x)) {
      InsertKeepsDistinctBy(key, f, x, s[1..]);
      var t := Insert(key, x, s[1..]);
      InsertPermutes(key, x, s[1..]);
      var r := [s[0]] + t;
      forall i, j | 0 <= i < j < |r|
        ensures f(r[i]) != f(r[j])
      {
        if i == 0 {
          var y := r[j];
          assert y in multiset(t);
          if y != x {
            assert y in s[1..];
            var m :| 0 <= m < |s[1..]| && s[1..][m] == y;
            assert s[m + 1] == y;
          }
        } else {
          assert r[i] == t[i - 1] && r[j] == t[j - 1];
        }
      }
    }
  }

  /** Sorting cannot make two elements agree on `f` that did not before. */
  lemma {:induction false} SortKeepsDistinctBy<T, U>(key: T -> SortKey, f: T -> U, s: seq<T>)
    requires DistinctBy(f, s)
    ensures DistinctBy(f, SortDescending(key, s))
    decreases |s|
  {
    if |s| > 0 {
      var prefix := s[..|s| - 1];
      var x := s[|s| - 1];
      var sorted := SortDescending(key, prefix);
      SortKeepsDistinctBy(key, f, prefix);
      forall i | 0 <= i < |sorted|
        ensures f(sorted[i]) != f(x)
      {
        assert sorted[i] in multiset(prefix);
        var m :| 0 <= m < |prefix| && prefix[m] == sorted[i];
        assert s[m] == sorted[i];
      }
      InsertKeepsDistinctBy(key, f, x, sorted);
    }
  }
}
