/**
  analyze_missing_urls.py: the names of the scripts still without a URL
  are split into those starting with a `B` number and the rest; the
  numbers are sorted and compacted into runs of consecutive values, which
  are printed as `B{n}` or `B{start}-B{end}`, at most ten of them followed
  by how many more there are.
 */
module MissingRanges {
  import opened Basics
  import Text
  import Ranking
  import ManagementIds

  // ---------------------------------------------------------------------
  // Partition
  // ---------------------------------------------------------------------

  /** `missing_ids` (the `^B\d+` matches) and `other_patterns` (the names without one). */
  datatype Partitioned = Partitioned(ids: seq<string>, others: seq<string>)

  /** The loop over the names, each landing in exactly one of the two lists, in order. */
  function Partition(names: seq<string>): (p: Partitioned)
    ensures |p.ids| + |p.others| == |names|
    ensures forall x :: x in p.ids ==> ManagementIds.IsBNumber(x)
    ensures forall x :: x in p.others <==> x in names && ManagementIds.ExtractB(x).None?
  {
    if |names| == 0 then Partitioned([], [])
    else
      var rest := Partition(names[1..]);
      assert forall x :: x in names <==> x == names[0] || x in names[1..];
      match ManagementIds.ExtractB(names[0])
      case Some(id) => Partitioned([id] + rest.ids, rest.others)
      case None => Partitioned(rest.ids, [names[0]] + rest.others)
  }

  /** The ids are exactly the `B` numbers the names start with. */
  lemma {:induction false} PartitionIds(names: seq<string>, x: string)
    ensures x in Partition(names).ids <==> exists n :: n in names && ManagementIds.ExtractB(n) == Some(x)
  {
    if |names| > 0 {
      PartitionIds(names[1..], x);
      assert forall n :: n in names <==> n == names[0] || n in names[1..];
    }
  }

  // ---------------------------------------------------------------------
  // Numbers
  // ---------------------------------------------------------------------

  /** `int(id[1:])`: the digits after the `B`, leading zeros counting for nothing. */
  function Number(id: string): nat
    requires ManagementIds.IsBNumber(id)
  {
    Text.DecimalValue(id[1..])
  }

  function Numbers(ids: seq<string>): (ns: seq<nat>)
    requires forall x :: x in ids ==> ManagementIds.IsBNumber(x)
    ensures |ns| == |ids|
    ensures forall i :: 0 <= i < |ids| ==> ns[i] == Number(ids[i])
  {
    seq(|ids|, i requires 0 <= i < |ids| => Number(ids[i]))
  }

  /** A number printed after a `B` reads back as itself, so `int(id[1:])` undoes `f"B{n}"`. */
  lemma NumberOfPrinted(n: nat)
    ensures ManagementIds.IsBNumber("B" + Text.NatToString(n))
    ensures Numbers(["B" + Text.NatToString(n)]) == [n]
  {
    var id := "B" + Text.NatToString(n);
    assert id[1..] == Text.NatToString(n);
    Text.DecimalValueOfNatToString(n);
  }

  /** Zeros after the `B` vanish: "B007" and "B7" give the same number. */
  lemma LeadingZerosVanish(digits: string)
    requires |digits| > 0 && Text.AllDigits(digits)
    ensures ManagementIds.IsBNumber("B" + digits) && ManagementIds.IsBNumber("B0" + digits)
    ensures Number("B0" + digits) == Number("B" + digits)
  {
    Text.DecimalValueLeadingZero(digits);
    assert ("B" + digits)[1..] == digits;
    assert ("B0" + digits)[1..] == "0" + digits;
  }

  predicate Ascending(s: seq<int>) {
    forall i, j :: 0 <= i < j < |s| ==> s[i] <= s[j]
  }

  /** The sort key that makes the descending sort an ascending one. */
  function Negated(n: nat): (k: Ranking.SortKey)
    ensures k.count == -(n as int)
  {
    Ranking.SortKey(-(n as int), "")
  }

  lemma AscendingFromDescending(s: seq<nat>)
    requires Ranking.Descending(Negated, s)
    ensures Ascending(s)
  {
    forall i, j | 0 <= i < j < |s|
      ensures s[i] <= s[j]
    {
      assert !Ranking.KeyLess(Negated(s[i]), Negated(s[j]));
    }
  }

  /** `numbers.sort()`: a permutation of the input in ascending order. */
  function SortAscending(s: seq<nat>): (r: seq<nat>)
    ensures multiset(r) == multiset(s) && |r| == |s|
    ensures Ascending(r)
  {
    var r := Ranking.SortDescending(Negated, s);
    AscendingFromDescending(r);
    r
  }

  /** After sorting, the first and last numbers are `min(numbers)` and `max(numbers)`. */
  lemma SortedBounds(s: seq<nat>, x: nat)
    requires x in s
    ensures var r := SortAscending(s); r[0] <= x <= r[|r| - 1]
  {
    var r := SortAscending(s);
    assert x in multiset(r);
    var i :| 0 <= i < |r| && r[i] == x;
  }

  /** Every sorted number is one of the input's: `min` and `max` are attained. */
  lemma SortedIsAttained(s: seq<nat>, k: nat)
    requires k < |s|
    ensures exists i :: 0 <= i < |s| && s[i] == SortAscending(s)[k]
  {
    var r := SortAscending(s);
    assert r[k] in multiset(r);
    assert r[k] in multiset(s);
  }

  // ---------------------------------------------------------------------
  // Runs of consecutive numbers
  // ---------------------------------------------------------------------

  /** A run `start, start + 1, ..., end`. */
  datatype Range = Range(start: nat, end: nat)

  /** The numbers from `s` to `e`, none when `e < s`. */
  function Span(s: nat, e: nat): (r: seq<nat>)
    ensures |r| == if e < s then 0 else e - s + 1
    ensures forall i :: 0 <= i < |r| ==> r[i] == s + i
  {
    if e < s then [] else seq(e - s + 1, i requires 0 <= i <= e - s => s + i)
  }

  /** The numbers the ranges stand for, in order. */
  function Expand(rs: seq<Range>): (ns: seq<nat>)
  {
    if |rs| == 0 then [] else Expand(rs[..|rs| - 1]) + Span(rs[|rs| - 1].start, rs[|rs| - 1].end)
  }

  predicate WellFormed(rs: seq<Range>) {
    forall i :: 0 <= i < |rs| ==> rs[i].start <= rs[i].end
  }

  /** No range could be glued onto the one before it. */
  predicate Separated(rs: seq<Range>) {
    forall i :: 0 < i < |rs| ==> rs[i].start != rs[i - 1].end + 1
  }

  /** `rs` cuts `ns` into maximal runs of consecutive numbers. */
  predicate Decomposes(rs: seq<Range>, ns: seq<nat>) {
    Expand(rs) == ns && WellFormed(rs) && Separated(rs)
  }

  lemma ExpandSnoc(rs: seq<Range>, r: Range)
    ensures Expand(rs + [r]) == Expand(rs) + Span(r.start, r.end)
  {
    assert (rs + [r])[..|rs|] == rs;
  }

  lemma SpanSnoc(s: nat, e: nat)
    requires s <= e
    ensures Span(s, e) + [e + 1] == Span(s, e + 1)
  {
  }

  /**
    The loop's state after reading `prefix`: closed ranges, and the open
    run from `start` to `prev`, which could not be glued onto the last
    closed range.
   */
  predicate Building(ranges: seq<Range>, start: nat, prev: nat, prefix: seq<nat>) {
    && start <= prev
    && Expand(ranges) + Span(start, prev) == prefix
    && WellFormed(ranges) && Separated(ranges)
    && (|ranges| > 0 ==> start != ranges[|ranges| - 1].end + 1)
  }

  /** A number that is not `prev + 1` closes the open run and opens a new one. */
  lemma CloseRun(ranges: seq<Range>, start: nat, prev: nat, prefix: seq<nat>, num: nat)
    requires Building(ranges, start, prev, prefix) && num != prev + 1
    ensures Building(ranges + [Range(start, prev)], num, num, prefix + [num])
  {
    ExpandSnoc(ranges, Range(start, prev));
  }

  /** `prev + 1` extends the open run. */
  lemma ExtendRun(ranges: seq<Range>, start: nat, prev: nat, prefix: seq<nat>)
    requires Building(ranges, start, prev, prefix)
    ensures Building(ranges, start, prev + 1, prefix + [prev + 1])
  {
    SpanSnoc(start, prev);
  }

  /** One turn of the loop below: the next number either closes the open run or extends it. */
  lemma ReadNext(ranges: seq<Range>, start: nat, prev: nat, numbers: seq<nat>, k: nat)
    requires 1 <= k < |numbers| && Building(ranges, start, prev, numbers[..k])
    ensures numbers[k] != prev + 1 ==> Building(ranges + [Range(start, prev)], numbers[k], numbers[k], numbers[..k + 1])
    ensures numbers[k] == prev + 1 ==> Building(ranges, start, numbers[k], numbers[..k + 1])
  {
    assert numbers[..k + 1] == numbers[..k] + [numbers[k]];
    if numbers[k] != prev + 1 {
      CloseRun(ranges, start, prev, numbers[..k], numbers[k]);
    } else {
      ExtendRun(ranges, start, prev, numbers[..k]);
    }
  }

  /** After the loop, closing the open run gives the decomposition. */
  lemma FinishRuns(ranges: seq<Range>, start: nat, prev: nat, ns: seq<nat>)
    requires Building(ranges, start, prev, ns)
    ensures Decomposes(ranges + [Range(start, prev)], ns)
  {
    ExpandSnoc(ranges, Range(start, prev));
  }

  /**
    The range-building loop: `start` and `prev` track the current run; a
    number that is not `prev + 1` (a gap, a repeat, or a step down) closes
    it. Nothing happens for an empty list.
   */
  method Compact(numbers: seq<nat>) returns (ranges: seq<Range>)
    ensures Decomposes(ranges, numbers)
  {
    ranges := [];
    if |numbers| == 0 {
      return;
    }
    var start := numbers[0];
    var prev := numbers[0];
    var k := 1;
    assert numbers[..1] == [start];
    while k < |numbers|
      invariant 1 <= k <= |numbers|
      invariant prev == numbers[k - 1]
      invariant Building(ranges, start, prev, numbers[..k])
    {
      var num := numbers[k];
      ReadNext(ranges, start, prev, numbers, k);
      if num != prev + 1 {
        ranges := ranges + [Range(start, prev)];
        start := num;
      }
      prev := num;
      k := k + 1;
    }
    assert numbers[..k] == numbers;
    FinishRuns(ranges, start, prev, numbers);
    ranges := ranges + [Range(start, prev)];
  }

  /** Every range stands for at least one number. */
  lemma {:induction false} ExpandLength(rs: seq<Range>)
    requires WellFormed(rs)
    ensures |Expand(rs)| >= |rs|
  {
    if |rs| > 0 {
      ExpandLength(rs[..|rs| - 1]);
    }
  }

  /**
    What the last range of a decomposition says about the tail of the
    numbers: they step by one from its start, and the number before them
    is not one below its start.
   */
  lemma LastRange(rs: seq<Range>, ns: seq<nat>) returns (n: nat)
    requires Decomposes(rs, ns) && |rs| > 0
    ensures n == rs[|rs| - 1].end - rs[|rs| - 1].start + 1 && 0 < n <= |ns|
    ensures forall q :: |ns| - n <= q < |ns| ==> ns[q] == rs[|rs| - 1].start + (q - (|ns| - n))
    ensures |ns| - n > 0 ==> ns[|ns| - n] != ns[|ns| - n - 1] + 1
    ensures Decomposes(rs[..|rs| - 1], ns[..|ns| - n])
  {
    var front := rs[..|rs| - 1];
    var last := rs[|rs| - 1];
    n := last.end - last.start + 1;
    var tail := Span(last.start, last.end);
    assert ns == Expand(front) + tail;
    assert ns[..|ns| - n] == Expand(front);
    forall q | |ns| - n <= q < |ns|
      ensures ns[q] == last.start + (q - (|ns| - n))
    {
      assert ns[q] == tail[q - (|ns| - n)];
    }
    if |ns| - n > 0 {
      ExpandLength(front);
      var before := front[|front| - 1];
      var m := LastRangeEnd(front);
      assert ns[|ns| - n - 1] == Expand(front)[|Expand(front)| - 1] == before.end;
    }
  }

  /** A non-empty decomposition ends with the end of its last range. */
  lemma LastRangeEnd(rs: seq<Range>) returns (e: nat)
    requires WellFormed(rs) && |rs| > 0
    ensures e == rs[|rs| - 1].end && |Expand(rs)| > 0 && Expand(rs)[|Expand(rs)| - 1] == e
  {
    e := rs[|rs| - 1].end;
    var tail := Span(rs[|rs| - 1].start, e);
    assert Expand(rs) == Expand(rs[..|rs| - 1]) + tail;
  }

  /** Two decompositions of the same numbers end with the same range. */
  lemma SameLastRange(r1: seq<Range>, r2: seq<Range>, ns: seq<nat>) returns (n: nat)
    requires Decomposes(r1, ns) && Decomposes(r2, ns) && |r1| > 0 && |r2| > 0
    ensures r1[|r1| - 1] == r2[|r2| - 1] && n <= |ns|
    ensures Decomposes(r1[..|r1| - 1], ns[..|ns| - n]) && Decomposes(r2[..|r2| - 1], ns[..|ns| - n])
  {
    var n1 := LastRange(r1, ns);
    var n2 := LastRange(r2, ns);
    assert n2 <= n1 by {
      if |ns| - n1 > 0 {
        assert ns[|ns| - n1] != ns[|ns| - n1 - 1] + 1;
      }
    }
    assert n1 <= n2 by {
      if |ns| - n2 > 0 {
        assert ns[|ns| - n2] != ns[|ns| - n2 - 1] + 1;
      }
    }
    n := n1;
    assert r1[|r1| - 1].start == ns[|ns| - n] == r2[|r2| - 1].start;
  }

  /**
    The maximal runs are unique: any two decompositions of the same
    numbers are the same ranges, so `Compact` computes THE decomposition.
   */
  lemma {:induction false} RangesUnique(r1: seq<Range>, r2: seq<Range>, ns: seq<nat>)
    requires Decomposes(r1, ns) && Decomposes(r2, ns)
    ensures r1 == r2
    decreases |ns|
  {
    ExpandLength(r1);
    ExpandLength(r2);
    if |r1| > 0 && |r2| > 0 {
      var n := SameLastRange(r1, r2, ns);
      RangesUnique(r1[..|r1| - 1], r2[..|r2| - 1], ns[..|ns| - n]);
      assert r1 == r1[..|r1| - 1] + [r1[|r1| - 1]];
      assert r2 == r2[..|r2| - 1] + [r2[|r2| - 1]];
    }
  }

  // ---------------------------------------------------------------------
  // Labels and the printed summary
  // ---------------------------------------------------------------------

  /** `f"B{start}"` for a run of one, `f"B{start}-B{prev}"` otherwise. */
  function Label(r: Range): (s: string)
  {
    if r.start == r.end then "B" + Text.NatToString(r.start)
    else "B" + Text.NatToString(r.start) + "-B" + Text.NatToString(r.end)
  }

  /**
    A label reads back as its range: splitting on '-' gives one piece for
    a run of one and two otherwise, each a `B` number whose value is the
    bound it was printed from.
   */
  lemma LabelReadsBack(r: Range)
    ensures var pieces := Text.Split(Label(r), '-');
            && |pieces| == (if r.start == r.end then 1 else 2)
            && ManagementIds.IsBNumber(pieces[0]) && Number(pieces[0]) == r.start
            && ManagementIds.IsBNumber(pieces[|pieces| - 1]) && Number(pieces[|pieces| - 1]) == r.end
  {
    var a := "B" + Text.NatToString(r.start);
    var b := "B" + Text.NatToString(r.end);
    assert a[1..] == Text.NatToString(r.start) && b[1..] == Text.NatToString(r.end);
    Text.DecimalValueOfNatToString(r.start);
    Text.DecimalValueOfNatToString(r.end);
    assert '-' !in a && '-' !in b by {
      assert Text.AllDigits(a[1..]) && Text.AllDigits(b[1..]);
    }
    if r.start == r.end {
      Text.SplitOfPiece(a, '-');
    } else {
      assert Label(r) == a + ['-'] + b;
      Text.SplitAfterPiece(a, '-', b);
      Text.SplitOfPiece(b, '-');
    }
  }

  /** A number written with a leading zero is never printed the way it was written. */
  lemma LeadingZeroLabelDiffers(digits: string)
    requires |digits| > 0 && Text.AllDigits(digits)
    ensures ManagementIds.IsBNumber("B0" + digits)
    ensures Label(Range(Number("B0" + digits), Number("B0" + digits))) != "B0" + digits
  {
    LeadingZerosVanish(digits);
    var id := "B0" + digits;
    var t := Text.NatToString(Number(id));
    var l := Label(Range(Number(id), Number(id)));
    assert l == "B" + t;
    if t[0] == '0' {
      assert |l| == 2 < |id|;
    } else {
      assert l[1] == t[0] != id[1];
    }
  }

  function Labels(rs: seq<Range>): (ls: seq<string>)
    ensures |ls| == |rs|
    ensures forall i :: 0 <= i < |rs| ==> ls[i] == Label(rs[i])
  {
    seq(|rs|, i requires 0 <= i < |rs| => Label(rs[i]))
  }

  /** The ranges line prints `ranges[:10]`, and a second line gives how many were left out, if any. */
  const Shown := 10

  datatype Display = Display(shown: seq<string>, more: Option<nat>)

  function Summarize(labels: seq<string>): (d: Display)
    ensures d.shown <= labels
    ensures |d.shown| == if |labels| < Shown then |labels| else Shown
    ensures d.more.Some? <==> |labels| > Shown
    ensures |d.shown| + (if d.more.Some? then d.more.value else 0) == |labels|
  {
    if |labels| > Shown then Display(labels[..Shown], Some(|labels| - Shown))
    else Display(labels, None)
  }

  /** The ends of the sorted numbers are `min(numbers)` and `max(numbers)`: bounds, and both attained. */
  lemma SortedEndsAreMinMax(ids: seq<string>)
    requires forall x :: x in ids ==> ManagementIds.IsBNumber(x)
    requires |ids| > 0
    ensures var r := SortAscending(Numbers(ids));
            && (forall id :: id in ids ==> r[0] <= Number(id) <= r[|r| - 1])
            && (exists id :: id in ids && Number(id) == r[0])
            && (exists id :: id in ids && Number(id) == r[|r| - 1])
  {
    var ns := Numbers(ids);
    var r := SortAscending(ns);
    forall id | id in ids
      ensures r[0] <= Number(id) <= r[|r| - 1]
    {
      var i :| 0 <= i < |ids| && ids[i] == id;
      SortedBounds(ns, ns[i]);
    }
    SortedIsAttained(ns, 0);
    SortedIsAttained(ns, |r| - 1);
    var i :| 0 <= i < |ns| && ns[i] == r[0];
    assert ids[i] in ids && Number(ids[i]) == r[0];
    var j :| 0 <= j < |ns| && ns[j] == r[|r| - 1];
    assert ids[j] in ids && Number(ids[j]) == r[|r| - 1];
  }

  // ---------------------------------------------------------------------
  // The whole analysis
  // ---------------------------------------------------------------------

  datatype Report = Report(missing: nat, others: nat, bounds: Option<Range>, ranges: seq<Range>, display: Display)

  /**
    The script from the query's rows on: counts of both kinds of names, and
    for a non-empty list of numbers the minimum, the maximum and the runs.
   */
  method Analyze(names: seq<string>) returns (report: Report)
    ensures report.missing + report.others == |names|
    ensures report.others == |Partition(names).others|
    ensures report.bounds.None? <==> report.missing == 0
    ensures report.bounds.Some? ==> forall id :: id in Partition(names).ids ==>
              report.bounds.value.start <= Number(id) <= report.bounds.value.end
    ensures report.bounds.Some? ==>
              (exists id :: id in Partition(names).ids && Number(id) == report.bounds.value.start)
              && (exists id :: id in Partition(names).ids && Number(id) == report.bounds.value.end)
    ensures report.missing > 0 ==>
              |SortAscending(Numbers(Partition(names).ids))| == report.missing
              && report.bounds == Some(Range(SortAscending(Numbers(Partition(names).ids))[0],
                                             SortAscending(Numbers(Partition(names).ids))[report.missing - 1]))
    ensures Decomposes(report.ranges, SortAscending(Numbers(Partition(names).ids)))
    ensures report.display == Summarize(Labels(report.ranges))
  {
    var p := Partition(names);
    var numbers := SortAscending(Numbers(p.ids));
    var ranges := Compact(numbers);
    var bounds := None;
    if |numbers| > 0 {
      bounds := Some(Range(numbers[0], numbers[|numbers| - 1]));
      SortedEndsAreMinMax(p.ids);
    }
    report := Report(|p.ids|, |p.others|, bounds, ranges, Summarize(Labels(ranges)));
  }

  /** `[5, 5]` gives two runs of one, both labelled "B5": a repeat breaks a run. */
  lemma RepeatBreaksRun()
    ensures Decomposes([Range(5, 5), Range(5, 5)], [5, 5])
    ensures Label(Range(5, 5)) == "B5"
  {
    assert Expand([Range(5, 5)]) == [5];
    assert [Range(5, 5), Range(5, 5)][..1] == [Range(5, 5)];
  }
}
