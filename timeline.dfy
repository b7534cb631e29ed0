/**
 * The availability-timeline analysis of `plot_vehicle_availability`: rows
 * with a missing field or a non-numeric year are dropped, the rows of one
 * (vehicle type, transport type) group become year intervals with their
 * end clipped to a ceiling, the intervals are sorted, strictly overlapping
 * ones are merged, and a gap is reported between every two consecutive
 * merged intervals that do not overlap.
 */
module Timeline {
  import opened Wrappers
  import opened Strings

  /** One row of a sheet as read back from the workbook; `None` is an empty cell. */
  datatype Row = Row(
    name: Option<string>,
    startYear: Option<string>,
    endYear: Option<string>,
    vehicleType: Option<string>,
    transportType: Option<string>)

  /** A row that survived the clean-up, with its years as numbers. */
  datatype Clean = Clean(name: string, start: int, end: int, vehicleType: string, transportType: string)

  /** A year range `(start, end)`; after clipping `end < start` is possible. */
  datatype Interval = Interval(start: int, end: int)

  /** A reported gap: from the end of one merged interval to the start of the next. */
  datatype Gap = Gap(from: int, to: int)

  /** `pd.to_numeric` on a cell that holds an integer: an optional sign followed by ASCII digits. */
  function ToNumeric(s: string): (r: Option<int>)
    ensures r.Some? <==> IsDigits(s) || (|s| > 1 && (s[0] == '-' || s[0] == '+') && IsDigits(s[1..]))
    ensures IsDigits(s) ==> r == Some(DigitsValue(s))
    ensures |s| > 1 && s[0] == '-' && IsDigits(s[1..]) ==> r == Some(-(DigitsValue(s[1..]) as int))
    ensures |s| > 1 && s[0] == '+' && IsDigits(s[1..]) ==> r == Some(DigitsValue(s[1..]))
  {
    if IsDigits(s) then Some(DigitsValue(s))
    else if |s| > 1 && s[0] == '-' && IsDigits(s[1..]) then Some(-(DigitsValue(s[1..]) as int))
    else if |s| > 1 && s[0] == '+' && IsDigits(s[1..]) then Some(DigitsValue(s[1..]))
    else None
  }

  /** A year written out in decimal, with or without a minus sign, converts back to that year. */
  lemma ToNumericOfRendered(n: nat)
    ensures ToNumeric(NatToString(n)) == Some(n as int)
    ensures ToNumeric("-" + NatToString(n)) == Some(-(n as int))
  {
    DigitsValueOfNatToString(n);
    assert ("-" + NatToString(n))[1..] == NatToString(n);
  }

  /** The row keeps every required field and both years are numeric. */
  predicate Admissible(r: Row) {
    && r.name.Some? && r.startYear.Some? && r.endYear.Some? && r.vehicleType.Some? && r.transportType.Some?
    && ToNumeric(r.startYear.value).Some? && ToNumeric(r.endYear.value).Some?
  }

  function ToClean(r: Row): Clean
    requires Admissible(r)
  {
    Clean(r.name.value, ToNumeric(r.startYear.value).value, ToNumeric(r.endYear.value).value,
      r.vehicleType.value, r.transportType.value)
  }

  /** The two `dropna` passes and the numeric conversion, keeping the order of the rows. */
  function CleanRows(rows: seq<Row>): (cs: seq<Clean>)
    ensures |cs| <= |rows|
    decreases |rows|
  {
    if rows == [] then []
    else
      var rest := CleanRows(rows[..|rows| - 1]);
      var r := rows[|rows| - 1];
      if Admissible(r) then rest + [ToClean(r)] else rest
  }

  /** A cleaned row is exactly the conversion of an input row that has every field and numeric years. */
  lemma {:induction false} CleanRowsMembers(rows: seq<Row>, c: Clean)
    ensures c in CleanRows(rows) <==> exists r :: r in rows && Admissible(r) && ToClean(r) == c
    decreases |rows|
  {
    if rows != [] {
      var init, last := rows[..|rows| - 1], rows[|rows| - 1];
      assert rows == init + [last];
      CleanRowsMembers(init, c);
      if exists r :: r in rows && Admissible(r) && ToClean(r) == c {
        var r :| r in rows && Admissible(r) && ToClean(r) == c;
        assert r == last || r in init;
      }
    }
  }

  function Min(a: int, b: int): int {
    if a <= b then a else b
  }

  function Max(a: int, b: int): int {
    if a >= b then a else b
  }

  /** `clip(upper=ceiling)` on the end year; the start year is left alone. */
  function Clip(c: Clean, ceiling: int): (iv: Interval)
    ensures iv.start == c.start
    ensures iv.end <= ceiling
    ensures iv.end == c.end || (c.end > ceiling && iv.end == ceiling)
  {
    Interval(c.start, Min(c.end, ceiling))
  }

  /** The clipped intervals of the rows of one (vehicle type, transport type) group, in row order. */
  function GroupIntervals(rows: seq<Clean>, vehicleType: string, transportType: string, ceiling: int): (ivs: seq<Interval>)
    ensures |ivs| <= |rows|
    ensures forall iv :: iv in ivs ==> iv.end <= ceiling
    decreases |rows|
  {
    if rows == [] then []
    else
      var rest := GroupIntervals(rows[..|rows| - 1], vehicleType, transportType, ceiling);
      var c := rows[|rows| - 1];
      if c.vehicleType == vehicleType && c.transportType == transportType then rest + [Clip(c, ceiling)] else rest
  }

  /** An interval is in a group exactly when it is the clipped interval of a row of that group. */
  lemma {:induction false} GroupIntervalsMembers(rows: seq<Clean>, vehicleType: string, transportType: string, ceiling: int, iv: Interval)
    ensures iv in GroupIntervals(rows, vehicleType, transportType, ceiling) <==>
      exists c :: c in rows && c.vehicleType == vehicleType && c.transportType == transportType && Clip(c, ceiling) == iv
    decreases |rows|
  {
    if rows != [] {
      var init, last := rows[..|rows| - 1], rows[|rows| - 1];
      assert rows == init + [last];
      GroupIntervalsMembers(init, vehicleType, transportType, ceiling, iv);
      if exists c :: c in rows && c.vehicleType == vehicleType && c.transportType == transportType && Clip(c, ceiling) == iv {
        var c :| c in rows && c.vehicleType == vehicleType && c.transportType == transportType && Clip(c, ceiling) == iv;
        assert c == last || c in init;
      }
    }
  }

  /** Tuple order on `(start, end)`: by start, and by end among equal starts. */
  predicate Le(a: Interval, b: Interval) {
    a.start < b.start || (a.start == b.start && a.end <= b.end)
  }

  predicate Sorted(xs: seq<Interval>) {
    forall i, j :: 0 <= i < j < |xs| ==> Le(xs[i], xs[j])
  }

  /** Puts `x` into `s` after the leading elements not greater than it. */
  function Insert(s: seq<Interval>, x: Interval): (r: seq<Interval>)
    ensures multiset(r) == multiset(s) + multiset{x}
    decreases |s|
  {
    if s == [] then [x]
    else if Le(s[0], x) then
      assert s == [s[0]] + s[1..];
      [s[0]] + Insert(s[1..], x)
    else [x] + s
  }

  /** Inserting into a sorted sequence keeps it sorted. */
  lemma {:induction false} InsertSorted(s: seq<Interval>, x: Interval)
    requires Sorted(s)
    ensures Sorted(Insert(s, x))
    decreases |s|
  {
    if s != [] && Le(s[0], x) {
      var rest := Insert(s[1..], x);
      InsertSorted(s[1..], x);
      forall k | 0 <= k < |rest| ensures Le(s[0], rest[k]) {
        assert rest[k] in multiset(s[1..]) + multiset{x};
        if rest[k] != x {
          assert rest[k] in s[1..];
        }
      }
    }
  }

  /** `sorted()` of the interval tuples. */
  function Sort(xs: seq<Interval>): (r: seq<Interval>)
    ensures Sorted(r)
    ensures multiset(r) == multiset(xs)
    decreases |xs|
  {
    if xs == [] then []
    else
      assert xs == xs[..|xs| - 1] + [xs[|xs| - 1]];
      var sorted := Sort(xs[..|xs| - 1]);
      InsertSorted(sorted, xs[|xs| - 1]);
      Insert(sorted, xs[|xs| - 1])
  }

  /** A sorted sequence without its first element is sorted, and has the other elements. */
  lemma DropFirst(a: seq<Interval>)
    requires Sorted(a) && a != []
    ensures Sorted(a[1..])
    ensures multiset(a[1..]) == multiset(a) - multiset{a[0]}
  {
    assert a == [a[0]] + a[1..];
  }

  /** Two sorted sequences with the same elements are equal: tuple order is total. */
  lemma {:induction false} SortedUnique(a: seq<Interval>, b: seq<Interval>)
    requires Sorted(a) && Sorted(b)
    requires multiset(a) == multiset(b)
    ensures a == b
    decreases |a|
  {
    if a == [] {
      assert |b| == |multiset(b)| == 0;
    } else {
      assert a[0] in multiset(b);
      var j :| 0 <= j < |b| && b[j] == a[0];
      assert b[0] in multiset(a);
      var i :| 0 <= i < |a| && a[i] == b[0];
      assert Le(b[0], b[j]) || j == 0;
      assert Le(a[0], a[i]) || i == 0;
      assert a[0] == b[0];
      DropFirst(a);
      DropFirst(b);
      SortedUnique(a[1..], b[1..]);
    }
  }

  /**
   * The result of the sort depends only on which intervals there are, not
   * on the order they come in: sorting the rows by start year first changes
   * nothing.
   */
  lemma SortIgnoresOrder(xs: seq<Interval>, ys: seq<Interval>)
    requires multiset(xs) == multiset(ys)
    ensures Sort(xs) == Sort(ys)
  {
    SortedUnique(Sort(xs), Sort(ys));
  }

  lemma {:induction false} InsertLast(s: seq<Interval>, x: Interval)
    requires Sorted(s)
    requires forall y :: y in s ==> Le(y, x)
    ensures Insert(s, x) == s + [x]
    decreases |s|
  {
    if s != [] {
      InsertLast(s[1..], x);
      assert s == [s[0]] + s[1..];
    }
  }

  /** Sorting a sorted sequence changes nothing. */
  lemma {:induction false} SortSorted(xs: seq<Interval>)
    requires Sorted(xs)
    ensures Sort(xs) == xs
    decreases |xs|
  {
    if xs != [] {
      var init := xs[..|xs| - 1];
      SortSorted(init);
      InsertLast(init, xs[|xs| - 1]);
      assert init + [xs[|xs| - 1]] == xs;
    }
  }

  /**
   * One iteration of the merge loop: the first interval starts the list;
   * an interval starting strictly before the end of the last merged one
   * extends that end to the larger of the two; any other starts a new
   * merged interval.
   */
  function Step(m: seq<Interval>, x: Interval): (r: seq<Interval>)
    ensures |r| == |m| || |r| == |m| + 1
    ensures r != []
  {
    if m == [] then [x]
    else
      var last := m[|m| - 1];
      if x.start < last.end then m[|m| - 1 := Interval(last.start, Max(last.end, x.end))]
      else m + [x]
  }

  /**
   * The merge rule: the list keeps its length exactly when `x` starts
   * strictly before the end of the last merged interval, which then keeps
   * its start and ends at the later of the two ends; everything before it is
   * untouched. Otherwise `x` is appended as it is.
   */
  lemma StepRule(m: seq<Interval>, x: Interval)
    ensures var r := Step(m, x);
      && (|r| == |m| <==> m != [] && x.start < m[|m| - 1].end)
      && (m != [] && x.start < m[|m| - 1].end ==>
        && r[..|m| - 1] == m[..|m| - 1]
        && r[|m| - 1] == Interval(m[|m| - 1].start, Max(m[|m| - 1].end, x.end)))
      && (m == [] || x.start >= m[|m| - 1].end ==> r == m + [x])
  {
  }

  /** The merge loop run over `xs`, in order. */
  function MergeAll(xs: seq<Interval>): (m: seq<Interval>)
    ensures |m| <= |xs|
    ensures m == [] <==> xs == []
    decreases |xs|
  {
    if xs == [] then [] else Step(MergeAll(xs[..|xs| - 1]), xs[|xs| - 1])
  }

  lemma MergeAllSnoc(xs: seq<Interval>, x: Interval)
    ensures MergeAll(xs + [x]) == Step(MergeAll(xs), x)
  {
    assert (xs + [x])[..|xs|] == xs;
  }

  /** Consecutive intervals do not overlap: each starts no earlier than the previous one ends. */
  predicate Chain(m: seq<Interval>) {
    forall i :: 0 <= i < |m| - 1 ==> m[i + 1].start >= m[i].end
  }

  /** Merging leaves no strict overlap between neighbours, whatever the order of the input. */
  lemma {:induction false} MergeAllChain(xs: seq<Interval>)
    ensures Chain(MergeAll(xs))
    decreases |xs|
  {
    if xs != [] {
      MergeAllChain(xs[..|xs| - 1]);
    }
  }

  /**
   * What the merge of a sorted input keeps: the result is sorted, and the
   * end of its last interval is the end of an input interval that starts
   * no earlier than that last interval.
   */
  lemma {:induction false} MergeSortedInvariant(xs: seq<Interval>)
    requires Sorted(xs)
    ensures Sorted(MergeAll(xs))
    ensures var m := MergeAll(xs);
      m != [] ==> exists j :: 0 <= j < |xs| && xs[j].end == m[|m| - 1].end && xs[j].start >= m[|m| - 1].start
    decreases |xs|
  {
    if xs != [] {
      var init, x := xs[..|xs| - 1], xs[|xs| - 1];
      assert Sorted(init);
      MergeSortedInvariant(init);
      var m := MergeAll(init);
      if m != [] {
        var last := m[|m| - 1];
        var j :| 0 <= j < |init| && init[j].end == last.end && init[j].start >= last.start;
        assert Le(xs[j], x);
        assert Le(last, x);
        if x.start < last.end {
          var r := MergeAll(xs);
          assert r == m[|m| - 1 := Interval(last.start, Max(last.end, x.end))];
          forall i, k | 0 <= i < k < |r| ensures Le(r[i], r[k]) {
            if k < |m| - 1 {
              assert r[i] == m[i] && r[k] == m[k];
            } else {
              assert Le(m[i], m[k]);
            }
          }
          if x.end > last.end {
            assert xs[|xs| - 1].end == r[|r| - 1].end;
          } else {
            assert xs[j].end == r[|r| - 1].end;
          }
        } else {
          var r := MergeAll(xs);
          assert r == m + [x];
          forall i, k | 0 <= i < k < |r| ensures Le(r[i], r[k]) {
            if k < |m| {
              assert r[i] == m[i] && r[k] == m[k];
            } else if i < |m| - 1 {
              assert Le(m[i], last);
            }
          }
        }
      }
    }
  }

  /** Some interval of `m` starts no later than `x` and ends no earlier. */
  predicate Covered(m: seq<Interval>, x: Interval) {
    exists i :: 0 <= i < |m| && m[i].start <= x.start && x.end <= m[i].end
  }

  /** A step never uncovers an interval: it only widens the last interval or appends one. */
  lemma StepKeepsCovered(m: seq<Interval>, x: Interval, y: Interval)
    requires Covered(m, y)
    ensures Covered(Step(m, x), y)
  {
    var i :| 0 <= i < |m| && m[i].start <= y.start && y.end <= m[i].end;
    var r := Step(m, x);
    assert r[i].start == m[i].start && r[i].end >= m[i].end;
  }

  /** Every interval of a sorted input lies within one merged interval, which starts no later and ends no earlier. */
  lemma {:induction false} MergeCovers(xs: seq<Interval>)
    requires Sorted(xs)
    ensures forall k :: 0 <= k < |xs| ==> Covered(MergeAll(xs), xs[k])
    decreases |xs|
  {
    if xs != [] {
      var init, x := xs[..|xs| - 1], xs[|xs| - 1];
      assert Sorted(init);
      MergeCovers(init);
      MergeSortedInvariant(init);
      var m := MergeAll(init);
      var r := MergeAll(xs);
      assert r == Step(m, x);
      forall k | 0 <= k < |xs| ensures Covered(r, xs[k]) {
        if k < |init| {
          assert xs[k] == init[k];
          StepKeepsCovered(m, x, xs[k]);
        } else if m == [] {
          assert r[0] == x;
        } else {
          var last := m[|m| - 1];
          var j :| 0 <= j < |init| && init[j].end == last.end && init[j].start >= last.start;
          assert Le(xs[j], x);
          assert r[|r| - 1].start <= x.start && x.end <= r[|r| - 1].end;
        }
      }
    }
  }

  /** The year `p` lies in `iv`, taken as the half-open range from its start to its end. */
  predicate InInterval(iv: Interval, p: int) {
    iv.start <= p < iv.end
  }

  predicate InSome(xs: seq<Interval>, p: int) {
    exists k :: 0 <= k < |xs| && InInterval(xs[k], p)
  }

  /**
   * Merging only joins intervals that overlap: every year inside a merged
   * interval lies inside one of the input intervals, whatever their order.
   */
  lemma {:induction false} MergeExact(xs: seq<Interval>, i: nat, p: int)
    requires i < |MergeAll(xs)| && InInterval(MergeAll(xs)[i], p)
    ensures InSome(xs, p)
    decreases |xs|
  {
    var init, x := xs[..|xs| - 1], xs[|xs| - 1];
    var m := MergeAll(init);
    var r := MergeAll(xs);
    assert r == Step(m, x);
    if m == [] {
      assert InInterval(xs[|xs| - 1], p);
    } else if i < |m| - 1 || (i == |m| - 1 && p < m[|m| - 1].end) {
      assert r[i].start == m[i].start;
      MergeExact(init, i, p);
      var k :| 0 <= k < |init| && InInterval(init[k], p);
      assert xs[k] == init[k];
    } else if i == |m| - 1 {
      assert x.start < m[|m| - 1].end;
      assert InInterval(xs[|xs| - 1], p);
    } else {
      assert InInterval(xs[|xs| - 1], p);
    }
  }

  /** Merging a chain changes nothing: no interval strictly overlaps its predecessor. */
  lemma {:induction false} MergeChainIdentity(m: seq<Interval>)
    requires Chain(m)
    ensures MergeAll(m) == m
    decreases |m|
  {
    if m != [] {
      var init := m[..|m| - 1];
      assert Chain(init);
      MergeChainIdentity(init);
      assert init + [m[|m| - 1]] == m;
    }
  }

  /** Sorting and merging the merged intervals again gives them back unchanged. */
  lemma MergeFixedPoint(xs: seq<Interval>)
    ensures var m := MergeAll(Sort(xs)); MergeAll(Sort(m)) == m
  {
    var m := MergeAll(Sort(xs));
    MergeSortedInvariant(Sort(xs));
    SortSorted(m);
    MergeAllChain(Sort(xs));
    MergeChainIdentity(m);
  }

  /**
   * The merge loop over the sorted intervals. The list is extended or its
   * last interval is widened in place, as the loop body does.
   */
  method MergeIntervals(intervals: seq<Interval>) returns (merged: seq<Interval>)
    ensures merged == MergeAll(intervals)
  {
    merged := [];
    for i := 0 to |intervals|
      invariant merged == MergeAll(intervals[..i])
    {
      var x := intervals[i];
      MergeAllSnoc(intervals[..i], x);
      assert intervals[..i + 1] == intervals[..i] + [x];
      if merged == [] {
        merged := merged + [x];
      } else {
        var last := merged[|merged| - 1];
        if x.start < last.end {
          merged := merged[|merged| - 1 := Interval(last.start, Max(last.end, x.end))];
        } else {
          merged := merged + [x];
        }
      }
    }
    assert intervals[..|intervals|] == intervals;
  }

  /** The gaps found among the first `n` adjacent pairs of `m`, each with its start not after its end. */
  function GapsUpTo(m: seq<Interval>, n: nat): (gaps: seq<Gap>)
    requires n == 0 || n < |m|
    ensures |gaps| <= n
    ensures forall g :: g in gaps ==> g.from <= g.to
    decreases n
  {
    if n == 0 then []
    else
      var rest := GapsUpTo(m, n - 1);
      if m[n].start >= m[n - 1].end then rest + [Gap(m[n - 1].end, m[n].start)] else rest
  }

  /** The gaps the gap loop reports for the merged list `m`. */
  function GapsOf(m: seq<Interval>): (gaps: seq<Gap>)
    ensures m != [] ==> |gaps| <= |m| - 1
    ensures forall g :: g in gaps ==> g.from <= g.to
  {
    if m == [] then [] else GapsUpTo(m, |m| - 1)
  }

  /** The gap loop: every adjacent pair whose next start is not before the previous end yields a gap. */
  method FindGaps(merged: seq<Interval>) returns (gaps: seq<Gap>)
    ensures gaps == GapsOf(merged)
  {
    gaps := [];
    var i := 0;
    while i + 1 < |merged|
      invariant i == 0 || i < |merged|
      invariant gaps == GapsUpTo(merged, i)
    {
      var gapStart := merged[i].end;
      var gapEnd := merged[i + 1].start;
      if gapEnd >= gapStart {
        gaps := gaps + [Gap(gapStart, gapEnd)];
      }
      i := i + 1;
    }
  }

  /**
   * On a chain every adjacent pair passes the test, so there is exactly one
   * gap per pair, from the end of one interval to the start of the next;
   * touching intervals give a zero-width gap.
   */
  lemma {:induction false} ChainGaps(m: seq<Interval>, n: nat)
    requires Chain(m) && (n == 0 || n < |m|)
    ensures |GapsUpTo(m, n)| == n
    ensures forall i :: 0 <= i < n ==> GapsUpTo(m, n)[i] == Gap(m[i].end, m[i + 1].start)
    decreases n
  {
    if n > 0 {
      ChainGaps(m, n - 1);
    }
  }

  /** Every merged list yields one gap per adjacent pair. */
  lemma GapsOfMerged(xs: seq<Interval>)
    ensures var m := MergeAll(xs);
      && (m != [] ==> |GapsOf(m)| == |m| - 1)
      && forall i :: 0 <= i < |GapsOf(m)| ==> GapsOf(m)[i] == Gap(m[i].end, m[i + 1].start)
  {
    var m := MergeAll(xs);
    MergeAllChain(xs);
    if m != [] {
      ChainGaps(m, |m| - 1);
    }
  }

  /**
   * The analysis of one group of a sheet: the rows are cleaned, the
   * group's clipped intervals are sorted, merged and scanned for gaps. The
   * merged intervals cover every interval of the group, and there is one gap
   * between every two of them.
   */
  method AnalyzeGroup(sheet: seq<Row>, vehicleType: string, transportType: string, ceiling: int)
    returns (merged: seq<Interval>, gaps: seq<Gap>)
    ensures merged == MergeAll(Sort(GroupIntervals(CleanRows(sheet), vehicleType, transportType, ceiling)))
    ensures gaps == GapsOf(merged)
    ensures |merged| <= |GroupIntervals(CleanRows(sheet), vehicleType, transportType, ceiling)|
    ensures forall iv :: iv in GroupIntervals(CleanRows(sheet), vehicleType, transportType, ceiling) ==>
      exists i :: 0 <= i < |merged| && merged[i].start <= iv.start && iv.end <= merged[i].end
    ensures forall i, p :: 0 <= i < |merged| && InInterval(merged[i], p) ==>
      exists iv :: iv in GroupIntervals(CleanRows(sheet), vehicleType, transportType, ceiling) && InInterval(iv, p)
    ensures merged != [] ==> |gaps| == |merged| - 1
    ensures forall i :: 0 <= i < |gaps| ==> gaps[i] == Gap(merged[i].end, merged[i + 1].start)
  {
    var rows := CleanRows(sheet);
    var group := GroupIntervals(rows, vehicleType, transportType, ceiling);
    var intervals := Sort(group);
    merged := MergeIntervals(intervals);
    gaps := FindGaps(merged);
    MergeCovers(intervals);
    GapsOfMerged(intervals);
    forall iv | iv in group
      ensures exists i :: 0 <= i < |merged| && merged[i].start <= iv.start && iv.end <= merged[i].end
    {
      assert iv in multiset(intervals);
      var k :| 0 <= k < |intervals| && intervals[k] == iv;
    }
    forall i, p | 0 <= i < |merged| && InInterval(merged[i], p)
      ensures exists iv :: iv in group && InInterval(iv, p)
    {
      MergeExact(intervals, i, p);
      var k :| 0 <= k < |intervals| && InInterval(intervals[k], p);
      assert intervals[k] in multiset(group);
    }
  }

  /**
   * Three intervals each of which starts no earlier than the previous one
   * ends, the last two touching, are already sorted, and merging gives
   * them back: touching intervals are not merged.
   */
  lemma TouchingIntervalsStayApart(x: Interval, y: Interval, z: Interval)
    requires x.start <= x.end <= y.start <= y.end == z.start <= z.end
    ensures Sorted([x, y, z])
    ensures MergeAll([x, y, z]) == [x, y, z]
  {
    var xs := [x, y, z];
    assert Le(xs[0], xs[1]) && Le(xs[0], xs[2]) && Le(xs[1], xs[2]);
    assert Chain(xs);
    MergeChainIdentity(xs);
  }

  /** Between those three intervals there are two gaps, the second of zero width at the touching point. */
  lemma TouchingIntervalsGapsAt(x: Interval, y: Interval, z: Interval)
    requires x.start <= x.end <= y.start <= y.end == z.start <= z.end
    ensures GapsOf([x, y, z]) == [Gap(x.end, y.start), Gap(y.end, y.end)]
  {
    var xs := [x, y, z];
    assert Chain(xs);
    ChainGaps(xs, 2);
    var gaps := GapsOf(xs);
    assert |gaps| == 2 && gaps[0] == Gap(x.end, y.start) && gaps[1] == Gap(y.end, z.start);
  }

  /** The intervals 1950-1960, 1965-1970 and 1970-1980 stay apart, with gaps 1960-1965 and 1970-1970. */
  lemma TouchingIntervalsGaps()
    ensures GapsOf([Interval(1950, 1960), Interval(1965, 1970), Interval(1970, 1980)]) == [Gap(1960, 1965), Gap(1970, 1970)]
  {
    var xs := [Interval(1950, 1960), Interval(1965, 1970), Interval(1970, 1980)];
    assert Chain(xs);
    ChainGaps(xs, 2);
    var gaps := GapsOf(xs);
    assert |gaps| == 2 && gaps[0] == Gap(1960, 1965) && gaps[1] == Gap(1970, 1970);
  }

  /** An end beyond the ceiling is cut back to it before the analysis. */
  lemma ClipExample()
    ensures GroupIntervals([Clean("", 1990, 2099, "", "")], "", "", 2020) == [Interval(1990, 2020)]
  {
    assert [Clean("", 1990, 2099, "", "")][..0] == [];
  }
}
