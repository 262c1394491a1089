/** Inclusive integer ranges of ayah (or page) numbers and the two routines
    that bring them into canonical form: merging overlapping or adjacent
    ranges (`merge_intervals`), and turning a collection of numbers into
    maximal runs (`_merge_consecutive`). */
module Intervals {
  import opened Base

  /** The inclusive range lo..hi. */
  datatype Range = Range(lo: int, hi: int)

  /** x lies in one of the ranges. */
  predicate InRanges(rs: seq<Range>, x: int)
  {
    exists i :: 0 <= i < |rs| && rs[i].lo <= x <= rs[i].hi
  }

  /** Every range is non-empty. */
  ghost predicate WellFormed(rs: seq<Range>)
  {
    forall i :: 0 <= i < |rs| ==> rs[i].lo <= rs[i].hi
  }

  /** Canonical form: non-empty ranges in increasing order, each separated
      from the next by at least one number that no range holds. */
  ghost predicate Canonical(rs: seq<Range>)
  {
    && WellFormed(rs)
    && (forall i :: 0 <= i < |rs| - 1 ==> rs[i].hi + 1 < rs[i + 1].lo)
  }

  /** Python's tuple order on (lo, hi), used by `sorted(ranges)`. */
  function RangeLe(a: Range, b: Range): bool
  {
    a.lo < b.lo || (a.lo == b.lo && a.hi <= b.hi)
  }

  lemma RangeLeTotalPreorder()
    ensures TotalPreorder(RangeLe)
  {
  }

  lemma {:induction false} CanonicalSeparated(rs: seq<Range>, i: int, j: int)
    requires Canonical(rs) && 0 <= i < j < |rs|
    ensures rs[i].hi + 1 < rs[j].lo
    decreases j - i
  {
    if i + 1 < j {
      CanonicalSeparated(rs, i + 1, j);
    }
  }

  /** In canonical form, range k holds exactly the covered points between
      its bounds, and nothing below rs[0].lo is covered. */
  lemma CanonicalPointOwner(rs: seq<Range>, k: int, x: int)
    requires Canonical(rs) && 0 <= k < |rs| && InRanges(rs, x)
    ensures x < rs[k].lo ==> k > 0 && x <= rs[k - 1].hi
    ensures x > rs[k].hi ==> k < |rs| - 1 && x >= rs[k + 1].lo
  {
    var i :| 0 <= i < |rs| && rs[i].lo <= x <= rs[i].hi;
    if i < k {
      if i < k - 1 {
        CanonicalSeparated(rs, i, k - 1);
      }
    } else if i > k {
      if i > k + 1 {
        CanonicalSeparated(rs, k + 1, i);
      }
    }
  }

  lemma CoverConsAt(rs: seq<Range>, x: int)
    requires |rs| > 0
    ensures InRanges(rs, x) <==> rs[0].lo <= x <= rs[0].hi || InRanges(rs[1..], x)
  {
    if InRanges(rs, x) {
      var i :| 0 <= i < |rs| && rs[i].lo <= x <= rs[i].hi;
      if i > 0 {
        assert rs[1..][i - 1] == rs[i];
      }
    }
    if InRanges(rs[1..], x) {
      var i :| 0 <= i < |rs[1..]| && rs[1..][i].lo <= x <= rs[1..][i].hi;
      assert rs[i + 1] == rs[1..][i];
    }
  }

  lemma CoverCons(rs: seq<Range>)
    requires |rs| > 0
    ensures forall x :: InRanges(rs, x) <==> rs[0].lo <= x <= rs[0].hi || InRanges(rs[1..], x)
  {
    forall x
      ensures InRanges(rs, x) <==> rs[0].lo <= x <= rs[0].hi || InRanges(rs[1..], x)
    {
      CoverConsAt(rs, x);
    }
  }

  lemma CoverSnocAt(rs: seq<Range>, last: Range, x: int)
    ensures InRanges(rs + [last], x) <==> InRanges(rs, x) || last.lo <= x <= last.hi
  {
    var s := rs + [last];
    if InRanges(s, x) {
      var i :| 0 <= i < |s| && s[i].lo <= x <= s[i].hi;
      if i < |rs| {
        assert s[i] == rs[i];
      }
    }
    if InRanges(rs, x) {
      var i :| 0 <= i < |rs| && rs[i].lo <= x <= rs[i].hi;
      assert s[i] == rs[i];
    }
    assert s[|rs|] == last;
  }

  lemma CoverSnoc(rs: seq<Range>, last: Range)
    ensures forall x :: InRanges(rs + [last], x) <==> InRanges(rs, x) || last.lo <= x <= last.hi
  {
    forall x
      ensures InRanges(rs + [last], x) <==> InRanges(rs, x) || last.lo <= x <= last.hi
    {
      CoverSnocAt(rs, last, x);
    }
  }

  /** Appending a non-empty range that starts at least two past the last
      range's end keeps the list canonical. */
  lemma CanonicalSnoc(rs: seq<Range>, last: Range)
    requires Canonical(rs) && last.lo <= last.hi
    requires |rs| > 0 ==> rs[|rs| - 1].hi + 1 < last.lo
    ensures Canonical(rs + [last])
  {
    var s := rs + [last];
    forall i | 0 <= i < |s|
      ensures s[i].lo <= s[i].hi
    {
      if i < |rs| {
        assert s[i] == rs[i];
      }
    }
    forall i | 0 <= i < |s| - 1
      ensures s[i].hi + 1 < s[i + 1].lo
    {
      assert s[i] == rs[i];
      if i + 1 < |rs| {
        assert s[i + 1] == rs[i + 1];
      }
    }
  }

  lemma NonEmptyCovers(rs: seq<Range>)
    requires WellFormed(rs)
    ensures |rs| > 0 ==> InRanges(rs, rs[0].lo)
  {
  }

  // ---------------------------------------------------------------------
  // merge_intervals
  // ---------------------------------------------------------------------

  /** What MergeSorted needs of the rest of the ranges after one step. */
  lemma RestTail(rest: seq<Range>)
    requires WellFormed(rest) && SortedBy(rest, RangeLe) && |rest| > 0
    ensures WellFormed(rest[1..]) && SortedBy(rest[1..], RangeLe)
    ensures |rest| > 1 ==> rest[0].lo <= rest[1].lo && rest[1] == rest[1..][0]
    ensures rest[0].lo <= rest[0].hi
  {
    assert |rest| > 1 ==> RangeLe(rest[0], rest[1]);
  }

  /** A range that starts past the last merged range's end is appended. */
  lemma OpenStep(acc: seq<Range>, rest: seq<Range>)
    requires Canonical(acc) && |rest| > 0 && rest[0].lo <= rest[0].hi
    requires |acc| > 0 ==> acc[|acc| - 1].hi < rest[0].lo - 1
    ensures Canonical(acc + [rest[0]])
    ensures forall x :: InRanges(acc + [rest[0]], x) || InRanges(rest[1..], x) <==> InRanges(acc, x) || InRanges(rest, x)
  {
    forall x
      ensures InRanges(acc + [rest[0]], x) || InRanges(rest[1..], x) <==> InRanges(acc, x) || InRanges(rest, x)
    {
      CoverConsAt(rest, x);
      CoverSnocAt(acc, rest[0], x);
    }
    CanonicalSnoc(acc, rest[0]);
  }

  /** The last merged range as extended by a range that overlaps or
      touches it. */
  function Extended(acc: seq<Range>, r: Range): Range
    requires |acc| > 0
  {
    var last := acc[|acc| - 1];
    Range(last.lo, if last.hi < r.hi then r.hi else last.hi)
  }

  /** A range that overlaps or touches the last merged range extends it. */
  lemma ExtendStep(acc: seq<Range>, rest: seq<Range>)
    requires Canonical(acc) && |acc| > 0 && |rest| > 0
    requires acc[|acc| - 1].lo <= rest[0].lo <= acc[|acc| - 1].hi + 1
    ensures Canonical(acc[..|acc| - 1] + [Extended(acc, rest[0])])
    ensures forall x :: InRanges(acc[..|acc| - 1] + [Extended(acc, rest[0])], x) || InRanges(rest[1..], x)
                        <==> InRanges(acc, x) || InRanges(rest, x)
  {
    var n := |acc| - 1;
    var last := acc[n];
    var ext := Extended(acc, rest[0]);
    assert acc == acc[..n] + [last];
    forall x
      ensures InRanges(acc[..n] + [ext], x) || InRanges(rest[1..], x) <==> InRanges(acc, x) || InRanges(rest, x)
    {
      CoverConsAt(rest, x);
      CoverSnocAt(acc[..n], last, x);
      CoverSnocAt(acc[..n], ext, x);
    }
    assert Canonical(acc[..n]);
    CanonicalSnoc(acc[..n], ext);
  }

  /** The merge loop of `merge_intervals` over the remaining sorted ranges:
      a range that starts more than one past the last merged range's end
      opens a new range, any other range extends the last one. */
  function MergeSorted(acc: seq<Range>, rest: seq<Range>): (r: seq<Range>)
    requires Canonical(acc) && WellFormed(rest) && SortedBy(rest, RangeLe)
    requires |acc| > 0 && |rest| > 0 ==> acc[|acc| - 1].lo <= rest[0].lo
    ensures Canonical(r)
    ensures forall x :: InRanges(r, x) <==> InRanges(acc, x) || InRanges(rest, x)
    decreases |rest|
  {
    if |rest| == 0 then acc
    else
      RestTail(rest);
      if |acc| == 0 || acc[|acc| - 1].hi < rest[0].lo - 1 then
        OpenStep(acc, rest);
        MergeSorted(acc + [rest[0]], rest[1..])
      else
        ExtendStep(acc, rest);
        MergeSorted(acc[..|acc| - 1] + [Extended(acc, rest[0])], rest[1..])
  }

  /** `merge_intervals`: sort the ranges by (lo, hi), then merge every range
      that overlaps or touches its predecessor. The caller has already
      swapped each (from, to) so that from <= to. */
  function MergeIntervals(ranges: seq<Range>): (r: seq<Range>)
    requires WellFormed(ranges)
    ensures Canonical(r)
    ensures forall x :: InRanges(r, x) <==> InRanges(ranges, x)
    ensures |r| == 0 <==> |ranges| == 0
  {
    RangeLeTotalPreorder();
    var sorted := Sort(ranges, RangeLe);
    SameElements(ranges, sorted);
    assert WellFormed(sorted) by {
      forall i | 0 <= i < |sorted|
        ensures sorted[i].lo <= sorted[i].hi
      {
        assert sorted[i] in ranges;
      }
    }
    assert forall x :: InRanges(sorted, x) <==> InRanges(ranges, x) by {
      forall x | InRanges(sorted, x)
        ensures InRanges(ranges, x)
      {
        var i :| 0 <= i < |sorted| && sorted[i].lo <= x <= sorted[i].hi;
        assert sorted[i] in ranges;
      }
      forall x | InRanges(ranges, x)
        ensures InRanges(sorted, x)
      {
        var i :| 0 <= i < |ranges| && ranges[i].lo <= x <= ranges[i].hi;
        assert ranges[i] in sorted;
      }
    }
    var r := MergeSorted([], sorted);
    assert |ranges| > 0 ==> InRanges(r, ranges[0].lo);
    r
  }

  // ---------------------------------------------------------------------
  // _merge_consecutive
  // ---------------------------------------------------------------------

  /** The run loop of `_merge_consecutive` over the remaining ascending
      numbers: the current run start..end grows while the next number is
      end + 1, and is closed otherwise. */
  function RunsFrom(done: seq<Range>, start: int, end: int, rest: seq<int>): (r: seq<Range>)
    requires Canonical(done + [Range(start, end)])
    requires StrictlyIncreasing(rest)
    requires |rest| > 0 ==> end < rest[0]
    ensures Canonical(r)
    ensures forall x :: InRanges(r, x) <==> InRanges(done, x) || start <= x <= end || x in rest
    decreases |rest|
  {
    var closed := done + [Range(start, end)];
    CoverSnoc(done, Range(start, end));
    if |rest| == 0 then closed
    else
      var n := rest[0];
      assert forall x :: x in rest <==> x == n || x in rest[1..] by {
        assert rest == [n] + rest[1..];
      }
      assert Canonical(done) by {
        assert done == closed[..|done|];
      }
      if n == end + 1 then
        CanonicalSnoc(done, Range(start, n));
        RunsFrom(done, start, n, rest[1..])
      else
        CanonicalSnoc(closed, Range(n, n));
        RunsFrom(closed, n, n, rest[1..])
  }

  lemma StrictTail(s: seq<int>)
    requires StrictlyIncreasing(s) && |s| > 0
    ensures StrictlyIncreasing(s[1..])
    ensures |s| > 1 ==> s[0] < s[1..][0]
  {
    forall i, j | 0 <= i < j < |s[1..]|
      ensures s[1..][i] < s[1..][j]
    {
      assert s[1..][i] == s[i + 1] && s[1..][j] == s[j + 1];
    }
  }

  lemma MemberCons(s: seq<int>, x: int)
    requires |s| > 0
    ensures x in s <==> x == s[0] || x in s[1..]
  {
    assert s == [s[0]] + s[1..];
  }

  /** `_merge_consecutive`: the maximal runs of consecutive numbers among
      nums, ascending; duplicates are ignored and no input gives no runs. */
  function MergeConsecutive(nums: seq<int>): (r: seq<Range>)
    ensures Canonical(r)
    ensures forall x :: InRanges(r, x) <==> x in nums
    ensures |r| == 0 <==> |nums| == 0
  {
    if |nums| == 0 then []
    else
      var sorted := SortedElems(set x | x in nums);
      assert nums[0] in sorted;
      StrictTail(sorted);
      var first := Range(sorted[0], sorted[0]);
      assert Canonical([] + [first]);
      var r := RunsFrom([], sorted[0], sorted[0], sorted[1..]);
      assert forall x :: InRanges(r, x) <==> x in nums by {
        forall x
          ensures InRanges(r, x) <==> x in nums
        {
          MemberCons(sorted, x);
        }
      }
      assert InRanges(r, sorted[0]);
      r
  }

  // ---------------------------------------------------------------------
  // Uniqueness of the canonical form, and what follows from it
  // ---------------------------------------------------------------------

  /** Two canonical lists that cover the same numbers are the same list:
      the canonical form of a set of numbers is unique. */
  lemma {:induction false} CanonicalUnique(a: seq<Range>, b: seq<Range>)
    requires Canonical(a) && Canonical(b)
    requires forall x :: InRanges(a, x) <==> InRanges(b, x)
    ensures a == b
    decreases |a| + |b|
  {
    NonEmptyCovers(a);
    NonEmptyCovers(b);
    if |a| == 0 || |b| == 0 {
    } else {
      assert InRanges(a, a[0].lo) && InRanges(b, b[0].lo);
      CanonicalPointOwner(a, 0, b[0].lo);
      CanonicalPointOwner(b, 0, a[0].lo);
      assert a[0].lo == b[0].lo;
      if a[0].hi < b[0].hi {
        assert InRanges(b, a[0].hi + 1);
        CanonicalPointOwner(a, 0, a[0].hi + 1);
        assert false;
      }
      if b[0].hi < a[0].hi {
        assert InRanges(a, b[0].hi + 1);
        CanonicalPointOwner(b, 0, b[0].hi + 1);
        assert false;
      }
      assert a[0] == b[0];
      forall x
        ensures InRanges(a[1..], x) <==> InRanges(b[1..], x)
      {
        TailCover(a, x);
        TailCover(b, x);
      }
      CanonicalUnique(a[1..], b[1..]);
      assert a == [a[0]] + a[1..] && b == [b[0]] + b[1..];
    }
  }

  /** The tail of a canonical list covers exactly the covered points beyond
      the first range. */
  lemma TailCover(a: seq<Range>, x: int)
    requires Canonical(a) && |a| > 0
    ensures Canonical(a[1..])
    ensures InRanges(a[1..], x) <==> InRanges(a, x) && x > a[0].hi
  {
    if InRanges(a[1..], x) {
      var i :| 0 <= i < |a[1..]| && a[1..][i].lo <= x <= a[1..][i].hi;
      assert a[i + 1] == a[1..][i];
      CanonicalSeparated(a, 0, i + 1);
    }
    if InRanges(a, x) && x > a[0].hi {
      CanonicalPointOwner(a, 0, x);
      var i :| 0 <= i < |a| && a[i].lo <= x <= a[i].hi;
      assert i > 0;
      assert a[1..][i - 1] == a[i];
    }
  }

  /** Merging is idempotent. */
  lemma MergeIntervalsIdempotent(ranges: seq<Range>)
    requires WellFormed(ranges)
    ensures MergeIntervals(MergeIntervals(ranges)) == MergeIntervals(ranges)
  {
    var m := MergeIntervals(ranges);
    CanonicalUnique(MergeIntervals(m), m);
  }

  /** The merge depends only on the numbers covered, not on the order or
      the grouping of the input ranges. */
  lemma MergeIntervalsDependsOnCoverOnly(a: seq<Range>, b: seq<Range>)
    requires WellFormed(a) && WellFormed(b)
    requires forall x :: InRanges(a, x) <==> InRanges(b, x)
    ensures MergeIntervals(a) == MergeIntervals(b)
  {
    CanonicalUnique(MergeIntervals(a), MergeIntervals(b));
  }

  /** A list already in canonical form is left unchanged. */
  lemma MergeIntervalsFixesCanonical(rs: seq<Range>)
    requires Canonical(rs)
    ensures MergeIntervals(rs) == rs
  {
    CanonicalUnique(MergeIntervals(rs), rs);
  }

  /** The runs of a collection of numbers are the merge of its one-number
      ranges: the two routines agree. */
  lemma MergeConsecutiveIsMergeOfPoints(nums: seq<int>)
    ensures MergeConsecutive(nums) == MergeIntervals(seq(|nums|, i requires 0 <= i < |nums| => Range(nums[i], nums[i])))
  {
    var points := seq(|nums|, i requires 0 <= i < |nums| => Range(nums[i], nums[i]));
    forall x
      ensures InRanges(points, x) <==> x in nums
    {
      if x in nums {
        var i :| 0 <= i < |nums| && nums[i] == x;
        assert points[i].lo <= x <= points[i].hi;
      }
    }
    CanonicalUnique(MergeConsecutive(nums), MergeIntervals(points));
  }

  /** Adjacent ranges merge. */
  lemma MergeIntervalsAdjacentExample()
    ensures MergeIntervals([Range(1, 5), Range(6, 10)]) == [Range(1, 10)]
  {
    var a := [Range(1, 5), Range(6, 10)];
    CoverCons(a);
    CoverCons(a[1..]);
    CoverCons([Range(1, 10)]);
    CanonicalUnique(MergeIntervals(a), [Range(1, 10)]);
  }

  /** Ranges with a gap between them stay apart. */
  lemma MergeIntervalsGapExample()
    ensures MergeIntervals([Range(1, 5), Range(7, 10)]) == [Range(1, 5), Range(7, 10)]
  {
    MergeIntervalsFixesCanonical([Range(1, 5), Range(7, 10)]);
  }

  /** Overlapping, duplicated and unsorted ranges collapse into one. */
  lemma MergeIntervalsOverlapExample()
    ensures MergeIntervals([Range(3, 8), Range(1, 4), Range(3, 8)]) == [Range(1, 8)]
  {
    var c := [Range(3, 8), Range(1, 4), Range(3, 8)];
    CoverCons(c);
    CoverCons(c[1..]);
    CoverCons(c[2..]);
    assert c[1..][1..] == c[2..];
    CoverCons([Range(1, 8)]);
    CanonicalUnique(MergeIntervals(c), [Range(1, 8)]);
  }

  lemma ConsecutiveExampleCover(x: int)
    ensures InRanges([Range(1, 3), Range(5, 6), Range(9, 9)], x) <==> x in [6, 1, 3, 2, 9, 5, 2]
  {
    var nums := [6, 1, 3, 2, 9, 5, 2];
    var expected := [Range(1, 3), Range(5, 6), Range(9, 9)];
    if x in nums {
      if x <= 3 {
        assert expected[0].lo <= x <= expected[0].hi;
      } else if x <= 6 {
        assert expected[1].lo <= x <= expected[1].hi;
      } else {
        assert expected[2].lo <= x <= expected[2].hi;
      }
    }
    if InRanges(expected, x) {
      var i :| 0 <= i < |expected| && expected[i].lo <= x <= expected[i].hi;
      if i == 0 {
        assert x == 1 || x == 2 || x == 3;
        assert nums[1] == 1 && nums[3] == 2 && nums[2] == 3;
      } else if i == 1 {
        assert nums[5] == 5 && nums[0] == 6;
      } else {
        assert nums[4] == 9;
      }
    }
  }

  /** {1,2,3,5,6,9} gives the runs 1-3, 5-6 and 9-9; duplicates and order do
      not matter. */
  lemma MergeConsecutiveExample()
    ensures MergeConsecutive([6, 1, 3, 2, 9, 5, 2]) == [Range(1, 3), Range(5, 6), Range(9, 9)]
  {
    var nums := [6, 1, 3, 2, 9, 5, 2];
    var expected := [Range(1, 3), Range(5, 6), Range(9, 9)];
    var r := MergeConsecutive(nums);
    forall x
      ensures InRanges(r, x) <==> InRanges(expected, x)
    {
      ConsecutiveExampleCover(x);
    }
    assert Canonical(expected);
    CanonicalUnique(r, expected);
  }

  // ---------------------------------------------------------------------
  // Sizes
  // ---------------------------------------------------------------------

  /** The summed lengths hi - lo + 1 of the ranges (`sum(t - f + 1 ...)`). */
  function CoveredCount(rs: seq<Range>): int
  {
    if |rs| == 0 then 0 else (rs[0].hi - rs[0].lo + 1) + CoveredCount(rs[1..])
  }

  /** The numbers lo..hi as a set. */
  function Span(lo: int, hi: int): (s: set<int>)
    ensures forall x :: x in s <==> lo <= x <= hi
    ensures lo <= hi + 1 ==> |s| == hi - lo + 1
    decreases hi - lo
  {
    if hi < lo then {} else Span(lo, hi - 1) + {hi}
  }

  /** The numbers covered by the ranges, as a set. */
  function Covered(rs: seq<Range>): (s: set<int>)
    ensures forall x :: x in s <==> InRanges(rs, x)
  {
    if |rs| == 0 then {}
    else
      var s := Span(rs[0].lo, rs[0].hi) + Covered(rs[1..]);
      assert forall x :: x in s <==> InRanges(rs, x) by {
        forall x
          ensures x in s <==> InRanges(rs, x)
        {
          CoverConsAt(rs, x);
        }
      }
      s
  }

  /** For canonical ranges the summed lengths count each covered number
      exactly once. */
  lemma {:induction false} CoveredCountIsCardinality(rs: seq<Range>)
    requires Canonical(rs)
    ensures CoveredCount(rs) == |Covered(rs)|
    decreases |rs|
  {
    if |rs| > 0 {
      TailCoverAll(rs);
      CoveredCountIsCardinality(rs[1..]);
      assert Span(rs[0].lo, rs[0].hi) !! Covered(rs[1..]);
    }
  }

  lemma TailCoverAll(rs: seq<Range>)
    requires Canonical(rs) && |rs| > 0
    ensures Canonical(rs[1..])
    ensures forall x :: InRanges(rs[1..], x) ==> x > rs[0].hi
  {
    forall x | InRanges(rs[1..], x)
      ensures x > rs[0].hi
    {
      TailCover(rs, x);
    }
  }
}
