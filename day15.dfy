/** Beacon exclusion zone: sensors with the Manhattan distance to their
    closest beacon, the diamond-shaped edges and perimeters around them as
    line segments, integer segment intersection by Cramer's rule, and the
    size of a union of sorted integer intervals. */
module Day15 {
  import opened Common

  type Coord = (int, int)
  type Line = (Coord, Coord)
  type Interval = (int, int)

  datatype SensorInfo = SensorInfo(sensor: Coord, dist: int)

  /** `dist`: the Manhattan distance. */
  function Dist(a: Coord, b: Coord): (r: int)
    ensures r >= 0 && (r == 0 <==> a == b)
  {
    Abs(a.0 - b.0) + Abs(a.1 - b.1)
  }

  /** The distance is symmetric, never negative, and zero exactly between
      equal points. */
  lemma DistIsMetric(a: Coord, b: Coord)
    ensures Dist(a, b) == Dist(b, a) && Dist(a, b) >= 0
    ensures Dist(a, b) == 0 <==> a == b
  {
  }

  /** `edge_lines`: the four sides of the diamond at distance `d`, each from
      one corner to the next. */
  function EdgeLines(sensor: Coord, d: int): (r: seq<Line>)
    ensures |r| == 4
    ensures d >= 0 ==> forall k | 0 <= k < 4 :: Dist(r[k].0, sensor) == d && Dist(r[k].1, sensor) == d
  {
    var (x, y) := sensor;
    [((x, y - d), (x + d, y)),
     ((x + d, y), (x, y + d)),
     ((x, y + d), (x - d, y)),
     ((x - d, y), (x, y - d))]
  }

  /** `perimeter_lines`: the four sides of the ring just outside the diamond. */
  function PerimeterLines(sensor: Coord, d: int): (r: seq<Line>)
    ensures |r| == 4
    ensures d >= 0 ==> forall k | 0 <= k < 4 :: Dist(r[k].0, sensor) == d + 1 && Dist(r[k].1, sensor) == d + 1
  {
    var (x, y) := sensor;
    [((x, y - d - 1), (x + d, y - 1)),
     ((x + d + 1, y), (x + 1, y + d)),
     ((x, y + d + 1), (x - d, y + 1)),
     ((x - d - 1, y), (x - 1, y - d))]
  }

  /** Every endpoint of an edge line is at distance `d` from the sensor, and
      every endpoint of a perimeter line at distance `d + 1`. */
  lemma LinesAtDistance(sensor: Coord, d: int)
    requires d >= 0
    ensures forall k | 0 <= k < 4 ::
      Dist(EdgeLines(sensor, d)[k].0, sensor) == d && Dist(EdgeLines(sensor, d)[k].1, sensor) == d
    ensures forall k | 0 <= k < 4 ::
      Dist(PerimeterLines(sensor, d)[k].0, sensor) == d + 1 && Dist(PerimeterLines(sensor, d)[k].1, sensor) == d + 1
  {
  }

  /** `is_valid_x`: `x` lies between the endpoints' x coordinates, whichever
      comes first. */
  function IsValidX(x: int, line: Line): (r: bool)
    ensures r <==> (line.0.0 <= x <= line.1.0 || line.1.0 <= x <= line.0.0)
    decreases if line.0.0 <= line.1.0 then 0 else 1
  {
    var (a, b) := line;
    if a.0 <= b.0 then x >= a.0 && x <= b.0 else IsValidX(x, (b, a))
  }

  /** `is_valid_y`: the same on the y coordinates. */
  function IsValidY(y: int, line: Line): (r: bool)
    ensures r <==> (line.0.1 <= y <= line.1.1 || line.1.1 <= y <= line.0.1)
    decreases if line.0.1 <= line.1.1 then 0 else 1
  {
    var (a, b) := line;
    if a.1 <= b.1 then y >= a.1 && y <= b.1 else IsValidY(y, (b, a))
  }

  /** The point lies on the straight line through the segment's endpoints. */
  predicate OnLine(p: Coord, line: Line)
  {
    var (a, b) := line;
    (p.0 - a.0) * (b.1 - a.1) == (p.1 - a.1) * (b.0 - a.0)
  }

  /** Within both coordinate extents of the segment. */
  predicate InBox(p: Coord, line: Line)
  {
    IsValidX(p.0, line) && IsValidY(p.1, line)
  }

  /** The coefficients `(a, b, c)` of the line's equation `a * x + b * y == c`,
      as the source computes them. */
  function Coefficients(line: Line): (int, int, int)
  {
    var (a, b) := line;
    var a1 := b.1 - a.1;
    var b1 := a.0 - b.0;
    (a1, b1, a1 * a.0 + b1 * a.1)
  }

  /** The equation holds exactly on the line. */
  lemma CoefficientsDescribeLine(p: Coord, line: Line)
    ensures var (a1, b1, c1) := Coefficients(line);
      OnLine(p, line) <==> a1 * p.0 + b1 * p.1 == c1
  {
    var (a, b) := line;
    var (a1, b1, c1) := Coefficients(line);
    assert (p.0 - a.0) * a1 == a1 * p.0 - a1 * a.0;
    assert (p.1 - a.1) * (b.0 - a.0) == -(b1 * p.1 - b1 * a.1);
  }

  /** `intersects`: the crossing point of the two lines by Cramer's rule;
      `None` for parallel lines (a zero determinant), for a crossing off the
      integer grid, and for one outside either segment's box. */
  function Intersects(line1: Line, line2: Line): (r: Option<Coord>)
    ensures Det(line1, line2) == 0 ==> r.None?
    ensures r.Some? ==> IsValidX(r.value.0, line1) && IsValidX(r.value.0, line2) &&
                        IsValidY(r.value.1, line1) && IsValidY(r.value.1, line2)
  {
    var (a1, b1, c1) := Coefficients(line1);
    var (a2, b2, c2) := Coefficients(line2);
    var det := a1 * b2 - a2 * b1;
    if det == 0 then None
    else
      var x0 := b2 * c1 - b1 * c2;
      var y0 := a1 * c2 - a2 * c1;
      if TruncRem(x0, det) == 0 && TruncRem(y0, det) == 0 then
        var x00 := FloorDiv(x0, det);
        var y00 := FloorDiv(y0, det);
        if IsValidX(x00, line1) && IsValidX(x00, line2) && IsValidY(y00, line1) && IsValidY(y00, line2)
        then Some((x00, y00))
        else None
      else None
  }

  function Det(line1: Line, line2: Line): int
  {
    var (a1, b1, _) := Coefficients(line1);
    var (a2, b2, _) := Coefficients(line2);
    a1 * b2 - a2 * b1
  }

  /** A product with a non-zero factor is zero only when the other is. */
  lemma MulZero(d: int, u: int)
    requires d != 0 && d * u == 0
    ensures u == 0
  {
    if u != 0 {
      MulAbsAtLeast(d, u);
    }
  }

  lemma ScaleEquation(det: int, a: int, b: int, c: int, x: int, y: int)
    ensures det * (a * x + b * y - c) == a * (x * det) + b * (y * det) - c * det
  {
  }

  lemma CramerIdentities(a1: int, b1: int, c1: int, a2: int, b2: int, c2: int)
    ensures a1 * (b2 * c1 - b1 * c2) + b1 * (a1 * c2 - a2 * c1) - c1 * (a1 * b2 - a2 * b1) == 0
    ensures a2 * (b2 * c1 - b1 * c2) + b2 * (a1 * c2 - a2 * c1) - c2 * (a1 * b2 - a2 * b1) == 0
  {
  }

  /** Cramer's rule: the quotients solve both equations. */
  lemma CramerSolves(a1: int, b1: int, c1: int, a2: int, b2: int, c2: int, x: int, y: int)
    requires a1 * b2 - a2 * b1 != 0
    requires x * (a1 * b2 - a2 * b1) == b2 * c1 - b1 * c2
    requires y * (a1 * b2 - a2 * b1) == a1 * c2 - a2 * c1
    ensures a1 * x + b1 * y == c1 && a2 * x + b2 * y == c2
  {
    var det := a1 * b2 - a2 * b1;
    var x0, y0 := b2 * c1 - b1 * c2, a1 * c2 - a2 * c1;
    ScaleEquation(det, a1, b1, c1, x, y);
    ScaleEquation(det, a2, b2, c2, x, y);
    CramerIdentities(a1, b1, c1, a2, b2, c2);
    assert det * (a1 * x + b1 * y - c1) == a1 * x0 + b1 * y0 - c1 * det;
    assert det * (a2 * x + b2 * y - c2) == a2 * x0 + b2 * y0 - c2 * det;
    MulZero(det, a1 * x + b1 * y - c1);
    MulZero(det, a2 * x + b2 * y - c2);
  }

  /** An exact truncating division is also an exact floor division. */
  lemma ExactQuotient(x0: int, det: int)
    requires det != 0 && TruncRem(x0, det) == 0
    ensures FloorDiv(x0, det) * det == x0
  {
    var q := TruncDiv(x0, det);
    assert x0 == q * det;
    FloorDivOfProduct(q, det);
  }

  /** And any solution of both equations is those quotients. */
  lemma CramerUnique(a1: int, b1: int, c1: int, a2: int, b2: int, c2: int, x: int, y: int)
    requires a1 * x + b1 * y == c1 && a2 * x + b2 * y == c2
    ensures x * (a1 * b2 - a2 * b1) == b2 * c1 - b1 * c2
    ensures y * (a1 * b2 - a2 * b1) == a1 * c2 - a2 * c1
  {
    assert b2 * c1 - b1 * c2 == b2 * (a1 * x + b1 * y) - b1 * (a2 * x + b2 * y);
    assert a1 * c2 - a2 * c1 == a1 * (a2 * x + b2 * y) - a2 * (a1 * x + b1 * y);
  }

  /** A point `intersects` returns lies on both lines and in both segments'
      boxes; parallel lines give `None`. */
  lemma IntersectsSound(line1: Line, line2: Line)
    ensures Det(line1, line2) == 0 ==> Intersects(line1, line2).None?
    ensures Intersects(line1, line2).Some? ==>
      var p := Intersects(line1, line2).value;
      OnLine(p, line1) && OnLine(p, line2) && InBox(p, line1) && InBox(p, line2)
  {
    var (a1, b1, c1) := Coefficients(line1);
    var (a2, b2, c2) := Coefficients(line2);
    var det := a1 * b2 - a2 * b1;
    if Intersects(line1, line2).Some? {
      var x0 := b2 * c1 - b1 * c2;
      var y0 := a1 * c2 - a2 * c1;
      var p := Intersects(line1, line2).value;
      assert p == (FloorDiv(x0, det), FloorDiv(y0, det));
      ExactQuotient(x0, det);
      ExactQuotient(y0, det);
      CramerSolves(a1, b1, c1, a2, b2, c2, p.0, p.1);
      CoefficientsDescribeLine(p, line1);
      CoefficientsDescribeLine(p, line2);
    }
  }

  /** Conversely, a grid point on two non-parallel lines and in both boxes is
      found: `intersects` returns it. */
  lemma IntersectsComplete(line1: Line, line2: Line, p: Coord)
    requires Det(line1, line2) != 0
    requires OnLine(p, line1) && OnLine(p, line2) && InBox(p, line1) && InBox(p, line2)
    ensures Intersects(line1, line2) == Some(p)
  {
    var (a1, b1, c1) := Coefficients(line1);
    var (a2, b2, c2) := Coefficients(line2);
    var det := a1 * b2 - a2 * b1;
    CoefficientsDescribeLine(p, line1);
    CoefficientsDescribeLine(p, line2);
    CramerUnique(a1, b1, c1, a2, b2, c2, p.0, p.1);
    var x0 := b2 * c1 - b1 * c2;
    var y0 := a1 * c2 - a2 * c1;
    ExactProduct(p.0, det);
    ExactProduct(p.1, det);
  }

  /** A multiple of `k` leaves no truncated remainder and divides back exactly. */
  lemma ExactProduct(a: int, k: int)
    requires k != 0
    ensures TruncRem(a * k, k) == 0 && FloorDiv(a * k, k) == a
  {
    var p := a * k;
    TruncDivOfProduct(a, k);
    assert p == k * TruncDiv(p, k) + TruncRem(p, k);
    assert k * a == p;
    FloorDivOfProduct(a, k);
  }

  /** `is_in_range_of_any_sensor`: the loop returns at the first sensor whose
      radius reaches the position. */
  method IsInRangeOfAnySensor(pos: Coord, infos: seq<SensorInfo>) returns (r: bool)
    ensures r <==> exists k | 0 <= k < |infos| :: Dist(pos, infos[k].sensor) <= infos[k].dist
  {
    for k := 0 to |infos|
      invariant forall j | 0 <= j < k :: Dist(pos, infos[j].sensor) > infos[j].dist
    {
      if Dist(pos, infos[k].sensor) <= infos[k].dist {
        return true;
      }
    }
    return false;
  }

  /** Some interval holds `x`. */
  predicate Covers(ivs: seq<Interval>, x: int)
  {
    exists k | 0 <= k < |ivs| :: ivs[k].0 <= x <= ivs[k].1
  }

  /** The number of integers in `[lo, hi)` some interval holds. */
  function CountRange(ivs: seq<Interval>, lo: int, hi: int): nat
    decreases hi - lo
  {
    if lo >= hi then 0 else (if Covers(ivs, lo) then 1 else 0) + CountRange(ivs, lo + 1, hi)
  }

  lemma {:induction false} CountRangeSplit(ivs: seq<Interval>, lo: int, mid: int, hi: int)
    requires lo <= mid <= hi
    ensures CountRange(ivs, lo, hi) == CountRange(ivs, lo, mid) + CountRange(ivs, mid, hi)
    decreases mid - lo
  {
    if lo < mid {
      CountRangeSplit(ivs, lo + 1, mid, hi);
    }
  }

  lemma {:induction false} CountRangeFull(ivs: seq<Interval>, lo: int, hi: int)
    requires lo <= hi
    requires forall x | lo <= x < hi :: Covers(ivs, x)
    ensures CountRange(ivs, lo, hi) == hi - lo
    decreases hi - lo
  {
    if lo < hi {
      CountRangeFull(ivs, lo + 1, hi);
    }
  }

  lemma {:induction false} CountRangeEmpty(ivs: seq<Interval>, lo: int, hi: int)
    requires forall x | lo <= x < hi :: !Covers(ivs, x)
    ensures CountRange(ivs, lo, hi) == 0
    decreases hi - lo
  {
    if lo < hi {
      CountRangeEmpty(ivs, lo + 1, hi);
    }
  }

  predicate SortedByStart(ivs: seq<Interval>)
  {
    forall j, k | 0 <= j < k < |ivs| :: ivs[j].0 <= ivs[k].0
  }

  predicate WellFormed(ivs: seq<Interval>)
  {
    forall k | 0 <= k < |ivs| :: ivs[k].0 <= ivs[k].1
  }

  /** The largest end among the intervals. */
  function MaxEnd(ivs: seq<Interval>): (m: int)
    requires ivs != []
    ensures forall k | 0 <= k < |ivs| :: ivs[k].1 <= m
    ensures exists k | 0 <= k < |ivs| :: ivs[k].1 == m
  {
    if |ivs| == 1 then ivs[0].1
    else
      var m := MaxEnd(ivs[..|ivs| - 1]);
      var last := ivs[|ivs| - 1].1;
      if last > m then last else m
  }

  /** The union's size: the integers the intervals hold, counted over a
      window that contains all of them. */
  function UnionSize(ivs: seq<Interval>): nat
    requires SortedByStart(ivs)
  {
    if ivs == [] then 0 else CountRange(ivs, ivs[0].0, MaxEnd(ivs) + 1)
  }

  /** Nothing outside that window is held, so any wider window counts the
      same: the union's size does not depend on the window. */
  lemma UnionSizeAnyWindow(ivs: seq<Interval>, lo: int, hi: int)
    requires SortedByStart(ivs) && WellFormed(ivs) && ivs != []
    requires lo <= ivs[0].0 && MaxEnd(ivs) + 1 <= hi
    ensures CountRange(ivs, lo, hi) == UnionSize(ivs)
  {
    CountRangeSplit(ivs, lo, ivs[0].0, hi);
    CountRangeSplit(ivs, ivs[0].0, MaxEnd(ivs) + 1, hi);
    CountRangeEmpty(ivs, lo, ivs[0].0);
    CountRangeEmpty(ivs, MaxEnd(ivs) + 1, hi);
  }

  lemma MaxEndSnoc(ivs: seq<Interval>, i: nat)
    requires i + 1 < |ivs|
    ensures var m := MaxEnd(ivs[..i + 1]);
      MaxEnd(ivs[..i + 2]) == if ivs[i + 1].1 > m then ivs[i + 1].1 else m
  {
    assert ivs[..i + 2][..i + 1] == ivs[..i + 1];
  }

  /** Counting a fully held block `[x1, x2]` after the count below it. */
  lemma CloseBlock(ivs: seq<Interval>, lo: int, x1: int, x2: int)
    requires lo <= x1 <= x2 + 1
    requires forall x | x1 <= x <= x2 :: Covers(ivs, x)
    ensures CountRange(ivs, lo, x1) + x2 - x1 + 1 == CountRange(ivs, lo, x2 + 1)
  {
    CountRangeFull(ivs, x1, x2 + 1);
    CountRangeSplit(ivs, lo, x1, x2 + 1);
  }

  /** Between the block that ends at the largest end so far and the next
      start, nothing is held. */
  lemma GapUncovered(ivs: seq<Interval>, i: nat)
    requires SortedByStart(ivs) && i + 1 < |ivs|
    requires MaxEnd(ivs[..i + 1]) < ivs[i + 1].0
    ensures CountRange(ivs, MaxEnd(ivs[..i + 1]) + 1, ivs[i + 1].0) == 0
  {
    var x2, x3 := MaxEnd(ivs[..i + 1]), ivs[i + 1].0;
    forall x | x2 + 1 <= x < x3
      ensures !Covers(ivs, x)
    {
      forall k | 0 <= k < |ivs|
        ensures !(ivs[k].0 <= x <= ivs[k].1)
      {
        if k <= i {
          assert ivs[..i + 1][k] == ivs[k];
        }
      }
    }
    CountRangeEmpty(ivs, x2 + 1, x3);
  }

  /** A held block `[x1, x2]`, with `x2` the largest end so far, followed by
      a gap up to the next start: counting the block counts everything
      below that start. */
  lemma BlockThenGap(ivs: seq<Interval>, i: nat, lo: int, x1: int)
    requires SortedByStart(ivs) && i + 1 < |ivs|
    requires lo <= x1 <= MaxEnd(ivs[..i + 1]) < ivs[i + 1].0
    requires forall x | x1 <= x <= MaxEnd(ivs[..i + 1]) :: Covers(ivs, x)
    ensures CountRange(ivs, lo, x1) + MaxEnd(ivs[..i + 1]) - x1 + 1 == CountRange(ivs, lo, ivs[i + 1].0)
  {
    var x2 := MaxEnd(ivs[..i + 1]);
    CloseBlock(ivs, lo, x1, x2);
    GapUncovered(ivs, i);
    CountRangeSplit(ivs, lo, x2 + 1, ivs[i + 1].0);
  }

  /** A held block `[lo, hi]` followed by an interval starting at most one
      past it: the block grows to the interval's end. */
  lemma ExtendCover(ivs: seq<Interval>, k: nat, lo: int, hi: int)
    requires k < |ivs| && ivs[k].0 <= hi + 1
    requires forall x | lo <= x <= hi :: Covers(ivs, x)
    ensures forall x | lo <= x <= ivs[k].1 :: Covers(ivs, x)
  {
    forall x | lo <= x <= ivs[k].1
      ensures Covers(ivs, x)
    {
      if x > hi {
        assert ivs[k].0 <= x <= ivs[k].1;
      }
    }
  }

  /** The sweep's state before looking at interval `i + 1`: `block` is the
      merged block that ends at the largest end so far, everything in it is
      held, and `count` is the number of held integers below it. */
  ghost predicate Sweeping(ivs: seq<Interval>, i: nat, block: Interval, count: int)
    requires i < |ivs|
  {
    ivs[0].0 <= block.0 <= ivs[i].0 && block.0 <= block.1 &&
    block.1 == MaxEnd(ivs[..i + 1]) &&
    count == CountRange(ivs, ivs[0].0, block.0) &&
    forall x | block.0 <= x <= block.1 :: Covers(ivs, x)
  }

  lemma SweepStart(ivs: seq<Interval>)
    requires WellFormed(ivs) && ivs != []
    ensures Sweeping(ivs, 0, ivs[0], 0)
  {
    CountRangeEmpty(ivs, ivs[0].0, ivs[0].0);
    assert ivs[..1] == [ivs[0]];
    forall x | ivs[0].0 <= x <= ivs[0].1
      ensures Covers(ivs, x)
    {
      assert ivs[0].0 <= x <= ivs[0].1;
    }
  }

  /** The next interval lies inside the block: the block is kept. */
  lemma SweepInside(ivs: seq<Interval>, i: nat, block: Interval, count: int)
    requires SortedByStart(ivs) && i + 1 < |ivs| && Sweeping(ivs, i, block, count)
    requires ivs[i + 1].1 <= block.1
    ensures Sweeping(ivs, i + 1, block, count)
  {
    MaxEndSnoc(ivs, i);
  }

  /** The next interval overlaps the block and ends past it: the block
      grows to the interval's end. */
  lemma SweepExtend(ivs: seq<Interval>, i: nat, block: Interval, count: int)
    requires SortedByStart(ivs) && i + 1 < |ivs| && Sweeping(ivs, i, block, count)
    requires ivs[i + 1].0 <= block.1 < ivs[i + 1].1
    ensures Sweeping(ivs, i + 1, (block.0, ivs[i + 1].1), count)
  {
    MaxEndSnoc(ivs, i);
    ExtendCover(ivs, i + 1, block.0, block.1);
  }

  /** The next interval starts past the block: the block is counted and the
      next interval becomes the block. */
  lemma SweepGap(ivs: seq<Interval>, i: nat, block: Interval, count: int)
    requires SortedByStart(ivs) && WellFormed(ivs) && i + 1 < |ivs| && Sweeping(ivs, i, block, count)
    requires block.1 < ivs[i + 1].0
    ensures Sweeping(ivs, i + 1, ivs[i + 1], count + block.1 - block.0 + 1)
  {
    MaxEndSnoc(ivs, i);
    BlockThenGap(ivs, i, ivs[0].0, block.0);
    ExtendCover(ivs, i + 1, ivs[i + 1].0, ivs[i + 1].0 - 1);
  }

  /** At the last interval, counting the block counts the whole union. */
  lemma SweepEnd(ivs: seq<Interval>, block: Interval, count: int)
    requires SortedByStart(ivs) && ivs != [] && Sweeping(ivs, |ivs| - 1, block, count)
    ensures count + block.1 - block.0 + 1 == UnionSize(ivs)
  {
    assert ivs[..|ivs|] == ivs;
    CloseBlock(ivs, ivs[0].0, block.0, block.1);
  }

  /** `count_intervals`: a sweep over intervals sorted by start that keeps
      the current merged block in `intervals[i]`, overwriting the next
      interval when it overlaps the block, and counts each block when a gap
      or the end follows it. The result is the union's size; the source's
      panic arm is unreachable. */
  method CountIntervals(intervals: array<Interval>) returns (count: int)
    requires SortedByStart(intervals[..]) && WellFormed(intervals[..])
    modifies intervals
    ensures count == UnionSize(old(intervals[..]))
    ensures intervals.Length > 0 ==> intervals[0] == old(intervals[0])
  {
    ghost var orig := intervals[..];
    var n := intervals.Length;
    count := 0;
    if n == 0 {
      return;
    }
    SweepStart(orig);
    var i := 0;
    while i < n
      invariant 0 <= i < n
      invariant intervals[0] == orig[0]
      invariant forall j | i < j < n :: intervals[j] == orig[j]
      invariant Sweeping(orig, i, intervals[i], count)
      decreases n - i
    {
      var (x1, x2) := intervals[i];
      if i == n - 1 {
        SweepEnd(orig, intervals[i], count);
        count := count + x2 - x1 + 1;
        break;
      } else {
        var (x3, x4) := intervals[i + 1];
        if x4 <= x2 {
          SweepInside(orig, i, intervals[i], count);
          intervals[i + 1] := intervals[i];
          i := i + 1;
        } else if x3 <= x2 {
          SweepExtend(orig, i, intervals[i], count);
          intervals[i + 1] := (x1, x4);
          i := i + 1;
        } else if x2 < x3 {
          SweepGap(orig, i, intervals[i], count);
          count := count + x2 - x1 + 1;
          i := i + 1;
        } else {
          assert false;
        }
      }
    }
  }
}
