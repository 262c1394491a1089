/** The arithmetic of the progress heart: how the full turn is shared out
    among the segments, how far each segment is filled, the large-arc flag
    of a sector, where a label ray leaves the outline, which labels are
    drawn and with what text, and the link each segment carries.
    Angles are in radians and all arithmetic is exact. */
module Heart {
  import opened Base
  import Intervals

  /** `math.pi`, to the digits Python shows. */
  const Pi: real := 3.141592653589793

  /** The first segment starts straight up, at -pi/2. */
  const TopAngle: real := -Pi / 2.0

  /** Every weight is raised to at least this much. */
  const MinWeight: real := 0.0001

  /** The radius R of the sectors. */
  const Radius: real := 100.0

  /** `ray_intersect_radius` answers this when no edge is hit. */
  const NoHitRadius: real := 100.0

  /** Edges whose determinant is smaller than this in absolute value are
      treated as parallel to the ray. */
  const DetEpsilon: real := 0.000001

  /** One entry of `segments`. An absent key is None; `caption` is the
      "label" key. */
  datatype Segment = Segment(
    weight: Option<real>,
    ratio: Option<real>,
    id: Option<int>,
    sid: Option<int>,
    pageNo: Option<int>,
    caption: Option<string>,
    hasGoal: bool)

  function Abs(x: real): real
  {
    if x < 0.0 then -x else x
  }

  // ---------------------------------------------------------------------
  // The angular partition
  // ---------------------------------------------------------------------

  /** `max(0.0001, s.get("weight", 1.0))`. */
  function EffectiveWeight(s: Segment): (w: real)
    ensures w >= MinWeight
    ensures w >= s.weight.GetOr(1.0)
    ensures w == MinWeight || w == s.weight.GetOr(1.0)
  {
    if s.weight.GetOr(1.0) < MinWeight then MinWeight else s.weight.GetOr(1.0)
  }

  function Weights(segs: seq<Segment>): (ws: seq<real>)
    ensures |ws| == |segs|
    ensures forall i :: 0 <= i < |segs| ==> ws[i] == EffectiveWeight(segs[i])
  {
    seq(|segs|, i requires 0 <= i < |segs| => EffectiveWeight(segs[i]))
  }

  function Sum(ws: seq<real>): real
  {
    if |ws| == 0 then 0.0 else ws[0] + Sum(ws[1..])
  }

  lemma {:induction false} SumAtLeast(ws: seq<real>, lo: real)
    requires forall i :: 0 <= i < |ws| ==> ws[i] >= lo
    ensures Sum(ws) >= lo * |ws| as real
  {
    if |ws| > 0 {
      SumAtLeast(ws[1..], lo);
    }
  }

  /** `total_w`: positive as soon as there is a segment, whatever weights
      the segments carry. */
  function TotalWeight(segs: seq<Segment>): (t: real)
    ensures t >= MinWeight * |segs| as real
    ensures |segs| > 0 ==> t > 0.0
  {
    SumAtLeast(Weights(segs), MinWeight);
    Sum(Weights(segs))
  }

  /** The angle `w / total * 2 * pi` that weight w is given. */
  function Share(w: real, total: real): real
    requires total != 0.0
  {
    w / total * 2.0 * Pi
  }

  lemma SharePositive(w: real, total: real)
    requires w > 0.0 && total > 0.0
    ensures Share(w, total) > 0.0
  {
    assert w / total > 0.0;
  }

  lemma ShareAdd(x: real, y: real, total: real)
    requires total != 0.0
    ensures Share(x + y, total) == Share(x, total) + Share(y, total)
  {
    assert (x + y) / total == x / total + y / total;
  }

  /** The loop that lays the segments end to end from angle a, each taking
      its share of the full turn. */
  function AnglesFrom(ws: seq<real>, a: real, total: real): (r: seq<(real, real)>)
    requires total != 0.0
    ensures |r| == |ws|
    ensures |r| > 0 ==> r[0].0 == a
    ensures forall i :: 0 <= i < |r| ==> r[i].1 == r[i].0 + Share(ws[i], total)
    ensures forall i, j :: 0 <= i && j == i + 1 && j < |r| ==> r[j].0 == r[i].1
    ensures |r| > 0 ==> r[|r| - 1].1 == a + Share(Sum(ws), total)
  {
    if |ws| == 0 then []
    else
      var end := a + Share(ws[0], total);
      var rest := AnglesFrom(ws[1..], end, total);
      ShareAdd(ws[0], Sum(ws[1..]), total);
      [(a, end)] + rest
  }

  /** The `(start, end)` angle of every segment: they start at -pi/2, each
      starts where the previous one ends, the last ends a full turn later,
      and each spans its weight's share of the full turn. */
  function Angles(segs: seq<Segment>): (r: seq<(real, real)>)
    ensures |r| == |segs|
    ensures |segs| > 0 ==> r[0].0 == TopAngle && r[|r| - 1].1 == TopAngle + 2.0 * Pi
    ensures forall i, j :: 0 <= i && j == i + 1 && j < |r| ==> r[j].0 == r[i].1
    ensures forall i :: 0 <= i < |r| ==> r[i].1 == r[i].0 + Share(EffectiveWeight(segs[i]), TotalWeight(segs))
  {
    if |segs| == 0 then []
    else
      var t := TotalWeight(segs);
      assert Share(t, t) == 2.0 * Pi by {
        assert t / t == 1.0;
      }
      AnglesFrom(Weights(segs), TopAngle, t)
  }

  /** Every segment spans a positive angle, however small or negative its
      weight. */
  lemma {:induction false} AnglesIncrease(segs: seq<Segment>, i: int)
    requires 0 <= i < |segs|
    ensures Angles(segs)[i].0 < Angles(segs)[i].1
  {
    SharePositive(EffectiveWeight(segs[i]), TotalWeight(segs));
  }

  /** Weights 1, 1 and 2 give spans of a quarter, a quarter and a half turn. */
  lemma AnglesExample()
    ensures
      var r := Angles([Segment(Some(1.0), None, None, None, None, None, false),
                       Segment(Some(1.0), None, None, None, None, None, false),
                       Segment(Some(2.0), None, None, None, None, None, false)]);
      r[0] == (TopAngle, 0.0) && r[1] == (0.0, Pi / 2.0) && r[2] == (Pi / 2.0, TopAngle + 2.0 * Pi)
  {
    var segs := [Segment(Some(1.0), None, None, None, None, None, false),
                 Segment(Some(1.0), None, None, None, None, None, false),
                 Segment(Some(2.0), None, None, None, None, None, false)];
    var ws := Weights(segs);
    assert ws[0] == 1.0 && ws[1] == 1.0 && ws[2] == 2.0;
    assert ws[1..][1..][1..] == [];
    assert Sum(ws[1..][1..]) == 2.0;
    assert Sum(ws[1..]) == 3.0;
    assert Sum(ws) == 4.0;
    assert Share(1.0, 4.0) == Pi / 2.0;
    assert Share(2.0, 4.0) == Pi;
  }

  // ---------------------------------------------------------------------
  // Filled sectors
  // ---------------------------------------------------------------------

  /** `max(0.0, min(1.0, x))`. */
  function Clamp01(x: real): (c: real)
    ensures 0.0 <= c <= 1.0
    ensures 0.0 <= x <= 1.0 ==> c == x
    ensures x >= 1.0 ==> c == 1.0
    ensures x <= 0.0 ==> c == 0.0
  {
    if x > 1.0 then 1.0 else if x < 0.0 then 0.0 else x
  }

  const GoalFillColor: string := "#22c55e"
  const ProgressFillColor: string := "#dc2626"

  /** A filled sector: from, to, and its colour. */
  datatype FillSector = FillSector(start: real, end: real, color: string)

  /** The red (or, on a goal segment, green) sector drawn over a segment:
      none when the clamped ratio is 0; otherwise it starts with the segment
      and covers the clamped ratio's share of it. */
  function Fill(s: Segment, start: real, end: real): (r: Option<FillSector>)
    ensures r.None? <==> s.ratio.GetOr(0.0) <= 0.0
    ensures r.Some? ==> r.value.start == start
    ensures r.Some? && start <= end ==> start < r.value.end <= end || (start == end == r.value.end)
    ensures r.Some? && start < end ==> (r.value.end - start) / (end - start) == Clamp01(s.ratio.GetOr(0.0))
    ensures r.Some? && s.ratio.GetOr(0.0) >= 1.0 ==> r.value.end == end
    ensures r.Some? ==> r.value.color == (if s.hasGoal then GoalFillColor else ProgressFillColor)
  {
    var ratio := Clamp01(s.ratio.GetOr(0.0));
    if ratio <= 0.0 then None
    else
      var endProg := start + Part(end - start, ratio);
      Some(FillSector(start, endProg, if s.hasGoal then GoalFillColor else ProgressFillColor))
  }

  /** The share `ratio` of a span of length `span`: positive and at most the
      span when the span is, and exactly that share of it. */
  function Part(span: real, ratio: real): (p: real)
    requires 0.0 < ratio <= 1.0
    ensures span > 0.0 ==> 0.0 < p <= span && p / span == ratio
    ensures span == 0.0 ==> p == 0.0
    ensures ratio == 1.0 ==> p == span
  {
    if span > 0.0 then
      PartBounds(ratio, span);
      DivCancel(ratio, span);
      ratio * span
    else
      ratio * span
  }

  lemma PartBounds(ratio: real, d: real)
    requires 0.0 < ratio <= 1.0 && d > 0.0
    ensures 0.0 < ratio * d <= d
  {
    MulLe(ratio, 1.0, d);
    MulLt(0.0, ratio, d);
  }

  lemma DivCancel(a: real, d: real)
    requires d > 0.0
    ensures (a * d) / d == a
  {
  }

  // ---------------------------------------------------------------------
  // The large-arc flag of _sector_path
  // ---------------------------------------------------------------------

  /** Python's `x % m` for a positive float m: the result lies in [0, m). */
  function PyMod(x: real, m: real): (r: real)
    requires m > 0.0
    ensures 0.0 <= r < m
    ensures 0.0 <= x < m ==> r == x
  {
    FloorDivBounds(x, m);
    x - (x / m).Floor as real * m
  }

  lemma FloorDivBounds(x: real, m: real)
    requires m > 0.0
    ensures (x / m).Floor as real * m <= x < (x / m).Floor as real * m + m
    ensures 0.0 <= x < m ==> (x / m).Floor == 0
  {
    var q := x / m;
    var k := q.Floor as real;
    DivBounds(x, m);
    MulLe(k, q, m);
    FloorUpper(x, m, q, k);
    if 0.0 <= x < m {
      FloorZero(q);
    }
  }

  lemma FloorUpper(x: real, m: real, q: real, k: real)
    requires m > 0.0 && q * m == x && q < k + 1.0
    ensures x < k * m + m
  {
    MulLt(q, k + 1.0, m);
    Distribute(k, m);
  }

  lemma MulLe(a: real, b: real, m: real)
    requires a <= b && m > 0.0
    ensures a * m <= b * m
  {
  }

  lemma MulLt(a: real, b: real, m: real)
    requires a < b && m > 0.0
    ensures a * m < b * m
  {
  }

  lemma Distribute(k: real, m: real)
    ensures (k + 1.0) * m == k * m + m
  {
  }

  lemma DivMul(x: real, m: real)
    requires m != 0.0
    ensures (x / m) * m == x
  {
  }

  lemma DivBounds(x: real, m: real)
    requires m > 0.0
    ensures (x / m) * m == x
    ensures 0.0 <= x < m ==> 0.0 <= x / m < 1.0
  {
    DivMul(x, m);
    if 0.0 <= x < m {
      DivUnit(x, m);
    }
  }

  lemma DivUnit(x: real, m: real)
    requires 0.0 <= x < m
    ensures 0.0 <= x / m < 1.0
  {
    var q := x / m;
    DivMul(x, m);
    if q >= 1.0 {
      MulLe(1.0, q, m);
    }
    if q < 0.0 {
      MulLt(q, 0.0, m);
    }
  }

  lemma FloorZero(q: real)
    requires 0.0 <= q < 1.0
    ensures q.Floor == 0
  {
    assert q.Floor as real <= q < q.Floor as real + 1.0;
  }

  lemma FloorShift(y: real)
    ensures (y + 1.0).Floor == y.Floor + 1
  {
    var a, b := y.Floor, (y + 1.0).Floor;
    assert a as real <= y < a as real + 1.0;
    assert b as real <= y + 1.0 < b as real + 1.0;
  }

  lemma ZeroProduct(a: real, m: real)
    requires a * m == 0.0 && m != 0.0
    ensures a == 0.0
  {
  }

  lemma DivShift(x: real, m: real)
    requires m > 0.0
    ensures (x + m) / m == x / m + 1.0
  {
    var q, q2 := x / m, (x + m) / m;
    assert q * m == x;
    assert q2 * m == x + m;
    assert (q2 - q - 1.0) * m == q2 * m - q * m - m;
    ZeroProduct(q2 - q - 1.0, m);
  }

  /** Adding a whole turn does not change the remainder. */
  lemma PyModPeriodic(x: real, m: real)
    requires m > 0.0
    ensures PyMod(x + m, m) == PyMod(x, m)
  {
    DivShift(x, m);
    FloorShift(x / m);
    FloorDivBounds(x, m);
    FloorDivBounds(x + m, m);
  }

  /** The flag `_sector_path` writes: 1 when the sweep, reduced to one
      turn, is more than half a turn. */
  function LargeArcFlag(startRad: real, endRad: real): (laf: int)
    ensures laf == 0 || laf == 1
    ensures 0.0 <= endRad - startRad < 2.0 * Pi ==> (laf == 1 <==> endRad - startRad > Pi)
  {
    var sweep := PyMod(endRad - startRad, 2.0 * Pi);
    if sweep > Pi then 1 else 0
  }

  /** The flag only depends on the sweep up to whole turns, so a sector of a
      full turn gets flag 0, like an empty one. */
  lemma LargeArcFlagPeriodic(startRad: real, endRad: real)
    ensures LargeArcFlag(startRad, endRad + 2.0 * Pi) == LargeArcFlag(startRad, endRad)
    ensures LargeArcFlag(startRad, startRad + 2.0 * Pi) == 0
  {
    assert endRad + 2.0 * Pi - startRad == (endRad - startRad) + 2.0 * Pi;
    PyModPeriodic(endRad - startRad, 2.0 * Pi);
    assert startRad + 2.0 * Pi - startRad == 0.0 + 2.0 * Pi;
    PyModPeriodic(0.0, 2.0 * Pi);
  }

  // ---------------------------------------------------------------------
  // ray_intersect_radius
  // ---------------------------------------------------------------------

  /** A point of the sampled outline. */
  type Point = (real, real)

  /** The point at distance r along direction (dx, dy) is the point at
      parameter u in [0, 1] along edge i. */
  predicate RayMeetsEdge(poly: seq<Point>, i: int, u: real, r: real, dx: real, dy: real)
    requires 0 <= i < |poly| - 1
  {
    0.0 <= u <= 1.0
    && r * dx == poly[i].0 + u * (poly[i + 1].0 - poly[i].0)
    && r * dy == poly[i].1 + u * (poly[i + 1].1 - poly[i].1)
  }

  /** Edge i as a vector. */
  function EdgeVec(poly: seq<Point>, i: int): Point
    requires 0 <= i < |poly| - 1
  {
    (poly[i + 1].0 - poly[i].0, poly[i + 1].1 - poly[i].1)
  }

  /** The determinant `det` of the 2x2 system for edge i and direction
      (dx, dy). */
  function EdgeDet(poly: seq<Point>, i: int, dx: real, dy: real): real
    requires 0 <= i < |poly| - 1
  {
    var (vx, vy) := EdgeVec(poly, i);
    dx * (-vy) - (-vx) * dy
  }

  /** `r`: the distance along the ray at which it meets the edge's line. */
  function EdgeRadius(poly: seq<Point>, i: int, dx: real, dy: real): real
    requires 0 <= i < |poly| - 1 && EdgeDet(poly, i, dx, dy) != 0.0
  {
    var (x1, y1) := poly[i];
    var (vx, vy) := EdgeVec(poly, i);
    (x1 * (-vy) - (-vx) * y1) / EdgeDet(poly, i, dx, dy)
  }

  /** `u`: where along the edge that meeting point lies. */
  function EdgeParam(poly: seq<Point>, i: int, dx: real, dy: real): real
    requires 0 <= i < |poly| - 1 && EdgeDet(poly, i, dx, dy) != 0.0
  {
    var (x1, y1) := poly[i];
    (dx * y1 - dy * x1) / EdgeDet(poly, i, dx, dy)
  }

  /** The radius at which the ray from the centre in direction (dx, dy)
      crosses edge i, if the edge counts: it is not near-parallel, the
      crossing is ahead of the centre and within the edge. The answer then
      really puts the ray's point on the edge. */
  function EdgeHit(poly: seq<Point>, i: int, dx: real, dy: real): (r: Option<real>)
    requires 0 <= i < |poly| - 1
    ensures r.Some? ==> r.value >= 0.0 && Abs(EdgeDet(poly, i, dx, dy)) >= DetEpsilon
    ensures r.Some? ==> exists u :: RayMeetsEdge(poly, i, u, r.value, dx, dy)
  {
    if Abs(EdgeDet(poly, i, dx, dy)) < DetEpsilon then None
    else
      var r := EdgeRadius(poly, i, dx, dy);
      var u := EdgeParam(poly, i, dx, dy);
      if r >= 0.0 && 0.0 <= u <= 1.0 then
        SolveEdge(poly[i].0, poly[i].1, EdgeVec(poly, i).0, EdgeVec(poly, i).1, dx, dy, EdgeDet(poly, i, dx, dy), r, u);
        assert RayMeetsEdge(poly, i, u, r, dx, dy);
        Some(r)
      else None
  }

  /** Conversely, a crossing of a non-parallel edge, ahead of the centre and
      within the edge, is found, with its radius. */
  lemma EdgeHitComplete(poly: seq<Point>, i: int, dx: real, dy: real, r0: real, u0: real)
    requires 0 <= i < |poly| - 1
    requires Abs(EdgeDet(poly, i, dx, dy)) >= DetEpsilon
    requires r0 >= 0.0 && RayMeetsEdge(poly, i, u0, r0, dx, dy)
    ensures EdgeHit(poly, i, dx, dy) == Some(r0)
  {
    UniqueSolution(poly[i].0, poly[i].1, EdgeVec(poly, i).0, EdgeVec(poly, i).1, dx, dy, EdgeDet(poly, i, dx, dy), r0, u0);
    assert EdgeRadius(poly, i, dx, dy) == r0;
    assert EdgeParam(poly, i, dx, dy) == u0;
  }

  /** Cramer's rule, forwards: the quotients solve the system
      r * (dx, dy) = (x1, y1) + u * (vx, vy). */
  lemma SolveEdge(x1: real, y1: real, vx: real, vy: real, dx: real, dy: real, det: real, r: real, u: real)
    requires det == dx * (-vy) - (-vx) * dy && det != 0.0
    requires r == (x1 * (-vy) - (-vx) * y1) / det && u == (dx * y1 - dy * x1) / det
    ensures r * dx == x1 + u * vx && r * dy == y1 + u * vy
  {
    assert r * det == x1 * (-vy) - (-vx) * y1;
    assert u * det == dx * y1 - dy * x1;
    assert (r * dx - u * vx) * det == (r * det) * dx - (u * det) * vx;
    assert (r * dx - u * vx) * det == x1 * det;
    assert (r * dy - u * vy) * det == (r * det) * dy - (u * det) * vy;
    assert (r * dy - u * vy) * det == y1 * det;
  }

  /** Cramer's rule, backwards: any solution of the system is the quotients. */
  lemma UniqueSolution(x1: real, y1: real, vx: real, vy: real, dx: real, dy: real, det: real, r: real, u: real)
    requires det == dx * (-vy) - (-vx) * dy && det != 0.0
    requires r * dx == x1 + u * vx && r * dy == y1 + u * vy
    ensures r == (x1 * (-vy) - (-vx) * y1) / det && u == (dx * y1 - dy * x1) / det
  {
    assert r * det == (r * dx) * (-vy) + vx * (r * dy);
    assert r * det == x1 * (-vy) - (-vx) * y1;
    assert r == (r * det) / det;
    assert u * vx == r * dx - x1 && u * vy == r * dy - y1;
    assert u * det == -dx * (u * vy) + dy * (u * vx);
    assert u * det == -dx * (r * dy - y1) + dy * (r * dx - x1);
    assert u * det == dx * y1 - dy * x1;
    assert u == (u * det) / det;
  }

  /** `ray_intersect_radius` with the ray's direction (cos, sin of the angle)
      passed in: the smallest radius among the edges that count, or 100.0
      when none does. */
  method RayIntersectRadius(poly: seq<Point>, dx: real, dy: real) returns (radius: real)
    ensures radius >= 0.0
    ensures (exists i :: 0 <= i < |poly| - 1 && EdgeHit(poly, i, dx, dy).Some?) ==>
              (exists i :: 0 <= i < |poly| - 1 && EdgeHit(poly, i, dx, dy) == Some(radius))
    ensures forall i :: 0 <= i < |poly| - 1 && EdgeHit(poly, i, dx, dy).Some? ==> radius <= EdgeHit(poly, i, dx, dy).value
    ensures (forall i :: 0 <= i < |poly| - 1 ==> EdgeHit(poly, i, dx, dy).None?) ==> radius == NoHitRadius
  {
    var best: Option<real> := None;
    var i := 0;
    while i < |poly| - 1
      invariant 0 <= i && (i == 0 || i <= |poly| - 1)
      invariant best.None? ==> forall k :: 0 <= k < i && k < |poly| - 1 ==> EdgeHit(poly, k, dx, dy).None?
      invariant best.Some? ==> best.value >= 0.0
      invariant best.Some? ==> exists k :: 0 <= k < i && k < |poly| - 1 && EdgeHit(poly, k, dx, dy) == best
      invariant best.Some? ==> forall k :: 0 <= k < i && k < |poly| - 1 && EdgeHit(poly, k, dx, dy).Some? ==>
                  best.value <= EdgeHit(poly, k, dx, dy).value
    {
      var hit := EdgeHit(poly, i, dx, dy);
      if hit.Some? && (best.None? || hit.value < best.value) {
        best := hit;
      }
      i := i + 1;
    }
    radius := if best.Some? then best.value else NoHitRadius;
  }

  // ---------------------------------------------------------------------
  // Which labels are drawn
  // ---------------------------------------------------------------------

  /** The `density_map` lookup, 0.5 for an unknown density. */
  function DensityFraction(density: string): (f: real)
    ensures 0.25 <= f <= 1.0
    ensures density == "full" <==> f == 1.0
    ensures density !in {"low", "medium", "high", "full"} ==> f == 0.5
  {
    if density == "low" then 0.25
    else if density == "medium" then 0.5
    else if density == "high" then 0.75
    else if density == "full" then 1.0
    else 0.5
  }

  /** The sort key of segment i: its arc length at radius R, then its index. */
  function ArcInfo(angles: seq<(real, real)>): (info: seq<(real, int)>)
    ensures |info| == |angles|
    ensures forall i :: 0 <= i < |angles| ==> info[i] == ((angles[i].1 - angles[i].0) * Radius, i)
  {
    seq(|angles|, i requires 0 <= i < |angles| => ((angles[i].1 - angles[i].0) * Radius, i))
  }

  /** Descending tuple order, as `sort(reverse=True)` leaves it. */
  function KeyGe(a: (real, int), b: (real, int)): bool
  {
    a.0 > b.0 || (a.0 == b.0 && a.1 >= b.1)
  }

  lemma KeyGeTotalPreorder()
    ensures TotalPreorder(KeyGe)
  {
  }

  /** `int(len(segments) * frac)`. */
  function LabelQuota(n: nat, frac: real): (upto: int)
    requires 0.0 <= frac <= 1.0
    ensures 0 <= upto <= n
  {
    var x := n as real * frac;
    assert 0.0 <= x <= n as real;
    x.Floor
  }

  /** The indices whose label is drawn. With labels outside the heart: in
      juz mode all of them; in surah mode the first `int(n * frac)` of the
      (arc length, index) keys sorted from the largest; in any other mode
      none. With labels hidden, none. */
  function ShownLabels(angles: seq<(real, real)>, mode: string, density: string, outside: bool): (shown: set<int>)
    ensures forall i :: i in shown ==> 0 <= i < |angles|
    ensures !outside ==> shown == {}
    ensures outside && mode == "juz" ==> forall i :: 0 <= i < |angles| ==> i in shown
    ensures outside && mode != "juz" && mode != "surah" ==> shown == {}
    ensures outside && mode == "surah" ==> |shown| == LabelQuota(|angles|, DensityFraction(density))
    ensures outside && mode == "surah" ==>
              forall i, j :: i in shown && 0 <= j < |angles| && j !in shown ==> KeyGe(ArcInfo(angles)[i], ArcInfo(angles)[j])
  {
    if !outside then {}
    else if mode == "juz" then Intervals.Span(0, |angles| - 1)
    else if mode == "surah" then
      var info := ArcInfo(angles);
      KeyGeTotalPreorder();
      var sorted := Sort(info, KeyGe);
      var upto := LabelQuota(|angles|, DensityFraction(density));
      SortedKeysFacts(info, sorted);
      var shown := FirstIndices(sorted, upto);
      FirstKeysCount(sorted, upto);
      ShownBeatHidden(info, sorted, upto);
      shown
    else {}
  }

  /** Every key among the first `upto` of the sorted keys is `KeyGe` every
      key left out. */
  lemma ShownBeatHidden(info: seq<(real, int)>, sorted: seq<(real, int)>, upto: int)
    requires TotalPreorder(KeyGe) && SortedBy(sorted, KeyGe)
    requires 0 <= upto <= |sorted| == |info|
    requires forall i :: 0 <= i < |info| ==> info[i].1 == i
    requires forall k :: 0 <= k < |sorted| ==> 0 <= sorted[k].1 < |info| && sorted[k] == info[sorted[k].1]
    requires forall j :: 0 <= j < |info| ==> info[j] in sorted
    ensures forall i, j :: i in FirstIndices(sorted, upto) && 0 <= j < |info| && j !in FirstIndices(sorted, upto) ==> KeyGe(info[i], info[j])
  {
    var shown := FirstIndices(sorted, upto);
    forall i, j | i in shown && 0 <= j < |info| && j !in shown
      ensures KeyGe(info[i], info[j])
    {
      var k :| 0 <= k < upto && sorted[k].1 == i;
      var m :| 0 <= m < |sorted| && sorted[m] == info[j];
      assert m >= upto;
    }
  }

  /** The sorted keys are the original keys, each index exactly once. */
  lemma SortedKeysFacts(info: seq<(real, int)>, sorted: seq<(real, int)>)
    requires forall i :: 0 <= i < |info| ==> info[i].1 == i
    requires multiset(sorted) == multiset(info)
    ensures |sorted| == |info|
    ensures forall k :: 0 <= k < |sorted| ==> 0 <= sorted[k].1 < |info| && sorted[k] == info[sorted[k].1]
    ensures forall k, m :: 0 <= k < m < |sorted| ==> sorted[k].1 != sorted[m].1
    ensures forall j :: 0 <= j < |info| ==> info[j] in sorted
  {
    assert |sorted| == |multiset(sorted)| == |multiset(info)| == |info|;
    SameElements(sorted, info);
    forall k | 0 <= k < |sorted|
      ensures 0 <= sorted[k].1 < |info| && sorted[k] == info[sorted[k].1]
    {
      assert sorted[k] in info;
    }
    forall k, m | 0 <= k < m < |sorted|
      ensures sorted[k].1 != sorted[m].1
    {
      if sorted[k].1 == sorted[m].1 {
        var x := sorted[k];
        TwoPositionsCount(sorted, k, m);
        DistinctCount(info, x);
        assert false;
      }
    }
  }

  /** An element at two positions occurs at least twice. */
  lemma TwoPositionsCount<T>(s: seq<T>, k: int, m: int)
    requires 0 <= k < m < |s| && s[k] == s[m]
    ensures multiset(s)[s[k]] >= 2
  {
    assert s == s[..k] + [s[k]] + s[k + 1..m] + [s[m]] + s[m + 1..];
  }

  /** In a sequence whose i-th element carries index i, nothing occurs twice. */
  lemma {:induction false} DistinctCount(info: seq<(real, int)>, x: (real, int))
    requires forall i :: 0 <= i < |info| ==> info[i].1 == i
    ensures multiset(info)[x] <= 1
  {
    if |info| > 0 {
      var init := info[..|info| - 1];
      DistinctCount(init, x);
      assert info == init + [info[|info| - 1]];
      if x == info[|info| - 1] {
        assert x !in init;
      }
    }
  }

  /** The indices carried by the first upto keys. */
  function FirstIndices(sorted: seq<(real, int)>, upto: int): (r: set<int>)
    requires 0 <= upto <= |sorted|
    ensures forall i :: i in r <==> exists k :: 0 <= k < upto && sorted[k].1 == i
  {
    set k | 0 <= k < upto :: sorted[k].1
  }

  /** The first upto keys carry upto different indices. */
  lemma {:induction false} FirstKeysCount(sorted: seq<(real, int)>, upto: int)
    requires 0 <= upto <= |sorted|
    requires forall k, m :: 0 <= k < m < |sorted| ==> sorted[k].1 != sorted[m].1
    ensures |FirstIndices(sorted, upto)| == upto
  {
    if upto > 0 {
      FirstKeysCount(sorted, upto - 1);
      var before := FirstIndices(sorted, upto - 1);
      assert FirstIndices(sorted, upto) == before + {sorted[upto - 1].1};
      assert sorted[upto - 1].1 !in before;
    } else {
      assert FirstIndices(sorted, upto) == {};
    }
  }

  // ---------------------------------------------------------------------
  // Label text and hit-region links
  // ---------------------------------------------------------------------

  function DigitChar(d: int): (c: char)
    requires 0 <= d < 10
    ensures '0' <= c <= '9' && c as int - '0' as int == d
  {
    (d + '0' as int) as char
  }

  /** `str(n)` for n >= 0. */
  function NatText(n: nat): (t: string)
    ensures |t| > 0
    ensures forall i :: 0 <= i < |t| ==> '0' <= t[i] <= '9'
  {
    if n < 10 then [DigitChar(n)] else NatText(n / 10) + [DigitChar(n % 10)]
  }

  /** `str(n)` for any int. */
  function IntText(n: int): (t: string)
    ensures |t| > 0
    ensures forall i :: 0 < i < |t| ==> '0' <= t[i] <= '9'
    ensures t[0] == '-' || '0' <= t[0] <= '9'
  {
    if n < 0 then "-" + NatText(-n) else NatText(n)
  }

  function ParseNat(t: string): int
  {
    if |t| == 0 then 0 else ParseNat(t[..|t| - 1]) * 10 + (t[|t| - 1] as int - '0' as int)
  }

  /** Reads a decimal integer back, with an optional leading minus. */
  function ParseInt(t: string): int
  {
    if |t| > 0 && t[0] == '-' then -ParseNat(t[1..]) else ParseNat(t)
  }

  lemma {:induction false} NatTextRoundTrip(n: nat)
    ensures ParseNat(NatText(n)) == n
  {
    if n >= 10 {
      NatTextRoundTrip(n / 10);
      var t := NatText(n);
      assert t[..|t| - 1] == NatText(n / 10);
    }
  }

  /** `str` of an int reads back as that int, so it tells ints apart. */
  lemma IntTextRoundTrip(n: int)
    ensures ParseInt(IntText(n)) == n
  {
    if n < 0 {
      NatTextRoundTrip(-n);
      assert IntText(n)[1..] == NatText(-n);
    } else {
      NatTextRoundTrip(n);
      assert IntText(n)[0] != '-';
    }
  }

  /** The text of a drawn label: in surah mode the segment's `sid`; in juz
      mode its `page_no` when it has one; otherwise its `label`, then its
      `id`, then nothing. */
  function LabelText(s: Segment, mode: string): (t: string)
    ensures mode == "surah" && s.sid.Some? ==> ParseInt(t) == s.sid.value
    ensures mode == "juz" && s.pageNo.Some? ==> ParseInt(t) == s.pageNo.value
    ensures mode == "surah" && s.sid.None? ==> t == ""
    ensures mode != "surah" && !(mode == "juz" && s.pageNo.Some?) && s.caption.Some? ==> t == s.caption.value
    ensures mode != "surah" && !(mode == "juz" && s.pageNo.Some?) && s.caption.None? && s.id.Some? ==>
              ParseInt(t) == s.id.value
    ensures mode != "surah" && !(mode == "juz" && s.pageNo.Some?) && s.caption.None? && s.id.None? ==> t == ""
  {
    if mode == "surah" then
      if s.sid.Some? then IntTextRoundTrip(s.sid.value); IntText(s.sid.value) else ""
    else if mode == "juz" && s.pageNo.Some? then
      IntTextRoundTrip(s.pageNo.value);
      IntText(s.pageNo.value)
    else if s.caption.Some? then s.caption.value
    else if s.id.Some? then IntTextRoundTrip(s.id.value); IntText(s.id.value)
    else ""
  }

  /** The `sid` query parameter: empty when the student id is 0. */
  function SidParam(sid: int): string
  {
    if sid != 0 then IntText(sid) else ""
  }

  /** The `seg` query parameter: `str(s.get("id"))`, "None" when absent. */
  function SegParam(id: Option<int>): string
  {
    if id.Some? then IntText(id.value) else "None"
  }

  /** The transparent, clickable sector laid over one segment. */
  datatype HitRegion = HitRegion(href: string, start: real, end: real)

  const HrefHead: string := "?page=main&sid="

  /** One hit region per segment, over the segment's own sector, whose link
      carries the student, the mode as `dlg` and the segment id as `seg`. */
  function HitRegions(segs: seq<Segment>, angles: seq<(real, real)>, mode: string, sid: int): (r: seq<HitRegion>)
    requires |angles| == |segs|
    ensures |r| == |segs|
    ensures forall i :: 0 <= i < |segs| ==> r[i].start == angles[i].0 && r[i].end == angles[i].1
    ensures forall i :: 0 <= i < |segs| ==> r[i].href == HrefOf(segs[i], mode, sid)
  {
    seq(|segs|, i requires 0 <= i < |segs| => HitRegion(HrefOf(segs[i], mode, sid), angles[i].0, angles[i].1))
  }

  /** The link of one segment, split into the part shared by all segments
      and the segment's own `seg` value. */
  function HrefOf(s: Segment, mode: string, sid: int): (h: string)
    ensures h == HrefPrefix(mode, sid) + SegParam(s.id)
    ensures h[..|HrefHead|] == HrefHead
  {
    HrefHead + SidParam(sid) + "&dlg=" + mode + "&seg=" + SegParam(s.id)
  }

  function HrefPrefix(mode: string, sid: int): string
  {
    HrefHead + SidParam(sid) + "&dlg=" + mode + "&seg="
  }

  /** Segments with different ids get different links, so a click always
      names the segment it was on. */
  lemma HrefsTellSegmentsApart(a: Segment, b: Segment, mode: string, sid: int)
    requires a.id != b.id
    ensures HrefOf(a, mode, sid) != HrefOf(b, mode, sid)
  {
    var p := HrefPrefix(mode, sid);
    var sa, sb := SegParam(a.id), SegParam(b.id);
    if HrefOf(a, mode, sid) == HrefOf(b, mode, sid) {
      assert sa == (p + sa)[|p|..] == (p + sb)[|p|..] == sb;
      if a.id.Some? && b.id.Some? {
        IntTextRoundTrip(a.id.value);
        IntTextRoundTrip(b.id.value);
      }
    }
  }

  /** The text split at every `&`, as a query string is read back into its
      parameters. */
  function Fields(h: string): (r: seq<string>)
    ensures |r| >= 1
  {
    if |h| == 0 then [""]
    else if h[|h| - 1] == '&' then Fields(h[..|h| - 1]) + [""]
    else
      var f := Fields(h[..|h| - 1]);
      f[..|f| - 1] + [f[|f| - 1] + [h[|h| - 1]]]
  }

  lemma {:induction false} FieldsJoin(p: string, q: string)
    ensures Fields(p + "&" + q) == Fields(p) + Fields(q)
    decreases |q|
  {
    var h := p + "&" + q;
    if |q| == 0 {
      assert h[..|h| - 1] == p;
    } else {
      var q', x := q[..|q| - 1], q[|q| - 1];
      assert h[..|h| - 1] == p + "&" + q';
      assert h[|h| - 1] == x;
      FieldsJoin(p, q');
      var fp, fq := Fields(p), Fields(q');
      var f := fp + fq;
      assert Fields(h[..|h| - 1]) == f;
      if x == '&' {
        assert Fields(h) == f + [""];
        assert Fields(q) == fq + [""];
      } else {
        assert Fields(h) == f[..|f| - 1] + [f[|f| - 1] + [x]];
        assert Fields(q) == fq[..|fq| - 1] + [fq[|fq| - 1] + [x]];
        ExtendLastField(fp, fq, x);
      }
    }
  }

  /** Extending the last field of fp + fq extends the last field of fq. */
  lemma ExtendLastField(fp: seq<string>, fq: seq<string>, x: char)
    requires |fq| >= 1
    ensures
      var f := fp + fq;
      f[..|f| - 1] + [f[|f| - 1] + [x]] == fp + (fq[..|fq| - 1] + [fq[|fq| - 1] + [x]])
  {
    var f := fp + fq;
    assert f[..|f| - 1] == fp + fq[..|fq| - 1];
  }

  lemma {:induction false} FieldsOfPlain(q: string)
    requires '&' !in q
    ensures Fields(q) == [q]
    decreases |q|
  {
    if |q| > 0 {
      var q' := q[..|q| - 1];
      FieldsOfPlain(q');
      assert q' + [q[|q| - 1]] == q;
    }
  }

  lemma SegParamPlain(id: Option<int>)
    ensures '&' !in SegParam(id)
  {
    if id.Some? {
      var t := IntText(id.value);
      assert forall i :: 0 <= i < |t| ==> t[i] != '&';
    }
  }

  lemma SidParamPlain(sid: int)
    ensures '&' !in SidParam(sid)
  {
    if sid != 0 {
      var t := IntText(sid);
      assert forall i :: 0 <= i < |t| ==> t[i] != '&';
    }
  }

  /** Parts joined by `&` split back into their own fields. */
  lemma FieldsOfFour(p: string, a: string, b: string, c: string)
    requires '&' !in p && '&' !in a && '&' !in c
    ensures Fields(p + "&" + a + "&" + b + "&" + c) == [p, a] + Fields(b) + [c]
  {
    FieldsOfPlain(p);
    FieldsOfPlain(a);
    FieldsOfPlain(c);
    var pa := p + "&" + a;
    var pab := pa + "&" + b;
    FieldsJoin(p, a);
    assert Fields(pa) == [p, a];
    FieldsJoin(pa, b);
    assert Fields(pab) == [p, a] + Fields(b);
    FieldsJoin(pab, c);
  }

  /** The link is its four parameters joined by `&`. */
  lemma HrefJoin(s: Segment, mode: string, sid: int)
    ensures HrefOf(s, mode, sid) ==
              "?page=main" + "&" + ("sid=" + SidParam(sid)) + "&" + ("dlg=" + mode) + "&" + ("seg=" + SegParam(s.id))
  {
    var page, amp := "?page=main", "&";
    var sidKey, dlgKey, segKey := "sid=", "dlg=", "seg=";
    assert HrefHead == page + amp + sidKey;
    assert "&dlg=" == amp + dlgKey;
    assert "&seg=" == amp + segKey;
    Regroup(page, amp, sidKey, SidParam(sid), dlgKey, mode, segKey, SegParam(s.id));
  }

  lemma Regroup<T>(p: seq<T>, amp: seq<T>, k1: seq<T>, v1: seq<T>, k2: seq<T>, v2: seq<T>, k3: seq<T>, v3: seq<T>)
    ensures (p + amp + k1) + v1 + (amp + k2) + v2 + (amp + k3) + v3
            == p + amp + (k1 + v1) + amp + (k2 + v2) + amp + (k3 + v3)
  {
  }

  lemma PlainParts(sp: string, seg: string)
    requires '&' !in sp && '&' !in seg
    ensures '&' !in "?page=main" && '&' !in "sid=" + sp && '&' !in "seg=" + seg
  {
  }

  lemma DlgField(mode: string)
    requires '&' !in mode
    ensures Fields("dlg=" + mode) == ["dlg=" + mode]
  {
    var b := "dlg=" + mode;
    assert forall i :: 0 <= i < |b| ==> b[i] != '&' by {
      forall i | 0 <= i < |b| ensures b[i] != '&' {
        if i >= 4 {
          assert b[i] == mode[i - 4];
        }
      }
    }
    FieldsOfPlain(b);
  }

  /** A segment's link splits into its query parameters: the page, the
      student (`sid`), the fields of the mode (`dlg`) and, last, the
      segment (`seg`). */
  lemma HrefFields(s: Segment, mode: string, sid: int)
    ensures Fields(HrefOf(s, mode, sid)) ==
              ["?page=main", "sid=" + SidParam(sid)] + Fields("dlg=" + mode) + ["seg=" + SegParam(s.id)]
  {
    var page := "?page=main";
    var a, b, c := "sid=" + SidParam(sid), "dlg=" + mode, "seg=" + SegParam(s.id);
    SegParamPlain(s.id);
    SidParamPlain(sid);
    PlainParts(SidParam(sid), SegParam(s.id));
    HrefJoin(s, mode, sid);
    FieldsOfFour(page, a, b, c);
  }

  /** A mode without `&`, as every mode of the heart is, gives exactly the
      four parameters. */
  lemma HrefFourFields(s: Segment, mode: string, sid: int)
    requires '&' !in mode
    ensures Fields(HrefOf(s, mode, sid)) == ["?page=main", "sid=" + SidParam(sid), "dlg=" + mode, "seg=" + SegParam(s.id)]
  {
    HrefFields(s, mode, sid);
    DlgField(mode);
  }

  /** The student and the segment id are read back from their parameters
      in the link; a missing id reads as "None". */
  lemma HrefReadBack(s: Segment, mode: string, sid: int)
    ensures
      var f := Fields(HrefOf(s, mode, sid));
      && |f| >= 4
      && f[|f| - 1] == "seg=" + SegParam(s.id)
      && (s.id.Some? ==> ParseInt(f[|f| - 1][4..]) == s.id.value)
      && (s.id.None? ==> f[|f| - 1][4..] == "None")
      && f[1] == "sid=" + SidParam(sid)
      && (sid != 0 ==> ParseInt(f[1][4..]) == sid)
  {
    HrefFields(s, mode, sid);
    var f := Fields(HrefOf(s, mode, sid));
    var a, c := "sid=" + SidParam(sid), "seg=" + SegParam(s.id);
    var g := Fields("dlg=" + mode);
    LastAndSecond(f, "?page=main", a, g, c);
    ValueAfterKey("seg=", SegParam(s.id));
    ValueAfterKey("sid=", SidParam(sid));
    if s.id.Some? {
      IntTextRoundTrip(s.id.value);
    }
    if sid != 0 {
      IntTextRoundTrip(sid);
    }
  }

  lemma LastAndSecond(f: seq<string>, p: string, a: string, g: seq<string>, c: string)
    requires |g| >= 1 && f == [p, a] + g + [c]
    ensures |f| >= 4 && f[|f| - 1] == c && f[1] == a
  {
  }

  lemma ValueAfterKey(key: string, v: string)
    requires |key| == 4
    ensures (key + v)[4..] == v
  {
  }
}
