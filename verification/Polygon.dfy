/**
 * Point-in-polygon with holes and its bounding-box fast path (packages/matching/src/polygon.ts and geo.ts), on
 * projected real coordinates. Distances are compared by their squares; "no edge at all" is an absent distance.
 */
module Polygon {
  import opened Common

  datatype XY = XY(x: real, y: real)
  type Ring = seq<XY>

  /** The bounding box of no points at all is empty. */
  datatype BBox = Empty | Box(minX: real, maxX: real, minY: real, maxY: real)

  /** Polygons, each an outer ring followed by its holes, with the box of the outer rings. */
  datatype Prepared = Prepared(multi: seq<seq<Ring>>, bbox: BBox)

  // ---------------------------------------------------------------- ray casting

  function Prev(ring: Ring, i: nat): XY
    requires i < |ring|
  {
    if i == 0 then ring[|ring| - 1] else ring[i - 1]
  }

  predicate Straddles(p: XY, a: XY, b: XY) { (a.y > p.y) != (b.y > p.y) }

  /** Where the edge's line meets the ray's. */
  function CrossingX(p: XY, a: XY, b: XY): real
    requires a.y != b.y
  {
    (b.x - a.x) * (p.y - a.y) / (b.y - a.y) + a.x
  }

  predicate Crosses(p: XY, a: XY, b: XY) {
    Straddles(p, a, b) && p.x < CrossingX(p, a, b)
  }

  /** Whether the ray has crossed an odd number of the first n edges. */
  function OddCrossings(p: XY, ring: Ring, n: nat): bool
    requires n <= |ring|
  {
    n > 0 && (OddCrossings(p, ring, n - 1) != Crosses(p, ring[n - 1], Prev(ring, n - 1)))
  }

  function InRing(p: XY, ring: Ring): bool { OddCrossings(p, ring, |ring|) }

  method PointInPolygonXY(p: XY, ring: Ring) returns (inside: bool)
    ensures inside == InRing(p, ring)
  {
    inside := false;
    var i, j := 0, |ring| - 1;
    while i < |ring|
      invariant 0 <= i <= |ring| && j == (if i == 0 then |ring| - 1 else i - 1)
      invariant inside == OddCrossings(p, ring, i)
    {
      if Crosses(p, ring[i], ring[j]) { inside := !inside; }
      j := i;
      i := i + 1;
    }
  }

  // ---------------------------------------------------------------- distance

  function LengthSq(dx: real, dy: real): real { dx * dx + dy * dy }

  function DistSq(p: XY, q: XY): real { LengthSq(p.x - q.x, p.y - q.y) }

  /** How far p lies from a in the direction of b, times the distance from a to b. */
  function Dot(p: XY, a: XY, b: XY): real { (p.x - a.x) * (b.x - a.x) + (p.y - a.y) * (b.y - a.y) }

  function Clamp(t: real): real { Max(0.0, Min(1.0, t)) }

  /** How far along segment ab, of the given squared length, the projection of p falls. */
  function Along(p: XY, a: XY, b: XY, lengthSquared: real): (t: real)
    requires lengthSquared != 0.0
    ensures 0.0 <= t <= 1.0
  {
    Clamp(Dot(p, a, b) / lengthSquared)
  }

  function PointAt(a: XY, b: XY, t: real): XY {
    XY(a.x + t * (b.x - a.x), a.y + t * (b.y - a.y))
  }

  /** The point of segment ab nearest to p. */
  function Nearest(p: XY, a: XY, b: XY): XY {
    if DistSq(b, a) == 0.0 then a else PointAt(a, b, Along(p, a, b, DistSq(b, a)))
  }

  function SegmentDistSq(p: XY, a: XY, b: XY): real { DistSq(p, Nearest(p, a, b)) }

  function Closer(d: Option<real>, e: real): Option<real> {
    if d.Some? && d.value <= e then d else Some(e)
  }

  function EdgesDistSq(p: XY, ring: Ring, n: nat): Option<real>
    requires n <= |ring|
  {
    if n == 0 then None else Closer(EdgesDistSq(p, ring, n - 1), SegmentDistSq(p, Prev(ring, n - 1), ring[n - 1]))
  }

  predicate Reaches(d: Option<real>, limitSq: real) { d.Some? && d.value <= limitSq }

  // ---------------------------------------------------------------- rounding

  /** Rounds to two decimals, halves up, as both sides of a distance comparison are. */
  function RoundTo2(x: real): real { (x * 100.0 + 0.5).Floor as real / 100.0 }

  /** The whole number of hundredths within half a hundredth of x, the larger one if there are two. */
  lemma RoundTo2Meaning(x: real)
    ensures (RoundTo2(x) * 100.0).Floor as real == RoundTo2(x) * 100.0
    ensures x - 0.005 < RoundTo2(x) <= x + 0.005
  {
    assert RoundTo2(x) * 100.0 == (x * 100.0 + 0.5).Floor as real;
  }

  /** The least number that rounds to more than x does. */
  function Cutoff(x: real): real { ((x * 100.0 + 0.5).Floor as real + 0.5) / 100.0 }

  /** A distance, given by its square, that rounds to no more than the limit does; no edge at all is infinitely far. */
  predicate ReachesRounded(dSq: Option<real>, limit: real) {
    dSq.Some? && dSq.value < Cutoff(limit) * Cutoff(limit)
  }

  lemma CutoffIsAbove(x: real)
    ensures x < Cutoff(x) <= x + 0.01
  {
  }

  lemma ProductSign(x: real, y: real)
    requires y > 0.0
    ensures x * y > 0.0 <==> x > 0.0
  {
  }

  lemma SquaresOrdered(a: real, b: real)
    requires 0.0 <= a && 0.0 < b
    ensures a < b <==> a * a < b * b
  {
    ProductSign(b - a, b + a);
    assert (b - a) * (b + a) == b * b - a * a;
  }

  /** Comparing squares with the cutoff is comparing the rounded distances. */
  lemma RoundedComparison(d: real, limit: real)
    requires d >= 0.0 && limit >= 0.0
    ensures ReachesRounded(Some(d * d), limit) <==> RoundTo2(d) <= RoundTo2(limit)
  {
    CutoffIsAbove(limit);
    SquaresOrdered(d, Cutoff(limit));
    var u, v := d * 100.0 + 0.5, limit * 100.0 + 0.5;
    assert d < Cutoff(limit) <==> u < v.Floor as real + 1.0;
    assert u < v.Floor as real + 1.0 <==> u.Floor <= v.Floor;
  }

  method DistanceToRingBoundarySq(p: XY, ring: Ring) returns (min: Option<real>)
    ensures min == EdgesDistSq(p, ring, |ring|)
  {
    min := None;
    var i, j := 0, |ring| - 1;
    while i < |ring|
      invariant 0 <= i <= |ring| && j == (if i == 0 then |ring| - 1 else i - 1)
      invariant min == EdgesDistSq(p, ring, i)
    {
      var d := SegmentDistSq(p, ring[j], ring[i]);
      if min.None? || d < min.value { min := Some(d); }
      j := i;
      i := i + 1;
    }
  }

  ghost predicate IsEdge(multi: seq<seq<Ring>>, k: int, m: int, i: int) {
    0 <= k < |multi| && 0 <= m < |multi[k]| && 0 <= i < |multi[k][m]|
  }

  ghost predicate NearEdge(p: XY, multi: seq<seq<Ring>>, k: int, m: int, i: int, limitSq: real)
    requires IsEdge(multi, k, m, i)
  {
    SegmentDistSq(p, Prev(multi[k][m], i), multi[k][m][i]) <= limitSq
  }

  /** Some edge of some ring comes within the limit. */
  ghost predicate NearSomeEdge(p: XY, g: Prepared, limitSq: real) {
    exists k, m, i :: IsEdge(g.multi, k, m, i) && NearEdge(p, g.multi, k, m, i, limitSq)
  }

  lemma {:induction false} EdgesReach(p: XY, ring: Ring, n: nat, limitSq: real)
    requires n <= |ring|
    ensures Reaches(EdgesDistSq(p, ring, n), limitSq) <==>
      exists i :: 0 <= i < n && SegmentDistSq(p, Prev(ring, i), ring[i]) <= limitSq
  {
    if n > 0 { EdgesReach(p, ring, n - 1, limitSq); }
  }

  lemma SquareNonNegative(a: real)
    ensures a * a >= 0.0
  {
  }

  function Combine(a: Option<real>, b: Option<real>): Option<real> {
    if b.Some? && (a.None? || b.value < a.value) then b else a
  }

  /** The minimum after all rings of the first k polygons and m rings of the next. */
  function WalkDistSq(p: XY, multi: seq<seq<Ring>>, k: nat, m: nat): Option<real>
    requires k <= |multi| && (if k < |multi| then m <= |multi[k]| else m == 0)
    decreases k, m
  {
    if m > 0 then Combine(WalkDistSq(p, multi, k, m - 1), EdgesDistSq(p, multi[k][m - 1], |multi[k][m - 1]|))
    else if k > 0 then WalkDistSq(p, multi, k - 1, |multi[k - 1]|)
    else None
  }

  /** Some edge of a ring walked before ring (k, m) comes within the limit. */
  ghost predicate NearBefore(p: XY, multi: seq<seq<Ring>>, k: nat, m: nat, limitSq: real) {
    exists k', m', i :: IsEdge(multi, k', m', i) && (k' < k || (k' == k && m' < m))
      && NearEdge(p, multi, k', m', i, limitSq)
  }

  lemma {:induction false} WalkReaches(p: XY, multi: seq<seq<Ring>>, k: nat, m: nat, limitSq: real)
    requires k <= |multi| && (if k < |multi| then m <= |multi[k]| else m == 0)
    ensures Reaches(WalkDistSq(p, multi, k, m), limitSq) <==> NearBefore(p, multi, k, m, limitSq)
    decreases k, m
  {
    if m > 0 {
      var ring := multi[k][m - 1];
      WalkReaches(p, multi, k, m - 1, limitSq);
      EdgesReach(p, ring, |ring|, limitSq);
      if i :| 0 <= i < |ring| && SegmentDistSq(p, Prev(ring, i), ring[i]) <= limitSq {
        assert IsEdge(multi, k, m - 1, i) && NearEdge(p, multi, k, m - 1, i, limitSq);
      }
    } else if k > 0 {
      WalkReaches(p, multi, k - 1, |multi[k - 1]|, limitSq);
    }
  }

  /** The minimum over every ring, leaving early at distance zero; what a limit test on it means. */
  method MinDistanceToAnyRingSq(p: XY, g: Prepared) returns (min: Option<real>)
    ensures forall limitSq :: limitSq >= 0.0 ==> (Reaches(min, limitSq) <==> NearSomeEdge(p, g, limitSq))
  {
    min := None;
    for k := 0 to |g.multi|
      invariant min == WalkDistSq(p, g.multi, k, 0)
    {
      for m := 0 to |g.multi[k]|
        invariant min == WalkDistSq(p, g.multi, k, m)
      {
        var d := DistanceToRingBoundarySq(p, g.multi[k][m]);
        if d.Some? && (min.None? || d.value < min.value) { min := d; }
        if min == Some(0.0) {
          forall limitSq | limitSq >= 0.0 ensures Reaches(min, limitSq) && NearSomeEdge(p, g, limitSq) {
            WalkReaches(p, g.multi, k, m + 1, limitSq);
          }
          return min;
        }
      }
    }
    forall limitSq ensures Reaches(min, limitSq) <==> NearSomeEdge(p, g, limitSq) {
      WalkReaches(p, g.multi, |g.multi|, 0, limitSq);
    }
  }

  // ---------------------------------------------------------------- bounding boxes

  function Grow(b: BBox, p: XY): BBox {
    if b.Empty? then Box(p.x, p.x, p.y, p.y)
    else Box(Min(b.minX, p.x), Max(b.maxX, p.x), Min(b.minY, p.y), Max(b.maxY, p.y))
  }

  function RingBox(ring: Ring): BBox {
    if ring == [] then Empty else Grow(RingBox(ring[..|ring| - 1]), ring[|ring| - 1])
  }

  function Union(a: BBox, b: BBox): BBox {
    if a.Empty? then b else if b.Empty? then a
    else Box(Min(a.minX, b.minX), Max(a.maxX, b.maxX), Min(a.minY, b.minY), Max(a.maxY, b.maxY))
  }

  predicate Contains(b: BBox, p: XY) {
    b.Box? && b.minX <= p.x <= b.maxX && b.minY <= p.y <= b.maxY
  }

  ghost predicate RingInside(b: BBox, ring: Ring) {
    forall i :: 0 <= i < |ring| ==> Contains(b, ring[i])
  }

  lemma {:induction false} RingBoxContains(ring: Ring)
    ensures RingInside(RingBox(ring), ring)
  {
    if ring != [] {
      var init := ring[..|ring| - 1];
      RingBoxContains(init);
      forall i | 0 <= i < |ring| ensures Contains(RingBox(ring), ring[i]) {
        if i < |ring| - 1 { assert ring[i] == init[i]; }
      }
    }
  }

  /** The box of the outer rings of the first n polygons. */
  function OuterBox(multi: seq<seq<Ring>>, n: nat): BBox
    requires n <= |multi|
  {
    if n == 0 then Empty
    else Union(OuterBox(multi, n - 1), if multi[n - 1] == [] then Empty else RingBox(multi[n - 1][0]))
  }

  predicate Usable(multi: seq<seq<Ring>>) { multi != [] && multi[0] != [] && |multi[0][0]| >= 3 }

  /** What preparation makes: a usable geometry whose polygons all have an outer ring, with the box of those rings. */
  predicate IsPrepared(g: Prepared) {
    Usable(g.multi) && [] !in g.multi && g.bbox == OuterBox(g.multi, |g.multi|)
  }

  /** Every polygon has an outer ring, and the box contains it. */
  ghost predicate Covers(g: Prepared) {
    && g.bbox.Box?
    && forall k :: 0 <= k < |g.multi| ==> g.multi[k] != [] && RingInside(g.bbox, g.multi[k][0])
  }

  predicate Proper(b: BBox) { b.Box? && b.minX <= b.maxX && b.minY <= b.maxY }

  lemma {:induction false} OuterBoxCovers(multi: seq<seq<Ring>>, n: nat)
    requires n <= |multi|
    ensures forall k :: 0 <= k < n && multi[k] != [] ==> RingInside(OuterBox(multi, n), multi[k][0])
  {
    if n > 0 {
      OuterBoxCovers(multi, n - 1);
      if multi[n - 1] != [] { RingBoxContains(multi[n - 1][0]); }
      var before, b := OuterBox(multi, n - 1), OuterBox(multi, n);
      assert forall p :: Contains(before, p) ==> Contains(b, p);
      forall k | 0 <= k < n && multi[k] != []
        ensures RingInside(b, multi[k][0])
      {
        if k < n - 1 { assert RingInside(before, multi[k][0]); }
      }
    }
  }

  lemma PreparedCovers(g: Prepared)
    requires IsPrepared(g)
    ensures Covers(g) && Proper(g.bbox)
  {
    OuterBoxCovers(g.multi, |g.multi|);
    assert Contains(g.bbox, g.multi[0][0][0]);
  }

  /** `NoOuterRing`: a later polygon is empty, and reading its outer ring fails. */
  datatype Preparation = Unusable | Ready(geometry: Prepared) | NoOuterRing(polygon: nat)

  method PreparePolygonGeometry(multi: seq<seq<Ring>>) returns (r: Preparation)
    ensures r.Unusable? <==> !Usable(multi)
    ensures r.Ready? <==> Usable(multi) && [] !in multi
    ensures r.Ready? ==> r.geometry.multi == multi && IsPrepared(r.geometry)
    ensures r.NoOuterRing? ==> r.polygon < |multi| && multi[r.polygon] == [] && [] !in multi[..r.polygon]
  {
    if multi == [] || multi[0] == [] || |multi[0][0]| < 3 { return Unusable; }
    var bbox := Empty;
    for k := 0 to |multi|
      invariant [] !in multi[..k]
      invariant bbox == OuterBox(multi, k)
    {
      if multi[k] == [] { return NoOuterRing(k); }
      bbox := Union(bbox, RingBox(multi[k][0]));
      assert multi[..k + 1] == multi[..k] + [multi[k]];
    }
    assert multi[..|multi|] == multi;
    return Ready(Prepared(multi, bbox));
  }

  ghost predicate HolesInBox(g: Prepared) {
    forall k, m, i :: IsEdge(g.multi, k, m, i) ==> Contains(g.bbox, g.multi[k][m][i])
  }

  // ---------------------------------------------------------------- the tests

  function InSomeHole(p: XY, rings: seq<Ring>): bool {
    exists m :: 1 <= m < |rings| && InRing(p, rings[m])
  }

  predicate InsideNoBuffer(p: XY, g: Prepared) {
    exists k :: 0 <= k < |g.multi| && g.multi[k] != [] && InRing(p, g.multi[k][0]) && !InSomeHole(p, g.multi[k])
  }

  method IsInsidePreparedNoBuffer(p: XY, g: Prepared) returns (inside: bool)
    requires Covers(g)
    ensures inside == InsideNoBuffer(p, g)
  {
    for k := 0 to |g.multi|
      invariant forall j :: 0 <= j < k ==> !(InRing(p, g.multi[j][0]) && !InSomeHole(p, g.multi[j]))
    {
      var rings := g.multi[k];
      var outer := PointInPolygonXY(p, rings[0]);
      if outer {
        var inHole := false;
        var i := 1;
        while i < |rings| && !inHole
          invariant 1 <= i
          invariant inHole ==> InSomeHole(p, rings)
          invariant !inHole ==> forall m :: 1 <= m < i && m < |rings| ==> !InRing(p, rings[m])
          decreases |rings| - i, !inHole
        {
          inHole := PointInPolygonXY(p, rings[i]);
          if !inHole { i := i + 1; }
        }
        if !inHole { return true; }
      }
    }
    return false;
  }

  /** The box test: the point is outside the box grown by the buffer. */
  predicate Rejected(p: XY, b: BBox, buffer: real)
    requires b.Box?
  {
    p.x < b.minX - buffer || p.x > b.maxX + buffer || p.y < b.minY - buffer || p.y > b.maxY + buffer
  }

  ghost predicate NearEdgeRounded(p: XY, multi: seq<seq<Ring>>, k: int, m: int, i: int, limit: real)
    requires IsEdge(multi, k, m, i)
  {
    ReachesRounded(Some(SegmentDistSq(p, Prev(multi[k][m], i), multi[k][m][i])), limit)
  }

  /** Some edge whose distance rounds to no more than the limit does. */
  ghost predicate NearRounded(p: XY, g: Prepared, limit: real) {
    exists k, m, i :: IsEdge(g.multi, k, m, i) && NearEdgeRounded(p, g.multi, k, m, i, limit)
  }

  /** The walk over all rings: inside, or near some edge after rounding. */
  ghost predicate RoundedWalk(p: XY, g: Prepared, limit: real) { InsideNoBuffer(p, g) || NearRounded(p, g, limit) }

  /** The buffered test without its fast reject: a buffer of zero leaves only the inside test. */
  ghost predicate BufferedWalk(p: XY, g: Prepared, buffer: real) {
    if buffer == 0.0 then InsideNoBuffer(p, g) else RoundedWalk(p, g, buffer)
  }

  lemma MinimumRounds(p: XY, g: Prepared, min: Option<real>, limit: real)
    requires forall limitSq :: limitSq >= 0.0 ==> (Reaches(min, limitSq) <==> NearSomeEdge(p, g, limitSq))
    requires limit >= 0.0
    ensures ReachesRounded(min, limit) <==> NearRounded(p, g, limit)
  {
    CutoffIsAbove(limit);
    var c := Cutoff(limit) * Cutoff(limit);
    assert c > 0.0;
    if ReachesRounded(min, limit) {
      var v := Max(0.0, min.value);
      assert Reaches(min, v);
      var k, m, i :| IsEdge(g.multi, k, m, i) && NearEdge(p, g.multi, k, m, i, v);
      assert NearEdgeRounded(p, g.multi, k, m, i, limit);
    }
    if k, m, i :| IsEdge(g.multi, k, m, i) && NearEdgeRounded(p, g.multi, k, m, i, limit) {
      var d := SegmentDistSq(p, Prev(g.multi[k][m], i), g.multi[k][m][i]);
      var v := Max(0.0, d);
      assert NearEdge(p, g.multi, k, m, i, v);
      assert NearSomeEdge(p, g, v);
      assert Reaches(min, v);
    }
  }

  method WalkRings(p: XY, g: Prepared, limit: real) returns (r: bool)
    requires Covers(g) && limit >= 0.0
    ensures r <==> RoundedWalk(p, g, limit)
  {
    r := IsInsidePreparedNoBuffer(p, g);
    if !r {
      var d := MinDistanceToAnyRingSq(p, g);
      MinimumRounds(p, g, d, limit);
      r := ReachesRounded(d, limit);
    }
  }

  method IsInsidePreparedWithBuffer(p: XY, g: Prepared, bufferMeters: real) returns (r: bool)
    requires Covers(g)
    ensures var buffer := Max(0.0, bufferMeters);
      r <==> !Rejected(p, g.bbox, buffer) && BufferedWalk(p, g, buffer)
  {
    var buffer := Max(0.0, bufferMeters);
    if Rejected(p, g.bbox, buffer) { return false; }
    if buffer == 0.0 {
      r := IsInsidePreparedNoBuffer(p, g);
    } else {
      r := WalkRings(p, g, buffer);
    }
  }

  function BoxGapX(p: XY, b: BBox): real
    requires b.Box?
  {
    Max(Max(b.minX - p.x, 0.0), p.x - b.maxX)
  }

  function BoxGapY(p: XY, b: BBox): real
    requires b.Box?
  {
    Max(Max(b.minY - p.y, 0.0), p.y - b.maxY)
  }

  /** Squared distance from a point to a box. */
  function BoxDistSq(p: XY, b: BBox): real
    requires b.Box?
  {
    BoxGapX(p, b) * BoxGapX(p, b) + BoxGapY(p, b) * BoxGapY(p, b)
  }

  /** The box is farther than the limit. */
  predicate BoxFarther(p: XY, b: BBox, limit: real)
    requires b.Box?
  {
    BoxDistSq(p, b) > limit * limit
  }

  method IsWithinDistanceOfPrepared(p: XY, g: Prepared, thresholdMeters: real) returns (r: bool)
    requires Covers(g)
    ensures var threshold := Max(0.0, thresholdMeters);
      r <==> !BoxFarther(p, g.bbox, threshold) && RoundedWalk(p, g, threshold)
  {
    var threshold := Max(0.0, thresholdMeters);
    var far := BoxFarther(p, g.bbox, threshold);
    if far { return false; }
    r := WalkRings(p, g, threshold);
  }
}
