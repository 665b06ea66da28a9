/** Why the bounding-box rejects agree with the full walk, and exactly when. */
module PolygonSound {
  import opened Common
  import opened Polygon

  // ---------------------------------------------------------------- arithmetic

  lemma Product(a: real, b: real)
    requires a >= 0.0 && b >= 0.0
    ensures a * b >= 0.0
  {
  }

  /** Division undone: n / d lies in [0, 1] when n lies between 0 and d. */
  lemma UnitFraction(n: real, d: real)
    requires d != 0.0 && (if d > 0.0 then 0.0 <= n <= d else d <= n <= 0.0)
    ensures 0.0 <= n / d <= 1.0
  {
    var t := n / d;
    assert t * d == n;
    if t < 0.0 {
      if d > 0.0 { Product(-t, d); } else { Product(-t, -d); }
    }
    if t > 1.0 {
      if d > 0.0 { Product(t - 1.0, d); } else { Product(t - 1.0, -d); }
    }
  }

  /** Part of the way from u to v lies between them. */
  lemma ShiftBetween(u: real, v: real, w: real)
    requires v >= u ==> 0.0 <= w <= v - u
    requires v <= u ==> v - u <= w <= 0.0
    ensures u <= u + w <= v || v <= u + w <= u
  {
  }

  // ---------------------------------------------------------------- rays from outside the box

  /** Where the ray's line meets a straddling edge: a point between the edge's ends. */
  lemma CrossingIsBetween(p: XY, a: XY, b: XY)
    requires Straddles(p, a, b)
    ensures a.x <= CrossingX(p, a, b) <= b.x || b.x <= CrossingX(p, a, b) <= a.x
  {
    var n, d, w := p.y - a.y, b.y - a.y, b.x - a.x;
    UnitFraction(n, d);
    var t := n / d;
    ShiftBetween(a.x, b.x, t * w);
  }

  /** Whether the first n edges change sides of the ray's line an odd number of times: only the two ends matter. */
  lemma {:induction false} StraddleParity(p: XY, ring: Ring, n: nat)
    requires 0 < n <= |ring|
    requires forall i :: 0 <= i < |ring| ==>
      (Crosses(p, ring[i], Prev(ring, i)) <==> Straddles(p, ring[i], Prev(ring, i)))
    ensures OddCrossings(p, ring, n) <==> (ring[n - 1].y > p.y) != (ring[|ring| - 1].y > p.y)
  {
    if n > 1 { StraddleParity(p, ring, n - 1); }
  }

  lemma {:induction false} NoCrossings(p: XY, ring: Ring, n: nat)
    requires n <= |ring|
    requires forall i :: 0 <= i < |ring| ==> !Crosses(p, ring[i], Prev(ring, i))
    ensures !OddCrossings(p, ring, n)
  {
    if n > 0 { NoCrossings(p, ring, n - 1); }
  }

  /** From left of the box the ray crosses every edge that straddles its line; from anywhere else outside, none. */
  lemma EdgeSeenFromOutside(p: XY, b: BBox, u: XY, v: XY)
    requires Contains(b, u) && Contains(b, v) && !Contains(b, p)
    ensures Crosses(p, u, v) <==> p.x < b.minX && Straddles(p, u, v)
  {
    if Straddles(p, u, v) {
      CrossingIsBetween(p, u, v);
      var x := CrossingX(p, u, v);
      assert b.minX <= x <= b.maxX;
      assert b.minY <= p.y <= b.maxY;
    }
  }

  /** A point outside a box is outside every ring drawn in it, by ray casting. */
  lemma OutsideBoxOutsideRing(p: XY, b: BBox, ring: Ring)
    requires RingInside(b, ring) && b.Box? && !Contains(b, p)
    ensures !InRing(p, ring)
  {
    forall i | 0 <= i < |ring|
      ensures Crosses(p, ring[i], Prev(ring, i)) <==> p.x < b.minX && Straddles(p, ring[i], Prev(ring, i))
    {
      EdgeSeenFromOutside(p, b, ring[i], Prev(ring, i));
    }
    if p.x < b.minX && ring != [] {
      StraddleParity(p, ring, |ring|);
    } else {
      NoCrossings(p, ring, |ring|);
    }
  }

  // ---------------------------------------------------------------- distances from outside the box

  lemma NearestInBox(p: XY, b: BBox, u: XY, v: XY)
    requires Contains(b, u) && Contains(b, v)
    ensures Contains(b, Nearest(p, u, v))
  {
    if DistSq(v, u) != 0.0 { PointBetween(b, u, v, Along(p, u, v, DistSq(v, u))); }
  }

  lemma PointBetween(b: BBox, u: XY, v: XY, t: real)
    requires Contains(b, u) && Contains(b, v) && 0.0 <= t <= 1.0
    ensures Contains(b, PointAt(u, v, t))
  {
    Between(b.minX, b.maxX, u.x, v.x, t);
    Between(b.minY, b.maxY, u.y, v.y, t);
  }

  lemma Between(lo: real, hi: real, u: real, v: real, t: real)
    requires lo <= u <= hi && lo <= v <= hi && 0.0 <= t <= 1.0
    ensures lo <= u + t * (v - u) <= hi
  {
    Product(1.0 - t, u - lo);
    Product(t, v - lo);
    Product(1.0 - t, hi - u);
    Product(t, hi - v);
    assert (1.0 - t) * (u - lo) + t * (v - lo) == u + t * (v - u) - lo;
    assert (1.0 - t) * (hi - u) + t * (hi - v) == hi - (u + t * (v - u));
  }

  /** The box is never farther than a point in it. */
  lemma BoxDistIsLowerBound(p: XY, b: BBox, q: XY)
    requires Contains(b, q)
    ensures BoxDistSq(p, b) <= DistSq(p, q)
  {
    SquareAtLeast(BoxGapX(p, b), p.x - q.x);
    SquareAtLeast(BoxGapY(p, b), p.y - q.y);
  }

  lemma SquareAtLeast(gap: real, d: real)
    requires 0.0 <= gap && (gap <= d || gap <= -d)
    ensures gap * gap <= d * d
  {
    if gap <= d {
      if gap < d { SquaresOrdered(gap, d); }
    } else {
      assert -d * -d == d * d;
      if gap < -d { SquaresOrdered(gap, -d); } else { assert gap == -d; }
    }
  }

  /** A rejected point is at a larger distance from the box than the buffer. */
  lemma RejectedIsFar(p: XY, b: BBox, buffer: real)
    requires b.Box? && b.minX <= b.maxX && b.minY <= b.maxY && buffer >= 0.0 && Rejected(p, b, buffer)
    ensures BoxFarther(p, b, buffer) && !Contains(b, p)
  {
    SquareNonNegative(BoxGapX(p, b));
    SquareNonNegative(BoxGapY(p, b));
    SquaresOrdered(buffer, if BoxGapX(p, b) > buffer then BoxGapX(p, b) else BoxGapY(p, b));
  }

  /** A point outside the box is outside the geometry, holes or not. */
  lemma OutsideBoxOutside(p: XY, g: Prepared)
    requires Covers(g) && !Contains(g.bbox, p)
    ensures !InsideNoBuffer(p, g)
  {
    forall k | 0 <= k < |g.multi|
      ensures !InRing(p, g.multi[k][0])
    {
      OutsideBoxOutsideRing(p, g.bbox, g.multi[k][0]);
    }
  }

  /** Inside, or with some edge within the limit: the walk as it would be without rounding. */
  ghost predicate InsideOrNear(p: XY, g: Prepared, limit: real) {
    InsideNoBuffer(p, g) || NearSomeEdge(p, g, limit * limit)
  }

  /** If the box of all rings is out of reach, the walk without rounding finds the point neither inside nor near. */
  lemma FarBoxMeansFarGeometry(p: XY, g: Prepared, limit: real)
    requires Covers(g) && HolesInBox(g) && BoxFarther(p, g.bbox, limit)
    ensures !InsideOrNear(p, g, limit) && !InsideNoBuffer(p, g)
  {
    OutsideBoxOutside(p, g);
    forall k, m, i | IsEdge(g.multi, k, m, i)
      ensures !NearEdge(p, g.multi, k, m, i, limit * limit)
    {
      EdgeIsFar(p, g, k, m, i);
    }
  }

  lemma EdgeIsFar(p: XY, g: Prepared, k: int, m: int, i: int)
    requires HolesInBox(g) && IsEdge(g.multi, k, m, i)
    ensures g.bbox.Box? && BoxDistSq(p, g.bbox) <= SegmentDistSq(p, Prev(g.multi[k][m], i), g.multi[k][m][i])
  {
    var ring := g.multi[k][m];
    assert IsEdge(g.multi, k, m, if i == 0 then |ring| - 1 else i - 1);
    NearestInBox(p, g.bbox, Prev(ring, i), ring[i]);
    BoxDistIsLowerBound(p, g.bbox, Nearest(p, Prev(ring, i), ring[i]));
  }

  // ---------------------------------------------------------------- the distance to an edge is the least one

  /** From the clamped projection on, the rest of w does not point towards any other point of the segment. */
  lemma ClampedResidue(c: real, l: real, t: real, s: real)
    requires l > 0.0 && t == Clamp(c / l) && 0.0 <= s <= 1.0
    ensures (s - t) * (c - t * l) <= 0.0
  {
    var r := c / l;
    assert c == r * l;
    var k, e := s - t, r - t;
    assert c - t * l == e * l;
    assert k * e <= 0.0 by {
      if r <= 0.0 { Product(s, -r); } else if r >= 1.0 { Product(1.0 - s, r - 1.0); }
    }
    Product(-(k * e), l);
    assert k * (e * l) == k * e * l;
  }

  lemma LengthAcross(dx: real, dy: real)
    requires dx != 0.0
    ensures LengthSq(dx, dy) > 0.0
  {
    SquareNonNegative(dy);
    calc {
      LengthSq(dx, dy);
    ==
      dx * dx + dy * dy;
    >
      0.0;
    }
  }

  lemma LengthUp(dx: real, dy: real)
    requires dy != 0.0
    ensures LengthSq(dx, dy) > 0.0
  {
    SquareNonNegative(dx);
    calc {
      LengthSq(dx, dy);
    ==
      dx * dx + dy * dy;
    >
      0.0;
    }
  }

  /** Two different points are some way apart. */
  lemma Apart(a: XY, b: XY)
    requires a != b
    ensures DistSq(b, a) > 0.0
  {
    if a.x == b.x { LengthUp(b.x - a.x, b.y - a.y); } else { LengthAcross(b.x - a.x, b.y - a.y); }
  }

  lemma SquareOfDifference(u: real, w: real)
    ensures (u - w) * (u - w) == u * u - 2.0 * (u * w) + w * w
  {
  }

  lemma StepsOut(u: real, v: real, w: real, z: real)
    requires u * w + v * z <= 0.0
    ensures LengthSq(u, v) <= LengthSq(u - w, v - z)
  {
    SquareOfDifference(u, w);
    SquareOfDifference(v, z);
    SquareNonNegative(w);
    SquareNonNegative(z);
  }

  /** Moving on from n to q, not towards p, does not bring p nearer. */
  lemma FartherAlong(p: XY, n: XY, q: XY, w: real, z: real)
    requires q.x == n.x + w && q.y == n.y + z && (p.x - n.x) * w + (p.y - n.y) * z <= 0.0
    ensures DistSq(p, n) <= DistSq(p, q)
  {
    StepsOut(p.x - n.x, p.y - n.y, w, z);
    assert p.x - n.x - w == p.x - q.x && p.y - n.y - z == p.y - q.y;
  }

  lemma Distribute(k: real, x: real, y: real)
    ensures k * x + k * y == k * (x + y)
  {
  }

  lemma Regroup(u: real, d: real, t: real, k: real)
    ensures (u - t * d) * (k * d) == k * (u * d - t * (d * d))
  {
    var y := t * d;
    assert y * d == t * (d * d);
    assert (u - y) * (k * d) == k * (u * d - y * d);
  }

  /** From the point of the segment that p is projected to, going towards another of its points is not towards p. */
  lemma ResidueAlong(u: real, v: real, dx: real, dy: real, c: real, l: real, t: real, s: real)
    requires c == u * dx + v * dy && l == LengthSq(dx, dy) && l > 0.0 && t == Clamp(c / l) && 0.0 <= s <= 1.0
    ensures (u - t * dx) * ((s - t) * dx) + (v - t * dy) * ((s - t) * dy) <= 0.0
  {
    ClampedResidue(c, l, t, s);
    Regroup(u, dx, t, s - t);
    Regroup(v, dy, t, s - t);
    Distribute(s - t, u * dx - t * (dx * dx), v * dy - t * (dy * dy));
    Distribute(t, dx * dx, dy * dy);
  }

  lemma OnwardBy(u: real, d: real, s: real, t: real)
    ensures u + s * d == (u + t * d) + (s - t) * d
  {
  }

  lemma Onward(a: XY, b: XY, s: real, t: real)
    ensures PointAt(a, b, s).x == PointAt(a, b, t).x + (s - t) * (b.x - a.x)
    ensures PointAt(a, b, s).y == PointAt(a, b, t).y + (s - t) * (b.y - a.y)
  {
    OnwardBy(a.x, b.x - a.x, s, t);
    OnwardBy(a.y, b.y - a.y, s, t);
  }

  lemma NotTowards(p: XY, a: XY, b: XY, s: real, t: real)
    requires DistSq(b, a) > 0.0 && 0.0 <= s <= 1.0 && t == Clamp(Dot(p, a, b) / DistSq(b, a))
    ensures var n := PointAt(a, b, t);
      (p.x - n.x) * ((s - t) * (b.x - a.x)) + (p.y - n.y) * ((s - t) * (b.y - a.y)) <= 0.0
  {
    var u, v, dx, dy := p.x - a.x, p.y - a.y, b.x - a.x, b.y - a.y;
    ResidueAlong(u, v, dx, dy, Dot(p, a, b), DistSq(b, a), t, s);
    assert u - t * dx == p.x - PointAt(a, b, t).x && v - t * dy == p.y - PointAt(a, b, t).y;
  }

  /** No point of the segment is nearer than the one the test measures to. */
  lemma NearestIsNearest(p: XY, a: XY, b: XY, s: real)
    requires 0.0 <= s <= 1.0
    ensures SegmentDistSq(p, a, b) <= DistSq(p, PointAt(a, b, s))
  {
    if a == b {
      assert PointAt(a, b, s) == a;
    } else {
      Apart(a, b);
      var t := Clamp(Dot(p, a, b) / DistSq(b, a));
      NotTowards(p, a, b, s, t);
      Onward(a, b, s, t);
      FartherAlong(p, PointAt(a, b, t), PointAt(a, b, s), (s - t) * (b.x - a.x), (s - t) * (b.y - a.y));
    }
  }

  /** A ring is no farther than any of its vertices. */
  lemma VertexBoundsEdge(p: XY, a: XY, b: XY)
    ensures SegmentDistSq(p, a, b) <= DistSq(p, b)
  {
    NearestIsNearest(p, a, b, 1.0);
    assert PointAt(a, b, 1.0) == b;
  }

  // ---------------------------------------------------------------- when the rejects agree with the rounded walk

  /** The box is so far that its distance rounds to more than the limit does. */
  predicate BoxRoundsOut(p: XY, b: BBox, limit: real)
    requires b.Box?
  {
    !ReachesRounded(Some(BoxDistSq(p, b)), limit)
  }

  /** With the holes in the box, a box that rounds out of reach means the walk rejects. */
  lemma RoundedOutMeansRejected(p: XY, g: Prepared, limit: real)
    requires Covers(g) && HolesInBox(g) && limit >= 0.0 && BoxRoundsOut(p, g.bbox, limit)
    ensures !RoundedWalk(p, g, limit)
  {
    var c := Cutoff(limit);
    CutoffIsAbove(limit);
    assert c * c > 0.0;
    OutsideBoxOutside(p, g);
    forall k, m, i | IsEdge(g.multi, k, m, i)
      ensures !NearEdgeRounded(p, g.multi, k, m, i, limit)
    {
      EdgeIsFar(p, g, k, m, i);
    }
  }

  /** The box's own outline. */
  function Outline(b: BBox): Ring
    requires b.Box?
  {
    [XY(b.minX, b.minY), XY(b.maxX, b.minY), XY(b.maxX, b.maxY), XY(b.minX, b.maxY)]
  }

  function OutlineGeometry(b: BBox): Prepared
    requires b.Box?
  {
    Prepared([[Outline(b)]], b)
  }

  lemma OutlineFillsBox(b: BBox)
    requires Proper(b)
    ensures IsPrepared(OutlineGeometry(b)) && HolesInBox(OutlineGeometry(b))
  {
    var r := Outline(b);
    assert r[..3][..2][..1] == [r[0]] && r[..3][..2] == [r[0], r[1]] && r[..3] == [r[0], r[1], r[2]];
    assert RingBox([r[0]]) == Box(b.minX, b.minX, b.minY, b.minY);
    assert RingBox([r[0], r[1]]) == Box(b.minX, b.maxX, b.minY, b.minY);
    assert RingBox([r[0], r[1], r[2]]) == b;
    assert RingBox(r) == b;
    var g := OutlineGeometry(b);
    assert OuterBox(g.multi, 0) == Empty && OuterBox(g.multi, 1) == b;
    forall k, m, i | IsEdge(g.multi, k, m, i)
      ensures Contains(b, g.multi[k][m][i])
    {
      assert i == 0 || i == 1 || i == 2 || i == 3;
    }
  }

  /** A value between two others is some way along from one to the other. */
  lemma SomeWayAlong(u: real, v: real, x: real) returns (s: real)
    requires u <= x <= v || v <= x <= u
    ensures 0.0 <= s <= 1.0 && u + s * (v - u) == x
  {
    if u == v {
      s := 0.0;
    } else {
      UnitFraction(x - u, v - u);
      s := (x - u) / (v - u);
      assert s * (v - u) == x - u;
    }
  }

  function Clip(lo: real, hi: real, x: real): real { Max(lo, Min(hi, x)) }

  /** The point of the box nearest to p. */
  function BoxPoint(p: XY, b: BBox): XY
    requires b.Box?
  {
    XY(Clip(b.minX, b.maxX, p.x), Clip(b.minY, b.maxY, p.y))
  }

  lemma BoxPointIsNearest(p: XY, b: BBox)
    requires Proper(b)
    ensures Contains(b, BoxPoint(p, b)) && DistSq(p, BoxPoint(p, b)) == BoxDistSq(p, b)
  {
  }

  /** The side of the outline a point outside looks at: it holds the box's nearest point. */
  function SideFacing(p: XY, b: BBox): (i: nat)
    requires b.Box?
    ensures i < 4
  {
    if p.x < b.minX then 0 else if p.x > b.maxX then 2 else if p.y < b.minY then 1 else 3
  }

  lemma NearestPointOnSide(p: XY, b: BBox) returns (s: real)
    requires Proper(b) && !Contains(b, p)
    ensures 0.0 <= s <= 1.0
    ensures PointAt(Prev(Outline(b), SideFacing(p, b)), Outline(b)[SideFacing(p, b)], s) == BoxPoint(p, b)
  {
    var i, q := SideFacing(p, b), BoxPoint(p, b);
    var u, v := Prev(Outline(b), i), Outline(b)[i];
    if i == 0 || i == 2 {
      assert u.x == v.x == q.x;
      s := SomeWayAlong(u.y, v.y, q.y);
      assert s * 0.0 == 0.0;
    } else {
      assert u.y == v.y == q.y;
      s := SomeWayAlong(u.x, v.x, q.x);
      assert s * 0.0 == 0.0;
    }
  }

  /** From outside, the outline is as near as the box. */
  lemma OutlineIsAsNear(p: XY, b: BBox)
    requires Proper(b) && !Contains(b, p)
    ensures var i := SideFacing(p, b); SegmentDistSq(p, Prev(Outline(b), i), Outline(b)[i]) <= BoxDistSq(p, b)
  {
    var i := SideFacing(p, b);
    var s := NearestPointOnSide(p, b);
    BoxPointIsNearest(p, b);
    NearestIsNearest(p, Prev(Outline(b), i), Outline(b)[i], s);
  }

  /** A geometry that fills this box, holes and all. */
  ghost predicate Fills(g: Prepared, b: BBox) { IsPrepared(g) && HolesInBox(g) && g.bbox == b }

  /**
   * From outside the box, every geometry that fills it is rejected by the rounded walk exactly when the box's own
   * distance rounds out of reach.
   */
  lemma WalkRejectsAllIff(p: XY, b: BBox, limit: real)
    requires Proper(b) && limit >= 0.0 && !Contains(b, p)
    ensures (forall g :: Fills(g, b) ==> !RoundedWalk(p, g, limit)) <==> BoxRoundsOut(p, b, limit)
  {
    if BoxRoundsOut(p, b, limit) {
      forall g | Fills(g, b)
        ensures !RoundedWalk(p, g, limit)
      {
        PreparedCovers(g);
        RoundedOutMeansRejected(p, g, limit);
      }
    } else {
      var g := OutlineGeometry(b);
      OutlineFillsBox(b);
      OutlineIsAsNear(p, b);
      var i := SideFacing(p, b);
      assert IsEdge(g.multi, 0, 0, i) && NearEdgeRounded(p, g.multi, 0, 0, i, limit);
      assert Fills(g, b) && RoundedWalk(p, g, limit);
    }
  }

  /** What the condition says of the box's distance, as a caller would compute it. */
  lemma BoxRoundsOutMeans(p: XY, b: BBox, limit: real, boxDist: real)
    requires b.Box? && limit >= 0.0 && boxDist >= 0.0 && boxDist * boxDist == BoxDistSq(p, b)
    ensures BoxRoundsOut(p, b, limit) <==> RoundTo2(boxDist) > RoundTo2(limit)
  {
    RoundedComparison(boxDist, limit);
  }

  /**
   * The buffered test's reject: the walk would reject the point too, whatever geometry fills the box, exactly when
   * the buffer is zero or the distance to the box, rounded to two decimals, is larger than the rounded buffer.
   */
  lemma BufferRejectAgreesIff(p: XY, b: BBox, buffer: real, boxDist: real)
    requires Proper(b) && buffer >= 0.0 && Rejected(p, b, buffer)
    requires boxDist >= 0.0 && boxDist * boxDist == BoxDistSq(p, b)
    ensures (forall g :: Fills(g, b) ==> !BufferedWalk(p, g, buffer)) <==>
      buffer == 0.0 || RoundTo2(boxDist) > RoundTo2(buffer)
  {
    RejectedIsFar(p, b, buffer);
    BoxRoundsOutMeans(p, b, buffer, boxDist);
    if buffer == 0.0 {
      forall g | Fills(g, b)
        ensures !BufferedWalk(p, g, buffer)
      {
        PreparedCovers(g);
        OutsideBoxOutside(p, g);
      }
    } else {
      WalkRejectsAllIff(p, b, buffer);
      assert forall g :: BufferedWalk(p, g, buffer) == RoundedWalk(p, g, buffer);
    }
  }

  /** The same for the candidate search's reject by box distance. */
  lemma DistanceRejectAgreesIff(p: XY, b: BBox, threshold: real, boxDist: real)
    requires Proper(b) && threshold >= 0.0 && BoxFarther(p, b, threshold)
    requires boxDist >= 0.0 && boxDist * boxDist == BoxDistSq(p, b)
    ensures (forall g :: Fills(g, b) ==> !RoundedWalk(p, g, threshold)) <==> RoundTo2(boxDist) > RoundTo2(threshold)
  {
    BoxRoundsOutMeans(p, b, threshold, boxDist);
    WalkRejectsAllIff(p, b, threshold);
  }

  // ---------------------------------------------------------------- no geometry is exempt

  lemma {:induction false} RingBoxAttained(ring: Ring) returns (i: nat)
    requires ring != []
    ensures i < |ring| && RingBox(ring).Box? && ring[i].x == RingBox(ring).maxX
    decreases |ring|
  {
    var init, n := ring[..|ring| - 1], |ring| - 1;
    if init == [] || RingBox(init).maxX < ring[n].x {
      i := n;
    } else {
      i := RingBoxAttained(init);
    }
  }

  lemma {:induction false} OuterBoxAttained(multi: seq<seq<Ring>>, n: nat) returns (k: nat, i: nat)
    requires n <= |multi| && OuterBox(multi, n).Box? && forall j :: 0 <= j < n ==> multi[j] != []
    ensures k < n && i < |multi[k][0]| && multi[k][0][i].x == OuterBox(multi, n).maxX
    decreases n
  {
    var before, box := OuterBox(multi, n - 1), RingBox(multi[n - 1][0]);
    if before.Empty? || (box.Box? && before.maxX < box.maxX) {
      k := n - 1;
      i := RingBoxAttained(multi[n - 1][0]);
    } else {
      k, i := OuterBoxAttained(multi, n - 1);
    }
  }

  /** A point whose distance to a vertex rounds within the limit is near the geometry. */
  lemma NearItsVertex(p: XY, g: Prepared, k: int, m: int, i: int, step: real, limit: real)
    requires IsEdge(g.multi, k, m, i) && DistSq(p, g.multi[k][m][i]) == step * step
    requires limit >= 0.0 && 0.0 <= step < Cutoff(limit)
    ensures NearRounded(p, g, limit)
  {
    VertexBoundsEdge(p, Prev(g.multi[k][m], i), g.multi[k][m][i]);
    SquaresOrdered(step, Cutoff(limit));
    assert NearEdgeRounded(p, g.multi, k, m, i, limit);
  }

  /** A step to the right of a vertex on the box's right side, between the limit and its cutoff. */
  lemma RightOfVertex(g: Prepared, k: int, m: int, i: int, limit: real) returns (p: XY)
    requires Proper(g.bbox) && IsEdge(g.multi, k, m, i) && g.multi[k][m][i].x == g.bbox.maxX && limit >= 0.0
    ensures Rejected(p, g.bbox, limit) && NearRounded(p, g, limit)
  {
    var v := g.multi[k][m][i];
    CutoffIsAbove(limit);
    var step := (limit + Cutoff(limit)) / 2.0;
    p := XY(v.x + step, v.y);
    NearItsVertex(p, g, k, m, i, step, limit);
  }

  /** Every prepared geometry and every limit has a point that both rejects turn away and the walk accepts. */
  lemma EveryGeometryHasAMisjudgedPoint(g: Prepared, limit: real) returns (p: XY)
    requires IsPrepared(g) && limit >= 0.0
    ensures g.bbox.Box? && Rejected(p, g.bbox, limit) && BoxFarther(p, g.bbox, limit) && RoundedWalk(p, g, limit)
  {
    PreparedCovers(g);
    assert forall j :: 0 <= j < |g.multi| ==> g.multi[j] in g.multi;
    var k, i := OuterBoxAttained(g.multi, |g.multi|);
    p := RightOfVertex(g, k, 0, i, limit);
    RejectedIsFar(p, g.bbox, limit);
  }

  const SQUARE: Ring := [XY(0.0, 0.0), XY(10.0, 0.0), XY(10.0, 10.0), XY(0.0, 10.0)]
  const SQUARE_GEOMETRY := Prepared([[SQUARE]], Box(0.0, 10.0, 0.0, 10.0))

  lemma SquareSideIsNear()
    ensures SegmentDistSq(XY(20.001, 5.0), XY(10.0, 0.0), XY(10.0, 10.0)) <= 10.001 * 10.001
  {
    var p, u, v := XY(20.001, 5.0), XY(10.0, 0.0), XY(10.0, 10.0);
    NearestIsNearest(p, u, v, 0.5);
    SideMiddle();
  }

  lemma SideMiddle()
    ensures DistSq(XY(20.001, 5.0), PointAt(XY(10.0, 0.0), XY(10.0, 10.0), 0.5)) == 10.001 * 10.001
  {
    assert PointAt(XY(10.0, 0.0), XY(10.0, 10.0), 0.5) == XY(10.0, 5.0);
  }

  lemma TenRoundsUpTo()
    ensures Cutoff(10.0) == 10.005 && 10.001 * 10.001 < 10.005 * 10.005
  {
  }

  /** For instance a square, a point 10.001 away and a buffer of 10. */
  lemma RoundedWalkCanDisagree()
    ensures Fills(SQUARE_GEOMETRY, SQUARE_GEOMETRY.bbox)
    ensures Rejected(XY(20.001, 5.0), SQUARE_GEOMETRY.bbox, 10.0)
    ensures BufferedWalk(XY(20.001, 5.0), SQUARE_GEOMETRY, 10.0)
  {
    var g := SQUARE_GEOMETRY;
    OutlineFillsBox(g.bbox);
    assert g == OutlineGeometry(g.bbox);
    SquareSideIsNear();
    TenRoundsUpTo();
    assert IsEdge(g.multi, 0, 0, 2) && g.multi[0][0] == SQUARE;
    assert NearEdgeRounded(XY(20.001, 5.0), g.multi, 0, 0, 2, 10.0);
  }

  // ---------------------------------------------------------------- the holes

  /** How far a point outside lies beyond one side of the box, and the point a step farther out on that side. */
  function SideGap(v: XY, b: BBox): real
    requires b.Box?
  {
    if BoxGapX(v, b) > 0.0 then BoxGapX(v, b) else BoxGapY(v, b)
  }

  function Beyond(v: XY, b: BBox, step: real): XY
    requires b.Box?
  {
    if v.x > b.maxX then XY(v.x + step, v.y)
    else if v.x < b.minX then XY(v.x - step, v.y)
    else if v.y > b.maxY then XY(v.x, v.y + step)
    else XY(v.x, v.y - step)
  }

  lemma BeyondIsFarther(v: XY, b: BBox, step: real)
    requires Proper(b) && !Contains(b, v) && step >= 0.0
    ensures SideGap(v, b) > 0.0
    ensures BoxGapX(Beyond(v, b, step), b) == SideGap(v, b) + step
      || BoxGapY(Beyond(v, b, step), b) == SideGap(v, b) + step
    ensures DistSq(Beyond(v, b, step), v) == step * step
  {
    var p := Beyond(v, b, step);
    assert p.x - v.x == step || p.x - v.x == -step || p.x == v.x;
    assert 0.0 * 0.0 == 0.0 && -step * -step == step * step;
  }

  lemma SideBoundsBox(p: XY, b: BBox, far: real)
    requires b.Box? && far >= 0.0 && (BoxGapX(p, b) >= far || BoxGapY(p, b) >= far)
    ensures BoxDistSq(p, b) >= far * far
  {
    SquareNonNegative(BoxGapX(p, b));
    SquareNonNegative(BoxGapY(p, b));
    if BoxGapX(p, b) >= far { SquareAtLeast(far, BoxGapX(p, b)); } else { SquareAtLeast(far, BoxGapY(p, b)); }
  }

  lemma SideRoundsOut(p: XY, b: BBox, limit: real)
    requires b.Box? && limit >= 0.0 && (BoxGapX(p, b) >= Cutoff(limit) || BoxGapY(p, b) >= Cutoff(limit))
    ensures BoxRoundsOut(p, b, limit)
  {
    CutoffIsAbove(limit);
    SideBoundsBox(p, b, Cutoff(limit));
  }

  /** A step shorter than c that takes a gap to c. */
  function StepTo(gap: real, c: real): (step: real)
    requires gap > 0.0 && c > 0.0
    ensures 0.0 <= step < c && gap + step >= c
  {
    if gap >= c then 0.0 else c - gap / 2.0
  }

  /** A point beyond a vertex outside the box, near the vertex after rounding but with the box rounding out. */
  lemma BeyondStrayVertex(g: Prepared, k: int, m: int, i: int, limit: real) returns (p: XY)
    requires Proper(g.bbox) && IsEdge(g.multi, k, m, i) && !Contains(g.bbox, g.multi[k][m][i]) && limit >= 0.0
    ensures BoxRoundsOut(p, g.bbox, limit) && RoundedWalk(p, g, limit)
  {
    var v := g.multi[k][m][i];
    CutoffIsAbove(limit);
    BeyondIsFarther(v, g.bbox, 0.0);
    var step := StepTo(SideGap(v, g.bbox), Cutoff(limit));
    p := Beyond(v, g.bbox, step);
    BeyondIsFarther(v, g.bbox, step);
    SideRoundsOut(p, g.bbox, limit);
    NearItsVertex(p, g, k, m, i, step, limit);
  }

  /**
   * For any limit: a box that rounds out of reach settles the rounded walk for every point exactly when the holes lie
   * in the outer rings' box.
   */
  lemma BoxSettlesWalkIffHolesInBox(g: Prepared, limit: real)
    requires IsPrepared(g) && limit >= 0.0
    ensures g.bbox.Box? &&
      ((forall p :: BoxRoundsOut(p, g.bbox, limit) ==> !RoundedWalk(p, g, limit)) <==> HolesInBox(g))
  {
    PreparedCovers(g);
    if HolesInBox(g) {
      forall p | BoxRoundsOut(p, g.bbox, limit)
        ensures !RoundedWalk(p, g, limit)
      {
        RoundedOutMeansRejected(p, g, limit);
      }
    } else {
      var k, m, i :| IsEdge(g.multi, k, m, i) && !Contains(g.bbox, g.multi[k][m][i]);
      var p := BeyondStrayVertex(g, k, m, i, limit);
    }
  }

  // ---------------------------------------------------------------- without rounding

  /** A vertex outside the box is at distance zero from its ring, yet rejected for half its gap. */
  lemma StrayVertexIsMisjudged(g: Prepared, k: int, m: int, i: int) returns (p: XY, buffer: real)
    requires g.bbox.Box? && IsEdge(g.multi, k, m, i) && !Contains(g.bbox, g.multi[k][m][i])
    ensures buffer > 0.0 && Rejected(p, g.bbox, buffer) && BoxFarther(p, g.bbox, buffer)
    ensures InsideOrNear(p, g, buffer)
  {
    p := g.multi[k][m][i];
    var gap := Max(BoxGapX(p, g.bbox), BoxGapY(p, g.bbox));
    buffer := gap / 2.0;
    SideBoundsBox(p, g.bbox, gap);
    SquaresOrdered(buffer, gap);
  }

  /** The buffered walk as it would be without rounding. */
  ghost predicate FullWalk(p: XY, g: Prepared, buffer: real) {
    if buffer == 0.0 then InsideNoBuffer(p, g) else InsideOrNear(p, g, buffer)
  }

  /**
   * Without rounding the buffered reject never contradicts the walk exactly when every hole lies in the outer rings'
   * box.
   */
  lemma BufferedRejectIsSoundIffHolesInBox(g: Prepared)
    requires Covers(g) && g.bbox.minX <= g.bbox.maxX && g.bbox.minY <= g.bbox.maxY
    ensures (forall p, buffer :: buffer >= 0.0 && Rejected(p, g.bbox, buffer) ==> !FullWalk(p, g, buffer)) <==>
      HolesInBox(g)
  {
    if HolesInBox(g) {
      forall p, buffer | buffer >= 0.0 && Rejected(p, g.bbox, buffer) ensures !FullWalk(p, g, buffer) {
        RejectedIsFar(p, g.bbox, buffer);
        FarBoxMeansFarGeometry(p, g, buffer);
      }
    } else {
      var k, m, i :| IsEdge(g.multi, k, m, i) && !Contains(g.bbox, g.multi[k][m][i]);
      var p, buffer := StrayVertexIsMisjudged(g, k, m, i);
      assert FullWalk(p, g, buffer);
    }
  }

  /** The same for the candidate search's box-distance prefilter. */
  lemma DistanceRejectIsSoundIffHolesInBox(g: Prepared)
    requires Covers(g)
    ensures (forall p, limit :: limit >= 0.0 && BoxFarther(p, g.bbox, limit) ==> !InsideOrNear(p, g, limit)) <==>
      HolesInBox(g)
  {
    if HolesInBox(g) {
      forall p, limit | limit >= 0.0 && BoxFarther(p, g.bbox, limit) ensures !InsideOrNear(p, g, limit) {
        FarBoxMeansFarGeometry(p, g, limit);
      }
    } else {
      var k, m, i :| IsEdge(g.multi, k, m, i) && !Contains(g.bbox, g.multi[k][m][i]);
      var p, limit := StrayVertexIsMisjudged(g, k, m, i);
      assert InsideOrNear(p, g, limit);
    }
  }
}
