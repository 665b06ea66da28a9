/** What the ray-casting test decides, without rays: on triangles by sides, on any ring by the triangles of a fan. */
module PolygonInside {
  import opened Polygon

  // ---------------------------------------------------------------- a crossing lies on its edge

  ghost predicate OnSegment(q: XY, a: XY, b: XY) {
    exists t :: 0.0 <= t <= 1.0 && q == PointAt(a, b, t)
  }

  /** The part of the way from u to u + w at which x is reached. */
  lemma Fraction(x: real, u: real, w: real)
    requires w != 0.0 && (u <= x <= u + w || u + w <= x <= u)
    ensures 0.0 <= (x - u) / w <= 1.0 && u + (x - u) / w * w == x
  {
    var t := (x - u) / w;
    assert t * w == x - u;
    if t < 0.0 { Signs(-t, w); }
    if t > 1.0 { Signs(t - 1.0, w); }
  }

  lemma Signs(t: real, w: real)
    requires t > 0.0
    ensures w > 0.0 ==> t * w > 0.0
    ensures w < 0.0 ==> t * w < 0.0
  {
  }

  lemma Regrouped(n: real, m: real, d: real)
    requires d != 0.0
    ensures n * m / d == m / d * n
  {
    var q := m / d;
    assert q * d == m;
    assert n * m == q * n * d;
  }

  /** Where the ray meets a straddling edge's line is a point of the edge. */
  lemma CrossingLiesOnEdge(p: XY, a: XY, b: XY)
    requires Straddles(p, a, b)
    ensures OnSegment(XY(CrossingX(p, a, b), p.y), a, b)
  {
    var t := (p.y - a.y) / (b.y - a.y);
    Fraction(p.y, a.y, b.y - a.y);
    Regrouped(b.x - a.x, p.y - a.y, b.y - a.y);
    assert XY(CrossingX(p, a, b), p.y) == PointAt(a, b, t);
  }

  // ---------------------------------------------------------------- sides

  /** Positive on the left of the line from a to b, negative on its right. */
  function Side(p: XY, a: XY, b: XY): real { (a.x - p.x) * (b.y - p.y) - (b.x - p.x) * (a.y - p.y) }

  lemma QuotientAbove(r: real, n: real, d: real)
    requires d != 0.0
    ensures r < n / d <==> if d > 0.0 then r * d < n else n < r * d
  {
    var q := n / d;
    assert q * d == n;
    if r < q { Signs(q - r, d); }
    if q < r { Signs(r - q, d); }
  }

  lemma SideSpread(p: XY, a: XY, b: XY)
    ensures Side(p, a, b) == (b.x - a.x) * (p.y - a.y) - (p.x - a.x) * (b.y - a.y)
  {
  }

  /** The ray crosses an edge that goes up past it and has it on the left, or goes down and has it on the right. */
  lemma CrossesIff(p: XY, a: XY, b: XY)
    ensures Crosses(p, a, b) <==>
      (a.y <= p.y < b.y && Side(p, a, b) > 0.0) || (b.y <= p.y < a.y && Side(p, a, b) < 0.0)
  {
    if Straddles(p, a, b) {
      SideSpread(p, a, b);
      QuotientAbove(p.x - a.x, (b.x - a.x) * (p.y - a.y), b.y - a.y);
    }
  }

  lemma CrossesEitherWay(p: XY, a: XY, b: XY)
    ensures Crosses(p, a, b) == Crosses(p, b, a) && Side(p, b, a) == -Side(p, a, b)
  {
    CrossesIff(p, a, b);
    CrossesIff(p, b, a);
  }

  /** A point at a straddling edge's height is on the edge as soon as it is on its line. */
  lemma OnLineOnEdge(p: XY, a: XY, b: XY)
    requires Straddles(p, a, b) && Side(p, a, b) == 0.0
    ensures OnSegment(p, a, b)
  {
    SideSpread(p, a, b);
    CrossingLiesOnEdge(p, a, b);
    var r, n, d := p.x - a.x, (b.x - a.x) * (p.y - a.y), b.y - a.y;
    var q := n / d;
    assert q * d == n && r * d == n;
    if q != r {
      if q > r { Signs(q - r, d); } else { Signs(r - q, d); }
    }
    assert CrossingX(p, a, b) == p.x;
  }

  lemma OnLevelEdge(p: XY, a: XY, b: XY)
    requires a.y == p.y == b.y && a.x < p.x < b.x
    ensures OnSegment(p, a, b) && OnSegment(p, b, a)
  {
    Fraction(p.x, a.x, b.x - a.x);
    Fraction(p.x, b.x, a.x - b.x);
    assert p == PointAt(a, b, (p.x - a.x) / (b.x - a.x));
    assert p == PointAt(b, a, (p.x - b.x) / (a.x - b.x));
  }

  // ---------------------------------------------------------------- triangles

  /** Strictly on the same side of all three edges. */
  predicate StrictlyInside(p: XY, a: XY, b: XY, c: XY) {
    || (Side(p, a, b) > 0.0 && Side(p, b, c) > 0.0 && Side(p, c, a) > 0.0)
    || (Side(p, a, b) < 0.0 && Side(p, b, c) < 0.0 && Side(p, c, a) < 0.0)
  }

  ghost predicate OffEdges(p: XY, a: XY, b: XY, c: XY) {
    !OnSegment(p, a, b) && !OnSegment(p, b, c) && !OnSegment(p, c, a)
  }

  predicate ThreeCross(p: XY, a: XY, b: XY, c: XY) {
    (Crosses(p, a, b) != Crosses(p, b, c)) != Crosses(p, c, a)
  }

  lemma TriangleCrossings(p: XY, a: XY, b: XY, c: XY)
    ensures InRing(p, [a, b, c]) == ThreeCross(p, a, b, c)
  {
    var ring := [a, b, c];
    CrossesEitherWay(p, a, c);
    CrossesEitherWay(p, b, a);
    CrossesEitherWay(p, c, b);
    assert OddCrossings(p, ring, 1) == Crosses(p, a, c);
    assert OddCrossings(p, ring, 2) == (Crosses(p, a, c) != Crosses(p, b, a));
    assert OddCrossings(p, ring, 3) == ((Crosses(p, a, c) != Crosses(p, b, a)) != Crosses(p, c, b));
  }

  /** The sides weigh the corners so that they balance at p. */
  lemma Balance(p: XY, a: XY, b: XY, c: XY)
    ensures Side(p, b, c) * (a.y - p.y) + Side(p, c, a) * (b.y - p.y) + Side(p, a, b) * (c.y - p.y) == 0.0
  {
    var ax, ay, bx, by', cx, cy := a.x - p.x, a.y - p.y, b.x - p.x, b.y - p.y, c.x - p.x, c.y - p.y;
    Cancel(ax, ay, bx, by', cx, cy);
  }

  lemma Cancel(ax: real, ay: real, bx: real, by': real, cx: real, cy: real)
    ensures (bx * cy - cx * by') * ay + (cx * ay - ax * cy) * by' + (ax * by' - bx * ay) * cy == 0.0
  {
    assert (bx * cy - cx * by') * ay == bx * cy * ay - cx * by' * ay;
    assert (cx * ay - ax * cy) * by' == cx * ay * by' - ax * cy * by';
    assert (ax * by' - bx * ay) * cy == ax * by' * cy - bx * ay * cy;
  }

  lemma SignsOf(x: real, y: real)
    ensures x > 0.0 && y > 0.0 ==> x * y > 0.0
    ensures x < 0.0 && y < 0.0 ==> x * y > 0.0
    ensures (x > 0.0 && y < 0.0) || (x < 0.0 && y > 0.0) ==> x * y < 0.0
    ensures x == 0.0 || y == 0.0 ==> x * y == 0.0
  {
  }

  /** Two sides of one sign, the corner between them alone above or below: the third has it too, or is flat. */
  lemma ThirdSide(al: real, be: real, ga: real, ay: real, by': real, cy: real)
    requires be * ay + ga * by' + al * cy == 0.0
    requires (ay > 0.0 && by' <= 0.0 && cy <= 0.0) || (ay <= 0.0 && by' > 0.0 && cy > 0.0)
    ensures al > 0.0 && ga > 0.0 ==> be > 0.0 || (be == 0.0 && by' == 0.0 && cy == 0.0)
    ensures al < 0.0 && ga < 0.0 ==> be < 0.0 || (be == 0.0 && by' == 0.0 && cy == 0.0)
  {
    SignsOf(be, ay);
    SignsOf(ga, by');
    SignsOf(al, cy);
  }

  /** With b and c level with p and on the same hand of the sides through a, p lies between them. */
  lemma LevelBetween(p: XY, a: XY, b: XY, c: XY)
    requires b.y == p.y == c.y && a.y != p.y
    requires (Side(p, a, b) > 0.0 && Side(p, c, a) > 0.0) || (Side(p, a, b) < 0.0 && Side(p, c, a) < 0.0)
    ensures OnSegment(p, b, c)
  {
    var bx, cx, ay := b.x - p.x, c.x - p.x, a.y - p.y;
    assert Side(p, a, b) == -(bx * ay) && Side(p, c, a) == cx * ay;
    SignsOf(bx, ay);
    SignsOf(cx, ay);
    if b.x < c.x { OnLevelEdge(p, b, c); } else { OnLevelEdge(p, c, b); }
  }

  lemma ThirdSideAgrees(p: XY, a: XY, b: XY, c: XY)
    requires (a.y > p.y) != (b.y > p.y) && (b.y > p.y) == (c.y > p.y) && !OnSegment(p, b, c)
    ensures Side(p, a, b) > 0.0 && Side(p, c, a) > 0.0 ==> Side(p, b, c) > 0.0
    ensures Side(p, a, b) < 0.0 && Side(p, c, a) < 0.0 ==> Side(p, b, c) < 0.0
  {
    Balance(p, a, b, c);
    ThirdSide(Side(p, a, b), Side(p, b, c), Side(p, c, a), a.y - p.y, b.y - p.y, c.y - p.y);
    if b.y == p.y == c.y && a.y != p.y {
      if Side(p, a, b) > 0.0 && Side(p, c, a) > 0.0 { LevelBetween(p, a, b, c); }
      if Side(p, a, b) < 0.0 && Side(p, c, a) < 0.0 { LevelBetween(p, a, b, c); }
    }
  }

  /** One corner is alone above the ray's line, or alone not above it. */
  lemma LoneCorner(p: XY, a: XY, b: XY, c: XY)
    requires (a.y > p.y) != (b.y > p.y) && (b.y > p.y) == (c.y > p.y) && OffEdges(p, a, b, c)
    ensures ThreeCross(p, a, b, c) <==> StrictlyInside(p, a, b, c)
  {
    CrossesIff(p, a, b);
    CrossesIff(p, b, c);
    CrossesIff(p, c, a);
    if Side(p, a, b) == 0.0 { OnLineOnEdge(p, a, b); }
    if Side(p, c, a) == 0.0 { OnLineOnEdge(p, c, a); }
    ThirdSideAgrees(p, a, b, c);
  }

  lemma NoAgreement(al: real, be: real, ga: real, ay: real, by': real, cy: real)
    requires be * ay + ga * by' + al * cy == 0.0
    requires (ay > 0.0 && by' > 0.0 && cy > 0.0) || (ay <= 0.0 && by' <= 0.0 && cy <= 0.0)
    requires (al > 0.0 && be > 0.0 && ga > 0.0) || (al < 0.0 && be < 0.0 && ga < 0.0)
    ensures ay == by' == cy == 0.0
  {
    SignsOf(be, ay);
    SignsOf(ga, by');
    SignsOf(al, cy);
  }

  lemma LevelSide(p: XY, a: XY, b: XY)
    requires a.y == p.y == b.y
    ensures Side(p, a, b) == 0.0
  {
  }

  /** All corners above the ray's line, or none: p is not inside. */
  lemma NoLoneCorner(p: XY, a: XY, b: XY, c: XY)
    requires (a.y > p.y) == (b.y > p.y) == (c.y > p.y)
    ensures !ThreeCross(p, a, b, c) && !StrictlyInside(p, a, b, c)
  {
    CrossesIff(p, a, b);
    CrossesIff(p, b, c);
    CrossesIff(p, c, a);
    Balance(p, a, b, c);
    if StrictlyInside(p, a, b, c) {
      NoAgreement(Side(p, a, b), Side(p, b, c), Side(p, c, a), a.y - p.y, b.y - p.y, c.y - p.y);
      LevelSide(p, a, b);
    }
  }

  /** Off its edges, a point is in a triangle exactly when it is strictly on the same side of all three. */
  lemma TriangleIff(p: XY, a: XY, b: XY, c: XY)
    requires OffEdges(p, a, b, c)
    ensures InRing(p, [a, b, c]) <==> StrictlyInside(p, a, b, c)
  {
    TriangleCrossings(p, a, b, c);
    if (a.y > p.y) == (b.y > p.y) == (c.y > p.y) {
      NoLoneCorner(p, a, b, c);
    } else if (b.y > p.y) == (c.y > p.y) {
      LoneCorner(p, a, b, c);
    } else if (c.y > p.y) == (a.y > p.y) {
      LoneCorner(p, b, c, a);
    } else {
      LoneCorner(p, c, a, b);
    }
  }

  // ---------------------------------------------------------------- any ring

  /** The fan triangles from o to the first n edges that hold p. */
  ghost function FanTriangles(p: XY, o: XY, ring: Ring, n: nat): set<nat>
    requires n <= |ring|
  {
    set i: nat | i < n && StrictlyInside(p, o, Prev(ring, i), ring[i])
  }

  /** p is on no edge of the ring and on no line drawn from o to a corner. */
  ghost predicate OffFan(p: XY, o: XY, ring: Ring) {
    forall i :: 0 <= i < |ring| ==> OffEdges(p, o, Prev(ring, i), ring[i])
  }

  lemma FanStep(p: XY, o: XY, ring: Ring, n: nat)
    requires n < |ring| && OffEdges(p, o, Prev(ring, n), ring[n])
    ensures |FanTriangles(p, o, ring, n + 1)| ==
      |FanTriangles(p, o, ring, n)| + if ThreeCross(p, o, Prev(ring, n), ring[n]) then 1 else 0
  {
    TriangleIff(p, o, Prev(ring, n), ring[n]);
    TriangleCrossings(p, o, Prev(ring, n), ring[n]);
    var few := FanTriangles(p, o, ring, n);
    assert FanTriangles(p, o, ring, n + 1) ==
      if StrictlyInside(p, o, Prev(ring, n), ring[n]) then few + {n} else few;
  }

  lemma OneMore(k: nat, b: bool)
    ensures ((k + if b then 1 else 0) % 2 == 1) == ((k % 2 == 1) != b)
  {
  }

  lemma ParityStep(p: XY, o: XY, ring: Ring, n: nat)
    requires n < |ring| && OffEdges(p, o, Prev(ring, n), ring[n])
    ensures (|FanTriangles(p, o, ring, n + 1)| % 2 == 1) ==
      ((|FanTriangles(p, o, ring, n)| % 2 == 1) != ThreeCross(p, o, Prev(ring, n), ring[n]))
  {
    FanStep(p, o, ring, n);
    OneMore(|FanTriangles(p, o, ring, n)|, ThreeCross(p, o, Prev(ring, n), ring[n]));
  }

  lemma EdgeAmongThree(p: XY, o: XY, ring: Ring, n: nat)
    requires n < |ring|
    ensures ThreeCross(p, o, Prev(ring, n), ring[n]) ==
      ((Crosses(p, o, Prev(ring, n)) != Crosses(p, ring[n], Prev(ring, n))) != Crosses(p, o, ring[n]))
  {
    CrossesEitherWay(p, ring[n], Prev(ring, n));
    CrossesEitherWay(p, ring[n], o);
  }

  /** What the first n triangles count besides the ring's edges: the first and the last line from o. */
  lemma {:induction false} FanParity(p: XY, o: XY, ring: Ring, n: nat)
    requires 0 < n <= |ring| && OffFan(p, o, ring)
    ensures |FanTriangles(p, o, ring, n)| % 2 == 1 <==>
      OddCrossings(p, ring, n) != (Crosses(p, o, ring[|ring| - 1]) != Crosses(p, o, ring[n - 1]))
  {
    ParityStep(p, o, ring, n - 1);
    EdgeAmongThree(p, o, ring, n - 1);
    if n > 1 {
      FanParity(p, o, ring, n - 1);
    } else {
      assert FanTriangles(p, o, ring, 0) == {};
    }
  }

  /**
   * For every ring, and any point o to draw a fan from: a point off the ring's edges and the fan's lines is inside by
   * ray casting exactly when an odd number of the triangles over the edges hold it strictly.
   */
  lemma InsideIffOddTriangles(p: XY, ring: Ring, o: XY)
    requires OffFan(p, o, ring)
    ensures InRing(p, ring) <==> |FanTriangles(p, o, ring, |ring|)| % 2 == 1
  {
    if ring == [] {
      assert FanTriangles(p, o, ring, 0) == {};
    } else {
      FanParity(p, o, ring, |ring|);
    }
  }
}
