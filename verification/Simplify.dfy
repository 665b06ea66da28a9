/**
 * Route simplification (packages/matching/src/simplify.ts): one Douglas-Peucker subdivision on an explicit stack
 * records every point's importance, and the most important points are kept. Importances are squared deviations.
 */
module Simplify {
  import opened Common
  import opened Ordering
  import opened Polygon

  datatype Importance = Finite(deviationSq: real) | Infinite

  function Deviation(xy: seq<XY>, s: nat, e: nat, i: nat): real
    requires s < |xy| && e < |xy| && i < |xy|
  {
    SegmentDistSq(xy[i], xy[s], xy[e])
  }

  /** The first of positions s+1 .. n-1 that deviates most from segment s-e. */
  function BestBefore(xy: seq<XY>, s: nat, e: nat, n: nat): (k: nat)
    requires s + 1 < n <= e < |xy|
    ensures s < k < n
  {
    if n == s + 2 then s + 1
    else
      var k := BestBefore(xy, s, e, n - 1);
      if Deviation(xy, s, e, n - 1) > Deviation(xy, s, e, k) then n - 1 else k
  }

  function SplitOf(xy: seq<XY>, s: nat, e: nat): (k: nat)
    requires s + 1 < e < |xy|
    ensures s < k < e
  {
    BestBefore(xy, s, e, e)
  }

  /**
   * The recursive definition: a range splits at its most deviating point, which gets that deviation; the halves go on
   * alone.
   */
  function ImportanceIn(xy: seq<XY>, s: nat, e: nat, i: nat): Importance
    requires s < i < e < |xy|
    decreases e - s
  {
    var k := SplitOf(xy, s, e);
    if i == k then Finite(Deviation(xy, s, e, k))
    else if i < k then ImportanceIn(xy, s, k, i)
    else ImportanceIn(xy, k, e, i)
  }

  function ImportanceOf(xy: seq<XY>, i: nat): Importance
    requires i < |xy|
  {
    if i == 0 || i == |xy| - 1 then Infinite else ImportanceIn(xy, 0, |xy| - 1, i)
  }

  lemma {:induction false} BestBeforeIsFirstMaximum(xy: seq<XY>, s: nat, e: nat, n: nat)
    requires s + 1 < n <= e < |xy|
    ensures forall i :: s < i < n ==> Deviation(xy, s, e, i) <= Deviation(xy, s, e, BestBefore(xy, s, e, n))
    ensures forall i :: s < i < BestBefore(xy, s, e, n) ==>
      Deviation(xy, s, e, i) < Deviation(xy, s, e, BestBefore(xy, s, e, n))
  {
    if n != s + 2 { BestBeforeIsFirstMaximum(xy, s, e, n - 1); }
  }

  lemma {:induction false} InteriorIsFinite(xy: seq<XY>, s: nat, e: nat, i: nat)
    requires s < i < e < |xy|
    ensures ImportanceIn(xy, s, e, i).Finite?
    decreases e - s
  {
    var k := SplitOf(xy, s, e);
    if i < k { InteriorIsFinite(xy, s, k, i); }
    if i > k { InteriorIsFinite(xy, k, e, i); }
  }

  // ---------------------------------------------------------------- the explicit stack

  type Frame = (nat, nat)

  predicate InsideFrame(f: Frame, i: nat) { f.0 < i < f.1 }

  /** Position i lies strictly inside some range still on the stack. */
  ghost predicate Pending(stack: seq<Frame>, i: nat) {
    exists a :: 0 <= a < |stack| && InsideFrame(stack[a], i)
  }

  /** Ranges lie along the route from the bottom of the stack to its top. */
  ghost predicate LeftToRight(stack: seq<Frame>, n: nat) {
    && (forall a :: 0 <= a < |stack| ==> stack[a].0 <= stack[a].1 < n)
    && (forall a, b :: 0 <= a < b < |stack| ==> stack[a].1 <= stack[b].0)
  }

  /** A range still has the importances the whole route gives it. */
  ghost predicate Faithful(f: Frame, xy: seq<XY>)
    requires f.1 < |xy|
  {
    forall i: nat :: InsideFrame(f, i) ==>
      i < |xy| - 1 && ImportanceIn(xy, 0, |xy| - 1, i) == ImportanceIn(xy, f.0, f.1, i)
  }

  ghost predicate Frames(stack: seq<Frame>, xy: seq<XY>) {
    LeftToRight(stack, |xy|) && forall a :: 0 <= a < |stack| ==> Faithful(stack[a], xy)
  }

  /** The positions split so far, each once: exactly the interior positions no longer pending. */
  ghost predicate SplitOnce(splits: seq<nat>, stack: seq<Frame>, n: nat) {
    NoRepeats(splits) && forall i: nat :: i in splits <==> 0 < i < n - 1 && !Pending(stack, i)
  }

  lemma PendingTop(rest: seq<Frame>, f: Frame, i: nat)
    ensures Pending(rest + [f], i) <==> Pending(rest, i) || InsideFrame(f, i)
  {
    var stack := rest + [f];
    assert stack[|rest|] == f;
    if a :| 0 <= a < |rest| && InsideFrame(rest[a], i) { assert stack[a] == rest[a]; }
  }

  /** Splitting the top range at k takes only k off the pending positions. */
  lemma SplitPending(rest: seq<Frame>, f: Frame, k: nat, n: nat, i: nat)
    requires LeftToRight(rest + [f], n) && InsideFrame(f, k)
    ensures Pending(rest + [(f.0, k), (k, f.1)], i) <==> Pending(rest + [f], i) && i != k
  {
    var before := rest + [f];
    PendingTop(rest, f, i);
    PendingTop(rest, (f.0, k), i);
    PendingTop(rest + [(f.0, k)], (k, f.1), i);
    assert rest + [(f.0, k), (k, f.1)] == rest + [(f.0, k)] + [(k, f.1)];
    if Pending(rest, i) {
      var a :| 0 <= a < |rest| && InsideFrame(rest[a], i);
      assert before[a] == rest[a] && before[|rest|] == f;
    }
  }

  lemma SplitFrames(rest: seq<Frame>, f: Frame, xy: seq<XY>)
    requires Frames(rest + [f], xy) && f.0 + 1 < f.1 < |xy|
    ensures Frames(rest + [(f.0, SplitOf(xy, f.0, f.1)), (SplitOf(xy, f.0, f.1), f.1)], xy)
  {
    var k := SplitOf(xy, f.0, f.1);
    var before, after := rest + [f], rest + [(f.0, k), (k, f.1)];
    assert before[|rest|] == f && after[|rest|] == (f.0, k) && after[|rest| + 1] == (k, f.1);
    assert forall a :: 0 <= a < |rest| ==> before[a] == rest[a] && after[a] == rest[a];
    assert Faithful(before[|rest|], xy);
    HalvesFaithful(f, xy);
  }

  lemma HalvesFaithful(f: Frame, xy: seq<XY>)
    requires f.0 + 1 < f.1 < |xy| && Faithful(f, xy)
    ensures Faithful((f.0, SplitOf(xy, f.0, f.1)), xy) && Faithful((SplitOf(xy, f.0, f.1), f.1), xy)
  {
    var k := SplitOf(xy, f.0, f.1);
    forall i: nat | InsideFrame((f.0, k), i) || InsideFrame((k, f.1), i)
      ensures i < |xy| - 1
      ensures i < k ==> ImportanceIn(xy, 0, |xy| - 1, i) == ImportanceIn(xy, f.0, k, i)
      ensures i > k ==> ImportanceIn(xy, 0, |xy| - 1, i) == ImportanceIn(xy, k, f.1, i)
    {
      assert InsideFrame(f, i);
    }
  }

  lemma DropFrames(rest: seq<Frame>, f: Frame, xy: seq<XY>)
    requires Frames(rest + [f], xy)
    ensures Frames(rest, xy)
  {
    var before := rest + [f];
    assert forall a :: 0 <= a < |rest| ==> before[a] == rest[a];
  }

  /** One split: the frames stay faithful, and k joins the split positions. */
  lemma SplitTop(rest: seq<Frame>, f: Frame, k: nat, xy: seq<XY>, splits: seq<nat>)
    requires Frames(rest + [f], xy) && SplitOnce(splits, rest + [f], |xy|)
    requires f.0 + 1 < f.1 < |xy| && k == SplitOf(xy, f.0, f.1)
    ensures Frames(rest + [(f.0, k), (k, f.1)], xy)
    ensures SplitOnce(splits + [k], rest + [(f.0, k), (k, f.1)], |xy|)
    ensures forall i: nat :: Pending(rest + [(f.0, k), (k, f.1)], i) <==> Pending(rest + [f], i) && i != k
    ensures 0 < k < |xy| - 1 && Finite(Deviation(xy, f.0, f.1, k)) == ImportanceOf(xy, k)
  {
    SplitFrames(rest, f, xy);
    assert (rest + [f])[|rest|] == f && Faithful(f, xy) && InsideFrame(f, k);
    PendingTop(rest, f, k);
    forall i: nat ensures Pending(rest + [(f.0, k), (k, f.1)], i) <==> Pending(rest + [f], i) && i != k {
      SplitPending(rest, f, k, |xy|, i);
    }
  }

  lemma DropTop(rest: seq<Frame>, f: Frame, xy: seq<XY>, splits: seq<nat>)
    requires Frames(rest + [f], xy) && SplitOnce(splits, rest + [f], |xy|) && f.1 < f.0 + 2
    ensures Frames(rest, xy) && SplitOnce(splits, rest, |xy|)
    ensures forall i: nat :: Pending(rest, i) <==> Pending(rest + [f], i)
  {
    DropFrames(rest, f, xy);
    forall i: nat ensures Pending(rest, i) <==> Pending(rest + [f], i) { PendingTop(rest, f, i); }
  }

  lemma SplitsBounded(splits: seq<nat>, stack: seq<Frame>, n: nat)
    requires SplitOnce(splits, stack, n)
    ensures |splits| <= n
  {
    NoRepeatsSize(splits);
    forall i | i in Elements(splits) ensures i < n { assert i in splits; }
    BoundedSetSize(Elements(splits), n);
  }

  method FindSplit(xy: seq<XY>, s: nat, e: nat) returns (splitIdx: nat, maxDist: real)
    requires s + 1 < e < |xy|
    ensures splitIdx == SplitOf(xy, s, e) && maxDist == Deviation(xy, s, e, splitIdx)
  {
    splitIdx := s + 1;
    maxDist := -1.0;
    for i := s + 1 to e
      invariant i == s + 1 ==> maxDist == -1.0
      invariant i > s + 1 ==> splitIdx == BestBefore(xy, s, e, i) && maxDist == Deviation(xy, s, e, splitIdx)
    {
      var d := Deviation(xy, s, e, i);
      DeviationNonNegative(xy, s, e, i);
      if d > maxDist {
        maxDist := d;
        splitIdx := i;
      }
    }
  }

  lemma DeviationNonNegative(xy: seq<XY>, s: nat, e: nat, i: nat)
    requires s < |xy| && e < |xy| && i < |xy|
    ensures Deviation(xy, s, e, i) >= 0.0
  {
    var q := Nearest(xy[i], xy[s], xy[e]);
    SquareNonNegative(xy[i].x - q.x);
    SquareNonNegative(xy[i].y - q.y);
  }

  /** Every position that is not pending has its final importance. */
  ghost predicate Settled(importance: seq<Importance>, stack: seq<Frame>, xy: seq<XY>) {
    |importance| == |xy| && forall i: nat :: i < |xy| && !Pending(stack, i) ==> importance[i] == ImportanceOf(xy, i)
  }

  /** The stack loop computes the recursive definition, and splits every interior position exactly once. */
  method ComputeImportances(xy: seq<XY>) returns (importance: array<Importance>, ghost splits: seq<nat>)
    ensures fresh(importance) && importance[..] == ImportancesOf(xy)
    ensures NoRepeats(splits) && forall i: nat :: i in splits <==> 0 < i < |xy| - 1
  {
    var n := |xy|;
    importance := new Importance[n](_ => Finite(0.0));
    splits := [];
    if n == 0 { return; }
    importance[0] := Infinite;
    importance[n - 1] := Infinite;
    if n < 3 { return; }
    var stack: seq<Frame> := [(0, n - 1)];
    assert forall i: nat :: Pending(stack, i) <==> InsideFrame((0, n - 1), i) by {
      forall i: nat ensures Pending(stack, i) <==> InsideFrame((0, n - 1), i) { PendingTop([], (0, n - 1), i); }
    }
    while stack != []
      invariant Frames(stack, xy) && SplitOnce(splits, stack, n) && |splits| <= n
      invariant Settled(importance[..], stack, xy)
      decreases n - |splits|, |stack|
    {
      var f := stack[|stack| - 1];
      ghost var before := stack;
      stack := stack[..|stack| - 1];
      assert before == stack + [f];
      if f.1 < f.0 + 2 {
        DropTop(stack, f, xy, splits);
      } else {
        assert before[|stack|] == f;
        var k, maxDist := FindSplit(xy, f.0, f.1);
        SplitTop(stack, f, k, xy, splits);
        importance[k] := Finite(maxDist);
        stack := stack + [(f.0, k), (k, f.1)];
        splits := splits + [k];
        SplitsBounded(splits, stack, n);
      }
    }
    assert forall i: nat :: !Pending([], i);
  }

  // ---------------------------------------------------------------- keeping the most important

  predicate Greater(a: Importance, b: Importance) {
    (a.Infinite? && b.Finite?) || (a.Finite? && b.Finite? && a.deviationSq > b.deviationSq)
  }

  function KeyOf(importance: seq<Importance>, i: nat): Importance {
    if i < |importance| then importance[i] else Finite(-1.0)
  }

  /** More important first; on a tie, the earlier point. */
  predicate Before(importance: seq<Importance>, a: nat, b: nat) {
    Greater(KeyOf(importance, a), KeyOf(importance, b)) || (KeyOf(importance, a) == KeyOf(importance, b) && a <= b)
  }

  function BeforeOf(importance: seq<Importance>): (nat, nat) -> bool {
    (a: nat, b: nat) => Before(importance, a, b)
  }

  predicate NatLe(a: nat, b: nat) { a <= b }

  function Numbers(n: nat): seq<nat> { seq(n, i => i) }

  lemma BeforeIsTotal(importance: seq<Importance>)
    ensures TotalPreorder(BeforeOf(importance))
  {
  }

  /** Kept positions in route order: strictly ascending, from the first point to the last. */
  ghost predicate RouteOrder(kept: seq<nat>, n: nat) {
    && |kept| >= 2 && kept[0] == 0 && kept[|kept| - 1] == n - 1
    && (forall a, b :: 0 <= a < b < |kept| ==> kept[a] < kept[b])
    && (forall i :: i in kept ==> i < n)
  }

  /** At least as important; among equals, the earlier point. */
  predicate Outranks(importance: seq<Importance>, i: nat, j: nat)
    requires i < |importance| && j < |importance|
  {
    match (importance[i], importance[j])
    case (Infinite, Infinite) => i < j
    case (Infinite, Finite(_)) => true
    case (Finite(_), Infinite) => false
    case (Finite(d), Finite(e)) => !(d < e) && (d == e ==> i < j)
  }

  lemma BeforeOutranks(importance: seq<Importance>, i: nat, j: nat)
    requires i < |importance| && j < |importance| && i != j
    ensures Before(importance, i, j) <==> Outranks(importance, i, j)
  {
  }

  /** Every kept point outranks every dropped one. */
  ghost predicate KeepsMostImportant(kept: seq<nat>, importance: seq<Importance>) {
    forall i: nat, j: nat :: i in kept && i < |importance| && j < |importance| && j !in kept ==>
      Outranks(importance, i, j)
  }

  lemma {:induction false} CountNumbers(n: nat, i: nat)
    ensures multiset(Numbers(n))[i] == if i < n then 1 else 0
  {
    if n > 0 {
      CountNumbers(n - 1, i);
      assert Numbers(n) == Numbers(n - 1) + [n - 1];
    }
  }

  lemma NoDoubles(s: seq<nat>)
    requires forall i :: multiset(s)[i] <= 1
    ensures forall a, b :: 0 <= a < b < |s| ==> s[a] != s[b]
  {
    forall a, b | 0 <= a < b < |s| ensures s[a] != s[b] {
      assert s == s[..b] + s[b..];
      assert multiset(s) == multiset(s[..b]) + multiset(s[b..]);
      assert s[a] in s[..b] && s[b] == s[b..][0];
      assert multiset(s)[s[a]] == multiset(s[..b])[s[a]] + multiset(s[b..])[s[a]];
      assert multiset(s[..b])[s[a]] >= 1 && multiset(s[b..])[s[b]] >= 1;
    }
  }

  /** The ranking lists every position once, most important first. */
  lemma Ranking(importance: seq<Importance>) returns (ranked: seq<nat>)
    ensures ranked == Sort(Numbers(|importance|), BeforeOf(importance)) && |ranked| == |importance|
    ensures forall i: nat :: i in ranked <==> i < |importance|
    ensures forall a, b :: 0 <= a < b < |ranked| ==> ranked[a] != ranked[b] && Before(importance, ranked[a], ranked[b])
  {
    var n, le := |importance|, BeforeOf(importance);
    ranked := Sort(Numbers(n), le);
    BeforeIsTotal(importance);
    SortSorts(Numbers(n), le);
    forall i: nat ensures multiset(ranked)[i] == (if i < n then 1 else 0) { CountNumbers(n, i); }
    forall i: nat ensures i in ranked <==> i < n { assert i in ranked <==> i in multiset(ranked); }
    NoDoubles(ranked);
    forall a, b | 0 <= a < b < |ranked| ensures Before(importance, ranked[a], ranked[b]) {
      assert le(ranked[a], ranked[b]);
    }
  }

  /** An endpoint is among the first two of the ranking. */
  lemma EndpointRanksHigh(importance: seq<Importance>, ranked: seq<nat>, cap: nat, x: nat)
    requires |importance| >= 2 && 2 <= cap <= |ranked| && (x == 0 || x == |importance| - 1)
    requires forall i :: 0 <= i < |importance| ==> (importance[i].Infinite? <==> i == 0 || i == |importance| - 1)
    requires forall i: nat :: i in ranked <==> i < |importance|
    requires forall a, b :: 0 <= a < b < |ranked| ==> ranked[a] != ranked[b] && Before(importance, ranked[a], ranked[b])
    ensures x in ranked[..cap]
  {
    assert x in ranked;
    var a :| 0 <= a < |ranked| && ranked[a] == x;
    assert ranked[0] in ranked && ranked[1] in ranked && ranked[0] != ranked[1];
    assert a == 0 || Before(importance, ranked[0], ranked[a]);
    assert a < 2;
    assert ranked[..cap][a] == x;
  }

  /** Sorting the chosen positions puts them in route order. */
  lemma InRouteOrder(chosen: seq<nat>, n: nat) returns (kept: seq<nat>)
    requires n >= 2 && 0 in chosen && n - 1 in chosen && forall i :: i in chosen ==> i < n
    requires forall a, b :: 0 <= a < b < |chosen| ==> chosen[a] != chosen[b]
    ensures kept == Sort(chosen, NatLe) && |kept| == |chosen|
    ensures forall i: nat :: i in kept <==> i in chosen
    ensures RouteOrder(kept, n)
  {
    kept := Sort(chosen, NatLe);
    SortSorts(chosen, NatLe);
    forall i: nat ensures i in kept <==> i in chosen { SortMember(chosen, NatLe, i); }
    forall i: nat ensures multiset(kept)[i] <= 1 { AtMostOnce(chosen, i); }
    NoDoubles(kept);
    forall a, b | 0 <= a < b < |kept| ensures kept[a] < kept[b] {
      assert NatLe(kept[a], kept[b]);
    }
    var a :| 0 <= a < |kept| && kept[a] == 0;
    var b :| 0 <= b < |kept| && kept[b] == n - 1;
    assert kept[|kept| - 1] in kept;
  }

  lemma {:induction false} AtMostOnce(s: seq<nat>, x: nat)
    requires forall a, b :: 0 <= a < b < |s| ==> s[a] != s[b]
    ensures multiset(s)[x] <= 1
  {
    if s != [] {
      assert s == [s[0]] + s[1..];
      AtMostOnce(s[1..], x);
    }
  }

  function Pick<P>(points: seq<P>, kept: seq<nat>): seq<P>
    requires forall i :: 0 <= i < |kept| ==> kept[i] < |points|
  {
    seq(|kept|, i requires 0 <= i < |kept| => points[kept[i]])
  }

  /** All projected points coincide. */
  predicate Degenerate(xy: seq<XY>) {
    var b := RingBox(xy);
    b.Box? && b.minX == b.maxX && b.minY == b.maxY
  }

  ghost predicate AllSame(xy: seq<XY>) { forall i, j :: 0 <= i < |xy| && 0 <= j < |xy| ==> xy[i] == xy[j] }

  lemma {:induction false} BoxOfOneSpot(xy: seq<XY>)
    requires xy != [] && AllSame(xy)
    ensures RingBox(xy) == Box(xy[0].x, xy[0].x, xy[0].y, xy[0].y)
  {
    var init := xy[..|xy| - 1];
    assert xy[|xy| - 1] == xy[0];
    if init != [] {
      assert forall i :: 0 <= i < |init| ==> init[i] == xy[i];
      BoxOfOneSpot(init);
    }
  }

  /** The box test recognises exactly the routes that never leave one spot. */
  lemma DegenerateIff(xy: seq<XY>)
    requires xy != []
    ensures Degenerate(xy) <==> AllSame(xy)
  {
    RingBoxContains(xy);
    if AllSame(xy) { BoxOfOneSpot(xy); }
    if Degenerate(xy) {
      forall i, j | 0 <= i < |xy| && 0 <= j < |xy| ensures xy[i] == xy[j] {
        assert Contains(RingBox(xy), xy[i]) && Contains(RingBox(xy), xy[j]);
      }
    }
  }

  function ImportancesOf(xy: seq<XY>): seq<Importance> {
    seq(|xy|, i requires 0 <= i < |xy| => ImportanceOf(xy, i))
  }

  /**
   * `out` is the points at these positions: both ends, route order, and outside a single spot exactly `cap`, none
   * less important than a dropped one.
   */
  ghost predicate Selects<P>(out: seq<P>, points: seq<P>, xy: seq<XY>, cap: nat, kept: seq<nat>) {
    && RouteOrder(kept, |points|) && out == Pick(points, kept) && |out| <= cap
    && (AllSame(xy) ==> kept == [0, |points| - 1])
    && (!AllSame(xy) ==> |out| == cap && |xy| == |points| && KeepsMostImportant(kept, ImportancesOf(xy)))
  }

  ghost predicate IsSimplified<P>(out: seq<P>, points: seq<P>, xy: seq<XY>, cap: nat) {
    exists kept: seq<nat> :: Selects(out, points, xy, cap, kept)
  }

  /** Simplifies to at most `maxPoints` points, or two. */
  method SimplifyToMaxPoints<P>(points: seq<P>, xy: seq<XY>, maxPoints: int) returns (out: seq<P>)
    requires |points| == |xy|
    ensures var cap := if maxPoints < 2 then 2 else maxPoints;
      if |points| <= cap then out == points else IsSimplified(out, points, xy, cap)
  {
    var cap := if maxPoints < 2 then 2 else maxPoints;
    var n := |points|;
    if n <= cap { return points; }
    DegenerateIff(xy);
    if Degenerate(xy) {
      out := [points[0], points[n - 1]];
      assert Selects(out, points, xy, cap, [0, n - 1]);
      return;
    }
    var importance, _ := ComputeImportances(xy);
    var indices := Sort(Numbers(n), BeforeOf(importance[..]));
    ghost var ranked := Ranking(importance[..]);
    var chosen := indices[..cap];
    ChosenAreKept(xy, cap);
    var ascending := Sort(chosen, NatLe);
    ghost var kept := InRouteOrder(chosen, n);
    assert forall i :: 0 <= i < |ascending| ==> ascending[i] in kept;
    out := seq(|ascending|, i requires 0 <= i < |ascending| => points[ascending[i]]);
    assert Selects(out, points, xy, cap, kept);
  }

  ghost function Ranked(xy: seq<XY>): seq<nat> { Sort(Numbers(|xy|), BeforeOf(ImportancesOf(xy))) }

  lemma ChosenOutranks(importance: seq<Importance>, ranked: seq<nat>, cap: nat, i: nat, j: nat)
    requires cap <= |ranked| && i < |importance| && j < |importance|
    requires i in ranked[..cap] && j in ranked && j !in ranked[..cap]
    requires forall a, b :: 0 <= a < b < |ranked| ==> Before(importance, ranked[a], ranked[b])
    ensures Outranks(importance, i, j)
  {
    var a :| 0 <= a < cap && ranked[..cap][a] == i;
    var b :| 0 <= b < |ranked| && ranked[b] == j;
    assert Before(importance, ranked[a], ranked[b]);
    BeforeOutranks(importance, i, j);
  }

  /**
   * The first `cap` of the ranking: positions of the route without repeats, both ends among them, and no other
   * position ranks before one of them.
   */
  lemma ChosenAreKept(xy: seq<XY>, cap: nat)
    requires 2 <= cap < |xy|
    ensures |Ranked(xy)| == |xy|
    ensures var chosen := Ranked(xy)[..cap];
      && 0 in chosen && |xy| - 1 in chosen
      && (forall i :: i in chosen ==> i < |xy|)
      && (forall a, b :: 0 <= a < b < cap ==> chosen[a] != chosen[b])
      && (forall i: nat, j: nat :: i in chosen && i < |xy| && j < |xy| && j !in chosen ==>
           Outranks(ImportancesOf(xy), i, j))
  {
    var importance, ranked := ImportancesOf(xy), Ranked(xy);
    var r := Ranking(importance);
    forall i | 0 <= i < |xy| ensures importance[i].Infinite? <==> i == 0 || i == |xy| - 1 {
      if 0 < i < |xy| - 1 { InteriorIsFinite(xy, 0, |xy| - 1, i); }
    }
    EndpointRanksHigh(importance, ranked, cap, 0);
    EndpointRanksHigh(importance, ranked, cap, |xy| - 1);
    forall i | i in ranked[..cap] ensures i in ranked {}
    forall i: nat, j: nat | i in ranked[..cap] && i < |xy| && j < |xy| && j !in ranked[..cap]
      ensures Outranks(importance, i, j)
    {
      ChosenOutranks(importance, ranked, cap, i, j);
    }
  }
}
