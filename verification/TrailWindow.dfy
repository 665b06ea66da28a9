/** `trailCompleteWithin`: the sliding window over every (member, date) pair, against its pairwise definition. */
module TrailWindow {
  import opened Calendar
  import opened Common
  import opened Ordering
  import opened Completion

  datatype Point = Point(member: nat, date: Date)

  /** How many members a window must cover; even a requirement of zero needs one play to look at. */
  function Need(required: nat): nat { if required == 0 then 1 else required }

  /** One qualifying date for each of enough distinct members, all pairwise within `days`. */
  ghost predicate Witness(dates: seq<seq<Date>>, required: nat, days: nat, choice: map<nat, Date>) {
    && |choice| == Need(required)
    && (forall i :: i in choice ==> i < |dates| && choice[i] in dates[i])
    && (forall i, j :: i in choice && j in choice ==> choice[j] - choice[i] <= days)
  }

  ghost predicate FitsWithin(dates: seq<seq<Date>>, required: nat, days: nat) {
    exists choice :: Witness(dates, required, days, choice)
  }

  function AllDates(
    v: RosterVersion, all: seq<RosterVersion>, plays: seq<Play>, ctx: Context, opts: EvalOptions): seq<seq<Date>>
  {
    seq(|v.members|, i requires 0 <= i < |v.members| => QualifyingDates(v.members[i], v, all, plays, ctx, opts))
  }

  ghost predicate VersionWithin(
    v: RosterVersion, all: seq<RosterVersion>, plays: seq<Play>, ctx: Context, days: nat, opts: EvalOptions)
  {
    Complete(v, all, plays, ctx, opts) && FitsWithin(AllDates(v, all, plays, ctx, opts), Required(v), days)
  }

  ghost predicate TrailCompleteWithin(
    all: seq<RosterVersion>, plays: seq<Play>, ctx: Context, days: nat, opts: EvalOptions)
  {
    exists k: nat :: WithinAt(all, k, plays, ctx, days, opts)
  }

  ghost predicate WithinAt(
    all: seq<RosterVersion>, k: nat, plays: seq<Play>, ctx: Context, days: nat, opts: EvalOptions)
  {
    k < |all| && VersionWithin(all[k], all, plays, ctx, days, opts)
  }

  // ---------------------------------------------------------------- points

  function PointsBelow(dates: seq<seq<Date>>, n: nat): seq<Point>
    requires n <= |dates|
  {
    if n == 0 then [] else
      PointsBelow(dates, n - 1)
        + seq(|dates[n - 1]|, k requires 0 <= k < |dates[n - 1]| => Point(n - 1, dates[n - 1][k]))
  }

  lemma {:induction false} PointsBelowMember(dates: seq<seq<Date>>, n: nat, p: Point)
    requires n <= |dates|
    ensures p in PointsBelow(dates, n) <==> p.member < n && p.date in dates[p.member]
  {
    if n > 0 {
      PointsBelowMember(dates, n - 1, p);
      var last := seq(|dates[n - 1]|, k requires 0 <= k < |dates[n - 1]| => Point(n - 1, dates[n - 1][k]));
      if p.member == n - 1 && p.date in dates[n - 1] {
        var k :| 0 <= k < |dates[n - 1]| && dates[n - 1][k] == p.date;
        assert last[k] == p;
      }
    }
  }

  predicate DateLe(a: Point, b: Point) { a.date <= b.date }

  ghost predicate ByDate(pts: seq<Point>) {
    forall i, j :: 0 <= i < j < |pts| ==> pts[i].date <= pts[j].date
  }

  /** The members seen at positions lo..hi. */
  ghost function MembersBetween(pts: seq<Point>, lo: nat, hi: nat): set<nat>
    requires lo <= hi <= |pts|
  {
    set k | lo <= k < hi :: pts[k].member
  }

  /** The members with a date at most `days` before position r's. */
  ghost function MembersWithin(pts: seq<Point>, r: nat, days: nat): set<nat>
    requires r < |pts|
  {
    set k | 0 <= k <= r && pts[r].date - pts[k].date <= days :: pts[k].member
  }

  function CountIn(pts: seq<Point>, lo: nat, hi: nat, m: nat): nat
    requires lo <= hi <= |pts|
    decreases hi - lo
  {
    if lo == hi then 0 else CountIn(pts, lo, hi - 1, m) + if pts[hi - 1].member == m then 1 else 0
  }

  lemma {:induction false} CountWithoutFirst(pts: seq<Point>, lo: nat, hi: nat, m: nat)
    requires lo < hi <= |pts|
    ensures CountIn(pts, lo, hi, m) == (if pts[lo].member == m then 1 else 0) + CountIn(pts, lo + 1, hi, m)
    decreases hi - lo
  {
    if lo + 1 < hi { CountWithoutFirst(pts, lo, hi - 1, m); }
  }

  lemma {:induction false} CountPositive(pts: seq<Point>, lo: nat, hi: nat, m: nat)
    requires lo <= hi <= |pts|
    ensures CountIn(pts, lo, hi, m) > 0 <==> m in MembersBetween(pts, lo, hi)
    decreases hi - lo
  {
    if lo < hi { CountPositive(pts, lo, hi - 1, m); }
  }

  function CountOf(counts: map<nat, int>, m: nat): int {
    if m in counts then counts[m] else 0
  }

  /** The window variables describe positions lo..hi. */
  ghost predicate Tracks(pts: seq<Point>, counts: map<nat, int>, distinct: int, lo: nat, hi: nat) {
    && lo <= hi <= |pts|
    && (forall m: nat :: CountOf(counts, m) == CountIn(pts, lo, hi, m))
    && distinct == |MembersBetween(pts, lo, hi)|
  }

  lemma TakeIn(pts: seq<Point>, counts: map<nat, int>, distinct: int, lo: nat, hi: nat)
    requires Tracks(pts, counts, distinct, lo, hi) && hi < |pts|
    ensures var m := pts[hi].member;
      var c := CountOf(counts, m) + 1;
      Tracks(pts, counts[m := c], if c == 1 then distinct + 1 else distinct, lo, hi + 1)
  {
    var m := pts[hi].member;
    CountPositive(pts, lo, hi, m);
    var c := CountOf(counts, m) + 1;
    var counts', hi' := counts[m := c], hi + 1;
    forall x: nat ensures CountOf(counts', x) == CountIn(pts, lo, hi', x) {
      assert CountOf(counts, x) == CountIn(pts, lo, hi, x);
    }
    assert MembersBetween(pts, lo, hi + 1) == MembersBetween(pts, lo, hi) + {m};
    if m in MembersBetween(pts, lo, hi) {
      assert MembersBetween(pts, lo, hi + 1) == MembersBetween(pts, lo, hi);
    }
  }

  lemma DropOut(pts: seq<Point>, counts: map<nat, int>, distinct: int, lo: nat, hi: nat)
    requires Tracks(pts, counts, distinct, lo, hi) && lo < hi
    ensures var m := pts[lo].member;
      var c := CountOf(counts, m) - 1;
      && m in counts
      && Tracks(pts, counts[m := c], if c == 0 then distinct - 1 else distinct, lo + 1, hi)
  {
    var m := pts[lo].member;
    forall x: nat ensures CountIn(pts, lo, hi, x) == (if x == m then 1 else 0) + CountIn(pts, lo + 1, hi, x) {
      CountWithoutFirst(pts, lo, hi, x);
    }
    CountPositive(pts, lo + 1, hi, m);
    assert CountOf(counts, m) == CountIn(pts, lo, hi, m) > 0;
    var c := CountOf(counts, m) - 1;
    var counts', lo' := counts[m := c], lo + 1;
    forall x: nat ensures CountOf(counts', x) == CountIn(pts, lo', hi, x) {
      assert CountOf(counts, x) == CountIn(pts, lo, hi, x);
    }
    assert MembersBetween(pts, lo, hi) == MembersBetween(pts, lo + 1, hi) + {m};
    if m in MembersBetween(pts, lo + 1, hi) {
      assert MembersBetween(pts, lo, hi) == MembersBetween(pts, lo + 1, hi);
    }
  }

  /** Everything before the left edge is too old for every date from `right` on. */
  ghost predicate TooOldBefore(pts: seq<Point>, left: nat, right: nat, days: nat) {
    forall k, j :: 0 <= k < left <= |pts| && right <= j < |pts| ==> pts[j].date - pts[k].date > days
  }

  /** Moves the left edge past every point too old for position `right`; it never passes it. */
  method Shrink(pts: seq<Point>, right: nat, days: nat, counts0: map<nat, int>, distinct0: int, left0: nat)
      returns (counts: map<nat, int>, distinct: int, left: nat)
    requires ByDate(pts) && left0 <= right < |pts| && Tracks(pts, counts0, distinct0, left0, right + 1)
    requires TooOldBefore(pts, left0, right, days)
    ensures left <= right && Tracks(pts, counts, distinct, left, right + 1)
    ensures TooOldBefore(pts, left, right, days) && pts[right].date - pts[left].date <= days
  {
    counts, distinct, left := counts0, distinct0, left0;
    while pts[right].date - pts[left].date > days
      invariant left <= right && Tracks(pts, counts, distinct, left, right + 1)
      invariant TooOldBefore(pts, left, right, days)
      decreases right - left
    {
      var lp := pts[left];
      DropOut(pts, counts, distinct, left, right + 1);
      var c := counts[lp.member] - 1;
      counts := counts[lp.member := c];
      if c == 0 { distinct := distinct - 1; }
      left := left + 1;
    }
  }

  lemma WindowIsWithin(pts: seq<Point>, left: nat, right: nat, days: nat)
    requires ByDate(pts) && left <= right < |pts| && TooOldBefore(pts, left, right, days)
      && pts[right].date - pts[left].date <= days
    ensures MembersBetween(pts, left, right + 1) == MembersWithin(pts, right, days)
  {
  }

  /** The window loop on date-sorted points: some position closes a window with enough members. */
  method Slide(pts: seq<Point>, required: nat, days: nat) returns (found: bool)
    requires ByDate(pts)
    ensures found <==> exists r: nat :: r < |pts| && |MembersWithin(pts, r, days)| >= required
  {
    var counts: map<nat, int> := map[];
    var distinct := 0;
    var left: nat := 0;
    for right := 0 to |pts|
      invariant left <= right && Tracks(pts, counts, distinct, left, right)
      invariant TooOldBefore(pts, left, right, days)
      invariant forall r: nat :: r < right ==> |MembersWithin(pts, r, days)| < required
    {
      var p := pts[right];
      TakeIn(pts, counts, distinct, left, right);
      var nextCount := CountOf(counts, p.member) + 1;
      counts := counts[p.member := nextCount];
      if nextCount == 1 { distinct := distinct + 1; }
      counts, distinct, left := Shrink(pts, right, days, counts, distinct, left);
      WindowIsWithin(pts, left, right, days);
      if distinct >= required { return true; }
    }
    return false;
  }

  // ---------------------------------------------------------------- windows and witnesses

  /** The last date of member m at or before position r. */
  ghost function LastDate(pts: seq<Point>, r: nat, m: nat): Date
    requires r < |pts|
  {
    if pts[r].member == m || r == 0 then pts[r].date else LastDate(pts, r - 1, m)
  }

  lemma {:induction false} LastDateIsLate(pts: seq<Point>, r: nat, m: nat, k: nat)
    requires ByDate(pts) && k <= r < |pts| && pts[k].member == m
    ensures pts[k].date <= LastDate(pts, r, m) <= pts[r].date
    ensures Point(m, LastDate(pts, r, m)) in pts
  {
    if pts[r].member == m {
      assert pts[r] == Point(m, LastDate(pts, r, m));
    } else {
      LastDateIsLate(pts, r - 1, m, k);
    }
  }

  lemma WindowGivesWitness(dates: seq<seq<Date>>, pts: seq<Point>, required: nat, days: nat, r: nat)
    requires ByDate(pts) && forall p :: p in pts ==> p.member < |dates| && p.date in dates[p.member]
    requires r < |pts| && |MembersWithin(pts, r, days)| >= required
    ensures FitsWithin(dates, required, days)
  {
    var seen := MembersWithin(pts, r, days);
    assert pts[r].member in seen;
    assert |seen| >= 1;
    var members := SubsetOfSize(seen, Need(required));
    var choice := map m | m in members :: LastDate(pts, r, m);
    assert choice.Keys == members;
    forall m | m in choice
      ensures pts[r].date - days <= choice[m] <= pts[r].date && m < |dates| && choice[m] in dates[m]
    {
      var k: nat :| k <= r && pts[k].member == m && pts[r].date - pts[k].date <= days;
      LastDateIsLate(pts, r, m, k);
    }
    assert Witness(dates, required, days, choice);
  }

  /** The last position that carries one of the chosen (member, date) pairs. */
  lemma {:induction false} LastChosen(pts: seq<Point>, choice: map<nat, Date>, n: nat) returns (r: nat)
    requires n <= |pts| && exists k :: 0 <= k < n && pts[k].member in choice && choice[pts[k].member] == pts[k].date
    ensures r < n && pts[r].member in choice && choice[pts[r].member] == pts[r].date
    ensures forall k :: r < k < n ==> !(pts[k].member in choice && choice[pts[k].member] == pts[k].date)
  {
    r := n - 1;
    if !(pts[r].member in choice && choice[pts[r].member] == pts[r].date) {
      r := LastChosen(pts, choice, n - 1);
    }
  }

  lemma WitnessGivesWindow(dates: seq<seq<Date>>, pts: seq<Point>, required: nat, days: nat, choice: map<nat, Date>)
    requires ByDate(pts) && forall p: Point :: p.member < |dates| && p.date in dates[p.member] ==> p in pts
    requires Witness(dates, required, days, choice)
    ensures exists r: nat :: r < |pts| && |MembersWithin(pts, r, days)| >= required
  {
    assert |choice.Keys| >= 1;
    var m0 :| m0 in choice.Keys;
    assert Point(m0, choice[m0]) in pts;
    var r := LastChosen(pts, choice, |pts|);
    forall m | m in choice.Keys ensures m in MembersWithin(pts, r, days) {
      assert Point(m, choice[m]) in pts;
      var k :| 0 <= k < |pts| && pts[k] == Point(m, choice[m]);
      assert k <= r;
    }
    SubsetSize(choice.Keys, MembersWithin(pts, r, days));
  }

  method WindowSearch(dates: seq<seq<Date>>, required: nat, days: nat) returns (found: bool)
    ensures found <==> FitsWithin(dates, required, days)
  {
    var points: seq<Point> := [];
    for i := 0 to |dates|
      invariant points == PointsBelow(dates, i)
    {
      points := points + seq(|dates[i]|, k requires 0 <= k < |dates[i]| => Point(i, dates[i][k]));
    }
    var sorted := Sort(points, DateLe);
    SortSorts(points, DateLe);
    forall p: Point ensures p in sorted <==> p.member < |dates| && p.date in dates[p.member] {
      SortMember(points, DateLe, p);
      PointsBelowMember(dates, |dates|, p);
    }
    assert ByDate(sorted) by {
      forall i, j | 0 <= i < j < |sorted| ensures sorted[i].date <= sorted[j].date {
        assert DateLe(sorted[i], sorted[j]);
      }
    }
    found := Slide(sorted, required, days);
    if found {
      ghost var r: nat :| r < |sorted| && |MembersWithin(sorted, r, days)| >= required;
      WindowGivesWitness(dates, sorted, required, days, r);
    }
    if choice :| Witness(dates, required, days, choice) {
      WitnessGivesWindow(dates, sorted, required, days, choice);
    }
  }

  // ---------------------------------------------------------------- what it asks of the plays

  /** How many different members a rule wants seen; one at least. */
  function Wanted(rule: Rule, n: nat): nat {
    match rule
    case All => if n == 0 then 1 else n
    case NofM(m) => if m == 0 then 1 else m
  }

  /** For each of enough different members, a play that counts for it, all of them within `days` of one another. */
  ghost predicate CloseVisits(
    v: RosterVersion, all: seq<RosterVersion>, plays: seq<Play>, ctx: Context, days: nat, opts: EvalOptions,
    visits: map<nat, Play>)
  {
    && |visits| == Wanted(v.completionRule, |v.members|)
    && (forall i :: i in visits ==> visits[i] in plays && CountsFor(visits[i], v, i, all, ctx, opts))
    && (forall i, j :: i in visits && j in visits ==> visits[j].localDate - visits[i].localDate <= days)
  }

  lemma VisitIsDated(
    v: RosterVersion, i: nat, all: seq<RosterVersion>, plays: seq<Play>, ctx: Context, opts: EvalOptions, visit: Play)
    requires visit in plays && CountsFor(visit, v, i, all, ctx, opts)
    ensures var dates := AllDates(v, all, plays, ctx, opts); i < |dates| && visit.localDate in dates[i]
  {
    QualifyingDatesMember(v.members[i], v, all, plays, ctx, opts, visit.localDate);
  }

  lemma VisitsAreWitness(
    v: RosterVersion, all: seq<RosterVersion>, plays: seq<Play>, ctx: Context, days: nat, opts: EvalOptions,
    visits: map<nat, Play>)
    requires CloseVisits(v, all, plays, ctx, days, opts, visits)
    ensures FitsWithin(AllDates(v, all, plays, ctx, opts), Required(v), days)
  {
    var dates := AllDates(v, all, plays, ctx, opts);
    var choice := map i | i in visits :: visits[i].localDate;
    assert choice.Keys == visits.Keys;
    forall i | i in choice ensures i < |dates| && choice[i] in dates[i] {
      VisitIsDated(v, i, all, plays, ctx, opts, visits[i]);
    }
    assert Witness(dates, Required(v), days, choice);
  }

  lemma WitnessHasVisits(
    v: RosterVersion, all: seq<RosterVersion>, plays: seq<Play>, ctx: Context, days: nat, opts: EvalOptions,
    choice: map<nat, Date>)
    returns (visits: map<nat, Play>)
    requires Witness(AllDates(v, all, plays, ctx, opts), Required(v), days, choice)
    ensures CloseVisits(v, all, plays, ctx, days, opts, visits)
  {
    forall i | i in choice
      ensures exists p :: p in plays && p.localDate == choice[i] && CountsFor(p, v, i, all, ctx, opts)
    {
      QualifyingDatesMember(v.members[i], v, all, plays, ctx, opts, choice[i]);
    }
    visits := map i | i in choice ::
      var p :| p in plays && p.localDate == choice[i] && CountsFor(p, v, i, all, ctx, opts);
      p;
    assert visits.Keys == choice.Keys;
  }

  lemma WitnessIsComplete(
    v: RosterVersion, all: seq<RosterVersion>, plays: seq<Play>, ctx: Context, days: nat, opts: EvalOptions,
    choice: map<nat, Date>)
    requires Witness(AllDates(v, all, plays, ctx, opts), Required(v), days, choice)
    ensures Complete(v, all, plays, ctx, opts)
  {
    var satisfied := SatisfiedBelow(v, |v.members|, all, plays, ctx, opts);
    forall i | i in choice.Keys ensures i in satisfied {
      assert choice[i] in QualifyingDates(v.members[i], v, all, plays, ctx, opts);
    }
    SubsetSize(choice.Keys, satisfied);
  }

  /** A trail is complete within the days exactly when one of its versions has close visits to enough members. */
  lemma TrailWithinIff(
    all: seq<RosterVersion>, plays: seq<Play>, ctx: Context, days: nat, opts: EvalOptions)
    ensures TrailCompleteWithin(all, plays, ctx, days, opts) <==>
      exists k, visits :: 0 <= k < |all| && CloseVisits(all[k], all, plays, ctx, days, opts, visits)
  {
    if k: nat :| WithinAt(all, k, plays, ctx, days, opts) {
      var choice :| Witness(AllDates(all[k], all, plays, ctx, opts), Required(all[k]), days, choice);
      var visits := WitnessHasVisits(all[k], all, plays, ctx, days, opts, choice);
    }
    if k, visits :| 0 <= k < |all| && CloseVisits(all[k], all, plays, ctx, days, opts, visits) {
      VisitsAreWitness(all[k], all, plays, ctx, days, opts, visits);
      var choice :| Witness(AllDates(all[k], all, plays, ctx, opts), Required(all[k]), days, choice);
      WitnessIsComplete(all[k], all, plays, ctx, days, opts, choice);
      assert WithinAt(all, k, plays, ctx, days, opts);
    }
  }

  // ---------------------------------------------------------------- the search over versions

  method SearchVersion(
    v: RosterVersion, all: seq<RosterVersion>, plays: seq<Play>, ctx: Context, days: nat, opts: EvalOptions)
    returns (fits: bool)
    ensures fits <==> VersionWithin(v, all, plays, ctx, days, opts)
  {
    var result := EvaluateVersionCompletion(v, all, plays, ctx, opts);
    if !result.complete { return false; }
    assert result.members == AllDates(v, all, plays, ctx, opts);
    fits := WindowSearch(result.members, result.requiredCount, days);
  }

  /** Names the question whether version k fits, so that the loop below need not look into the answer. */
  ghost predicate Ask(within: nat -> bool, k: nat) { true }

  ghost predicate Answers(
    within: nat -> bool, all: seq<RosterVersion>, plays: seq<Play>, ctx: Context, days: nat, opts: EvalOptions)
  {
    forall k: nat {:trigger Ask(within, k)} :: Ask(within, k) ==>
      (within(k) <==> WithinAt(all, k, plays, ctx, days, opts))
  }

  method SearchAt(
    all: seq<RosterVersion>, k: nat, plays: seq<Play>, ctx: Context, days: nat, opts: EvalOptions,
    ghost within: nat -> bool)
    returns (fits: bool)
    requires k < |all| && Answers(within, all, plays, ctx, days, opts)
    ensures fits == within(k)
  {
    fits := SearchVersion(all[k], all, plays, ctx, days, opts);
    assert Ask(within, k);
  }

  /** The first version that fits, or the number of versions. */
  method FirstWithin(
    all: seq<RosterVersion>, plays: seq<Play>, ctx: Context, days: nat, opts: EvalOptions, ghost within: nat -> bool)
    returns (k: nat)
    requires Answers(within, all, plays, ctx, days, opts)
    ensures k <= |all| && (k < |all| ==> within(k)) && forall j: nat :: j < k ==> !within(j)
  {
    k := 0;
    while k < |all|
      invariant k <= |all| && forall j: nat :: j < k ==> !within(j)
    {
      var fits := SearchAt(all, k, plays, ctx, days, opts, within);
      if fits { return; }
      k := k + 1;
    }
  }

  lemma FoundIffWithin(
    all: seq<RosterVersion>, k: nat, plays: seq<Play>, ctx: Context, days: nat, opts: EvalOptions,
    within: nat -> bool)
    requires Answers(within, all, plays, ctx, days, opts)
    requires k <= |all| && (k < |all| ==> within(k)) && forall j: nat :: j < k ==> !within(j)
    ensures k < |all| <==> TrailCompleteWithin(all, plays, ctx, days, opts)
  {
    assert Ask(within, k);
    if j: nat :| WithinAt(all, j, plays, ctx, days, opts) {
      assert Ask(within, j);
    }
  }

  /** The source's function: true exactly when some complete version has the pairwise witness. */
  method ComputeTrailCompleteWithin(
    all: seq<RosterVersion>, plays: seq<Play>, ctx: Context, days: nat, opts: EvalOptions)
    returns (r: bool)
    ensures r <==> TrailCompleteWithin(all, plays, ctx, days, opts)
  {
    ghost var within := (k: nat) => WithinAt(all, k, plays, ctx, days, opts);
    var k := FirstWithin(all, plays, ctx, days, opts, within);
    FoundIffWithin(all, k, plays, ctx, days, opts, within);
    r := k < |all|;
  }
}
