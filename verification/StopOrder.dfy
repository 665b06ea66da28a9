/** What playing a trail in order means, stop by stop (`inOrder` in packages/rules/src/completion.ts). */
module StopOrder {
  import opened Calendar
  import opened Ordering
  import opened Completion

  function StopOf(m: Member): nat { if m.stopOrder.Some? then m.stopOrder.value else 0 }

  predicate StopLe(a: Member, b: Member) { StopOf(a) <= StopOf(b) }

  /** The dates of the stops in stop order. */
  function StopDates(v: RosterVersion, all: seq<RosterVersion>, plays: seq<Play>, ctx: Context, opts: EvalOptions)
    : seq<seq<Date>>
  {
    var stops := Sort(v.members, StopLe);
    seq(|stops|, i requires 0 <= i < |stops| => QualifyingDates(stops[i], v, all, plays, ctx, opts))
  }

  /** Both have a date, and the first one's earliest is not later. */
  predicate NoLater(a: seq<Date>, b: seq<Date>) { a != [] && b != [] && a[0] <= b[0] }

  predicate Neighbours(dates: seq<seq<Date>>) {
    forall i :: 0 < i < |dates| ==> NoLater(dates[i - 1], dates[i])
  }

  /** A version is played in order when it is complete and the first dates never go back along its stops. */
  predicate VersionInOrder(
    v: RosterVersion, all: seq<RosterVersion>, plays: seq<Play>, ctx: Context, opts: EvalOptions)
  {
    && (forall k :: 0 <= k < |v.members| ==> v.members[k].stopOrder.Some?)
    && Complete(v, all, plays, ctx, opts) && Neighbours(StopDates(v, all, plays, ctx, opts))
  }

  predicate InOrder(all: seq<RosterVersion>, plays: seq<Play>, ctx: Context, opts: EvalOptions) {
    exists k :: 0 <= k < |all| && VersionInOrder(all[k], all, plays, ctx, opts)
  }

  // ---------------------------------------------------------------- what it asks of the plays

  /** Stop i comes before stop j; among equal stop numbers the earlier listed one does. */
  predicate StopsBefore(v: RosterVersion, i: nat, j: nat)
    requires i < |v.members| && j < |v.members|
  {
    StopOf(v.members[i]) < StopOf(v.members[j]) || (StopOf(v.members[i]) == StopOf(v.members[j]) && i < j)
  }

  /** Some play counts for stop i that is no later than any play that counts for stop j. */
  ghost predicate ReachedBy(
    v: RosterVersion, i: nat, j: nat, all: seq<RosterVersion>, plays: seq<Play>, ctx: Context, opts: EvalOptions)
  {
    exists p :: p in plays && CountsFor(p, v, i, all, ctx, opts)
      && forall q :: q in plays && CountsFor(q, v, j, all, ctx, opts) ==> p.localDate <= q.localDate
  }

  ghost predicate AllAttained(
    v: RosterVersion, all: seq<RosterVersion>, plays: seq<Play>, ctx: Context, opts: EvalOptions)
  {
    forall i: nat :: i < |v.members| ==> Attained(v, i, all, plays, ctx, opts)
  }

  /** No stop was first reached later than a stop after it. */
  ghost predicate NeverBack(
    v: RosterVersion, all: seq<RosterVersion>, plays: seq<Play>, ctx: Context, opts: EvalOptions)
  {
    forall i: nat, j: nat :: i < |v.members| && j < |v.members| && StopsBefore(v, i, j) ==>
      ReachedBy(v, i, j, all, plays, ctx, opts)
  }

  ghost predicate PlayedInOrder(
    v: RosterVersion, all: seq<RosterVersion>, plays: seq<Play>, ctx: Context, opts: EvalOptions)
  {
    && (forall i :: 0 <= i < |v.members| ==> v.members[i].stopOrder.Some?)
    && Meets(v.completionRule, |v.members|, AttainedAt(v, all, plays, ctx, opts))
    && (|v.members| >= 2 ==> AllAttained(v, all, plays, ctx, opts))
    && NeverBack(v, all, plays, ctx, opts)
  }

  function DatesAt(
    v: RosterVersion, i: nat, all: seq<RosterVersion>, plays: seq<Play>, ctx: Context, opts: EvalOptions): seq<Date>
    requires i < |v.members|
  {
    QualifyingDates(v.members[i], v, all, plays, ctx, opts)
  }

  lemma FirstDateIsEarliest(
    v: RosterVersion, i: nat, all: seq<RosterVersion>, plays: seq<Play>, ctx: Context, opts: EvalOptions)
    requires i < |v.members|
    ensures var dates := DatesAt(v, i, all, plays, ctx, opts);
      && (dates != [] <==> Attained(v, i, all, plays, ctx, opts))
      && (dates != [] ==> exists p :: p in plays && CountsFor(p, v, i, all, ctx, opts) && p.localDate == dates[0])
      && (forall q :: q in plays && CountsFor(q, v, i, all, ctx, opts) ==> dates != [] && dates[0] <= q.localDate)
  {
    var dates := DatesAt(v, i, all, plays, ctx, opts);
    SatisfiedIffAttained(v, i, all, plays, ctx, opts);
    if dates != [] { QualifyingDatesMember(v.members[i], v, all, plays, ctx, opts, dates[0]); }
    forall q | q in plays && CountsFor(q, v, i, all, ctx, opts)
      ensures dates != [] && dates[0] <= q.localDate
    {
      QualifyingDatesMember(v.members[i], v, all, plays, ctx, opts, q.localDate);
      var k :| 0 <= k < |dates| && dates[k] == q.localDate;
      assert k > 0 ==> IntLe(dates[0], dates[k]);
    }
  }

  lemma ReachedByIff(
    v: RosterVersion, i: nat, j: nat, all: seq<RosterVersion>, plays: seq<Play>, ctx: Context, opts: EvalOptions)
    requires i < |v.members| && j < |v.members|
    requires Attained(v, i, all, plays, ctx, opts) && Attained(v, j, all, plays, ctx, opts)
    ensures ReachedBy(v, i, j, all, plays, ctx, opts) <==>
      NoLater(DatesAt(v, i, all, plays, ctx, opts), DatesAt(v, j, all, plays, ctx, opts))
  {
    FirstDateIsEarliest(v, i, all, plays, ctx, opts);
    FirstDateIsEarliest(v, j, all, plays, ctx, opts);
  }

  // ---------------------------------------------------------------- along the sorted stops

  /** Neighbours in order are enough. */
  lemma {:induction false} NeighboursChain(dates: seq<seq<Date>>, a: nat, b: nat)
    requires Neighbours(dates) && a < b < |dates|
    ensures NoLater(dates[a], dates[b])
    decreases b
  {
    if a < b - 1 { NeighboursChain(dates, a, b - 1); }
    assert NoLater(dates[b - 1], dates[b]);
  }

  lemma StopLeIsOrder()
    ensures TotalPreorder(StopLe)
  {
  }

  ghost predicate IsListing(v: RosterVersion, perm: seq<nat>) {
    Lists(perm, v.members, Sort(v.members, StopLe), StopLe)
  }

  /** Listing positions follow the order of the stops. */
  lemma ListedInStopOrder(v: RosterVersion, perm: seq<nat>, a: nat, b: nat)
    requires IsListing(v, perm) && a < b < |v.members|
    ensures StopsBefore(v, perm[a], perm[b])
  {
    var stops := Sort(v.members, StopLe);
    StopLeIsOrder();
    SortSorts(v.members, StopLe);
    assert StopLe(stops[a], stops[b]);
  }

  lemma StopsBeforeListed(v: RosterVersion, perm: seq<nat>, i: nat, j: nat) returns (a: nat, b: nat)
    requires IsListing(v, perm) && i < |v.members| && j < |v.members| && StopsBefore(v, i, j)
    ensures a < b < |v.members| && perm[a] == i && perm[b] == j
  {
    assert i in perm && j in perm;
    a :| 0 <= a < |perm| && perm[a] == i;
    b :| 0 <= b < |perm| && perm[b] == j;
    if b < a { ListedInStopOrder(v, perm, b, a); }
  }

  /** The dates in stop order are those of the members, by the listing. */
  lemma ListedDates(
    v: RosterVersion, all: seq<RosterVersion>, plays: seq<Play>, ctx: Context, opts: EvalOptions, perm: seq<nat>)
    requires IsListing(v, perm)
    ensures var dates := StopDates(v, all, plays, ctx, opts);
      |dates| == |v.members| && forall k :: 0 <= k < |dates| ==> dates[k] == DatesAt(v, perm[k], all, plays, ctx, opts)
  {
  }

  lemma InOrderMeansNoLater(
    v: RosterVersion, i: nat, j: nat, all: seq<RosterVersion>, plays: seq<Play>, ctx: Context, opts: EvalOptions)
    requires i < |v.members| && j < |v.members| && StopsBefore(v, i, j)
    requires AllAttained(v, all, plays, ctx, opts) && NeverBack(v, all, plays, ctx, opts)
    ensures NoLater(DatesAt(v, i, all, plays, ctx, opts), DatesAt(v, j, all, plays, ctx, opts))
  {
    ReachedByIff(v, i, j, all, plays, ctx, opts);
  }

  lemma InOrderMeansNeighbours(
    v: RosterVersion, all: seq<RosterVersion>, plays: seq<Play>, ctx: Context, opts: EvalOptions, perm: seq<nat>)
    requires IsListing(v, perm)
    requires |v.members| >= 2 ==> AllAttained(v, all, plays, ctx, opts)
    requires NeverBack(v, all, plays, ctx, opts)
    ensures Neighbours(StopDates(v, all, plays, ctx, opts))
  {
    var dates := StopDates(v, all, plays, ctx, opts);
    ListedDates(v, all, plays, ctx, opts, perm);
    forall k | 0 < k < |dates| ensures NoLater(dates[k - 1], dates[k]) {
      ListedInStopOrder(v, perm, k - 1, k);
      InOrderMeansNoLater(v, perm[k - 1], perm[k], all, plays, ctx, opts);
    }
  }

  lemma NeighboursAttain(
    v: RosterVersion, all: seq<RosterVersion>, plays: seq<Play>, ctx: Context, opts: EvalOptions, perm: seq<nat>)
    requires IsListing(v, perm) && Neighbours(StopDates(v, all, plays, ctx, opts)) && |v.members| >= 2
    ensures AllAttained(v, all, plays, ctx, opts)
  {
    var dates := StopDates(v, all, plays, ctx, opts);
    ListedDates(v, all, plays, ctx, opts, perm);
    forall i: nat | i < |v.members| ensures Attained(v, i, all, plays, ctx, opts) {
      assert i in perm;
      var a :| 0 <= a < |perm| && perm[a] == i;
      NeighboursChain(dates, 0, if a == 0 then 1 else a);
      FirstDateIsEarliest(v, i, all, plays, ctx, opts);
    }
  }

  lemma NeighboursNeverBack(
    v: RosterVersion, all: seq<RosterVersion>, plays: seq<Play>, ctx: Context, opts: EvalOptions, perm: seq<nat>)
    requires IsListing(v, perm) && Neighbours(StopDates(v, all, plays, ctx, opts))
    requires |v.members| >= 2 ==> AllAttained(v, all, plays, ctx, opts)
    ensures NeverBack(v, all, plays, ctx, opts)
  {
    var dates := StopDates(v, all, plays, ctx, opts);
    ListedDates(v, all, plays, ctx, opts, perm);
    forall i: nat, j: nat | i < |v.members| && j < |v.members| && StopsBefore(v, i, j)
      ensures ReachedBy(v, i, j, all, plays, ctx, opts)
    {
      var a, b := StopsBeforeListed(v, perm, i, j);
      NeighboursChain(dates, a, b);
      ReachedByIff(v, i, j, all, plays, ctx, opts);
    }
  }

  /** What the source's pairwise test along the sorted stops asks. */
  lemma NeighboursIff(v: RosterVersion, all: seq<RosterVersion>, plays: seq<Play>, ctx: Context, opts: EvalOptions)
    ensures Neighbours(StopDates(v, all, plays, ctx, opts)) <==>
      (|v.members| >= 2 ==> AllAttained(v, all, plays, ctx, opts)) && NeverBack(v, all, plays, ctx, opts)
  {
    var perm := SortLists(v.members, StopLe);
    if Neighbours(StopDates(v, all, plays, ctx, opts)) {
      if |v.members| >= 2 { NeighboursAttain(v, all, plays, ctx, opts, perm); }
      NeighboursNeverBack(v, all, plays, ctx, opts, perm);
    } else if (|v.members| >= 2 ==> AllAttained(v, all, plays, ctx, opts)) && NeverBack(v, all, plays, ctx, opts) {
      InOrderMeansNeighbours(v, all, plays, ctx, opts, perm);
    }
  }

  /**
   * A version is played in order exactly when every member has a stop number, enough of them are attained, all of them
   * if there are several, and no stop was first reached later than a stop after it.
   */
  lemma VersionInOrderIff(v: RosterVersion, all: seq<RosterVersion>, plays: seq<Play>, ctx: Context, opts: EvalOptions)
    ensures VersionInOrder(v, all, plays, ctx, opts) <==> PlayedInOrder(v, all, plays, ctx, opts)
  {
    CompleteIff(v, all, plays, ctx, opts);
    NeighboursIff(v, all, plays, ctx, opts);
  }
}
