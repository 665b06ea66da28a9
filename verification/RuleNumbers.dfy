/** What each numeric aggregate stands for, in terms of the plays that qualify. */
module RuleNumbers {
  import opened Calendar
  import opened Common
  import opened Completion
  import opened Aggregates
  import opened RuleExpr
  import opened RuleEval

  /** Some qualifying play is on this course, followed through its merges. */
  ghost predicate Visited(course: Id, plays: seq<Play>, ctx: Context, opts: EvalOptions) {
    exists p :: p in plays && PlayQualifies(p, ctx, opts, None) && ResolveId(ctx, p.courseId) == course
  }

  predicate IsVisit(course: Id, plays: seq<Play>, i: nat, ctx: Context, opts: EvalOptions) {
    i < |plays| && PlayQualifies(plays[i], ctx, opts, None)
    && ResolveId(ctx, plays[i].courseId) == ResolveId(ctx, course)
  }

  ghost predicate AreVisits(places: set<nat>, course: Id, plays: seq<Play>, ctx: Context, opts: EvalOptions) {
    forall i :: i in places <==> IsVisit(course, plays, i, ctx, opts)
  }

  ghost predicate AreVisited(courses: set<Id>, plays: seq<Play>, ctx: Context, opts: EvalOptions) {
    forall c :: c in courses <==> Visited(c, plays, ctx, opts)
  }

  /** Some visited course has the value. */
  ghost predicate Met(v: string, field: Field, plays: seq<Play>, ctx: Context, opts: EvalOptions) {
    exists c :: Visited(c, plays, ctx, opts) && v in FieldValues(c, field, ctx)
  }

  ghost predicate AreMet(
    values: set<string>, field: Field, only: Option<seq<string>>, plays: seq<Play>, ctx: Context, opts: EvalOptions)
  {
    forall v :: v in values <==> Met(v, field, plays, ctx, opts) && (only.None? || v in only.value)
  }

  ghost predicate AreVisitedWith(
    courses: set<Id>, field: Field, v: string, plays: seq<Play>, ctx: Context, opts: EvalOptions)
  {
    forall c :: c in courses <==> Visited(c, plays, ctx, opts) && v in FieldValues(c, field, ctx)
  }

  /** The most often any value occurs over these courses. */
  ghost predicate IsHighest(n: nat, courses: set<Id>, field: Field, ctx: Context) {
    && (forall v :: Tally(courses, ValuesOf(field, ctx))[v] <= n)
    && (exists v :: Tally(courses, ValuesOf(field, ctx))[v] == n)
  }

  ghost predicate PlayedIn(month: int, plays: seq<Play>, ctx: Context, opts: EvalOptions) {
    exists p :: p in plays && PlayQualifies(p, ctx, opts, None) && InMonth(p.localDate, month)
  }

  ghost predicate AreMonths(months: set<int>, plays: seq<Play>, ctx: Context, opts: EvalOptions) {
    forall m :: m in months <==> PlayedIn(m, plays, ctx, opts)
  }

  ghost predicate IsLongest(n: nat, months: set<int>) { forall j: nat :: HasRun(months, j) <==> j <= n }

  ghost predicate AreAttained(
    places: set<nat>, v: RosterVersion, all: seq<RosterVersion>, plays: seq<Play>, ctx: Context, opts: EvalOptions)
  {
    forall i :: i in places <==> Attained(v, i, all, plays, ctx, opts)
  }

  /** The part of the required members attained, no more than the whole; none required is nothing. */
  function Part(attained: nat, rule: Rule, n: nat): real {
    var required := match rule case All => n case NofM(m) => m;
    if required == 0 then 0.0 else if attained >= required then 1.0 else attained as real / required as real
  }

  ghost predicate HasPart(
    x: real, v: RosterVersion, all: seq<RosterVersion>, plays: seq<Play>, ctx: Context, opts: EvalOptions)
  {
    exists places :: AreAttained(places, v, all, plays, ctx, opts)
      && x == Part(|places|, v.completionRule, |v.members|)
  }

  ghost predicate AreCredited(
    fs: set<Id>, v: RosterVersion, all: seq<RosterVersion>, plays: seq<Play>, ctx: Context, opts: EvalOptions)
  {
    forall f :: f in fs <==>
      f != "" && (exists m :: m in v.members && IsHostedBy(m, f, ctx)) && Credited(f, v, all, plays, ctx, opts)
  }

  ghost predicate HasCredit(
    n: nat, v: RosterVersion, all: seq<RosterVersion>, plays: seq<Play>, ctx: Context, opts: EvalOptions)
  {
    exists fs :: AreCredited(fs, v, all, plays, ctx, opts) && n == |fs|
  }

  // ---------------------------------------------------------------- counts

  lemma PlayedMeaning(course: Id, plays: seq<Play>, ctx: Context, opts: EvalOptions, places: set<nat>)
    requires AreVisits(places, course, plays, ctx, opts)
    ensures Played(course, plays, ctx, opts) == |places|
  {
    var keep := (p: Play) =>
      PlayQualifies(p, ctx, opts, None) && ResolveId(ctx, p.courseId) == ResolveId(ctx, course);
    FilterCount(plays, |plays|, keep);
    assert plays[..|plays|] == plays;
    assert Common.Below(KeptAt(plays, keep), |plays|) == places;
  }

  lemma VisitedAre(plays: seq<Play>, ctx: Context, opts: EvalOptions)
    ensures AreVisited(QualifyingCourses(plays, ctx, opts), plays, ctx, opts)
  {
  }

  lemma DistinctIffMet(
    v: string, field: Field, only: Option<seq<string>>, plays: seq<Play>, ctx: Context, opts: EvalOptions)
    ensures v in DistinctValues(QualifyingCourses(plays, ctx, opts), ValuesOf(field, ctx), only) <==>
      Met(v, field, plays, ctx, opts) && (only.None? || v in only.value)
  {
    var courses := QualifyingCourses(plays, ctx, opts);
    VisitedAre(plays, ctx, opts);
    if v in DistinctValues(courses, ValuesOf(field, ctx), only) {
      var c :| c in courses && v in ValuesOf(field, ctx)(c) && Allowed(v, only);
      assert Visited(c, plays, ctx, opts) && v in FieldValues(c, field, ctx);
    }
    if Met(v, field, plays, ctx, opts) && (only.None? || v in only.value) {
      var c :| Visited(c, plays, ctx, opts) && v in FieldValues(c, field, ctx);
      assert c in courses && v in ValuesOf(field, ctx)(c) && Allowed(v, only);
    }
  }

  lemma DistinctAreMet(
    field: Field, only: Option<seq<string>>, plays: seq<Play>, ctx: Context, opts: EvalOptions)
    ensures AreMet(
      DistinctValues(QualifyingCourses(plays, ctx, opts), ValuesOf(field, ctx), only), field, only, plays, ctx, opts)
  {
    forall v
      ensures v in DistinctValues(QualifyingCourses(plays, ctx, opts), ValuesOf(field, ctx), only) <==>
        Met(v, field, plays, ctx, opts) && (only.None? || v in only.value)
    {
      DistinctIffMet(v, field, only, plays, ctx, opts);
    }
  }

  lemma MaxCountByMeaning(field: Field, plays: seq<Play>, ctx: Context, opts: EvalOptions, courses: set<Id>)
    requires AreVisited(courses, plays, ctx, opts)
    ensures IsHighest(MaxCountBy(field, plays, ctx, opts), courses, field, ctx)
  {
    VisitedAre(plays, ctx, opts);
    assert courses == QualifyingCourses(plays, ctx, opts);
    PeakMeaning(Tally(courses, ValuesOf(field, ctx)));
  }

  // ---------------------------------------------------------------- months

  lemma PlayedMonthsAre(plays: seq<Play>, ctx: Context, opts: EvalOptions)
    ensures AreMonths(PlayedMonths(plays, ctx, opts), plays, ctx, opts)
  {
    forall m ensures m in PlayedMonths(plays, ctx, opts) <==> PlayedIn(m, plays, ctx, opts) {
      forall p | p in plays ensures InMonth(p.localDate, m) <==> MonthOf(p.localDate) == m {
        MonthOfIsCalendarMonth(p.localDate, m);
      }
    }
  }

  // ---------------------------------------------------------------- progress and credits

  lemma AttainedAreSatisfied(
    v: RosterVersion, all: seq<RosterVersion>, plays: seq<Play>, ctx: Context, opts: EvalOptions)
    ensures AreAttained(SatisfiedBelow(v, |v.members|, all, plays, ctx, opts), v, all, plays, ctx, opts)
  {
    forall i: nat | i < |v.members|
      ensures Satisfied(v, i, all, plays, ctx, opts) <==> Attained(v, i, all, plays, ctx, opts)
    {
      SatisfiedIffAttained(v, i, all, plays, ctx, opts);
    }
  }

  lemma PartIsShare(v: RosterVersion, all: seq<RosterVersion>, plays: seq<Play>, ctx: Context, opts: EvalOptions)
    ensures HasPart(Min(1.0, Share(v, all, plays, ctx, opts)), v, all, plays, ctx, opts)
  {
    var places := SatisfiedBelow(v, |v.members|, all, plays, ctx, opts);
    AttainedAreSatisfied(v, all, plays, ctx, opts);
    if Required(v) > 0 { RatioVersusOne(|places| as real, Required(v) as real); }
    assert Min(1.0, Share(v, all, plays, ctx, opts)) == Part(|places|, v.completionRule, |v.members|);
  }

  lemma PartIsUnique(
    x: real, y: real, v: RosterVersion, all: seq<RosterVersion>, plays: seq<Play>, ctx: Context, opts: EvalOptions)
    requires HasPart(x, v, all, plays, ctx, opts) && HasPart(y, v, all, plays, ctx, opts)
    ensures x == y
  {
    var places :| AreAttained(places, v, all, plays, ctx, opts) && x == Part(|places|, v.completionRule, |v.members|);
    var others :| AreAttained(others, v, all, plays, ctx, opts) && y == Part(|others|, v.completionRule, |v.members|);
    assert places == others;
  }

  /** The largest of the versions' parts, or nothing. */
  ghost predicate IsBestPart(
    x: real, all: seq<RosterVersion>, plays: seq<Play>, ctx: Context, opts: EvalOptions)
  {
    && (forall k, y :: 0 <= k < |all| && HasPart(y, all[k], all, plays, ctx, opts) ==> y <= x)
    && (x == 0.0 || exists k :: 0 <= k < |all| && HasPart(x, all[k], all, plays, ctx, opts))
  }

  lemma TrailProgressIsBestPart(all: seq<RosterVersion>, plays: seq<Play>, ctx: Context, opts: EvalOptions)
    ensures IsBestPart(TrailProgress(all, plays, ctx, opts), all, plays, ctx, opts)
  {
    var best, x := BestShare(all, all, plays, ctx, opts), TrailProgress(all, plays, ctx, opts);
    BestShareMeaning(all, all, plays, ctx, opts);
    forall k, y | 0 <= k < |all| && HasPart(y, all[k], all, plays, ctx, opts) ensures y <= x {
      PartIsShare(all[k], all, plays, ctx, opts);
      PartIsUnique(y, Min(1.0, Share(all[k], all, plays, ctx, opts)), all[k], all, plays, ctx, opts);
    }
    if best != 0.0 {
      var k :| 0 <= k < |all| && Share(all[k], all, plays, ctx, opts) == best;
      PartIsShare(all[k], all, plays, ctx, opts);
    }
  }

  ghost predicate IsBestCredit(
    n: nat, all: seq<RosterVersion>, plays: seq<Play>, ctx: Context, opts: EvalOptions)
  {
    && (forall k, m: nat :: 0 <= k < |all| && HasCredit(m, all[k], all, plays, ctx, opts) ==> m <= n)
    && (n == 0 || exists k :: 0 <= k < |all| && HasCredit(n, all[k], all, plays, ctx, opts))
  }

  lemma CreditedAre(v: RosterVersion, all: seq<RosterVersion>, plays: seq<Play>, ctx: Context, opts: EvalOptions)
    ensures AreCredited(CreditedFacilities(v, all, plays, ctx, opts), v, all, plays, ctx, opts)
  {
    forall f
      ensures f in MarkerRoster(v, ctx) <==> f != "" && exists m :: m in v.members && IsHostedBy(m, f, ctx)
    {
      if f != "" && exists m :: m in v.members && IsHostedBy(m, f, ctx) {
        var m :| m in v.members && IsHostedBy(m, f, ctx);
        var k :| 0 <= k < |v.members| && v.members[k] == m;
        assert FacilityOfMember(v.members[k], ctx) == Some(f);
      }
      if f in MarkerRoster(v, ctx) {
        var k :| 0 <= k < |v.members| && FacilityOfMember(v.members[k], ctx) == Some(f);
        assert IsHostedBy(v.members[k], f, ctx);
      }
    }
  }

  lemma MarkerCreditsIsBest(all: seq<RosterVersion>, plays: seq<Play>, ctx: Context, opts: EvalOptions)
    ensures IsBestCredit(MarkerCredits(all, plays, ctx, opts), all, plays, ctx, opts)
  {
    var n := MarkerCredits(all, plays, ctx, opts);
    BestCreditIsLargest(all, all, plays, ctx, opts);
    forall k, m: nat | 0 <= k < |all| && HasCredit(m, all[k], all, plays, ctx, opts)
      ensures m == Credit(all[k], all, plays, ctx, opts)
    {
      CreditedAre(all[k], all, plays, ctx, opts);
      var fs :| AreCredited(fs, all[k], all, plays, ctx, opts) && m == |fs|;
      assert fs == CreditedFacilities(all[k], all, plays, ctx, opts);
    }
    if all != [] {
      var k :| 0 <= k < |all| && Credit(all[k], all, plays, ctx, opts) == n;
      CreditedAre(all[k], all, plays, ctx, opts);
      assert HasCredit(n, all[k], all, plays, ctx, opts);
    }
  }

  // ---------------------------------------------------------------- every call

  /** What the number of a call must be. */
  ghost predicate StandsFor(x: real, call: NumericCall, plays: seq<Play>, ctx: Context, opts: EvalOptions) {
    match call
    case PlayedCall(c) => exists places :: AreVisits(places, c, plays, ctx, opts) && x == |places| as real
    case TrailProgressCall(t) => IsBestPart(x, if t in ctx.trails then ctx.trails[t] else [], plays, ctx, opts)
    case UniqueCoursesCall => exists courses :: AreVisited(courses, plays, ctx, opts) && x == |courses| as real
    case CountDistinctCall(f, only) =>
      exists values :: AreMet(values, f, only, plays, ctx, opts) && x == |values| as real
    case MaxCountByCall(f) =>
      exists courses, n :: AreVisited(courses, plays, ctx, opts) && IsHighest(n, courses, f, ctx) && x == n as real
    case CountWhereCall(f, v) =>
      exists courses :: AreVisitedWith(courses, f, v, plays, ctx, opts) && x == |courses| as real
    case MarkerCreditsCall(t) =>
      var all := if t in ctx.trails then ctx.trails[t] else [];
      exists n :: IsBestCredit(n, all, plays, ctx, opts) && x == n as real
    case MonthlyStreakCall =>
      exists months, n :: AreMonths(months, plays, ctx, opts) && IsLongest(n, months) && x == n as real
  }

  /** The sets a number is the size of. */
  lemma CountedSets(call: NumericCall, ctx: EvalContext, opts: EvalOptions)
    requires call.PlayedCall? || call.UniqueCoursesCall? || call.CountDistinctCall? || call.CountWhereCall?
    ensures StandsFor(NumberUnder(call, ctx, opts), call, ctx.plays, ctx.base, opts)
  {
    var plays, base := ctx.plays, ctx.base;
    var courses := QualifyingCourses(plays, base, opts);
    VisitedAre(plays, base, opts);
    match call
    case PlayedCall(c) =>
      var places := set i: nat | i < |plays| && IsVisit(c, plays, i, base, opts);
      assert AreVisits(places, c, plays, base, opts);
      PlayedMeaning(c, plays, base, opts, places);
    case UniqueCoursesCall =>
    case CountDistinctCall(f, only) =>
      var values := DistinctValues(courses, ValuesOf(f, base), only);
      DistinctAreMet(f, only, plays, base, opts);
    case CountWhereCall(f, v) =>
      assert AreVisitedWith(Sharing(courses, ValuesOf(f, base), v), f, v, plays, base, opts);
  }

  /** Every numeric aggregate is the number it is documented to be. */
  lemma NumberMeaning(call: NumericCall, ctx: EvalContext, opts: EvalOptions)
    ensures StandsFor(NumberUnder(call, ctx, opts), call, ctx.plays, ctx.base, opts)
  {
    var plays, base := ctx.plays, ctx.base;
    match call
    case TrailProgressCall(t) => TrailProgressIsBestPart(VersionsOf(base, t), plays, base, opts);
    case MarkerCreditsCall(t) => MarkerCreditsIsBest(VersionsOf(base, t), plays, base, opts);
    case MaxCountByCall(f) =>
      var courses := QualifyingCourses(plays, base, opts);
      VisitedAre(plays, base, opts);
      MaxCountByMeaning(f, plays, base, opts, courses);
    case MonthlyStreakCall =>
      PlayedMonthsAre(plays, base, opts);
      LongestRunMeaning(PlayedMonths(plays, base, opts));
      assert IsLongest(LongestRun(PlayedMonths(plays, base, opts)), PlayedMonths(plays, base, opts));
    case _ => CountedSets(call, ctx, opts);
  }
}
