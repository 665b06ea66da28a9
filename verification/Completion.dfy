/**
 * Trail completion (packages/rules/src/completion.ts): which plays qualify, which member of which roster
 * version they satisfy, and the trail aggregates built on that. Dates are day numbers, scores are reals.
 */
module Completion {
  import opened Calendar
  import opened Common
  import opened Ordering
  import L = Ledger

  type Id = string

  const BADGE_THRESHOLD := 0.5

  datatype Disambiguation = Geometry | Staff | User

  datatype Play = Play(
    courseId: Id, localDate: Date, disambiguatedBy: Disambiguation, scoreBadge: real, moneyQualifies: bool)

  datatype Country = US | CA

  datatype CourseMeta = CourseMeta(
    facilityId: Id, region: Option<string>, country: Option<Country>, designers: seq<Id>,
    composite: Option<(Id, Id)>, verified: bool)

  datatype CompletionUnit = CourseUnit | FacilityUnit | HoleUnit

  datatype Member =
    | CourseMember(courseId: Id, stopOrder: Option<nat>)
    | AnyOfMember(anyOf: seq<Id>, stopOrder: Option<nat>)
    | FacilityMember(facilityId: Id, stopOrder: Option<nat>)
    | HoleMember(courseId: Id, stopOrder: Option<nat>)

  datatype Rule = All | NofM(n: nat)

  datatype RosterVersion = RosterVersion(
    version: nat, effectiveFrom: Date, completionUnit: CompletionUnit, completionRule: Rule, markerRule: Rule,
    trackingStartsOn: Option<Date>, members: seq<Member>)

  datatype Context = Context(
    courses: map<Id, CourseMeta>, ledger: Option<L.IdLedger>, trails: map<Id, seq<RosterVersion>>)

  /** A money evaluation always has a programme start; a badge evaluation may override the badge threshold. */
  datatype EvalOptions = Money(programmeStartsOn: Date) | Badge(badgeThreshold: Option<real>)

  // ---------------------------------------------------------------- look-ups

  function ResolveId(ctx: Context, id: Id): Id {
    if ctx.ledger.Some? then L.Resolve(ctx.ledger.value, id) else id
  }

  function MetaOf(ctx: Context, courseId: Id): Option<CourseMeta> {
    var resolved := ResolveId(ctx, courseId);
    if resolved in ctx.courses then Some(ctx.courses[resolved])
    else if courseId in ctx.courses then Some(ctx.courses[courseId])
    else None
  }

  function FacilityOf(ctx: Context, courseId: Id): Option<Id> {
    var meta := MetaOf(ctx, courseId);
    if meta.Some? then Some(meta.value.facilityId) else None
  }

  predicate CourseVerified(ctx: Context, courseId: Id) {
    MetaOf(ctx, courseId).Some? && MetaOf(ctx, courseId).value.verified
  }

  // ---------------------------------------------------------------- qualification

  predicate PlayQualifies(play: Play, ctx: Context, opts: EvalOptions, trackingStartsOn: Option<Date>) {
    && CourseVerified(ctx, play.courseId)
    && (trackingStartsOn.Some? ==> trackingStartsOn.value <= play.localDate)
    && match opts
       case Money(start) => play.moneyQualifies && start <= play.localDate
       case Badge(threshold) =>
         play.scoreBadge >= (if threshold.Some? then threshold.value else BADGE_THRESHOLD) || play.moneyQualifies
  }

  /** Whatever counts under the narrow options counts under the wide ones. */
  ghost predicate NoStricter(ctx: Context, wide: EvalOptions, narrow: EvalOptions) {
    forall p: Play, t: Option<Date> :: PlayQualifies(p, ctx, narrow, t) ==> PlayQualifies(p, ctx, wide, t)
  }

  // ---------------------------------------------------------------- the user-pick guard

  /** The facility and date a user pick speaks for; other plays, and picks at an unknown facility, speak for none. */
  function PickKey(play: Play, ctx: Context): Option<(Id, Date)> {
    if play.disambiguatedBy != User then None
    else
      var f := FacilityOf(ctx, play.courseId);
      if f.None? || f.value == "" then None else Some((f.value, play.localDate))
  }

  /** A user pick is kept when no later pick speaks for the same facility and date. */
  predicate PickStands(plays: seq<Play>, i: nat, ctx: Context)
    requires i < |plays|
  {
    PickKey(plays[i], ctx).None? || forall j :: i < j < |plays| ==> PickKey(plays[j], ctx) != PickKey(plays[i], ctx)
  }

  function GuardedUpTo(plays: seq<Play>, ctx: Context, n: nat): seq<Play>
    requires n <= |plays|
  {
    if n == 0 then [] else
      GuardedUpTo(plays, ctx, n - 1) + (if PickStands(plays, n - 1, ctx) then [plays[n - 1]] else [])
  }

  function GuardedPlays(plays: seq<Play>, ctx: Context): seq<Play> {
    GuardedUpTo(plays, ctx, |plays|)
  }

  /** Of the first n plays, the last to speak for each facility and date. */
  ghost predicate LatestPicks(latest: map<(Id, Date), nat>, plays: seq<Play>, n: nat, ctx: Context)
    requires n <= |plays|
  {
    && (forall k :: k in latest ==> latest[k] < n && PickKey(plays[latest[k]], ctx) == Some(k))
    && (forall j: nat :: j < n && PickKey(plays[j], ctx).Some? ==>
         PickKey(plays[j], ctx).value in latest && j <= latest[PickKey(plays[j], ctx).value])
  }

  lemma LatestNext(latest: map<(Id, Date), nat>, plays: seq<Play>, i: nat, ctx: Context)
    requires i < |plays| && LatestPicks(latest, plays, i, ctx)
    ensures var key := PickKey(plays[i], ctx);
      LatestPicks(if key.Some? then latest[key.value := i] else latest, plays, i + 1, ctx)
  {
  }

  lemma LatestStands(latest: map<(Id, Date), nat>, plays: seq<Play>, i: nat, ctx: Context)
    requires LatestPicks(latest, plays, |plays|, ctx) && i < |plays| && PickKey(plays[i], ctx).Some?
    ensures PickKey(plays[i], ctx).value in latest
    ensures PickStands(plays, i, ctx) <==> latest[PickKey(plays[i], ctx).value] == i
  {
    assert PickKey(plays[latest[PickKey(plays[i], ctx).value]], ctx) == PickKey(plays[i], ctx);
  }

  method ApplyUserPickGuard(plays: seq<Play>, ctx: Context) returns (kept: seq<Play>)
    ensures kept == GuardedPlays(plays, ctx)
  {
    var latest: map<(Id, Date), nat> := map[];
    for i := 0 to |plays|
      invariant LatestPicks(latest, plays, i, ctx)
    {
      var key := PickKey(plays[i], ctx);
      LatestNext(latest, plays, i, ctx);
      if key.Some? { latest := latest[key.value := i]; }
    }
    kept := [];
    for i := 0 to |plays|
      invariant kept == GuardedUpTo(plays, ctx, i)
    {
      var key := PickKey(plays[i], ctx);
      if key.Some? { LatestStands(latest, plays, i, ctx); }
      if key.None? || latest[key.value] == i { kept := kept + [plays[i]]; }
    }
  }

  lemma {:induction false} GuardedSource(plays: seq<Play>, ctx: Context, n: nat, a: nat) returns (i: nat)
    requires n <= |plays| && a < |GuardedUpTo(plays, ctx, n)|
    ensures i < n && GuardedUpTo(plays, ctx, n)[a] == plays[i] && PickStands(plays, i, ctx)
    ensures |GuardedUpTo(plays, ctx, n)| <= n
    ensures a == |GuardedUpTo(plays, ctx, i)|
  {
    if n > 0 && a >= |GuardedUpTo(plays, ctx, n - 1)| {
      i := n - 1;
      GuardedLength(plays, ctx, n);
    } else {
      i := GuardedSource(plays, ctx, n - 1, a);
      GuardedLength(plays, ctx, n);
    }
  }

  lemma {:induction false} GuardedLength(plays: seq<Play>, ctx: Context, n: nat)
    requires n <= |plays|
    ensures |GuardedUpTo(plays, ctx, n)| <= n
  {
    if n > 0 { GuardedLength(plays, ctx, n - 1); }
  }

  /** After the guard there is at most one user pick per facility and date. */
  lemma GuardLeavesOnePick(plays: seq<Play>, ctx: Context, a: nat, b: nat)
    requires a < b < |GuardedPlays(plays, ctx)|
    requires PickKey(GuardedPlays(plays, ctx)[a], ctx).Some?
    ensures PickKey(GuardedPlays(plays, ctx)[a], ctx) != PickKey(GuardedPlays(plays, ctx)[b], ctx)
  {
    var i := GuardedSource(plays, ctx, |plays|, a);
    var j := GuardedSource(plays, ctx, |plays|, b);
    if j <= i { GuardedGrows(plays, ctx, j, i); }
  }

  lemma {:induction false} StandingPlaySurvives(plays: seq<Play>, ctx: Context, n: nat, i: nat)
    requires i < n <= |plays| && PickStands(plays, i, ctx)
    ensures plays[i] in GuardedUpTo(plays, ctx, n)
    decreases n
  {
    if i < n - 1 { StandingPlaySurvives(plays, ctx, n - 1, i); }
  }

  lemma {:induction false} AllStanding(plays: seq<Play>, ctx: Context, n: nat)
    requires n <= |plays| && forall i :: 0 <= i < |plays| ==> PickStands(plays, i, ctx)
    ensures GuardedUpTo(plays, ctx, n) == plays[..n]
    decreases n
  {
    if n > 0 {
      AllStanding(plays, ctx, n - 1);
      assert plays[..n] == plays[..n - 1] + [plays[n - 1]];
    }
  }

  /**
   * Exactly the plays that speak for nobody else's day or speak last for it survive, and guarding again changes
   * nothing.
   */
  lemma GuardIsIdempotent(plays: seq<Play>, ctx: Context)
    ensures forall i :: 0 <= i < |plays| && PickStands(plays, i, ctx) ==> plays[i] in GuardedPlays(plays, ctx)
    ensures GuardedPlays(GuardedPlays(plays, ctx), ctx) == GuardedPlays(plays, ctx)
  {
    forall i | 0 <= i < |plays| && PickStands(plays, i, ctx)
      ensures plays[i] in GuardedPlays(plays, ctx)
    {
      StandingPlaySurvives(plays, ctx, |plays|, i);
    }
    var kept := GuardedPlays(plays, ctx);
    forall a | 0 <= a < |kept|
      ensures PickStands(kept, a, ctx)
    {
      if PickKey(kept[a], ctx).Some? {
        forall b | a < b < |kept|
          ensures PickKey(kept[b], ctx) != PickKey(kept[a], ctx)
        {
          GuardLeavesOnePick(plays, ctx, a, b);
        }
      }
    }
    AllStanding(kept, ctx, |kept|);
    assert kept[..|kept|] == kept;
  }

  lemma {:induction false} GuardedGrows(plays: seq<Play>, ctx: Context, m: nat, n: nat)
    requires m <= n <= |plays|
    ensures |GuardedUpTo(plays, ctx, m)| <= |GuardedUpTo(plays, ctx, n)|
  {
    if m < n { GuardedGrows(plays, ctx, m, n - 1); }
  }

  // ---------------------------------------------------------------- members and versions

  datatype PhysicalIdentity = FacilityIdentity(facilityId: Id) | CourseIdentity(courseIds: seq<Id>)

  function ResolveAll(ctx: Context, ids: seq<Id>): seq<Id> {
    seq(|ids|, i requires 0 <= i < |ids| => ResolveId(ctx, ids[i]))
  }

  function IdentityOf(m: Member, ctx: Context): PhysicalIdentity {
    match m
    case FacilityMember(f, _) => FacilityIdentity(ResolveId(ctx, f))
    case CourseMember(c, _) => CourseIdentity([ResolveId(ctx, c)])
    case AnyOfMember(ids, _) => CourseIdentity(ResolveAll(ctx, ids))
    case HoleMember(c, _) => CourseIdentity([ResolveId(ctx, c)])
  }

  /** The first listed course with a known facility names the member's facility. */
  function FirstFacility(ids: seq<Id>, ctx: Context): Option<Id> {
    if ids == [] then None
    else if FacilityOf(ctx, ids[0]).Some? && FacilityOf(ctx, ids[0]).value != "" then FacilityOf(ctx, ids[0])
    else FirstFacility(ids[1..], ctx)
  }

  function FacilityOfMember(m: Member, ctx: Context): Option<Id> {
    match m
    case FacilityMember(f, _) => Some(ResolveId(ctx, f))
    case CourseMember(c, _) => FacilityOf(ctx, c)
    case AnyOfMember(ids, _) => FirstFacility(ids, ctx)
    case HoleMember(c, _) => FacilityOf(ctx, c)
  }

  predicate IsNineOf(course: Id, whole: Id, ctx: Context) {
    var meta := MetaOf(ctx, whole);
    meta.Some? && meta.value.composite.Some?
    && (meta.value.composite.value.0 == course || meta.value.composite.value.1 == course)
  }

  /** Same course after merges, or one is a composite and the other one of its nines. */
  predicate SameUnit(resolvedCourse: Id, listed: Id, ctx: Context) {
    var r := ResolveId(ctx, listed);
    r == resolvedCourse || IsNineOf(r, resolvedCourse, ctx) || IsNineOf(resolvedCourse, r, ctx)
  }

  predicate MemberCovers(courseId: Id, m: Member, unit: CompletionUnit, ctx: Context) {
    var c := ResolveId(ctx, courseId);
    match unit
    case FacilityUnit => m.FacilityMember? && FacilityOf(ctx, c) == Some(ResolveId(ctx, m.facilityId))
    case CourseUnit =>
      (m.CourseMember? && SameUnit(c, m.courseId, ctx))
      || (m.AnyOfMember? && exists k :: 0 <= k < |m.anyOf| && SameUnit(c, m.anyOf[k], ctx))
    case HoleUnit => m.HoleMember? && SameUnit(c, m.courseId, ctx)
  }

  predicate PresentIn(identity: PhysicalIdentity, v: RosterVersion, ctx: Context) {
    match identity
    case FacilityIdentity(f) => exists k :: 0 <= k < |v.members| && FacilityOfMember(v.members[k], ctx) == Some(f)
    case CourseIdentity(ids) =>
      exists i, k :: 0 <= i < |ids| && 0 <= k < |v.members| && MemberCovers(ids[i], v.members[k], v.completionUnit, ctx)
  }

  // ---------------------------------------------------------------- removed-on

  predicate VersionLe(a: RosterVersion, b: RosterVersion) { a.version <= b.version }

  function LaterVersions(fromVersion: nat, all: seq<RosterVersion>): seq<RosterVersion> {
    Sort(Filter(all, (v: RosterVersion) => v.version > fromVersion), VersionLe)
  }

  /** The date since when the identity has been missing: the first version of the unbroken absence at the end. */
  function AbsentSince(identity: PhysicalIdentity, later: seq<RosterVersion>, ctx: Context): Option<Date> {
    if later == [] then None
    else
      var last := later[|later| - 1];
      if PresentIn(identity, last, ctx) then None
      else
        var before := AbsentSince(identity, later[..|later| - 1], ctx);
        if before.Some? then before else Some(last.effectiveFrom)
  }

  function RemovedOn(
    identity: PhysicalIdentity, fromVersion: nat, all: seq<RosterVersion>, ctx: Context): Option<Date>
  {
    AbsentSince(identity, LaterVersions(fromVersion, all), ctx)
  }

  method DeriveRemovedOn(identity: PhysicalIdentity, fromVersion: nat, all: seq<RosterVersion>, ctx: Context)
    returns (removedOn: Option<Date>)
    ensures removedOn == RemovedOn(identity, fromVersion, all, ctx)
  {
    var later := LaterVersions(fromVersion, all);
    removedOn := None;
    for i := 0 to |later|
      invariant removedOn == AbsentSince(identity, later[..i], ctx)
    {
      assert later[..i + 1][..i] == later[..i];
      if PresentIn(identity, later[i], ctx) {
        removedOn := None;
      } else if removedOn.None? {
        removedOn := Some(later[i].effectiveFrom);
      }
    }
    assert later[..|later|] == later;
  }

  /** Where the closing absence begins: position k and everything after it lacks the identity, position k - 1 has it. */
  ghost predicate ClosingAbsence(identity: PhysicalIdentity, later: seq<RosterVersion>, ctx: Context, k: nat) {
    && k < |later|
    && (forall i :: k <= i < |later| ==> !PresentIn(identity, later[i], ctx))
    && (k > 0 ==> PresentIn(identity, later[k - 1], ctx))
  }

  lemma {:induction false} ScanOpensAbsence(
    identity: PhysicalIdentity, later: seq<RosterVersion>, ctx: Context) returns (k: nat)
    requires AbsentSince(identity, later, ctx).Some?
    ensures ClosingAbsence(identity, later, ctx, k)
    ensures AbsentSince(identity, later, ctx) == Some(later[k].effectiveFrom)
  {
    var n := |later| - 1;
    var init := later[..n];
    if AbsentSince(identity, init, ctx).Some? {
      k := ScanOpensAbsence(identity, init, ctx);
      assert forall i :: 0 <= i < n ==> init[i] == later[i];
    } else {
      k := n;
      if n > 0 { assert init[n - 1] == later[n - 1]; }
    }
  }

  lemma ClosingAbsenceUnique(identity: PhysicalIdentity, later: seq<RosterVersion>, ctx: Context, j: nat, k: nat)
    requires ClosingAbsence(identity, later, ctx, j) && ClosingAbsence(identity, later, ctx, k)
    ensures j == k
  {
  }

  /**
   * The forward scan finds exactly the effective date of the version that opens the closing absence, if there is one.
   */
  lemma AbsentSinceIsClosingAbsence(identity: PhysicalIdentity, later: seq<RosterVersion>, ctx: Context, d: Date)
    ensures AbsentSince(identity, later, ctx) == Some(d) <==>
      exists k: nat :: ClosingAbsence(identity, later, ctx, k) && later[k].effectiveFrom == d
  {
    if AbsentSince(identity, later, ctx).Some? {
      var k0 := ScanOpensAbsence(identity, later, ctx);
      forall k: nat | ClosingAbsence(identity, later, ctx, k) ensures k == k0 {
        ClosingAbsenceUnique(identity, later, ctx, k, k0);
      }
    }
  }

  // ---------------------------------------------------------------- member satisfaction

  /** The play counts for member m of version v: it qualifies, predates m's removal, and is a play at m. */
  predicate Counts(play: Play, m: Member, v: RosterVersion, removedOn: Option<Date>, ctx: Context, opts: EvalOptions) {
    && PlayQualifies(play, ctx, opts, v.trackingStartsOn)
    && (removedOn.Some? ==> play.localDate < removedOn.value)
    && MemberCovers(play.courseId, m, v.completionUnit, ctx)
  }

  function DatesOf(plays: seq<Play>): seq<Date> {
    seq(|plays|, i requires 0 <= i < |plays| => plays[i].localDate)
  }

  /** Every qualifying date of a member, ascending. */
  function QualifyingDates(
    m: Member, v: RosterVersion, all: seq<RosterVersion>, plays: seq<Play>, ctx: Context, opts: EvalOptions)
    : seq<Date>
  {
    var removedOn := RemovedOn(IdentityOf(m, ctx), v.version, all, ctx);
    Sort(DatesOf(Filter(plays, p => Counts(p, m, v, removedOn, ctx, opts))), IntLe)
  }

  lemma QualifyingDatesMember(
    m: Member, v: RosterVersion, all: seq<RosterVersion>, plays: seq<Play>, ctx: Context, opts: EvalOptions, d: Date)
    ensures d in QualifyingDates(m, v, all, plays, ctx, opts) <==>
      exists p :: p in plays && p.localDate == d
        && Counts(p, m, v, RemovedOn(IdentityOf(m, ctx), v.version, all, ctx), ctx, opts)
    ensures Sorted(QualifyingDates(m, v, all, plays, ctx, opts), IntLe)
  {
    var removedOn := RemovedOn(IdentityOf(m, ctx), v.version, all, ctx);
    var keep := (p: Play) => Counts(p, m, v, removedOn, ctx, opts);
    var kept := Filter(plays, keep);
    SortSorts(DatesOf(kept), IntLe);
    SortMember(DatesOf(kept), IntLe, d);
    if d in DatesOf(kept) {
      var i :| 0 <= i < |kept| && DatesOf(kept)[i] == d;
      FilterMember(plays, keep, kept[i]);
    }
    if p :| p in plays && p.localDate == d && Counts(p, m, v, removedOn, ctx, opts) {
      FilterMember(plays, keep, p);
      var i :| 0 <= i < |kept| && kept[i] == p;
      assert DatesOf(kept)[i] == d;
    }
  }

  method CollectQualifyingDates(
    m: Member, v: RosterVersion, all: seq<RosterVersion>, plays: seq<Play>, ctx: Context, opts: EvalOptions)
    returns (dates: seq<Date>)
    ensures dates == QualifyingDates(m, v, all, plays, ctx, opts)
  {
    var removedOn := DeriveRemovedOn(IdentityOf(m, ctx), v.version, all, ctx);
    ghost var keep := (p: Play) => Counts(p, m, v, removedOn, ctx, opts);
    var found: seq<Date> := [];
    for i := 0 to |plays|
      invariant found == DatesOf(Filter(plays[..i], keep))
    {
      assert plays[..i + 1] == plays[..i] + [plays[i]];
      FilterSnoc(plays[..i], plays[i], keep);
      if Counts(plays[i], m, v, removedOn, ctx, opts) {
        found := found + [plays[i].localDate];
      }
    }
    assert plays[..|plays|] == plays;
    dates := Sort(found, IntLe);
  }

  function RequiredCount(rule: Rule, memberCount: nat): nat {
    match rule case All => memberCount case NofM(n) => n
  }

  /** What a rule asks of n places: all of them, or as many different ones as it names. */
  ghost predicate Meets(rule: Rule, n: nat, good: nat -> bool) {
    match rule
    case All => forall i: nat :: i < n ==> good(i)
    case NofM(m) => exists some: set<nat> :: |some| == m && forall i :: i in some ==> i < n && good(i)
  }

  /** Counting the good places answers what the rule asks. */
  lemma CountMeets(rule: Rule, n: nat, good: nat -> bool)
    ensures |Below(good, n)| >= RequiredCount(rule, n) <==> Meets(rule, n, good)
  {
    var found := Below(good, n);
    match rule {
      case All =>
        AllBelow(found, n);
        assert forall i: nat :: i < n ==> (i in found <==> good(i));
      case NofM(m) =>
        if m <= |found| { var some := SubsetOfSize(found, m); }
        if some :| |some| == m && forall i :: i in some ==> i < n && good(i) { SubsetSize(some, found); }
    }
  }

  /** Which members of v are satisfied: those with a qualifying date. */
  predicate Satisfied(
    v: RosterVersion, i: nat, all: seq<RosterVersion>, plays: seq<Play>, ctx: Context, opts: EvalOptions)
    requires i < |v.members|
  {
    QualifyingDates(v.members[i], v, all, plays, ctx, opts) != []
  }

  function SatisfiedCount(
    v: RosterVersion, all: seq<RosterVersion>, plays: seq<Play>, ctx: Context, opts: EvalOptions): nat
  {
    |SatisfiedBelow(v, |v.members|, all, plays, ctx, opts)|
  }

  function SatisfiedBelow(
    v: RosterVersion, n: nat, all: seq<RosterVersion>, plays: seq<Play>, ctx: Context, opts: EvalOptions)
    : set<nat>
    requires n <= |v.members|
  {
    Below(SatisfiedAt(v, all, plays, ctx, opts), n)
  }

  function SatisfiedAt(
    v: RosterVersion, all: seq<RosterVersion>, plays: seq<Play>, ctx: Context, opts: EvalOptions): nat -> bool
  {
    (i: nat) => i < |v.members| && Satisfied(v, i, all, plays, ctx, opts)
  }

  lemma SatisfiedBelowStep(
    v: RosterVersion, n: nat, all: seq<RosterVersion>, plays: seq<Play>, ctx: Context, opts: EvalOptions)
    requires n < |v.members|
    ensures |SatisfiedBelow(v, n + 1, all, plays, ctx, opts)| ==
      |SatisfiedBelow(v, n, all, plays, ctx, opts)| + if Satisfied(v, n, all, plays, ctx, opts) then 1 else 0
  {
    BelowStep(SatisfiedAt(v, all, plays, ctx, opts), n);
  }

  function Required(v: RosterVersion): nat { RequiredCount(v.completionRule, |v.members|) }

  predicate Complete(v: RosterVersion, all: seq<RosterVersion>, plays: seq<Play>, ctx: Context, opts: EvalOptions) {
    SatisfiedCount(v, all, plays, ctx, opts) >= Required(v)
  }

  datatype VersionCompletion = VersionCompletion(
    complete: bool, satisfiedCount: nat, requiredCount: nat, members: seq<seq<Date>>)

  ghost function HasDates(members: seq<seq<Date>>): nat -> bool { (i: nat) => i < |members| && members[i] != [] }

  lemma SatisfiedMeets(
    v: RosterVersion, all: seq<RosterVersion>, plays: seq<Play>, ctx: Context, opts: EvalOptions,
    members: seq<seq<Date>>)
    requires |members| == |v.members|
    requires forall i :: 0 <= i < |v.members| ==> members[i] == QualifyingDates(v.members[i], v, all, plays, ctx, opts)
    ensures Complete(v, all, plays, ctx, opts) <==> Meets(v.completionRule, |v.members|, HasDates(members))
  {
    var good, n := HasDates(members), |v.members|;
    CountMeets(v.completionRule, n, good);
    assert SatisfiedBelow(v, n, all, plays, ctx, opts) == Below(good, n);
  }

  /** Evaluates every member in order and counts the satisfied ones. */
  method EvaluateVersionCompletion(
    v: RosterVersion, all: seq<RosterVersion>, plays: seq<Play>, ctx: Context, opts: EvalOptions)
    returns (r: VersionCompletion)
    ensures |r.members| == |v.members|
    ensures forall i :: 0 <= i < |v.members| ==> r.members[i] == QualifyingDates(v.members[i], v, all, plays, ctx, opts)
    ensures r.satisfiedCount == SatisfiedCount(v, all, plays, ctx, opts)
    ensures r.requiredCount == Required(v) && r.complete == Complete(v, all, plays, ctx, opts)
    ensures r.complete <==> Meets(v.completionRule, |v.members|, HasDates(r.members))
  {
    var members: seq<seq<Date>> := [];
    var count: nat := 0;
    for i := 0 to |v.members|
      invariant |members| == i
      invariant forall k :: 0 <= k < i ==> members[k] == QualifyingDates(v.members[k], v, all, plays, ctx, opts)
      invariant count == |SatisfiedBelow(v, i, all, plays, ctx, opts)|
    {
      var dates := CollectQualifyingDates(v.members[i], v, all, plays, ctx, opts);
      SatisfiedBelowStep(v, i, all, plays, ctx, opts);
      members := members + [dates];
      assert Satisfied(v, i, all, plays, ctx, opts) <==> dates != [];
      if dates != [] { count := count + 1; }
    }
    var required := RequiredCount(v.completionRule, |v.members|);
    r := VersionCompletion(count >= required, count, required, members);
    assert r.complete <==> Meets(v.completionRule, |v.members|, HasDates(members)) by {
      SatisfiedMeets(v, all, plays, ctx, opts, members);
    }
  }

  /** The play counts for the i-th member. */
  predicate CountsFor(play: Play, v: RosterVersion, i: nat, all: seq<RosterVersion>, ctx: Context, opts: EvalOptions) {
    i < |v.members|
    && Counts(play, v.members[i], v, RemovedOn(IdentityOf(v.members[i], ctx), v.version, all, ctx), ctx, opts)
  }

  ghost predicate Attained(
    v: RosterVersion, i: nat, all: seq<RosterVersion>, plays: seq<Play>, ctx: Context, opts: EvalOptions)
  {
    exists p :: p in plays && CountsFor(p, v, i, all, ctx, opts)
  }

  ghost function AttainedAt(
    v: RosterVersion, all: seq<RosterVersion>, plays: seq<Play>, ctx: Context, opts: EvalOptions): nat -> bool
  {
    (i: nat) => Attained(v, i, all, plays, ctx, opts)
  }

  lemma SatisfiedIffAttained(
    v: RosterVersion, i: nat, all: seq<RosterVersion>, plays: seq<Play>, ctx: Context, opts: EvalOptions)
    requires i < |v.members|
    ensures Satisfied(v, i, all, plays, ctx, opts) <==> Attained(v, i, all, plays, ctx, opts)
  {
    var dates := QualifyingDates(v.members[i], v, all, plays, ctx, opts);
    if dates != [] {
      QualifyingDatesMember(v.members[i], v, all, plays, ctx, opts, dates[0]);
    }
    if Attained(v, i, all, plays, ctx, opts) {
      var p :| p in plays && CountsFor(p, v, i, all, ctx, opts);
      QualifyingDatesMember(v.members[i], v, all, plays, ctx, opts, p.localDate);
    }
  }

  /**
   * A version is complete when some play counts for every member, or, under an n-of-m rule, for n different members,
   * and only then.
   */
  lemma CompleteIff(v: RosterVersion, all: seq<RosterVersion>, plays: seq<Play>, ctx: Context, opts: EvalOptions)
    ensures Complete(v, all, plays, ctx, opts) <==>
      Meets(v.completionRule, |v.members|, AttainedAt(v, all, plays, ctx, opts))
  {
    var good, n := AttainedAt(v, all, plays, ctx, opts), |v.members|;
    CountMeets(v.completionRule, n, good);
    assert SatisfiedBelow(v, n, all, plays, ctx, opts) == Below(good, n) by {
      forall i: nat | i < n ensures SatisfiedAt(v, all, plays, ctx, opts)(i) <==> good(i) {
        SatisfiedIffAttained(v, i, all, plays, ctx, opts);
      }
    }
  }

  predicate TrailComplete(all: seq<RosterVersion>, plays: seq<Play>, ctx: Context, opts: EvalOptions) {
    exists k :: 0 <= k < |all| && Complete(all[k], all, plays, ctx, opts)
  }

  // ---------------------------------------------------------------- progress

  function Share(v: RosterVersion, all: seq<RosterVersion>, plays: seq<Play>, ctx: Context, opts: EvalOptions): real {
    if Required(v) == 0 then 0.0 else SatisfiedCount(v, all, plays, ctx, opts) as real / Required(v) as real
  }

  function BestShare(
    vs: seq<RosterVersion>, all: seq<RosterVersion>, plays: seq<Play>, ctx: Context, opts: EvalOptions): real
  {
    if vs == [] then 0.0
    else Max(BestShare(vs[..|vs| - 1], all, plays, ctx, opts), Share(vs[|vs| - 1], all, plays, ctx, opts))
  }

  function TrailProgress(all: seq<RosterVersion>, plays: seq<Play>, ctx: Context, opts: EvalOptions): real {
    var best := BestShare(all, all, plays, ctx, opts);
    if best < 1.0 then best else 1.0
  }

  method ComputeTrailProgress(
    all: seq<RosterVersion>, plays: seq<Play>, ctx: Context, opts: EvalOptions) returns (r: real)
    ensures r == TrailProgress(all, plays, ctx, opts)
  {
    var best := 0.0;
    for i := 0 to |all|
      invariant best == BestShare(all[..i], all, plays, ctx, opts)
    {
      assert all[..i + 1][..i] == all[..i];
      var v := EvaluateVersionCompletion(all[i], all, plays, ctx, opts);
      var share := if v.requiredCount == 0 then 0.0 else v.satisfiedCount as real / v.requiredCount as real;
      if share > best { best := share; }
    }
    assert all[..|all|] == all;
    r := if best < 1.0 then best else 1.0;
  }

  /**
   * Progress is a share between 0 and 1, and it is 1 exactly when some version with a positive requirement is
   * complete.
   */
  lemma TrailProgressMeaning(all: seq<RosterVersion>, plays: seq<Play>, ctx: Context, opts: EvalOptions)
    ensures 0.0 <= TrailProgress(all, plays, ctx, opts) <= 1.0
    ensures TrailProgress(all, plays, ctx, opts) == 1.0 <==>
      exists k :: 0 <= k < |all| && Required(all[k]) > 0 && Complete(all[k], all, plays, ctx, opts)
  {
    BestShareMeaning(all, all, plays, ctx, opts);
    if TrailProgress(all, plays, ctx, opts) == 1.0 {
      var k :| 0 <= k < |all| && Share(all[k], all, plays, ctx, opts) >= 1.0;
      ShareReachesOne(all[k], all, plays, ctx, opts);
    }
    if k :| 0 <= k < |all| && Required(all[k]) > 0 && Complete(all[k], all, plays, ctx, opts) {
      ShareReachesOne(all[k], all, plays, ctx, opts);
    }
  }

  lemma ShareReachesOne(v: RosterVersion, all: seq<RosterVersion>, plays: seq<Play>, ctx: Context, opts: EvalOptions)
    ensures Share(v, all, plays, ctx, opts) >= 0.0
    ensures Share(v, all, plays, ctx, opts) >= 1.0 <==> Required(v) > 0 && Complete(v, all, plays, ctx, opts)
  {
    if Required(v) > 0 {
      RatioVersusOne(SatisfiedCount(v, all, plays, ctx, opts) as real, Required(v) as real);
    }
  }

  lemma RatioVersusOne(n: real, d: real)
    requires n >= 0.0 && d > 0.0
    ensures n / d >= 0.0 && (n / d >= 1.0 <==> n >= d)
  {
    var q := n / d;
    assert q * d == n;
    if q >= 1.0 { ScaleUp(1.0, q, d); } else { ScaleUp(q, 1.0, d); }
    if q < 0.0 { ScaleUp(q, 0.0, d); }
  }

  lemma ScaleUp(a: real, b: real, d: real)
    requires a <= b && d > 0.0
    ensures a * d <= b * d && (a < b ==> a * d < b * d)
  {
  }

  lemma {:induction false} BestShareMeaning(
    vs: seq<RosterVersion>, all: seq<RosterVersion>, plays: seq<Play>, ctx: Context, opts: EvalOptions)
    ensures BestShare(vs, all, plays, ctx, opts) >= 0.0
    ensures forall k :: 0 <= k < |vs| ==> Share(vs[k], all, plays, ctx, opts) <= BestShare(vs, all, plays, ctx, opts)
    ensures BestShare(vs, all, plays, ctx, opts) == 0.0
      || exists k :: 0 <= k < |vs| && Share(vs[k], all, plays, ctx, opts) == BestShare(vs, all, plays, ctx, opts)
  {
    if vs != [] {
      var init := vs[..|vs| - 1];
      BestShareMeaning(init, all, plays, ctx, opts);
      forall k | 0 <= k < |vs| ensures Share(vs[k], all, plays, ctx, opts) <= BestShare(vs, all, plays, ctx, opts) {
        if k < |vs| - 1 { assert vs[k] == init[k]; }
      }
      if k :| 0 <= k < |init| && Share(init[k], all, plays, ctx, opts) == BestShare(init, all, plays, ctx, opts) {
        assert vs[k] == init[k];
      }
    }
  }
}
