/** The looking-up and matching beneath trail completion, spelled out: which record, which plays, which members. */
module CompletionMeaning {
  import opened Calendar
  import opened Common
  import opened Ordering
  import opened Completion
  import opened Aggregates

  // ---------------------------------------------------------------- merged ids and records

  /** An id without a link stands for itself. */
  lemma UnlinkedStands(ctx: Context, id: Id)
    requires ctx.ledger.None? || L.MergedInto(ctx.ledger.value, id).None?
    ensures ResolveId(ctx, id) == id
  {
    if ctx.ledger.Some? {
      assert L.StopsIn(ctx.ledger.value, id, 0);
      L.ResolveReachesRoot(ctx.ledger.value, id, 0);
    }
  }

  /** An id and the one it was merged into are looked up as the same id, which has no link of its own. */
  lemma MergedIdsAlike(ctx: Context, id: Id, next: Id)
    requires ctx.ledger.Some? && L.MergedInto(ctx.ledger.value, id) == Some(next) && L.Stops(ctx.ledger.value, id)
    ensures ResolveId(ctx, id) == ResolveId(ctx, next)
    ensures L.MergedInto(ctx.ledger.value, ResolveId(ctx, id)).None?
  {
    var l := ctx.ledger.value;
    var n: nat :| L.StopsIn(l, id, n);
    L.ResolveReachesRoot(l, id, n);
    L.ResolveReachesRoot(l, next, n - 1);
  }

  /** The record of a course id: that of the id it was merged into, or else its own. */
  predicate HasRecord(ctx: Context, id: Id, meta: CourseMeta) {
    var kept := ResolveId(ctx, id);
    (kept in ctx.courses && ctx.courses[kept] == meta)
    || (kept !in ctx.courses && id in ctx.courses && ctx.courses[id] == meta)
  }

  lemma RecordIff(ctx: Context, id: Id, meta: CourseMeta)
    ensures MetaOf(ctx, id) == Some(meta) <==> HasRecord(ctx, id, meta)
  {
  }

  ghost predicate AtFacility(ctx: Context, course: Id, facility: Id) {
    exists meta :: HasRecord(ctx, course, meta) && meta.facilityId == facility
  }

  lemma AtFacilityIff(ctx: Context, course: Id, facility: Id)
    ensures FacilityOf(ctx, course) == Some(facility) <==> AtFacility(ctx, course, facility)
  {
    if MetaOf(ctx, course).Some? { RecordIff(ctx, course, MetaOf(ctx, course).value); }
    if meta :| HasRecord(ctx, course, meta) && meta.facilityId == facility { RecordIff(ctx, course, meta); }
  }

  // ---------------------------------------------------------------- which plays qualify

  /**
   * A play qualifies exactly when its course is verified, it is not older than the roster's tracking or the programme,
   * and it is good enough: money-qualifying, or, for the badge, of at least the threshold, one half unless given.
   */
  lemma QualifiesIff(play: Play, ctx: Context, opts: EvalOptions, trackingStartsOn: Option<Date>)
    ensures PlayQualifies(play, ctx, opts, trackingStartsOn) <==>
      && (exists meta :: HasRecord(ctx, play.courseId, meta) && meta.verified)
      && !(trackingStartsOn.Some? && play.localDate < trackingStartsOn.value)
      && !(opts.Money? && play.localDate < opts.programmeStartsOn)
      && (play.moneyQualifies
          || (opts.Badge? && !(play.scoreBadge < if opts.badgeThreshold.None? then 0.5 else opts.badgeThreshold.value)))
  {
    var meta := MetaOf(ctx, play.courseId);
    if meta.Some? { RecordIff(ctx, play.courseId, meta.value); }
    forall m | HasRecord(ctx, play.courseId, m) ensures meta == Some(m) { RecordIff(ctx, play.courseId, m); }
  }

  /** A user pick speaks for its course's facility, if that is known, and its day; no other play speaks for any. */
  lemma SpeaksForIff(play: Play, ctx: Context, facility: Id, day: Date)
    ensures PickKey(play, ctx) == Some((facility, day)) <==>
      play.disambiguatedBy == User && play.localDate == day && facility != "" &&
      AtFacility(ctx, play.courseId, facility)
  {
    AtFacilityIff(ctx, play.courseId, facility);
  }

  // ---------------------------------------------------------------- which members a course covers

  ghost predicate IsHalf(nine: Id, whole: Id, ctx: Context) {
    exists meta, other :: HasRecord(ctx, whole, meta)
      && (meta.composite == Some((nine, other)) || meta.composite == Some((other, nine)))
  }

  lemma HalfIff(nine: Id, whole: Id, ctx: Context)
    ensures IsNineOf(nine, whole, ctx) <==> IsHalf(nine, whole, ctx)
  {
    var meta := MetaOf(ctx, whole);
    if IsNineOf(nine, whole, ctx) {
      RecordIff(ctx, whole, meta.value);
      var (a, b) := meta.value.composite.value;
      assert meta.value.composite == Some((nine, if a == nine then b else a))
        || meta.value.composite == Some((if a == nine then b else a, nine));
    }
    if m, other :|
      HasRecord(ctx, whole, m) && (m.composite == Some((nine, other)) || m.composite == Some((other, nine))) {
      RecordIff(ctx, whole, m);
    }
  }

  /** One course after merges, or a composite and one of its nines, whichever way round. */
  ghost predicate OneUnit(a: Id, b: Id, ctx: Context) {
    var x, y := ResolveId(ctx, a), ResolveId(ctx, b);
    x == y || IsHalf(x, y, ctx) || IsHalf(y, x, ctx)
  }

  lemma OneUnitIff(a: Id, b: Id, ctx: Context)
    ensures SameUnit(ResolveId(ctx, a), b, ctx) <==> OneUnit(a, b, ctx)
  {
    HalfIff(ResolveId(ctx, a), ResolveId(ctx, b), ctx);
    HalfIff(ResolveId(ctx, b), ResolveId(ctx, a), ctx);
  }

  ghost predicate Covers(course: Id, m: Member, unit: CompletionUnit, ctx: Context) {
    match m
    case FacilityMember(f, _) => unit == FacilityUnit && AtFacility(ctx, ResolveId(ctx, course), ResolveId(ctx, f))
    case CourseMember(c, _) => unit == CourseUnit && OneUnit(course, c, ctx)
    case AnyOfMember(ids, _) => unit == CourseUnit && exists id :: id in ids && OneUnit(course, id, ctx)
    case HoleMember(c, _) => unit == HoleUnit && OneUnit(course, c, ctx)
  }

  /** A course covers a member of the version's own unit: a facility it is at, or a course it is one unit with. */
  lemma CoversIff(course: Id, m: Member, unit: CompletionUnit, ctx: Context)
    ensures MemberCovers(course, m, unit, ctx) <==> Covers(course, m, unit, ctx)
  {
    match m
    case FacilityMember(f, _) => AtFacilityIff(ctx, ResolveId(ctx, course), ResolveId(ctx, f));
    case CourseMember(c, _) => OneUnitIff(course, c, ctx);
    case AnyOfMember(ids, _) =>
      forall id ensures SameUnit(ResolveId(ctx, course), id, ctx) <==> OneUnit(course, id, ctx) {
        OneUnitIff(course, id, ctx);
      }
      assert forall k :: 0 <= k < |ids| ==> ids[k] in ids;
    case HoleMember(c, _) => OneUnitIff(course, c, ctx);
  }

  // ---------------------------------------------------------------- hosts and removals

  ghost predicate KnownFacility(ctx: Context, course: Id) { exists f :: f != "" && AtFacility(ctx, course, f) }

  /** The k-th course is the first with a known facility, this one. */
  ghost predicate FirstKnownAt(ids: seq<Id>, k: int, facility: Id, ctx: Context) {
    && 0 <= k < |ids| && facility != "" && AtFacility(ctx, ids[k], facility)
    && forall j :: 0 <= j < k ==> !KnownFacility(ctx, ids[j])
  }

  /** The member is at this facility: its own, its course's, or that of its first course with a known one. */
  ghost predicate HostedAt(m: Member, facility: Id, ctx: Context) {
    match m
    case FacilityMember(f, _) => facility == ResolveId(ctx, f)
    case CourseMember(c, _) => AtFacility(ctx, c, facility)
    case HoleMember(c, _) => AtFacility(ctx, c, facility)
    case AnyOfMember(ids, _) => exists k :: FirstKnownAt(ids, k, facility, ctx)
  }

  lemma KnownFacilityIff(ctx: Context, course: Id)
    ensures FacilityOf(ctx, course).Some? && FacilityOf(ctx, course).value != "" <==> KnownFacility(ctx, course)
  {
    if FacilityOf(ctx, course).Some? { AtFacilityIff(ctx, course, FacilityOf(ctx, course).value); }
    if f :| f != "" && AtFacility(ctx, course, f) { AtFacilityIff(ctx, course, f); }
  }

  lemma {:induction false} FirstFacilityIff(ids: seq<Id>, facility: Id, ctx: Context)
    ensures FirstFacility(ids, ctx) == Some(facility) <==> exists k :: FirstKnownAt(ids, k, facility, ctx)
  {
    if ids != [] {
      KnownFacilityIff(ctx, ids[0]);
      AtFacilityIff(ctx, ids[0], facility);
      var rest := ids[1..];
      FirstFacilityIff(rest, facility, ctx);
      if k :| FirstKnownAt(ids, k, facility, ctx) {
        if k > 0 {
          assert forall j :: 0 <= j < k ==> rest[j] == ids[j + 1];
          assert FirstKnownAt(rest, k - 1, facility, ctx);
        }
      }
      if k :| FirstKnownAt(rest, k, facility, ctx) {
        if !KnownFacility(ctx, ids[0]) {
          assert forall j :: 0 < j <= k + 1 ==> ids[j] == rest[j - 1];
          assert FirstKnownAt(ids, k + 1, facility, ctx);
        }
      }
      if KnownFacility(ctx, ids[0]) && AtFacility(ctx, ids[0], facility) && facility != "" {
        assert FirstKnownAt(ids, 0, facility, ctx);
      }
    }
  }

  lemma HostedIff(m: Member, facility: Id, ctx: Context)
    ensures IsHostedBy(m, facility, ctx) <==> HostedAt(m, facility, ctx)
  {
    match m
    case FacilityMember(_, _) =>
    case CourseMember(c, _) => AtFacilityIff(ctx, c, facility);
    case HoleMember(c, _) => AtFacilityIff(ctx, c, facility);
    case AnyOfMember(ids, _) => FirstFacilityIff(ids, facility, ctx);
  }

  /** What a later version must have for the member to stay: its facility, or a cover for one of its courses. */
  ghost predicate StillThere(m: Member, v: RosterVersion, ctx: Context) {
    match m
    case FacilityMember(f, _) => exists n :: n in v.members && HostedAt(n, ResolveId(ctx, f), ctx)
    case CourseMember(c, _) => Covered(ResolveId(ctx, c), v, ctx)
    case HoleMember(c, _) => Covered(ResolveId(ctx, c), v, ctx)
    case AnyOfMember(ids, _) => exists id :: id in ids && Covered(ResolveId(ctx, id), v, ctx)
  }

  ghost predicate Covered(course: Id, v: RosterVersion, ctx: Context) {
    exists n :: n in v.members && Covers(course, n, v.completionUnit, ctx)
  }

  lemma CoveredIff(course: Id, v: RosterVersion, ctx: Context)
    ensures Covered(course, v, ctx) <==>
      exists k :: 0 <= k < |v.members| && MemberCovers(course, v.members[k], v.completionUnit, ctx)
  {
    if n :| n in v.members && Covers(course, n, v.completionUnit, ctx) {
      var k :| 0 <= k < |v.members| && v.members[k] == n;
      CoversIff(course, n, v.completionUnit, ctx);
    }
    if k :| 0 <= k < |v.members| && MemberCovers(course, v.members[k], v.completionUnit, ctx) {
      CoversIff(course, v.members[k], v.completionUnit, ctx);
    }
  }

  lemma CoursesPresentIff(ids: seq<Id>, v: RosterVersion, ctx: Context)
    ensures PresentIn(CourseIdentity(ids), v, ctx) <==> exists i :: 0 <= i < |ids| && Covered(ids[i], v, ctx)
  {
    forall i | 0 <= i < |ids|
      ensures Covered(ids[i], v, ctx) <==>
        exists k :: 0 <= k < |v.members| && MemberCovers(ids[i], v.members[k], v.completionUnit, ctx)
    {
      CoveredIff(ids[i], v, ctx);
    }
  }

  lemma FacilityPresentIff(facility: Id, v: RosterVersion, ctx: Context)
    ensures PresentIn(FacilityIdentity(facility), v, ctx) <==>
      exists n :: n in v.members && HostedAt(n, facility, ctx)
  {
    if n :| n in v.members && HostedAt(n, facility, ctx) {
      var k :| 0 <= k < |v.members| && v.members[k] == n;
      HostedIff(n, facility, ctx);
    }
    if k :| 0 <= k < |v.members| && FacilityOfMember(v.members[k], ctx) == Some(facility) {
      HostedIff(v.members[k], facility, ctx);
    }
  }

  lemma PresentIff(m: Member, v: RosterVersion, ctx: Context)
    ensures PresentIn(IdentityOf(m, ctx), v, ctx) <==> StillThere(m, v, ctx)
  {
    match m
    case FacilityMember(f, _) => FacilityPresentIff(ResolveId(ctx, f), v, ctx);
    case CourseMember(c, _) =>
      CoursesPresentIff([ResolveId(ctx, c)], v, ctx);
      assert [ResolveId(ctx, c)][0] == ResolveId(ctx, c);
    case HoleMember(c, _) =>
      CoursesPresentIff([ResolveId(ctx, c)], v, ctx);
      assert [ResolveId(ctx, c)][0] == ResolveId(ctx, c);
    case AnyOfMember(ids, _) =>
      CoursesPresentIff(ResolveAll(ctx, ids), v, ctx);
      assert forall i :: 0 <= i < |ids| ==> ids[i] in ids && ResolveAll(ctx, ids)[i] == ResolveId(ctx, ids[i]);
  }

  /** The versions after a given one, oldest first. */
  lemma LaterVersionsAre(fromVersion: nat, all: seq<RosterVersion>)
    ensures Sorted(LaterVersions(fromVersion, all), VersionLe)
    ensures forall v :: v in LaterVersions(fromVersion, all) <==> v in all && v.version > fromVersion
  {
    var newer := (v: RosterVersion) => v.version > fromVersion;
    SortSorts(Filter(all, newer), VersionLe);
    forall v ensures v in LaterVersions(fromVersion, all) <==> v in all && v.version > fromVersion {
      SortMember(Filter(all, newer), VersionLe, v);
      FilterMember(all, newer, v);
    }
  }

  /** The k-th of the later versions opens the closing absence of member m. */
  ghost predicate DropsForGood(m: Member, later: seq<RosterVersion>, k: nat, ctx: Context) {
    && k < |later| && (forall i :: k <= i < |later| ==> !StillThere(m, later[i], ctx))
    && (k > 0 ==> StillThere(m, later[k - 1], ctx))
  }

  /**
   * A member is removed from the effective date of the later version that drops it for good, and never if the newest
   * one still has it.
   */
  lemma RemovedOnIff(m: Member, fromVersion: nat, all: seq<RosterVersion>, ctx: Context, day: Date)
    ensures RemovedOn(IdentityOf(m, ctx), fromVersion, all, ctx) == Some(day) <==>
      exists k: nat :: DropsForGood(m, LaterVersions(fromVersion, all), k, ctx)
        && LaterVersions(fromVersion, all)[k].effectiveFrom == day
  {
    var later, identity := LaterVersions(fromVersion, all), IdentityOf(m, ctx);
    AbsentSinceIsClosingAbsence(identity, later, ctx, day);
    forall i | 0 <= i < |later| ensures PresentIn(identity, later[i], ctx) <==> StillThere(m, later[i], ctx) {
      PresentIff(m, later[i], ctx);
    }
    forall k: nat ensures DropsForGood(m, later, k, ctx) <==> ClosingAbsence(identity, later, ctx, k) {}
  }

  /** A play counts for a member exactly when it qualifies, covers the member, and is from before its removal. */
  lemma CountsForIff(play: Play, v: RosterVersion, i: nat, all: seq<RosterVersion>, ctx: Context, opts: EvalOptions)
    requires i < |v.members|
    ensures CountsFor(play, v, i, all, ctx, opts) <==>
      && PlayQualifies(play, ctx, opts, v.trackingStartsOn)
      && Covers(play.courseId, v.members[i], v.completionUnit, ctx)
      && !(exists day :: RemovedOn(IdentityOf(v.members[i], ctx), v.version, all, ctx) == Some(day)
             && day <= play.localDate)
  {
    CoversIff(play.courseId, v.members[i], v.completionUnit, ctx);
  }

  // ---------------------------------------------------------------- fields

  /** The course has this value for the field. */
  ghost predicate HasValue(course: Id, field: Field, v: string, ctx: Context) {
    match field
    case Region => course in ctx.courses && ctx.courses[course].region == Some(v) && v != ""
    case CountryField =>
      course in ctx.courses
      && ((ctx.courses[course].country == Some(US) && v == "US") ||
          (ctx.courses[course].country == Some(CA) && v == "CA"))
    case Designer => course in ctx.courses && v in ctx.courses[course].designers
    case Facility => course in ctx.courses && ctx.courses[course].facilityId == v && v != ""
    case Trail =>
      v in ctx.trails
      && exists w, m :: w in ctx.trails[v] && m in w.members && Covers(course, m, w.completionUnit, ctx)
  }

  lemma TrailContainsIff(versions: seq<RosterVersion>, course: Id, ctx: Context)
    ensures TrailContains(versions, course, ctx) <==>
      exists w, m :: w in versions && m in w.members && Covers(course, m, w.completionUnit, ctx)
  {
    if TrailContains(versions, course, ctx) {
      var i, k :| 0 <= i < |versions| && 0 <= k < |versions[i].members|
        && MemberCovers(course, versions[i].members[k], versions[i].completionUnit, ctx);
      CoversIff(course, versions[i].members[k], versions[i].completionUnit, ctx);
    }
    if w, m :| w in versions && m in w.members && Covers(course, m, w.completionUnit, ctx) {
      CoversIff(course, m, w.completionUnit, ctx);
      var i :| 0 <= i < |versions| && versions[i] == w;
      var k :| 0 <= k < |w.members| && w.members[k] == m;
    }
  }

  /** Each value once, but a designer as often as the course lists it. */
  lemma FieldMeaning(course: Id, field: Field, v: string, ctx: Context)
    ensures FieldValues(course, field, ctx)[v] ==
      if !HasValue(course, field, v, ctx) then 0
      else if field == Designer then multiset(ctx.courses[course].designers)[v] else 1
  {
    if field == Trail {
      if v in ctx.trails { TrailContainsIff(ctx.trails[v], course, ctx); }
    } else if field == CountryField {
      if course in ctx.courses && ctx.courses[course].country.Some? {
        match ctx.courses[course].country.value
        case US =>
        case CA =>
      }
    }
  }

  // ---------------------------------------------------------------- marker credit

  /** A facility is credited exactly by a qualifying play at it from before its removal. */
  lemma CreditedIff(
    facility: Id, v: RosterVersion, all: seq<RosterVersion>, plays: seq<Play>, ctx: Context, opts: EvalOptions)
    ensures Credited(facility, v, all, plays, ctx, opts) <==>
      exists p :: p in plays && PlayQualifies(p, ctx, opts, v.trackingStartsOn)
        && AtFacility(ctx, p.courseId, facility)
        && !(exists day ::
               RemovedOn(FacilityIdentity(facility), v.version, all, ctx) == Some(day) && day <= p.localDate)
  {
    forall p ensures FacilityOf(ctx, p) == Some(facility) <==> AtFacility(ctx, p, facility) {
      AtFacilityIff(ctx, p, facility);
    }
    assert forall i :: 0 <= i < |plays| ==> plays[i] in plays;
  }
}
