/** Why the checker keeps `inOrder` out of money rules: more plays can take its truth away. */
module PolarityExamples {
  import opened Calendar
  import opened Common
  import opened Ordering
  import opened Completion
  import opened RuleExpr
  import opened RuleEval
  import opened StopOrder

  const FIRST := CourseMember("a", Some(1))
  const SECOND := CourseMember("b", Some(2))

  /** Two stops, first a, then b. */
  const TOUR := RosterVersion(1, 0, CourseUnit, All, All, None, [FIRST, SECOND])
  const SEEN := CourseMeta("f", None, None, [], None, true)
  const TWO_COURSES := Context(map["a" := SEEN, "b" := SEEN], None, map["t" := [TOUR]])

  /** The second stop is played first, on a day that counts for the badge only; then both count for money, in order. */
  const B_EARLY := Play("b", 0, Geometry, 1.0, false)
  const A_NEXT := Play("a", 1, Geometry, 1.0, true)
  const B_LAST := Play("b", 2, Geometry, 1.0, true)
  const PLAYS := [B_EARLY, A_NEXT, B_LAST]

  const TOURED := EvalContext(TWO_COURSES, PLAYS, Some(0), None)

  lemma NothingRemoved(identity: PhysicalIdentity)
    ensures RemovedOn(identity, 1, [TOUR], TWO_COURSES) == None
  {
    var later := (v: RosterVersion) => v.version > 1;
    assert Filter([TOUR], later) == [];
    assert LaterVersions(1, [TOUR]) == [];
  }

  predicate IsStop(m: Member) { m == FIRST || m == SECOND }
  predicate AtStop(p: Play) { p.courseId == "a" || p.courseId == "b" }

  /** The play is one of this stop's course, and qualifies. */
  predicate Visits(p: Play, m: Member, opts: EvalOptions)
    requires IsStop(m)
  {
    p.courseId == m.courseId && PlayQualifies(p, TWO_COURSES, opts, None)
  }

  lemma CountsIff(p: Play, m: Member, opts: EvalOptions)
    requires IsStop(m) && AtStop(p)
    ensures Counts(p, m, TOUR, None, TWO_COURSES, opts) <==> Visits(p, m, opts)
  {
  }

  function StopDates(m: Member, opts: EvalOptions): seq<Date> {
    QualifyingDates(m, TOUR, [TOUR], PLAYS, TWO_COURSES, opts)
  }

  /** A stop's dates are those of the plays of its course that qualify. */
  lemma DatesAre(m: Member, opts: EvalOptions, d: Date)
    requires IsStop(m)
    ensures Sorted(StopDates(m, opts), IntLe)
    ensures d in StopDates(m, opts) <==> exists p :: p in PLAYS && p.localDate == d && Visits(p, m, opts)
  {
    QualifyingDatesMember(m, TOUR, [TOUR], PLAYS, TWO_COURSES, opts, d);
    NothingRemoved(IdentityOf(m, TWO_COURSES));
    forall p | p in PLAYS ensures Counts(p, m, TOUR, None, TWO_COURSES, opts) <==> Visits(p, m, opts) {
      CountsIff(p, m, opts);
    }
  }

  function FirstDate(m: Member, opts: EvalOptions): Option<Date> {
    if StopDates(m, opts) == [] then None else Some(StopDates(m, opts)[0])
  }

  /** The earliest of a stop's qualifying plays gives its first date. */
  lemma FirstDateIs(m: Member, opts: EvalOptions, p: Play)
    requires IsStop(m) && p in PLAYS && Visits(p, m, opts)
    requires forall q :: q in PLAYS && Visits(q, m, opts) ==> p.localDate <= q.localDate
    ensures FirstDate(m, opts) == Some(p.localDate)
  {
    var dates := StopDates(m, opts);
    DatesAre(m, opts, p.localDate);
    DatesAre(m, opts, dates[0]);
    var i :| 0 <= i < |dates| && dates[i] == p.localDate;
    assert i > 0 ==> IntLe(dates[0], dates[i]);
  }

  lemma BothStopsPlayed(opts: EvalOptions)
    requires FirstDate(FIRST, opts).Some? && FirstDate(SECOND, opts).Some?
    ensures Complete(TOUR, [TOUR], PLAYS, TWO_COURSES, opts)
  {
    assert SatisfiedBelow(TOUR, 2, [TOUR], PLAYS, TWO_COURSES, opts) == {0, 1};
  }

  lemma TourInOrderIff(opts: EvalOptions)
    requires FirstDate(FIRST, opts).Some? && FirstDate(SECOND, opts).Some?
    ensures InOrder([TOUR], PLAYS, TWO_COURSES, opts) <==>
      FirstDate(FIRST, opts).value <= FirstDate(SECOND, opts).value
  {
    BothStopsPlayed(opts);
    assert Sort([SECOND], StopLe) == [SECOND];
    assert Sort(TOUR.members, StopLe) == [FIRST, SECOND];
    var dates := StopOrder.StopDates(TOUR, [TOUR], PLAYS, TWO_COURSES, opts);
    assert dates == [StopDates(FIRST, opts), StopDates(SECOND, opts)];
    assert Neighbours(dates) <==> NoLater(dates[0], dates[1]);
    assert [TOUR][0] == TOUR;
  }

  lemma NoPicks()
    ensures GuardedPlays(PLAYS, TWO_COURSES) == PLAYS
  {
    forall i | 0 <= i < |PLAYS| ensures PickStands(PLAYS, i, TWO_COURSES) {}
    AllStanding(PLAYS, TWO_COURSES, |PLAYS|);
  }

  lemma InOrderForMoney()
    ensures InOrder([TOUR], PLAYS, TWO_COURSES, Money(0))
  {
    FirstDateIs(FIRST, Money(0), A_NEXT);
    FirstDateIs(SECOND, Money(0), B_LAST);
    TourInOrderIff(Money(0));
  }

  lemma OutOfOrderForBadge()
    ensures !InOrder([TOUR], PLAYS, TWO_COURSES, Badge(None))
  {
    FirstDateIs(FIRST, Badge(None), A_NEXT);
    FirstDateIs(SECOND, Badge(None), B_EARLY);
    TourInOrderIff(Badge(None));
  }

  /** The checker's only objection to the rule is the aggregate itself; it holds on money plays, not on badge plays. */
  lemma MoreQualifiesButOutOfOrder(regionCodes: set<string>)
    ensures var rule := Bare(InOrderCall("t"));
      && CheckRuleExpr(rule, MoneyMode, regionCodes) == [Issue(InOrderNotAllowed, [])]
      && EvaluateRuleExpr(rule, TOURED, MoneyMode) == Value(true)
      && EvaluateRuleExpr(rule, TOURED, BadgeMode) == Value(false)
  {
    NoPicks();
    InOrderForMoney();
    OutOfOrderForBadge();
  }
}
