/**
 * Why a statically clean rule that holds on money plays also holds on badge plays, and what the range check
 * guarantees.
 */
module Polarity {
  import opened Calendar
  import opened Common
  import opened Completion
  import opened TrailWindow
  import opened Aggregates
  import opened RuleExpr
  import opened RuleEval

  // ---------------------------------------------------------------- every aggregate grows with what qualifies

  lemma DatesMonotone(
    m: Member, v: RosterVersion, all: seq<RosterVersion>, plays: seq<Play>, ctx: Context, narrow: EvalOptions,
    wide: EvalOptions, d: Date)
    requires NoStricter(ctx, wide, narrow) && d in QualifyingDates(m, v, all, plays, ctx, narrow)
    ensures d in QualifyingDates(m, v, all, plays, ctx, wide)
  {
    QualifyingDatesMember(m, v, all, plays, ctx, narrow, d);
    QualifyingDatesMember(m, v, all, plays, ctx, wide, d);
    var removedOn := RemovedOn(IdentityOf(m, ctx), v.version, all, ctx);
    var p :| p in plays && p.localDate == d && Counts(p, m, v, removedOn, ctx, narrow);
    assert Counts(p, m, v, removedOn, ctx, wide);
  }

  lemma SatisfiedMonotone(
    v: RosterVersion, all: seq<RosterVersion>, plays: seq<Play>, ctx: Context, narrow: EvalOptions, wide: EvalOptions)
    requires NoStricter(ctx, wide, narrow)
    ensures SatisfiedCount(v, all, plays, ctx, narrow) <= SatisfiedCount(v, all, plays, ctx, wide)
    ensures Complete(v, all, plays, ctx, narrow) ==> Complete(v, all, plays, ctx, wide)
    ensures Share(v, all, plays, ctx, narrow) <= Share(v, all, plays, ctx, wide)
  {
    var few := SatisfiedBelow(v, |v.members|, all, plays, ctx, narrow);
    var many := SatisfiedBelow(v, |v.members|, all, plays, ctx, wide);
    forall i: nat | i in few ensures i in many {
      var dates := QualifyingDates(v.members[i], v, all, plays, ctx, narrow);
      assert dates[0] in dates;
      DatesMonotone(v.members[i], v, all, plays, ctx, narrow, wide, dates[0]);
    }
    SubsetSize(few, many);
    if Required(v) > 0 { DivideMonotone(|few| as real, |many| as real, Required(v) as real); }
  }

  lemma DivideMonotone(a: real, b: real, d: real)
    requires a <= b && d > 0.0
    ensures a / d <= b / d
  {
  }

  lemma {:induction false} BestShareMonotone(
    vs: seq<RosterVersion>, all: seq<RosterVersion>, plays: seq<Play>, ctx: Context, narrow: EvalOptions,
    wide: EvalOptions)
    requires NoStricter(ctx, wide, narrow)
    ensures BestShare(vs, all, plays, ctx, narrow) <= BestShare(vs, all, plays, ctx, wide)
  {
    if vs != [] {
      BestShareMonotone(vs[..|vs| - 1], all, plays, ctx, narrow, wide);
      SatisfiedMonotone(vs[|vs| - 1], all, plays, ctx, narrow, wide);
    }
  }

  /** The window's witness is still a witness when more dates qualify. */
  lemma WithinMonotone(
    v: RosterVersion, all: seq<RosterVersion>, plays: seq<Play>, ctx: Context, days: nat, narrow: EvalOptions,
    wide: EvalOptions)
    requires NoStricter(ctx, wide, narrow)
    ensures VersionWithin(v, all, plays, ctx, days, narrow) ==> VersionWithin(v, all, plays, ctx, days, wide)
  {
    SatisfiedMonotone(v, all, plays, ctx, narrow, wide);
    var few, many := AllDates(v, all, plays, ctx, narrow), AllDates(v, all, plays, ctx, wide);
    if choice :| Witness(few, Required(v), days, choice) {
      forall i | i in choice ensures choice[i] in many[i] {
        assert choice[i] in few[i];
        DatesMonotone(v.members[i], v, all, plays, ctx, narrow, wide, choice[i]);
      }
      assert Witness(many, Required(v), days, choice);
    }
  }

  lemma CreditMonotone(
    v: RosterVersion, all: seq<RosterVersion>, plays: seq<Play>, ctx: Context, narrow: EvalOptions, wide: EvalOptions)
    requires NoStricter(ctx, wide, narrow)
    ensures |CreditedFacilities(v, all, plays, ctx, narrow)| <= |CreditedFacilities(v, all, plays, ctx, wide)|
  {
    forall f | Credited(f, v, all, plays, ctx, narrow) ensures Credited(f, v, all, plays, ctx, wide) {}
    SubsetSize(CreditedFacilities(v, all, plays, ctx, narrow), CreditedFacilities(v, all, plays, ctx, wide));
  }

  lemma {:induction false} BestCreditMonotone(
    vs: seq<RosterVersion>, all: seq<RosterVersion>, plays: seq<Play>, ctx: Context, narrow: EvalOptions,
    wide: EvalOptions)
    requires NoStricter(ctx, wide, narrow)
    ensures BestCredit(vs, all, plays, ctx, narrow) <= BestCredit(vs, all, plays, ctx, wide)
  {
    if vs != [] {
      BestCreditMonotone(vs[..|vs| - 1], all, plays, ctx, narrow, wide);
      CreditMonotone(vs[|vs| - 1], all, plays, ctx, narrow, wide);
    }
  }

  lemma PlayedMonotone(c: Id, plays: seq<Play>, ctx: Context, narrow: EvalOptions, wide: EvalOptions)
    requires NoStricter(ctx, wide, narrow)
    ensures Played(c, plays, ctx, narrow) <= Played(c, plays, ctx, wide)
  {
    FilterMonotone(plays,
      p => PlayQualifies(p, ctx, narrow, None) && ResolveId(ctx, p.courseId) == ResolveId(ctx, c),
      p => PlayQualifies(p, ctx, wide, None) && ResolveId(ctx, p.courseId) == ResolveId(ctx, c));
  }

  lemma CourseCountsMonotone(call: NumericCall, ctx: EvalContext, narrow: EvalOptions, wide: EvalOptions)
    requires NoStricter(ctx.base, wide, narrow)
    requires call.UniqueCoursesCall? || call.CountDistinctCall? || call.MaxCountByCall? || call.CountWhereCall?
      || call.MonthlyStreakCall?
    ensures NumberUnder(call, ctx, narrow) <= NumberUnder(call, ctx, wide)
  {
    var few, many := QualifyingCourses(ctx.plays, ctx.base, narrow), QualifyingCourses(ctx.plays, ctx.base, wide);
    match call
    case UniqueCoursesCall => SubsetSize(few, many);
    case CountDistinctCall(f, only) =>
      SubsetSize(DistinctValues(few, ValuesOf(f, ctx.base), only), DistinctValues(many, ValuesOf(f, ctx.base), only));
    case MaxCountByCall(f) =>
      TallyMonotone(few, many, ValuesOf(f, ctx.base));
      PeakMonotone(Tally(few, ValuesOf(f, ctx.base)), Tally(many, ValuesOf(f, ctx.base)));
    case CountWhereCall(f, v) =>
      SubsetSize(Sharing(few, ValuesOf(f, ctx.base), v), Sharing(many, ValuesOf(f, ctx.base), v));
    case MonthlyStreakCall =>
      LongestRunMonotone(PlayedMonths(ctx.plays, ctx.base, narrow), PlayedMonths(ctx.plays, ctx.base, wide));
  }

  /** Every numeric aggregate is non-negative and never decreases when more plays qualify. */
  lemma NumberMonotone(call: NumericCall, ctx: EvalContext, narrow: EvalOptions, wide: EvalOptions)
    requires NoStricter(ctx.base, wide, narrow)
    ensures 0.0 <= NumberUnder(call, ctx, narrow) <= NumberUnder(call, ctx, wide)
  {
    match call
    case PlayedCall(c) => PlayedMonotone(c, ctx.plays, ctx.base, narrow, wide);
    case TrailProgressCall(t) =>
      TrailProgressMeaning(VersionsOf(ctx.base, t), ctx.plays, ctx.base, narrow);
      BestShareMonotone(VersionsOf(ctx.base, t), VersionsOf(ctx.base, t), ctx.plays, ctx.base, narrow, wide);
    case MarkerCreditsCall(t) =>
      BestCreditMonotone(VersionsOf(ctx.base, t), VersionsOf(ctx.base, t), ctx.plays, ctx.base, narrow, wide);
    case UniqueCoursesCall => CourseCountsMonotone(call, ctx, narrow, wide);
    case CountDistinctCall(_, _) => CourseCountsMonotone(call, ctx, narrow, wide);
    case MaxCountByCall(_) => CourseCountsMonotone(call, ctx, narrow, wide);
    case CountWhereCall(_, _) => CourseCountsMonotone(call, ctx, narrow, wide);
    case MonthlyStreakCall => CourseCountsMonotone(call, ctx, narrow, wide);
  }

  /** So is every boolean aggregate except `inOrder`. */
  lemma TruthMonotone(call: BooleanCall, ctx: EvalContext, narrow: EvalOptions, wide: EvalOptions)
    requires NoStricter(ctx.base, wide, narrow) && !call.InOrderCall?
    ensures TruthUnder(call, ctx, narrow) ==> TruthUnder(call, ctx, wide)
  {
    var all := VersionsOf(ctx.base, call.trailId);
    if TruthUnder(call, ctx, narrow) {
      match call
      case TrailCompleteCall(t) =>
        var k :| 0 <= k < |all| && Complete(all[k], all, ctx.plays, ctx.base, narrow);
        SatisfiedMonotone(all[k], all, ctx.plays, ctx.base, narrow, wide);
      case TrailCompleteWithinCall(t, days) =>
        var k: nat :| WithinAt(all, k, ctx.plays, ctx.base, days, narrow);
        WithinMonotone(all[k], all, ctx.plays, ctx.base, days, narrow, wide);
        assert WithinAt(all, k, ctx.plays, ctx.base, days, wide);
      case MarkerSetCompleteCall(t) =>
        var k :| 0 <= k < |all| &&
          Credit(all[k], all, ctx.plays, ctx.base, narrow)
          >= RequiredCount(all[k].markerRule, |MarkerRoster(all[k], ctx.base)|);
        CreditMonotone(all[k], all, ctx.plays, ctx.base, narrow, wide);
    }
  }

  // ---------------------------------------------------------------- polarity soundness

  /** A positive occurrence can only grow from money to badge mode; a negative one is the same number in both. */
  lemma OccurrenceMonotone(o: Operand, ctx: EvalContext, positive: bool)
    requires ctx.programmeStartsOn.Some?
    ensures EvalOperand(o, ctx, MoneyMode, positive).Value? && EvalOperand(o, ctx, BadgeMode, positive).Value?
    ensures EvalOperand(o, ctx, MoneyMode, positive).value <= EvalOperand(o, ctx, BadgeMode, positive).value
    ensures !positive || o.Literal? ==>
      EvalOperand(o, ctx, MoneyMode, positive) == EvalOperand(o, ctx, BadgeMode, positive)
    ensures o.Aggregate? ==> 0.0 <= EvalOperand(o, ctx, MoneyMode, positive).value
  {
    if o.Aggregate? {
      if positive {
        NumberMonotone(o.call, ctx, Money(ctx.programmeStartsOn.value), Badge(ctx.badgeThreshold));
      } else {
        NumberMonotone(o.call, ctx, Badge(None), Badge(None));
      }
    }
  }

  /** The money outcome implies the badge outcome, or the other way round under an odd number of `not`s. */
  ghost predicate Transfers(money: Outcome<bool>, badge: Outcome<bool>, negated: bool) {
    && money.Value? && badge.Value?
    && if negated then badge.value ==> money.value else money.value ==> badge.value
  }

  ghost predicate TransfersAt(e: RuleExpr, ctx: EvalContext, negated: bool) {
    Transfers(EvalExpr(e, ctx, MoneyMode, negated), EvalExpr(e, ctx, BadgeMode, negated), negated)
  }

  lemma CompareTransfers(e: RuleExpr, ctx: EvalContext, negated: bool, path: seq<Step>, regionCodes: set<string>)
    requires e.Compare? && ctx.programmeStartsOn.Some? && NodeIssues(e, path, MoneyMode, negated, regionCodes) == []
    ensures TransfersAt(e, ctx, negated)
  {
    OccurrenceMonotone(e.left, ctx, Polarity(BaselinePositive(e.op, true), negated));
    OccurrenceMonotone(e.right, ctx, Polarity(BaselinePositive(e.op, false), negated));
  }

  lemma BareTransfers(e: RuleExpr, ctx: EvalContext, negated: bool)
    requires e.Bare? && !e.call.InOrderCall? && ctx.programmeStartsOn.Some?
    ensures TransfersAt(e, ctx, negated)
  {
    TruthMonotone(e.call, ctx, Money(ctx.programmeStartsOn.value), Badge(ctx.badgeThreshold));
  }

  lemma {:induction false} ExprTransfers(
    e: RuleExpr, ctx: EvalContext, negated: bool, path: seq<Step>, regionCodes: set<string>)
    requires ctx.programmeStartsOn.Some? && Walk(e, path, MoneyMode, negated, regionCodes) == []
    ensures TransfersAt(e, ctx, negated)
    decreases e, 0
  {
    if e.And? || e.Or? {
      ArgsTransfer(e, 0, ctx, negated, path, regionCodes);
    } else if e.Compare? {
      CompareTransfers(e, ctx, negated, path, regionCodes);
    } else if e.Bare? {
      BareTransfers(e, ctx, negated);
    } else if e.arg.Rule? {
      ExprTransfers(e.arg.expr, ctx, !negated, path + [ArgOf], regionCodes);
    } else {
      OccurrenceMonotone(Aggregate(e.arg.number), ctx, Polarity(true, !negated));
    }
  }

  /** What the first argument decides, or else the others. */
  function Joined(first: Outcome<bool>, others: Outcome<bool>, deciding: bool): Outcome<bool> {
    if first.Throws? || first.value == deciding then first else others
  }

  lemma JoinedTransfers(
    first: Outcome<bool>, first': Outcome<bool>, others: Outcome<bool>, others': Outcome<bool>, deciding: bool,
    negated: bool)
    requires Transfers(first, first', negated) && Transfers(others, others', negated)
    ensures Transfers(Joined(first, others, deciding), Joined(first', others', deciding), negated)
  {
  }

  lemma FromIsJoined(e: RuleExpr, i: nat, ctx: EvalContext, mode: Mode, negated: bool)
    requires (e.And? || e.Or?) && i < |e.args|
    ensures EvalFrom(e, i, ctx, mode, negated) ==
      Joined(EvalExpr(e.args[i], ctx, mode, negated), EvalFrom(e, i + 1, ctx, mode, negated), e.Or?)
  {
  }

  lemma {:induction false} ArgsTransfer(
    e: RuleExpr, i: nat, ctx: EvalContext, negated: bool, path: seq<Step>, regionCodes: set<string>)
    requires (e.And? || e.Or?) && i <= |e.args|
    requires ctx.programmeStartsOn.Some? && WalkArgs(e, |e.args|, path, MoneyMode, negated, regionCodes) == []
    ensures Transfers(EvalFrom(e, i, ctx, MoneyMode, negated), EvalFrom(e, i, ctx, BadgeMode, negated), negated)
    decreases e, 0, |e.args| - i
  {
    if i < |e.args| {
      CleanArg(e, i, |e.args|, path, negated, regionCodes);
      ExprTransfers(e.args[i], ctx, negated, path + [ArgsAt(i)], regionCodes);
      ArgsTransfer(e, i + 1, ctx, negated, path, regionCodes);
      FromIsJoined(e, i, ctx, MoneyMode, negated);
      FromIsJoined(e, i, ctx, BadgeMode, negated);
      JoinedTransfers(
        EvalExpr(e.args[i], ctx, MoneyMode, negated), EvalExpr(e.args[i], ctx, BadgeMode, negated),
        EvalFrom(e, i + 1, ctx, MoneyMode, negated), EvalFrom(e, i + 1, ctx, BadgeMode, negated), e.Or?, negated);
    }
  }

  lemma {:induction false} CleanArg(
    e: RuleExpr, i: nat, n: nat, path: seq<Step>, negated: bool, regionCodes: set<string>)
    requires (e.And? || e.Or?) && i < n <= |e.args| && WalkArgs(e, n, path, MoneyMode, negated, regionCodes) == []
    ensures Walk(e.args[i], path + [ArgsAt(i)], MoneyMode, negated, regionCodes) == []
    decreases n
  {
    if i < n - 1 { CleanArg(e, i, n - 1, path, negated, regionCodes); }
  }

  /**
   * Polarity soundness. A rule the checker finds nothing wrong with in money mode, evaluated with a programme start
   * and any badge threshold: neither mode throws, and if it holds on money plays it holds on badge plays.
   */
  lemma MoneyImpliesBadge(e: RuleExpr, ctx: EvalContext, regionCodes: set<string>)
    requires ctx.programmeStartsOn.Some? && CheckRuleExpr(e, MoneyMode, regionCodes) == []
    ensures EvaluateRuleExpr(e, ctx, MoneyMode).Value? && EvaluateRuleExpr(e, ctx, BadgeMode).Value?
    ensures EvaluateRuleExpr(e, ctx, MoneyMode).value ==> EvaluateRuleExpr(e, ctx, BadgeMode).value
  {
    ExprTransfers(e, ctx.(plays := GuardedPlays(ctx.plays, ctx.base)), false, [], regionCodes);
  }

  // ---------------------------------------------------------------- range soundness

  /** Every course's region is one of the pinned codes. */
  ghost predicate KnownRegions(ctx: Context, regionCodes: set<string>) {
    forall c :: c in ctx.courses && ctx.courses[c].region.Some? ==> ctx.courses[c].region.value in regionCodes
  }

  lemma CountDistinctInDomain(
    field: Field, only: Option<seq<string>>, plays: seq<Play>, ctx: Context, opts: EvalOptions,
    regionCodes: set<string>)
    requires KnownRegions(ctx, regionCodes)
    ensures AtMost(CountDistinct(field, only, plays, ctx, opts) as real, DomainBound(field, regionCodes))
    ensures only.Some? ==> CountDistinct(field, only, plays, ctx, opts) <= |Elements(only.value)|
  {
    var values := DistinctValues(QualifyingCourses(plays, ctx, opts), ValuesOf(field, ctx), only);
    if only.Some? { SubsetSize(values, Elements(only.value)); }
    if field == Region {
      SubsetSize(values, regionCodes);
    } else if field == CountryField {
      CountriesAreKnown(only, plays, ctx, opts);
      SubsetSize(values, {"US", "CA"});
    }
  }

  lemma CountriesAreKnown(only: Option<seq<string>>, plays: seq<Play>, ctx: Context, opts: EvalOptions)
    ensures DistinctValues(QualifyingCourses(plays, ctx, opts), ValuesOf(CountryField, ctx), only) <= {"US", "CA"}
  {
    forall v | v in DistinctValues(QualifyingCourses(plays, ctx, opts), ValuesOf(CountryField, ctx), only)
      ensures v in {"US", "CA"}
    {
      var c :| c in QualifyingCourses(plays, ctx, opts) && v in ValuesOf(CountryField, ctx)(c);
      assert v in FieldValues(c, CountryField, ctx);
    }
  }

  /** An aggregate's value always lies in its static range, whatever the plays, options and roster. */
  lemma ValueInRange(call: NumericCall, ctx: EvalContext, opts: EvalOptions, regionCodes: set<string>)
    requires KnownRegions(ctx.base, regionCodes)
    ensures InRange(NumberUnder(call, ctx, opts), NumericRangeOf(Aggregate(call), regionCodes))
  {
    NumberMonotone(call, ctx, opts, opts);
    if call.TrailProgressCall? {
      TrailProgressMeaning(VersionsOf(ctx.base, call.trailId), ctx.plays, ctx.base, opts);
    }
    if call.CountDistinctCall? {
      CountDistinctInDomain(call.field, call.only, ctx.plays, ctx.base, opts, regionCodes);
    }
  }

  lemma OperandInRange(o: Operand, ctx: EvalContext, mode: Mode, positive: bool, regionCodes: set<string>)
    requires KnownRegions(ctx.base, regionCodes) && EvalOperand(o, ctx, mode, positive).Value?
    ensures InRange(EvalOperand(o, ctx, mode, positive).value, NumericRangeOf(o, regionCodes))
  {
    if o.Aggregate? { ValueInRange(o.call, ctx, OptionsFor(ctx, mode, positive).value, regionCodes); }
  }

  /** A comparison whose ranges cannot meet is never true: in any context, either mode, under any number of `not`s. */
  lemma EmptyComparisonNeverHolds(
    op: CompareOp, left: Operand, right: Operand, ctx: EvalContext, mode: Mode, negated: bool,
    regionCodes: set<string>)
    requires KnownRegions(ctx.base, regionCodes)
    requires !IsRangeSatisfiable(op, NumericRangeOf(left, regionCodes), NumericRangeOf(right, regionCodes))
    ensures EvalCompare(op, left, right, ctx, mode, negated) != Value(true)
  {
    var out := EvalCompare(op, left, right, ctx, mode, negated);
    if out.Value? {
      OperandInRange(left, ctx, mode, Polarity(BaselinePositive(op, true), negated), regionCodes);
      OperandInRange(right, ctx, mode, Polarity(BaselinePositive(op, false), negated), regionCodes);
    }
  }

  /**
   * What the checker calls unsatisfiable: the node at the reported path is a comparison that never holds, in any
   * context and mode.
   */
  lemma ReportedUnsatisfiableNeverHolds(
    e: RuleExpr, checkMode: Mode, issue: Issue, ctx: EvalContext, mode: Mode, negated: bool, regionCodes: set<string>)
    requires KnownRegions(ctx.base, regionCodes)
    requires issue in CheckRuleExpr(e, checkMode, regionCodes) && issue.code == Unsatisfiable
    ensures exists node: RuleExpr ::
      node.Compare? && Finds(e, issue.path, false, node, false) && EvalExpr(node, ctx, mode, negated) != Value(true)
  {
    ReportedIffDeserved(e, checkMode, regionCodes, issue);
    var node: RuleExpr, nodeNegated: bool :| Finds(e, issue.path, false, node, nodeNegated)
      && issue in NodeIssues(node, issue.path, checkMode, nodeNegated, regionCodes);
    assert node.Compare? && !nodeNegated;
    EmptyComparisonNeverHolds(node.op, node.left, node.right, ctx, mode, negated, regionCodes);
  }
}
