/** Rule evaluation in badge and money mode (packages/rules/src/rule-expr-eval.ts). */
module RuleEval {
  import opened Calendar
  import opened Common
  import opened Completion
  import opened TrailWindow
  import opened Aggregates
  import opened RuleExpr
  import opened StopOrder

  datatype EvalContext = EvalContext(
    base: Context, plays: seq<Play>, programmeStartsOn: Option<Date>, badgeThreshold: Option<real>)

  /** Evaluation throws when a money-counting occurrence is reached without a programme start. */
  datatype Outcome<+T> = Value(value: T) | Throws

  function BaselinePositive(op: CompareOp, leftSide: bool): bool {
    var leftPositive := op == Ge || op == Gt;
    if leftSide then leftPositive else !leftPositive
  }

  function Polarity(baselinePositive: bool, negated: bool): bool {
    if negated then !baselinePositive else baselinePositive
  }

  /**
   * Only a positive occurrence in money mode counts money plays; only a positive one in badge mode takes the caller's
   * threshold.
   */
  function OptionsFor(ctx: EvalContext, mode: Mode, positive: bool): Outcome<EvalOptions> {
    if mode == MoneyMode && positive then
      if ctx.programmeStartsOn.None? then Throws else Value(Money(ctx.programmeStartsOn.value))
    else
      Value(Badge(if mode == BadgeMode && positive then ctx.badgeThreshold else None))
  }

  function VersionsOf(ctx: Context, trailId: Id): seq<RosterVersion> {
    if trailId in ctx.trails then ctx.trails[trailId] else []
  }

  ghost function NumberUnder(call: NumericCall, ctx: EvalContext, opts: EvalOptions): real {
    match call
    case PlayedCall(c) => Played(c, ctx.plays, ctx.base, opts) as real
    case TrailProgressCall(t) => TrailProgress(VersionsOf(ctx.base, t), ctx.plays, ctx.base, opts)
    case UniqueCoursesCall => UniqueCourses(ctx.plays, ctx.base, opts) as real
    case CountDistinctCall(f, only) => CountDistinct(f, only, ctx.plays, ctx.base, opts) as real
    case MaxCountByCall(f) => MaxCountBy(f, ctx.plays, ctx.base, opts) as real
    case CountWhereCall(f, v) => CountWhere(f, v, ctx.plays, ctx.base, opts) as real
    case MarkerCreditsCall(t) => MarkerCredits(VersionsOf(ctx.base, t), ctx.plays, ctx.base, opts) as real
    case MonthlyStreakCall => MonthlyStreak(ctx.plays, ctx.base, opts) as real
  }

  ghost function TruthUnder(call: BooleanCall, ctx: EvalContext, opts: EvalOptions): bool {
    match call
    case TrailCompleteCall(t) => TrailComplete(VersionsOf(ctx.base, t), ctx.plays, ctx.base, opts)
    case TrailCompleteWithinCall(t, days) =>
      TrailCompleteWithin(VersionsOf(ctx.base, t), ctx.plays, ctx.base, days, opts)
    case InOrderCall(t) => InOrder(VersionsOf(ctx.base, t), ctx.plays, ctx.base, opts)
    case MarkerSetCompleteCall(t) => MarkerSetComplete(VersionsOf(ctx.base, t), ctx.plays, ctx.base, opts)
  }

  ghost function EvalNumber(call: NumericCall, ctx: EvalContext, mode: Mode, positive: bool): Outcome<real> {
    var opts := OptionsFor(ctx, mode, positive);
    if opts.Throws? then Throws else Value(NumberUnder(call, ctx, opts.value))
  }

  ghost function EvalOperand(o: Operand, ctx: EvalContext, mode: Mode, positive: bool): Outcome<real> {
    match o
    case Literal(v) => Value(v)
    case Aggregate(call) => EvalNumber(call, ctx, mode, positive)
  }

  ghost function EvalCompare(
    op: CompareOp, left: Operand, right: Operand, ctx: EvalContext, mode: Mode, negated: bool): Outcome<bool>
  {
    var l := EvalOperand(left, ctx, mode, Polarity(BaselinePositive(op, true), negated));
    if l.Throws? then Throws else
    var r := EvalOperand(right, ctx, mode, Polarity(BaselinePositive(op, false), negated));
    if r.Throws? then Throws else Value(Holds(op, l.value, r.value))
  }

  ghost function EvalBare(call: BooleanCall, ctx: EvalContext, mode: Mode, negated: bool): Outcome<bool> {
    var opts := OptionsFor(ctx, mode, Polarity(true, negated));
    if opts.Throws? then Throws else Value(TruthUnder(call, ctx, opts.value))
  }

  /** Arguments are evaluated left to right and stop at the first that decides. */
  ghost function EvalExpr(e: RuleExpr, ctx: EvalContext, mode: Mode, negated: bool): Outcome<bool>
    decreases e, 0
  {
    match e
    case And(args) => EvalFrom(e, 0, ctx, mode, negated)
    case Or(args) => EvalFrom(e, 0, ctx, mode, negated)
    case Not(Rule(inner)) => Negate(EvalExpr(inner, ctx, mode, !negated))
    case Not(BareNumber(call)) =>
      var n := EvalNumber(call, ctx, mode, Polarity(true, !negated));
      if n.Throws? then Throws else Value(n.value == 0.0)
    case Compare(op, left, right) => EvalCompare(op, left, right, ctx, mode, negated)
    case Bare(call) => EvalBare(call, ctx, mode, negated)
  }

  function Negate(o: Outcome<bool>): Outcome<bool> {
    if o.Throws? then Throws else Value(!o.value)
  }

  ghost function EvalFrom(e: RuleExpr, i: nat, ctx: EvalContext, mode: Mode, negated: bool): Outcome<bool>
    requires (e.And? || e.Or?) && i <= |e.args|
    decreases e, 0, |e.args| - i
  {
    if i == |e.args| then Value(e.And?) else
      var a := EvalExpr(e.args[i], ctx, mode, negated);
      if a.Throws? || a.value == e.Or? then a else EvalFrom(e, i + 1, ctx, mode, negated)
  }

  /** The entry point: the user-pick guard is applied once, before anything reads the plays. */
  ghost function EvaluateRuleExpr(e: RuleExpr, ctx: EvalContext, mode: Mode): Outcome<bool> {
    EvalExpr(e, ctx.(plays := GuardedPlays(ctx.plays, ctx.base)), mode, false)
  }
}
