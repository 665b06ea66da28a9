/** What an evaluated rule says: the laws of the connectives and of comparisons, and what each aggregate stands for. */
module RuleMeaning {
  import opened Common
  import opened Completion
  import opened TrailWindow
  import opened Aggregates
  import opened RuleExpr
  import opened RuleEval
  import opened StopOrder

  // ---------------------------------------------------------------- and, or

  /** Every argument from k on evaluates to this. */
  ghost predicate AllAre(e: RuleExpr, k: nat, value: bool, ctx: EvalContext, mode: Mode, negated: bool)
    requires e.And? || e.Or?
  {
    forall i: nat :: k <= i < |e.args| ==> EvalExpr(e.args[i], ctx, mode, negated) == Value(value)
  }

  /** Argument i evaluates to this, and every one from k to it to the opposite of `value`. */
  ghost predicate FirstIs(
    e: RuleExpr, k: nat, i: nat, outcome: Outcome<bool>, value: bool, ctx: EvalContext, mode: Mode, negated: bool)
    requires e.And? || e.Or?
  {
    && k <= i < |e.args| && EvalExpr(e.args[i], ctx, mode, negated) == outcome
    && forall j: nat :: k <= j < i ==> EvalExpr(e.args[j], ctx, mode, negated) == Value(!value)
  }

  ghost predicate SomeFirst(
    e: RuleExpr, k: nat, outcome: Outcome<bool>, value: bool, ctx: EvalContext, mode: Mode, negated: bool)
    requires e.And? || e.Or?
  {
    exists i: nat :: FirstIs(e, k, i, outcome, value, ctx, mode, negated)
  }

  /** With `value` the one that decides: false for `and`, true for `or`. */
  ghost predicate Decided(
    e: RuleExpr, k: nat, out: Outcome<bool>, value: bool, ctx: EvalContext, mode: Mode, negated: bool)
    requires e.And? || e.Or?
  {
    && (out == Value(!value) <==> AllAre(e, k, !value, ctx, mode, negated))
    && (out == Value(value) <==> SomeFirst(e, k, Value(value), value, ctx, mode, negated))
    && (out == Throws <==> SomeFirst(e, k, Throws, value, ctx, mode, negated))
  }

  lemma StepDecided(
    e: RuleExpr, k: nat, rest: Outcome<bool>, value: bool, ctx: EvalContext, mode: Mode, negated: bool)
    requires (e.And? || e.Or?) && k < |e.args| && Decided(e, k + 1, rest, value, ctx, mode, negated)
    ensures var a := EvalExpr(e.args[k], ctx, mode, negated);
      Decided(e, k, if a.Throws? || a.value == value then a else rest, value, ctx, mode, negated)
  {
    var a := EvalExpr(e.args[k], ctx, mode, negated);
    if a == Value(!value) {
      forall outcome: Outcome<bool> | outcome != Value(!value)
        ensures SomeFirst(e, k, outcome, value, ctx, mode, negated)
          <==> SomeFirst(e, k + 1, outcome, value, ctx, mode, negated)
      {
        FirstFurtherOn(e, k, outcome, value, ctx, mode, negated);
      }
    } else {
      assert FirstIs(e, k, k, a, value, ctx, mode, negated);
      assert forall outcome, i: nat :: FirstIs(e, k, i, outcome, value, ctx, mode, negated) ==> i == k;
    }
  }

  lemma FirstFurtherOn(
    e: RuleExpr, k: nat, outcome: Outcome<bool>, value: bool, ctx: EvalContext, mode: Mode, negated: bool)
    requires (e.And? || e.Or?) && k < |e.args| && EvalExpr(e.args[k], ctx, mode, negated) == Value(!value) != outcome
    ensures SomeFirst(e, k, outcome, value, ctx, mode, negated)
      <==> SomeFirst(e, k + 1, outcome, value, ctx, mode, negated)
  {
    if i: nat :| FirstIs(e, k, i, outcome, value, ctx, mode, negated) {
      assert FirstIs(e, k + 1, i, outcome, value, ctx, mode, negated);
    }
    var next := k + 1;
    if i: nat :| FirstIs(e, next, i, outcome, value, ctx, mode, negated) {
      assert FirstIs(e, k, i, outcome, value, ctx, mode, negated);
    }
  }

  lemma {:induction false} FromDecides(e: RuleExpr, k: nat, ctx: EvalContext, mode: Mode, negated: bool)
    requires (e.And? || e.Or?) && k <= |e.args|
    ensures Decided(e, k, EvalFrom(e, k, ctx, mode, negated), e.Or?, ctx, mode, negated)
    decreases |e.args| - k
  {
    if k < |e.args| {
      FromDecides(e, k + 1, ctx, mode, negated);
      StepDecided(e, k, EvalFrom(e, k + 1, ctx, mode, negated), e.Or?, ctx, mode, negated);
    }
  }

  /**
   * `and` holds exactly when every argument does. It is false, or throws, exactly when some argument is, or does, and
   * all before that one hold.
   */
  lemma AndMeaning(args: seq<RuleExpr>, ctx: EvalContext, mode: Mode, negated: bool)
    ensures var e := And(args); var out := EvalExpr(e, ctx, mode, negated);
      && (out == Value(true) <==> AllAre(e, 0, true, ctx, mode, negated))
      && (out == Value(false) <==> SomeFirst(e, 0, Value(false), false, ctx, mode, negated))
      && (out == Throws <==> SomeFirst(e, 0, Throws, false, ctx, mode, negated))
  {
    FromDecides(And(args), 0, ctx, mode, negated);
  }

  /**
   * `or` is false exactly when every argument is. It holds, or throws, exactly when some argument does and all before
   * that one are false.
   */
  lemma OrMeaning(args: seq<RuleExpr>, ctx: EvalContext, mode: Mode, negated: bool)
    ensures var e := Or(args); var out := EvalExpr(e, ctx, mode, negated);
      && (out == Value(false) <==> AllAre(e, 0, false, ctx, mode, negated))
      && (out == Value(true) <==> SomeFirst(e, 0, Value(true), true, ctx, mode, negated))
      && (out == Throws <==> SomeFirst(e, 0, Throws, true, ctx, mode, negated))
  {
    FromDecides(Or(args), 0, ctx, mode, negated);
  }

  /** A rule `and(...)` holds exactly when each of its arguments, as a rule, holds. */
  lemma AndHoldsIff(args: seq<RuleExpr>, ctx: EvalContext, mode: Mode)
    ensures EvaluateRuleExpr(And(args), ctx, mode) == Value(true) <==>
      forall i :: 0 <= i < |args| ==> EvaluateRuleExpr(args[i], ctx, mode) == Value(true)
  {
    AndMeaning(args, ctx.(plays := GuardedPlays(ctx.plays, ctx.base)), mode, false);
  }

  /** Where no argument throws, a rule `or(...)` holds exactly when one of its arguments, as a rule, holds. */
  lemma OrHoldsIff(args: seq<RuleExpr>, ctx: EvalContext, mode: Mode)
    requires forall i :: 0 <= i < |args| ==> EvaluateRuleExpr(args[i], ctx, mode).Value?
    ensures EvaluateRuleExpr(Or(args), ctx, mode).Value?
    ensures EvaluateRuleExpr(Or(args), ctx, mode).value <==>
      exists i :: 0 <= i < |args| && EvaluateRuleExpr(args[i], ctx, mode).value
  {
    var guarded := ctx.(plays := GuardedPlays(ctx.plays, ctx.base));
    OrMeaning(args, guarded, mode, false);
    var e := Or(args);
    if i :| 0 <= i < |args| && EvaluateRuleExpr(args[i], ctx, mode).value {
      assert !AllAre(e, 0, false, guarded, mode, false);
    }
  }

  // ---------------------------------------------------------------- not, comparisons, bare calls

  /** The number an occurrence stands for: money plays count only in money mode, where a larger number helps. */
  ghost function NumberAt(call: NumericCall, ctx: EvalContext, mode: Mode, helps: bool): Option<real> {
    match (mode, helps)
    case (MoneyMode, true) =>
      if ctx.programmeStartsOn.None? then None else Some(NumberUnder(call, ctx, Money(ctx.programmeStartsOn.value)))
    case (MoneyMode, false) => Some(NumberUnder(call, ctx, Badge(None)))
    case (BadgeMode, true) => Some(NumberUnder(call, ctx, Badge(ctx.badgeThreshold)))
    case (BadgeMode, false) => Some(NumberUnder(call, ctx, Badge(None)))
  }

  ghost function OperandAt(o: Operand, ctx: EvalContext, mode: Mode, helps: bool): Option<real> {
    match o case Literal(v) => Some(v) case Aggregate(call) => NumberAt(call, ctx, mode, helps)
  }

  predicate Related(op: CompareOp, l: real, r: real) {
    || (op == Ge && !(l < r)) || (op == Gt && r < l) || (op == Le && !(r < l)) || (op == Lt && l < r)
    || (op == Eq && !(l < r) && !(r < l)) || (op == Ne && (l < r || r < l))
  }

  /**
   * A comparison holds exactly when its numbers stand in the relation, and throws exactly when one of them is missing.
   * More on the left helps `>=` and `>`, more on the right the others; each `not` around it turns that round.
   */
  lemma CompareMeaning(op: CompareOp, left: Operand, right: Operand, ctx: EvalContext, mode: Mode, negated: bool)
    ensures var out := EvalExpr(Compare(op, left, right), ctx, mode, negated);
      var leftHelps := (op == Ge || op == Gt) != negated;
      var l, r := OperandAt(left, ctx, mode, leftHelps), OperandAt(right, ctx, mode, !leftHelps);
      && (out == Throws <==> l.None? || r.None?)
      && (l.Some? && r.Some? ==> out == Value(Related(op, l.value, r.value)))
  {
  }

  /** A rule that is one comparison: the same of the plays that count, with no `not` around it. */
  lemma ComparisonHoldsIff(op: CompareOp, left: Operand, right: Operand, ctx: EvalContext, mode: Mode)
    ensures var out := EvaluateRuleExpr(Compare(op, left, right), ctx, mode);
      var counted := ctx.(plays := GuardedPlays(ctx.plays, ctx.base));
      var l := OperandAt(left, counted, mode, op == Ge || op == Gt);
      var r := OperandAt(right, counted, mode, !(op == Ge || op == Gt));
      && (out == Throws <==> l.None? || r.None?)
      && (out == Value(true) <==> l.Some? && r.Some? && Related(op, l.value, r.value))
  {
    CompareMeaning(op, left, right, ctx.(plays := GuardedPlays(ctx.plays, ctx.base)), mode, false);
  }

  /** `not` turns its argument's answer round, judged with the occurrences' roles exchanged. */
  lemma NotMeaning(e: RuleExpr, ctx: EvalContext, mode: Mode, negated: bool)
    ensures var out, inner := EvalExpr(Not(Rule(e)), ctx, mode, negated), EvalExpr(e, ctx, mode, !negated);
      (out == Throws <==> inner == Throws) && (out == Value(true) <==> inner == Value(false))
  {
  }

  /** `not` of a number holds exactly when the number is zero. */
  lemma NotNumberMeaning(call: NumericCall, ctx: EvalContext, mode: Mode, negated: bool)
    ensures var out, n := EvalExpr(Not(BareNumber(call)), ctx, mode, negated), NumberAt(call, ctx, mode, negated);
      (out == Throws <==> n.None?) && (out == Value(true) <==> n == Some(0.0))
  {
  }

  /** Picks that a later one replaces do not count, in any rule. */
  lemma ReplacedPicksDoNotCount(e: RuleExpr, ctx: EvalContext, mode: Mode)
    ensures EvaluateRuleExpr(e, ctx, mode) ==
      EvaluateRuleExpr(e, ctx.(plays := GuardedPlays(ctx.plays, ctx.base)), mode)
  {
    GuardIsIdempotent(ctx.plays, ctx.base);
  }

  // ---------------------------------------------------------------- the boolean aggregates

  /** What a boolean call asks of the plays, some version of its trail answering. */
  ghost predicate Asks(call: BooleanCall, all: seq<RosterVersion>, plays: seq<Play>, ctx: Context, opts: EvalOptions) {
    match call
    case TrailCompleteCall(_) =>
      exists k :: 0 <= k < |all|
        && Meets(all[k].completionRule, |all[k].members|, AttainedAt(all[k], all, plays, ctx, opts))
    case TrailCompleteWithinCall(_, days) =>
      exists k, visits :: 0 <= k < |all| && CloseVisits(all[k], all, plays, ctx, days, opts, visits)
    case InOrderCall(_) => exists k :: 0 <= k < |all| && PlayedInOrder(all[k], all, plays, ctx, opts)
    case MarkerSetCompleteCall(_) => exists k :: 0 <= k < |all| && EnoughCredited(all[k], all, plays, ctx, opts)
  }

  lemma TruthMeaning(call: BooleanCall, ctx: EvalContext, opts: EvalOptions)
    ensures TruthUnder(call, ctx, opts) <==>
      Asks(
        call, if call.trailId in ctx.base.trails then ctx.base.trails[call.trailId] else [], ctx.plays, ctx.base, opts)
  {
    var all := VersionsOf(ctx.base, call.trailId);
    forall k | 0 <= k < |all|
      ensures Complete(all[k], all, ctx.plays, ctx.base, opts) <==>
        Meets(all[k].completionRule, |all[k].members|, AttainedAt(all[k], all, ctx.plays, ctx.base, opts))
      ensures VersionInOrder(all[k], all, ctx.plays, ctx.base, opts) <==>
        PlayedInOrder(all[k], all, ctx.plays, ctx.base, opts)
    {
      CompleteIff(all[k], all, ctx.plays, ctx.base, opts);
      VersionInOrderIff(all[k], all, ctx.plays, ctx.base, opts);
    }
    if call.TrailCompleteWithinCall? { TrailWithinIff(all, ctx.plays, ctx.base, call.days, opts); }
    MarkerSetIff(all, ctx.plays, ctx.base, opts);
  }

  /** A bare call is judged on money plays in money mode, where its truth helps. */
  lemma BareMeaning(call: BooleanCall, ctx: EvalContext, mode: Mode, negated: bool)
    ensures var out := EvalExpr(Bare(call), ctx, mode, negated);
      var all := if call.trailId in ctx.base.trails then ctx.base.trails[call.trailId] else [];
      if mode == MoneyMode && !negated then
        if ctx.programmeStartsOn.None? then out == Throws
        else out == Value(Asks(call, all, ctx.plays, ctx.base, Money(ctx.programmeStartsOn.value)))
      else
        out == Value(Asks(call, all, ctx.plays, ctx.base, Badge(if negated then None else ctx.badgeThreshold)))
  {
    TruthMeaning(call, ctx, Badge(if negated then None else ctx.badgeThreshold));
    if ctx.programmeStartsOn.Some? { TruthMeaning(call, ctx, Money(ctx.programmeStartsOn.value)); }
  }
}
