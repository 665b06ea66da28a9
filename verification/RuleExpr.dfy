/**
 * Rule expressions (packages/catalog/src/rule-expr.ts) and their static checker
 * (packages/rules/src/rule-expr-check.ts). A literal is a real; an unbounded range has no maximum.
 */
module RuleExpr {
  import opened Common
  import opened Completion
  import opened Aggregates

  datatype NumericCall =
    | PlayedCall(courseId: Id) | TrailProgressCall(trailId: Id) | UniqueCoursesCall
    | CountDistinctCall(field: Field, only: Option<seq<string>>) | MaxCountByCall(field: Field)
    | CountWhereCall(field: Field, value: string) | MarkerCreditsCall(trailId: Id) | MonthlyStreakCall

  datatype BooleanCall =
    | TrailCompleteCall(trailId: Id) | TrailCompleteWithinCall(trailId: Id, days: nat)
    | InOrderCall(trailId: Id) | MarkerSetCompleteCall(trailId: Id)

  datatype CompareOp = Ge | Gt | Le | Lt | Eq | Ne

  datatype Operand = Literal(value: real) | Aggregate(call: NumericCall)

  /** A bare number is legal only directly under `not`. */
  datatype RuleExpr =
    | And(args: seq<RuleExpr>) | Or(args: seq<RuleExpr>) | Not(arg: NotArg)
    | Compare(op: CompareOp, left: Operand, right: Operand) | Bare(call: BooleanCall)
  datatype NotArg = Rule(expr: RuleExpr) | BareNumber(number: NumericCall)

  datatype Mode = BadgeMode | MoneyMode

  function Holds(op: CompareOp, l: real, r: real): bool {
    match op
    case Ge => l >= r case Gt => l > r case Le => l <= r case Lt => l < r case Eq => l == r case Ne => l != r
  }

  // ---------------------------------------------------------------- ranges

  datatype Range = Range(min: real, max: Option<real>)

  predicate InRange(x: real, r: Range) {
    r.min <= x && (r.max.Some? ==> x <= r.max.value)
  }

  function MinBound(a: Option<real>, b: Option<real>): Option<real> {
    if a.None? then b else if b.None? then a else if b.value < a.value then b else a
  }

  /** How many values a field can take at all; `regionCodes` is the pinned list of subdivision codes. */
  function DomainBound(field: Field, regionCodes: set<string>): Option<real> {
    match field
    case CountryField => Some(2.0)
    case Region => Some(|regionCodes| as real)
    case _ => None
  }

  function NumericRangeOf(o: Operand, regionCodes: set<string>): Range {
    match o
    case Literal(v) => Range(v, Some(v))
    case Aggregate(TrailProgressCall(_)) => Range(0.0, Some(1.0))
    case Aggregate(CountDistinctCall(field, only)) =>
      Range(0.0, MinBound(DomainBound(field, regionCodes),
                          if only.Some? then Some(|Elements(only.value)| as real) else None))
    case _ => Range(0.0, None)
  }

  predicate AtMost(a: real, bound: Option<real>) { bound.Some? ==> a <= bound.value }
  predicate Below(a: real, bound: Option<real>) { bound.Some? ==> a < bound.value }

  function IsRangeSatisfiable(op: CompareOp, left: Range, right: Range): bool {
    match op
    case Ge => AtMost(right.min, left.max)
    case Gt => Below(right.min, left.max)
    case Le => AtMost(left.min, right.max)
    case Lt => Below(left.min, right.max)
    case Eq => AtMost(left.min, right.max) && AtMost(right.min, left.max)
    case Ne => !(left.max == Some(left.min) && right.max == Some(right.min) && left.min == right.min)
  }

  /** The range test answers exactly whether some pair of values in the two ranges satisfies the comparison. */
  lemma RangeTestIsExact(op: CompareOp, left: Range, right: Range)
    requires AtMost(left.min, left.max) && AtMost(right.min, right.max)
    ensures IsRangeSatisfiable(op, left, right) <==>
      exists l: real, r: real :: InRange(l, left) && InRange(r, right) && Holds(op, l, r)
  {
    if IsRangeSatisfiable(op, left, right) {
      var l, r := RangeWitness(op, left, right);
    }
  }

  lemma RangeWitness(op: CompareOp, left: Range, right: Range) returns (l: real, r: real)
    requires AtMost(left.min, left.max) && AtMost(right.min, right.max)
    requires IsRangeSatisfiable(op, left, right)
    ensures InRange(l, left) && InRange(r, right) && Holds(op, l, r)
  {
    var farLeft :=
      if left.max.Some? then left.max.value else if left.min < right.min then right.min + 1.0 else left.min + 1.0;
    var farRight :=
      if right.max.Some? then right.max.value else if right.min < left.min then left.min + 1.0 else right.min + 1.0;
    match op
    case Ge => l, r := farLeft, right.min;
    case Gt => l, r := farLeft, right.min;
    case Le => l, r := left.min, farRight;
    case Lt => l, r := left.min, farRight;
    case Eq =>
      var meet := if left.min < right.min then right.min else left.min;
      l, r := meet, meet;
    case Ne =>
      if left.min != right.min { l, r := left.min, right.min; }
      else if left.max != Some(left.min) { l, r := farLeft, right.min; }
      else { l, r := left.min, farRight; }
  }

  // ---------------------------------------------------------------- the walk

  datatype IssueCode = NoPolarity | Unsatisfiable | InOrderNotAllowed
  datatype Step = ArgsAt(i: nat) | ArgOf
  datatype Issue = Issue(code: IssueCode, path: seq<Step>)

  /** The complaints about one node itself, given its path and the parity of the `not`s around it. */
  function NodeIssues(e: RuleExpr, path: seq<Step>, mode: Mode, negated: bool, regionCodes: set<string>): seq<Issue> {
    match e
    case Compare(op, left, right) =>
      (if (op == Eq || op == Ne) && mode == MoneyMode && (left.Aggregate? || right.Aggregate?)
       then [Issue(NoPolarity, path)] else [])
      + (if !negated && !IsRangeSatisfiable(op, NumericRangeOf(left, regionCodes), NumericRangeOf(right, regionCodes))
         then [Issue(Unsatisfiable, path)] else [])
    case Bare(InOrderCall(_)) => if mode == MoneyMode then [Issue(InOrderNotAllowed, path)] else []
    case _ => []
  }

  function Walk(e: RuleExpr, path: seq<Step>, mode: Mode, negated: bool, regionCodes: set<string>): seq<Issue>
    decreases e, 0
  {
    match e
    case And(args) => WalkArgs(e, |args|, path, mode, negated, regionCodes)
    case Or(args) => WalkArgs(e, |args|, path, mode, negated, regionCodes)
    case Not(Rule(inner)) => Walk(inner, path + [ArgOf], mode, !negated, regionCodes)
    case Not(BareNumber(_)) => []
    case _ => NodeIssues(e, path, mode, negated, regionCodes)
  }

  /** The complaints from the first n arguments. */
  function WalkArgs(
    e: RuleExpr, n: nat, path: seq<Step>, mode: Mode, negated: bool, regionCodes: set<string>): seq<Issue>
    requires e.And? || e.Or?
    requires n <= |e.args|
    decreases e, 0, n
  {
    if n == 0 then []
    else
      WalkArgs(e, n - 1, path, mode, negated, regionCodes)
      + Walk(e.args[n - 1], path + [ArgsAt(n - 1)], mode, negated, regionCodes)
  }

  function CheckRuleExpr(e: RuleExpr, mode: Mode, regionCodes: set<string>): seq<Issue> {
    Walk(e, [], mode, false, regionCodes)
  }

  /** The shared list the source's walk pushes into. */
  class IssueLog {
    var issues: seq<Issue>

    constructor ()
      ensures issues == []
    {
      issues := [];
    }

    method Record(e: RuleExpr, path: seq<Step>, mode: Mode, negated: bool, regionCodes: set<string>)
      modifies this
      ensures issues == old(issues) + Walk(e, path, mode, negated, regionCodes)
      decreases e
    {
      match e
      case And(args) => RecordArgs(e, path, mode, negated, regionCodes);
      case Or(args) => RecordArgs(e, path, mode, negated, regionCodes);
      case Not(Rule(inner)) => Record(inner, path + [ArgOf], mode, !negated, regionCodes);
      case Not(BareNumber(_)) =>
      case _ => issues := issues + NodeIssues(e, path, mode, negated, regionCodes);
    }

    method RecordArgs(e: RuleExpr, path: seq<Step>, mode: Mode, negated: bool, regionCodes: set<string>)
      requires e.And? || e.Or?
      modifies this
      ensures issues == old(issues) + WalkArgs(e, |e.args|, path, mode, negated, regionCodes)
      decreases e, 0
    {
      for i := 0 to |e.args|
        invariant issues == old(issues) + WalkArgs(e, i, path, mode, negated, regionCodes)
      {
        Record(e.args[i], path + [ArgsAt(i)], mode, negated, regionCodes);
      }
    }
  }

  method RunCheck(e: RuleExpr, mode: Mode, regionCodes: set<string>) returns (issues: seq<Issue>)
    ensures issues == CheckRuleExpr(e, mode, regionCodes)
  {
    var log := new IssueLog();
    log.Record(e, [], mode, false, regionCodes);
    issues := log.issues;
  }

  // ---------------------------------------------------------------- what is reported, and where

  /** The node found by following `path` from `e`, with the parity of the `not`s passed. */
  ghost predicate Finds(e: RuleExpr, path: seq<Step>, negated: bool, node: RuleExpr, nodeNegated: bool)
    decreases |path|
  {
    if path == [] then e == node && negated == nodeNegated
    else
      match path[0]
      case ArgsAt(i) => (e.And? || e.Or?) && i < |e.args| && Finds(e.args[i], path[1..], negated, node, nodeNegated)
      case ArgOf => e.Not? && e.arg.Rule? && Finds(e.arg.expr, path[1..], !negated, node, nodeNegated)
  }

  /** A complaint under `base` stems from a node of `e` that deserves it. */
  ghost predicate Justified(
    e: RuleExpr, base: seq<Step>, mode: Mode, negated: bool, regionCodes: set<string>, issue: Issue)
  {
    exists rel, node, nodeNegated ::
      issue.path == base + rel && Finds(e, rel, negated, node, nodeNegated)
        && issue in NodeIssues(node, issue.path, mode, nodeNegated, regionCodes)
  }

  lemma {:induction false} ReportedIsJustified(
    e: RuleExpr, base: seq<Step>, mode: Mode, negated: bool, regionCodes: set<string>, issue: Issue)
    requires issue in Walk(e, base, mode, negated, regionCodes)
    ensures Justified(e, base, mode, negated, regionCodes, issue)
    decreases e, 0
  {
    assert base == base + [] && Finds(e, [], negated, e, negated);
    if e.And? || e.Or? {
      ReportedArg(e, |e.args|, base, mode, negated, regionCodes, issue);
    } else if e.Not? {
      ReportedIsJustified(e.arg.expr, base + [ArgOf], mode, !negated, regionCodes, issue);
      JustifiedBelow(e, e.arg.expr, ArgOf, base, mode, negated, !negated, regionCodes, issue);
    }
  }

  lemma JustifiedBelow(
    e: RuleExpr, sub: RuleExpr, step: Step, base: seq<Step>, mode: Mode, negated: bool, subNegated: bool,
    regionCodes: set<string>, issue: Issue)
    requires match step
      case ArgsAt(i) => (e.And? || e.Or?) && i < |e.args| && sub == e.args[i] && subNegated == negated
      case ArgOf => e.Not? && e.arg == Rule(sub) && subNegated == !negated
    requires Justified(sub, base + [step], mode, subNegated, regionCodes, issue)
    ensures Justified(e, base, mode, negated, regionCodes, issue)
  {
    var rel, node, nodeNegated :| issue.path == base + [step] + rel && Finds(sub, rel, subNegated, node, nodeNegated)
      && issue in NodeIssues(node, issue.path, mode, nodeNegated, regionCodes);
    assert ([step] + rel)[1..] == rel;
    assert base + [step] + rel == base + ([step] + rel);
    assert Finds(e, [step] + rel, negated, node, nodeNegated);
  }

  lemma {:induction false} ReportedArg(
    e: RuleExpr, n: nat, base: seq<Step>, mode: Mode, negated: bool, regionCodes: set<string>, issue: Issue)
    requires (e.And? || e.Or?) && n <= |e.args|
    requires issue in WalkArgs(e, n, base, mode, negated, regionCodes)
    ensures Justified(e, base, mode, negated, regionCodes, issue)
    decreases e, 0, n
  {
    if issue in WalkArgs(e, n - 1, base, mode, negated, regionCodes) {
      ReportedArg(e, n - 1, base, mode, negated, regionCodes, issue);
    } else {
      ReportedIsJustified(e.args[n - 1], base + [ArgsAt(n - 1)], mode, negated, regionCodes, issue);
      JustifiedBelow(e, e.args[n - 1], ArgsAt(n - 1), base, mode, negated, negated, regionCodes, issue);
    }
  }

  lemma {:induction false} DeservedIsReported(
    e: RuleExpr, base: seq<Step>, rel: seq<Step>, mode: Mode, negated: bool, regionCodes: set<string>,
    node: RuleExpr, nodeNegated: bool, issue: Issue)
    requires Finds(e, rel, negated, node, nodeNegated)
      && issue in NodeIssues(node, base + rel, mode, nodeNegated, regionCodes)
    ensures issue in Walk(e, base, mode, negated, regionCodes)
    decreases |rel|
  {
    if rel == [] {
      assert base + rel == base;
    } else {
      assert base + rel == (base + [rel[0]]) + rel[1..];
      match rel[0]
      case ArgsAt(i) =>
        DeservedIsReported(e.args[i], base + [rel[0]], rel[1..], mode, negated, regionCodes, node, nodeNegated, issue);
        ArgIsWalked(e, i, |e.args|, base, mode, negated, regionCodes, issue);
      case ArgOf =>
        DeservedIsReported(
          e.arg.expr, base + [rel[0]], rel[1..], mode, !negated, regionCodes, node, nodeNegated, issue);
    }
  }

  lemma {:induction false} ArgIsWalked(
    e: RuleExpr, i: nat, n: nat, base: seq<Step>, mode: Mode, negated: bool, regionCodes: set<string>, issue: Issue)
    requires (e.And? || e.Or?) && i < n <= |e.args|
    requires issue in Walk(e.args[i], base + [ArgsAt(i)], mode, negated, regionCodes)
    ensures issue in WalkArgs(e, n, base, mode, negated, regionCodes)
    decreases n
  {
    if i < n - 1 { ArgIsWalked(e, i, n - 1, base, mode, negated, regionCodes, issue); }
  }

  /** The checker reports a complaint exactly when the node at its path deserves it. */
  lemma ReportedIffDeserved(e: RuleExpr, mode: Mode, regionCodes: set<string>, issue: Issue)
    ensures issue in CheckRuleExpr(e, mode, regionCodes) <==>
      exists node, nodeNegated ::
        Finds(e, issue.path, false, node, nodeNegated)
          && issue in NodeIssues(node, issue.path, mode, nodeNegated, regionCodes)
  {
    if issue in CheckRuleExpr(e, mode, regionCodes) {
      ReportedIsJustified(e, [], mode, false, regionCodes, issue);
      var rel, node, nodeNegated :| issue.path == [] + rel && Finds(e, rel, false, node, nodeNegated)
        && issue in NodeIssues(node, issue.path, mode, nodeNegated, regionCodes);
      assert rel == issue.path;
    }
    if node, nodeNegated :|
      Finds(e, issue.path, false, node, nodeNegated)
      && issue in NodeIssues(node, issue.path, mode, nodeNegated, regionCodes)
    {
      assert [] + issue.path == issue.path;
      DeservedIsReported(e, [], issue.path, mode, false, regionCodes, node, nodeNegated, issue);
    }
  }
}
