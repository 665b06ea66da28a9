/** When the static checker complains, and why its complaint is right, without reference to its own tests. */
module RuleCheck {
  import opened Common
  import opened Aggregates
  import opened RuleExpr
  import opened RuleMeaning

  /** The values an operand may take as far as its kind tells. */
  predicate Possible(o: Operand, x: real, regionCodes: set<string>) {
    match o
    case Literal(v) => x == v
    case Aggregate(TrailProgressCall(_)) => 0.0 <= x <= 1.0
    case Aggregate(CountDistinctCall(field, only)) =>
      && 0.0 <= x && (only.Some? ==> x <= |Elements(only.value)| as real)
      && (field == CountryField ==> x <= 2.0) && (field == Region ==> x <= |regionCodes| as real)
    case _ => 0.0 <= x
  }

  lemma PossibleIffInRange(o: Operand, x: real, regionCodes: set<string>)
    ensures Possible(o, x, regionCodes) <==> InRange(x, NumericRangeOf(o, regionCodes))
    ensures var range := NumericRangeOf(o, regionCodes); AtMost(range.min, range.max)
  {
  }

  lemma HoldsIsRelated(op: CompareOp, l: real, r: real)
    ensures Holds(op, l, r) <==> Related(op, l, r)
  {
  }

  ghost predicate CanHold(op: CompareOp, left: Operand, right: Operand, regionCodes: set<string>) {
    exists x, y :: Possible(left, x, regionCodes) && Possible(right, y, regionCodes) && Related(op, x, y)
  }

  lemma SatisfiableIff(op: CompareOp, left: Operand, right: Operand, regionCodes: set<string>)
    ensures IsRangeSatisfiable(op, NumericRangeOf(left, regionCodes), NumericRangeOf(right, regionCodes)) <==>
      CanHold(op, left, right, regionCodes)
  {
    var lr, rr := NumericRangeOf(left, regionCodes), NumericRangeOf(right, regionCodes);
    PossibleIffInRange(left, lr.min, regionCodes);
    PossibleIffInRange(right, rr.min, regionCodes);
    RangeTestIsExact(op, lr, rr);
    forall x: real, y: real
      ensures InRange(x, lr) && InRange(y, rr) && Holds(op, x, y) <==>
        Possible(left, x, regionCodes) && Possible(right, y, regionCodes) && Related(op, x, y)
    {
      PossibleIffInRange(left, x, regionCodes);
      PossibleIffInRange(right, y, regionCodes);
      HoldsIsRelated(op, x, y);
    }
  }

  /** What a node must be like, under this many `not`s, to earn a complaint. */
  ghost predicate Earns(node: RuleExpr, code: IssueCode, mode: Mode, negated: bool, regionCodes: set<string>) {
    match code
    case NoPolarity =>
      mode == MoneyMode && node.Compare? && node.op in {Eq, Ne} && !(node.left.Literal? && node.right.Literal?)
    case Unsatisfiable => node.Compare? && !negated && !CanHold(node.op, node.left, node.right, regionCodes)
    case InOrderNotAllowed => mode == MoneyMode && node.Bare? && node.call.InOrderCall?
  }

  lemma NodeEarns(node: RuleExpr, issue: Issue, path: seq<Step>, mode: Mode, negated: bool, regionCodes: set<string>)
    ensures issue in NodeIssues(node, path, mode, negated, regionCodes) <==>
      issue.path == path && Earns(node, issue.code, mode, negated, regionCodes)
  {
    if node.Compare? { SatisfiableIff(node.op, node.left, node.right, regionCodes); }
  }

  /**
   * A complaint is reported exactly for a node found at its path that earns it: an `==` or `!=` with an aggregate in
   * money mode, a comparison not under an odd number of `not`s that no possible values satisfy, or `inOrder` in money
   * mode.
   */
  lemma ReportedIffEarned(e: RuleExpr, mode: Mode, regionCodes: set<string>, issue: Issue)
    ensures issue in CheckRuleExpr(e, mode, regionCodes) <==>
      exists node, negated :: Finds(e, issue.path, false, node, negated)
        && Earns(node, issue.code, mode, negated, regionCodes)
  {
    ReportedIffDeserved(e, mode, regionCodes, issue);
    forall node, negated
      ensures issue in NodeIssues(node, issue.path, mode, negated, regionCodes) <==>
        Earns(node, issue.code, mode, negated, regionCodes)
    {
      NodeEarns(node, issue, issue.path, mode, negated, regionCodes);
    }
  }
}
