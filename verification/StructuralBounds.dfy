/**
 * The size check run on an untyped rule before anything recursive touches it (packages/rules/src/offer-
 * eligibility.ts).
 */
module StructuralBounds {

  /** A JSON value, as far as its shape goes: arrays and objects are lists of children. */
  datatype Json = Scalar | Nested(children: seq<Json>)

  const MAX_RULE_DEPTH := 64
  const MAX_RULE_NODES := 5000

  function Max(a: nat, b: nat): nat { if a >= b then a else b }

  // ---------------------------------------------------------------- the recursive definitions

  /** How many values there are in all. */
  function Size(j: Json): (n: nat)
    ensures n >= 1
    decreases j, 0
  {
    if j.Scalar? then 1 else 1 + SizeOfFirst(j.children, |j.children|)
  }

  function SizeOfFirst(children: seq<Json>, n: nat): (size: nat)
    requires n <= |children|
    ensures size >= n
    decreases children, n
  {
    if n == 0 then 0 else SizeOfFirst(children, n - 1) + Size(children[n - 1])
  }

  /** The longest chain of nested values. */
  function Depth(j: Json): (d: nat)
    ensures d >= 1
    decreases j, 0
  {
    if j.Scalar? then 1 else 1 + DepthOfFirst(j.children, |j.children|)
  }

  function DepthOfFirst(children: seq<Json>, n: nat): (d: nat)
    requires n <= |children|
    ensures n > 0 ==> d >= 1
    decreases children, n
  {
    if n == 0 then 0 else Max(DepthOfFirst(children, n - 1), Depth(children[n - 1]))
  }

  // ---------------------------------------------------------------- the stack walk

  datatype Frame = Frame(value: Json, depth: nat)

  /** How many values the stacked frames still stand for. */
  function Pending(stack: seq<Frame>): (n: nat)
    ensures n >= |stack|
  {
    if stack == [] then 0 else Pending(stack[..|stack| - 1]) + Size(stack[|stack| - 1].value)
  }

  /** How deep the stacked frames still reach. */
  function Reach(stack: seq<Frame>): nat {
    if stack == [] then 0 else
      var f := stack[|stack| - 1];
      Max(Reach(stack[..|stack| - 1]), f.depth + Depth(f.value) - 1)
  }

  lemma Pushed(stack: seq<Frame>, f: Frame)
    ensures Pending(stack + [f]) == Pending(stack) + Size(f.value)
    ensures Reach(stack + [f]) == Max(Reach(stack), f.depth + Depth(f.value) - 1)
  {
    assert (stack + [f])[..|stack|] == stack;
  }

  function ReachWith(stack: seq<Frame>, children: seq<Json>, depth: nat, n: nat): nat
    requires n <= |children|
  {
    if n == 0 then Reach(stack)
    else Max(Reach(stack), depth + DepthOfFirst(children, n) - 1)
  }

  /** Pushes a value's children, unless that many nodes are too many. */
  method PushChildren(stack: seq<Frame>, children: seq<Json>, depth: nat, visited: nat)
      returns (ok: bool, pushed: seq<Frame>)
    ensures ok ==> Pending(pushed) == Pending(stack) + SizeOfFirst(children, |children|)
    ensures ok ==> Reach(pushed) == ReachWith(stack, children, depth, |children|)
    ensures !ok ==> visited + Pending(stack) + SizeOfFirst(children, |children|) > MAX_RULE_NODES
  {
    pushed := stack;
    for i := 0 to |children|
      invariant Pending(pushed) == Pending(stack) + SizeOfFirst(children, i)
      invariant Reach(pushed) == ReachWith(stack, children, depth, i)
    {
      if visited + |pushed| >= MAX_RULE_NODES {
        MoreChildren(children, i);
        return false, pushed;
      }
      Pushed(pushed, Frame(children[i], depth));
      pushed := pushed + [Frame(children[i], depth)];
    }
    ok := true;
  }

  lemma {:induction false} MoreChildren(children: seq<Json>, i: nat)
    requires i < |children|
    ensures SizeOfFirst(children, |children|) > SizeOfFirst(children, i)
    decreases |children| - i
  {
    if i + 1 < |children| { MoreChildren(children, i + 1); }
  }

  /** The early-exit walk decides exactly the two bounds: visited and pending values always add up to all of them. */
  method WithinStructuralBounds(raw: Json) returns (ok: bool)
    ensures ok <==> Depth(raw) <= 64 && Size(raw) <= 5000
  {
    var stack := [Frame(raw, 1)];
    var visited: nat := 0;
    ghost var seen: nat := 0;
    Pushed([], Frame(raw, 1));
    assert [] + [Frame(raw, 1)] == stack;
    while |stack| > 0
      invariant visited + Pending(stack) == Size(raw)
      invariant Max(seen, Reach(stack)) == Depth(raw)
      invariant seen <= MAX_RULE_DEPTH && visited <= MAX_RULE_NODES
      decreases Pending(stack)
    {
      var frame := stack[|stack| - 1];
      stack := stack[..|stack| - 1];
      visited := visited + 1;
      if frame.depth > MAX_RULE_DEPTH || visited > MAX_RULE_NODES { return false; }
      seen := Max(seen, frame.depth);
      var children := if frame.value.Nested? then frame.value.children else [];
      var fits, pushed := PushChildren(stack, children, frame.depth + 1, visited);
      if !fits { return false; }
      stack := pushed;
    }
    ok := true;
  }
}
