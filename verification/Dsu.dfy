/**
 * Chains of links, and the union-find with path halving that `deriveGroups` uses (packages/rules/src/score-play.ts).
 */
module Chains {
  type Link = (nat, nat) -> bool

  ghost predicate Chain(link: Link, n: nat, p: seq<nat>) {
    && p != []
    && (forall k :: 0 <= k < |p| ==> p[k] < n)
    && (forall k :: 0 < k < |p| ==> link(p[k - 1], p[k]))
  }

  /** Some chain of links leads from i to j. */
  ghost predicate Connected(link: Link, n: nat, i: nat, j: nat) {
    exists p :: Chain(link, n, p) && p[0] == i && p[|p| - 1] == j
  }

  ghost predicate Symmetric(link: Link) {
    forall i, j :: link(i, j) ==> link(j, i)
  }

  lemma ConnectedByLink(link: Link, n: nat, i: nat, j: nat)
    requires i < n && j < n && (i == j || link(i, j))
    ensures Connected(link, n, i, j)
  {
    if i == j { assert Chain(link, n, [i]); } else { assert Chain(link, n, [i, j]); }
  }

  lemma ConnectedTransitive(link: Link, n: nat, i: nat, j: nat, k: nat)
    requires Connected(link, n, i, j) && Connected(link, n, j, k)
    ensures Connected(link, n, i, k)
  {
    var p :| Chain(link, n, p) && p[0] == i && p[|p| - 1] == j;
    var q :| Chain(link, n, q) && q[0] == j && q[|q| - 1] == k;
    var r := p + q[1..];
    forall m | 0 < m < |r| ensures link(r[m - 1], r[m]) {
      if m >= |p| { assert r[m] == q[m - |p| + 1] && r[m - 1] == q[m - |p|]; }
    }
    assert Chain(link, n, r);
  }

  lemma {:induction false} ReversedChain(link: Link, n: nat, p: seq<nat>)
    requires Symmetric(link) && Chain(link, n, p)
    ensures Connected(link, n, p[|p| - 1], p[0])
  {
    if |p| == 1 {
      assert Chain(link, n, [p[0]]);
    } else {
      ReversedChain(link, n, p[1..]);
      assert link(p[0], p[1]);
      ConnectedByLink(link, n, p[1], p[0]);
      ConnectedTransitive(link, n, p[|p| - 1], p[1], p[0]);
    }
  }

  lemma ConnectedSymmetric(link: Link, n: nat, i: nat, j: nat)
    requires Symmetric(link) && Connected(link, n, i, j)
    ensures Connected(link, n, j, i)
  {
    var p :| Chain(link, n, p) && p[0] == i && p[|p| - 1] == j;
    ReversedChain(link, n, p);
  }

  /** If every link of one kind is bridged by a chain of another kind, so is every chain. */
  lemma {:induction false} ChainBridged(link: Link, bridge: Link, n: nat, p: seq<nat>)
    requires Chain(link, n, p)
    requires forall i: nat, j: nat :: i < n && j < n && link(i, j) ==> Connected(bridge, n, i, j)
    ensures Connected(bridge, n, p[0], p[|p| - 1])
  {
    if |p| == 1 {
      ConnectedByLink(bridge, n, p[0], p[0]);
    } else {
      assert link(p[0], p[1]);
      ChainBridged(link, bridge, n, p[1..]);
      ConnectedTransitive(bridge, n, p[0], p[1], p[|p| - 1]);
    }
  }

  lemma ConnectionBridged(link: Link, bridge: Link, n: nat, i: nat, j: nat)
    requires Connected(link, n, i, j)
    requires forall i: nat, j: nat :: i < n && j < n && link(i, j) ==> Connected(bridge, n, i, j)
    ensures Connected(bridge, n, i, j)
  {
    var p :| Chain(link, n, p) && p[0] == i && p[|p| - 1] == j;
    ChainBridged(link, bridge, n, p);
  }
}

module Dsu {
  import opened Chains

  /** Position x hangs below a strictly higher parent of the same tree, or is the root `rep` names. */
  ghost predicate NodeOk(parent: seq<nat>, rep: seq<nat>, height: seq<nat>, top: nat, x: nat)
    requires |parent| == |rep| == |height| && x < |parent|
  {
    && parent[x] < |parent| && rep[x] < |parent| && height[x] <= top
    && (parent[x] != x ==> height[x] < height[parent[x]] && rep[parent[x]] == rep[x])
    && (parent[x] == x ==> rep[x] == x)
    && parent[rep[x]] == rep[x]
  }

  ghost predicate Forest(parent: seq<nat>, rep: seq<nat>, height: seq<nat>, top: nat) {
    && |parent| == |rep| == |height|
    && forall x: nat :: x < |parent| ==> NodeOk(parent, rep, height, top, x)
  }

  /** Two positions were united, in either order. */
  ghost function JoinedOf(joined: set<(nat, nat)>): Link {
    (i, j) => (i, j) in joined || (j, i) in joined
  }

  /** Two positions have the same representative exactly when united pairs connect them. */
  ghost predicate ExactFor(rep: seq<nat>, joined: set<(nat, nat)>) {
    forall i, j :: 0 <= i < |rep| && 0 <= j < |rep| ==> (rep[i] == rep[j] <==> Connected(JoinedOf(joined), |rep|, i, j))
  }

  function Merged(rep: seq<nat>, ra: nat, rb: nat): (merged: seq<nat>)
    ensures |merged| == |rep|
    ensures forall x :: 0 <= x < |rep| ==> merged[x] == if rep[x] == ra then rb else rep[x]
  {
    seq(|rep|, x requires 0 <= x < |rep| => if rep[x] == ra then rb else rep[x])
  }

  lemma HalvingKeepsForest(parent: seq<nat>, rep: seq<nat>, height: seq<nat>, top: nat, x: nat)
    requires Forest(parent, rep, height, top) && x < |parent|
    ensures parent[x] < |parent| && rep[x] < |parent|
    ensures parent[x] == x ==> rep[x] == x
    ensures parent[x] != x ==>
      && parent[parent[x]] < |parent| && rep[parent[parent[x]]] == rep[x]
      && height[x] < height[parent[parent[x]]] <= top
      && Forest(parent[x := parent[parent[x]]], rep, height, top)
  {
    assert NodeOk(parent, rep, height, top, x);
    if parent[x] != x {
      var p := parent[x];
      assert NodeOk(parent, rep, height, top, p);
      var g := parent[p];
      assert NodeOk(parent, rep, height, top, g);
      var parent' := parent[x := g];
      forall y: nat | y < |parent| ensures NodeOk(parent', rep, height, top, y) {
        assert NodeOk(parent, rep, height, top, y);
      }
    }
  }

  lemma LinkingKeepsForest(parent: seq<nat>, rep: seq<nat>, height: seq<nat>, top: nat, ra: nat, rb: nat)
    requires Forest(parent, rep, height, top) && ra < |parent| && rb < |parent| && ra != rb
    requires rep[ra] == ra && rep[rb] == rb
    ensures Forest(parent[ra := rb], Merged(rep, ra, rb), height[rb := top + 1], top + 1)
  {
    var parent', rep' := parent[ra := rb], Merged(rep, ra, rb);
    var height', top' := height[rb := top + 1], top + 1;
    assert NodeOk(parent, rep, height, top, ra) && NodeOk(parent, rep, height, top, rb);
    forall x: nat | x < |parent| ensures NodeOk(parent', rep', height', top', x) {
      assert NodeOk(parent, rep, height, top, x);
      if parent[x] != x { assert NodeOk(parent, rep, height, top, parent[x]); }
    }
  }

  class Dsu {
    const parent: array<nat>
    ghost var rep: seq<nat>
    ghost var height: seq<nat>
    ghost var top: nat
    /** Every pair united so far. */
    ghost var joined: set<(nat, nat)>

    ghost predicate Valid()
      reads this, parent
    {
      Forest(parent[..], rep, height, top)
    }

    /** The trees are exactly the classes of the equivalence the united pairs generate. */
    ghost predicate Exact()
      reads this
    {
      ExactFor(rep, joined)
    }

    constructor (n: nat)
      ensures Valid() && Exact() && fresh(parent)
      ensures |rep| == n && joined == {}
    {
      parent := new nat[n](i => i);
      rep := seq(n, i => i);
      height := seq(n, i => 0);
      top := 0;
      joined := {};
      new;
      NothingJoined(rep);
      forall x: nat | x < n ensures NodeOk(parent[..], rep, height, top, x) {}
    }

    /** Returns the root of x's tree. Halving shortens paths and moves nobody to another tree. */
    method Find(x: nat) returns (root: nat)
      requires Valid() && x < |rep|
      modifies parent
      ensures Valid() && root == rep[x]
    {
      root := x;
      HalvingKeepsForest(parent[..], rep, height, top, root);
      while parent[root] != root
        invariant Valid() && root < |rep| && rep[root] == rep[x]
        invariant parent[root] == root ==> rep[root] == root
        decreases top - height[root]
      {
        HalvingKeepsForest(parent[..], rep, height, top, root);
        ghost var halved := parent[..][root := parent[parent[root]]];
        parent[root] := parent[parent[root]];
        assert parent[..] == halved;
        root := parent[root];
        HalvingKeepsForest(parent[..], rep, height, top, root);
      }
    }

    /** Hangs one root under another. */
    method Graft(ra: nat, rb: nat)
      requires Valid() && ra < |rep| && rb < |rep| && ra != rb && rep[ra] == ra && rep[rb] == rb
      modifies `rep, `height, `top, parent
      ensures Valid() && rep == Merged(old(rep), ra, rb)
    {
      LinkingKeepsForest(parent[..], rep, height, top, ra, rb);
      ghost var linked := parent[..][ra := rb];
      parent[ra] := rb;
      assert parent[..] == linked;
      height := height[rb := top + 1];
      top := top + 1;
      rep := Merged(rep, ra, rb);
    }

    /** The two roots' trees become one. */
    method MergeTrees(a: nat, b: nat)
      requires Valid() && a < |rep| && b < |rep|
      modifies `rep, `height, `top, parent
      ensures Valid() && rep == Merged(old(rep), old(rep[a]), old(rep[b]))
    {
      var ra := Find(a);
      var rb := Find(b);
      RootsOwnThemselves(parent[..], rep, height, top, a);
      RootsOwnThemselves(parent[..], rep, height, top, b);
      if ra != rb {
        Graft(ra, rb);
      } else {
        assert Merged(rep, ra, rb) == rep;
      }
    }

    /** Unites two positions, and nothing else. */
    method Union(a: nat, b: nat)
      requires Valid() && Exact() && a < |rep| && b < |rep|
      modifies this, parent
      ensures Valid() && Exact() && |rep| == old(|rep|)
      ensures joined == old(joined) + {(a, b)}
    {
      UnitedClasses(rep, joined, a, b);
      MergeTrees(a, b);
      joined := joined + {(a, b)};
    }
  }

  lemma RootsOwnThemselves(parent: seq<nat>, rep: seq<nat>, height: seq<nat>, top: nat, x: nat)
    requires Forest(parent, rep, height, top) && x < |rep|
    ensures rep[x] < |rep| && rep[rep[x]] == rep[x]
  {
    assert NodeOk(parent, rep, height, top, x);
    assert NodeOk(parent, rep, height, top, rep[x]);
  }

  lemma NothingJoined(rep: seq<nat>)
    requires forall x :: 0 <= x < |rep| ==> rep[x] == x
    ensures ExactFor(rep, {})
  {
    forall i, j | 0 <= i < |rep| && 0 <= j < |rep| ensures i == j <==> Connected(JoinedOf({}), |rep|, i, j) {
      if i == j { ConnectedByLink(JoinedOf({}), |rep|, i, j); }
      if Connected(JoinedOf({}), |rep|, i, j) {
        var p :| Chain(JoinedOf({}), |rep|, p) && p[0] == i && p[|p| - 1] == j;
        if |p| > 1 { assert JoinedOf({})(p[0], p[1]); }
      }
    }
  }

  lemma MoreJoined(joined: set<(nat, nat)>, a: nat, b: nat, n: nat, i: nat, j: nat)
    requires Connected(JoinedOf(joined), n, i, j)
    ensures Connected(JoinedOf(joined + {(a, b)}), n, i, j)
  {
    var p :| Chain(JoinedOf(joined), n, p) && p[0] == i && p[|p| - 1] == j;
    forall k | 0 < k < |p| ensures JoinedOf(joined + {(a, b)})(p[k - 1], p[k]) {
      assert JoinedOf(joined)(p[k - 1], p[k]);
    }
    assert Chain(JoinedOf(joined + {(a, b)}), n, p);
  }

  /** Merging the two classes of a united pair keeps the classes exact. */
  lemma UnitedClasses(rep: seq<nat>, joined: set<(nat, nat)>, a: nat, b: nat)
    requires ExactFor(rep, joined) && a < |rep| && b < |rep|
    ensures ExactFor(Merged(rep, rep[a], rep[b]), joined + {(a, b)})
  {
    var rep', n := Merged(rep, rep[a], rep[b]), |rep|;
    var more := JoinedOf(joined + {(a, b)});
    ConnectedByLink(more, n, a, b);
    forall i, j | 0 <= i < n && 0 <= j < n ensures rep'[i] == rep'[j] <==> Connected(more, n, i, j) {
      if rep'[i] == rep'[j] {
        MergedConnect(rep, joined, a, b, i, j);
      } else if Connected(more, n, i, j) {
        var p :| Chain(more, n, p) && p[0] == i && p[|p| - 1] == j;
        ChainStaysMerged(rep, joined, a, b, p);
      }
    }
  }

  lemma MergedConnect(rep: seq<nat>, joined: set<(nat, nat)>, a: nat, b: nat, i: nat, j: nat)
    requires ExactFor(rep, joined) && a < |rep| && b < |rep| && i < |rep| && j < |rep|
    requires Merged(rep, rep[a], rep[b])[i] == Merged(rep, rep[a], rep[b])[j]
    ensures Connected(JoinedOf(joined + {(a, b)}), |rep|, i, j)
  {
    var n := |rep|;
    var more := JoinedOf(joined + {(a, b)});
    if rep[i] == rep[j] {
      MoreJoined(joined, a, b, n, i, j);
    } else {
      var x, y := if rep[i] == rep[a] then i else j, if rep[i] == rep[a] then j else i;
      assert rep[x] == rep[a] && rep[y] == rep[b];
      MoreJoined(joined, a, b, n, x, a);
      MoreJoined(joined, a, b, n, b, y);
      ConnectedByLink(more, n, a, b);
      ConnectedTransitive(more, n, x, a, b);
      ConnectedTransitive(more, n, x, b, y);
      ConnectedSymmetric(more, n, x, y);
    }
  }

  lemma {:induction false} ChainStaysMerged(rep: seq<nat>, joined: set<(nat, nat)>, a: nat, b: nat, p: seq<nat>)
    requires ExactFor(rep, joined) && a < |rep| && b < |rep|
    requires Chain(JoinedOf(joined + {(a, b)}), |rep|, p)
    ensures Merged(rep, rep[a], rep[b])[p[0]] == Merged(rep, rep[a], rep[b])[p[|p| - 1]]
  {
    if |p| > 1 {
      ChainStaysMerged(rep, joined, a, b, p[1..]);
      assert JoinedOf(joined + {(a, b)})(p[0], p[1]);
      if JoinedOf(joined)(p[0], p[1]) {
        ConnectedByLink(JoinedOf(joined), |rep|, p[0], p[1]);
        assert rep[p[0]] == rep[p[1]];
      }
    }
  }
}
