/** Stable sorting by a comparison, standing for the library sort the source calls. */
module Ordering {
  ghost predicate TotalPreorder<T(!new)>(le: (T, T) -> bool) {
    && (forall x, y :: le(x, y) || le(y, x))
    && (forall x, y, z :: le(x, y) && le(y, z) ==> le(x, z))
  }

  ghost predicate Sorted<T>(s: seq<T>, le: (T, T) -> bool) {
    forall i, j :: 0 <= i < j < |s| ==> le(s[i], s[j])
  }

  /** Puts x before the first element it does not exceed, so equal elements keep their order. */
  function Insert<T>(x: T, s: seq<T>, le: (T, T) -> bool): seq<T> {
    if s == [] then [x]
    else if le(x, s[0]) then [x] + s
    else [s[0]] + Insert(x, s[1..], le)
  }

  function Sort<T>(s: seq<T>, le: (T, T) -> bool): seq<T> {
    if s == [] then [] else Insert(s[0], Sort(s[1..], le), le)
  }

  lemma {:induction false} InsertAdds<T>(x: T, s: seq<T>, le: (T, T) -> bool)
    ensures multiset(Insert(x, s, le)) == multiset(s) + multiset{x}
    ensures |Insert(x, s, le)| == |s| + 1
    ensures Insert(x, s, le)[0] == x || (s != [] && Insert(x, s, le)[0] == s[0])
  {
    if s != [] {
      assert s == [s[0]] + s[1..];
      InsertAdds(x, s[1..], le);
    }
  }

  /** Sorted neighbours are enough: the comparison is transitive. */
  ghost predicate Stepwise<T>(s: seq<T>, le: (T, T) -> bool) {
    forall i :: 0 < i < |s| ==> le(s[i - 1], s[i])
  }

  lemma {:induction false} InsertKeepsStepwise<T>(x: T, s: seq<T>, le: (T, T) -> bool)
    requires forall y :: y in s ==> le(x, y) || le(y, x)
    requires Stepwise(s, le)
    ensures Stepwise(Insert(x, s, le), le)
  {
    if s != [] && !le(x, s[0]) {
      InsertKeepsStepwise(x, s[1..], le);
      InsertAdds(x, s[1..], le);
      var t := Insert(x, s[1..], le);
      assert le(s[0], t[0]);
      var r := [s[0]] + t;
      forall i | 0 < i < |r| ensures le(r[i - 1], r[i]) {
        if i > 1 { assert le(t[i - 2], t[i - 1]); }
      }
    }
  }

  lemma {:induction false} StepwiseSorted<T(!new)>(s: seq<T>, le: (T, T) -> bool, i: nat, j: nat)
    requires TotalPreorder(le) && Stepwise(s, le) && i < j < |s|
    ensures le(s[i], s[j])
    decreases j
  {
    if i + 1 < j {
      StepwiseSorted(s, le, i, j - 1);
    }
    assert le(s[j - 1], s[j]);
  }

  lemma {:induction false} SortStepwise<T>(s: seq<T>, le: (T, T) -> bool)
    requires forall x, y :: x in s && y in s ==> le(x, y) || le(y, x)
    ensures Stepwise(Sort(s, le), le)
    ensures multiset(Sort(s, le)) == multiset(s)
    ensures |Sort(s, le)| == |s|
  {
    if s != [] {
      assert s == [s[0]] + s[1..];
      SortStepwise(s[1..], le);
      InsertAdds(s[0], Sort(s[1..], le), le);
      forall y | y in Sort(s[1..], le) ensures y in s {
        assert y in multiset(Sort(s[1..], le));
      }
      InsertKeepsStepwise(s[0], Sort(s[1..], le), le);
    }
  }

  /** The library sort: an ordered permutation. */
  lemma SortSorts<T(!new)>(s: seq<T>, le: (T, T) -> bool)
    requires TotalPreorder(le)
    ensures Sorted(Sort(s, le), le)
    ensures multiset(Sort(s, le)) == multiset(s)
    ensures |Sort(s, le)| == |s|
  {
    SortStepwise(s, le);
    forall i, j | 0 <= i < j < |s| ensures le(Sort(s, le)[i], Sort(s, le)[j]) {
      StepwiseSorted(Sort(s, le), le, i, j);
    }
  }

  lemma SortMember<T(!new)>(s: seq<T>, le: (T, T) -> bool, x: T)
    requires TotalPreorder(le)
    ensures x in Sort(s, le) <==> x in s
  {
    SortSorts(s, le);
    assert x in Sort(s, le) <==> x in multiset(Sort(s, le));
  }

  // ---------------------------------------------------------------- stability

  /** Where Insert puts x. */
  function Place<T>(x: T, s: seq<T>, le: (T, T) -> bool): (q: nat)
    ensures q <= |s|
  {
    if s == [] || le(x, s[0]) then 0 else 1 + Place(x, s[1..], le)
  }

  lemma {:induction false} InsertPlaces<T>(x: T, s: seq<T>, le: (T, T) -> bool)
    ensures var q := Place(x, s, le);
      Insert(x, s, le) == s[..q] + [x] + s[q..] && forall a :: 0 <= a < q ==> !le(x, s[a])
  {
    if s != [] && !le(x, s[0]) {
      InsertPlaces(x, s[1..], le);
      var q := Place(x, s[1..], le);
      assert s[..q + 1] == [s[0]] + s[1..][..q];
      forall a | 0 <= a < q + 1 ensures !le(x, s[a]) {
        if a > 0 { assert s[a] == s[1..][a - 1]; }
      }
    }
  }

  /** Elements that tie keep their order. */
  ghost predicate TiesKept<T>(perm: seq<nat>, sorted: seq<T>, le: (T, T) -> bool)
    requires |perm| == |sorted|
  {
    forall a, b :: 0 <= a < b < |sorted| && le(sorted[b], sorted[a]) ==> perm[a] < perm[b]
  }

  /** The sorted sequence lists s by these positions, each position once. */
  ghost predicate Lists<T>(perm: seq<nat>, s: seq<T>, sorted: seq<T>, le: (T, T) -> bool) {
    && |perm| == |s| == |sorted|
    && (forall k :: 0 <= k < |s| ==> perm[k] < |s| && sorted[k] == s[perm[k]])
    && (forall i: nat :: i < |s| ==> i in perm)
    && TiesKept(perm, sorted, le)
  }

  /** The positions once a new first element has gone to place q. */
  function Shifted(perm: seq<nat>, q: nat): seq<nat>
    requires q <= |perm|
  {
    seq(|perm| + 1, k requires 0 <= k <= |perm| =>
      if k < q then perm[k] + 1 else if k == q then 0 else perm[k - 1] + 1)
  }

  lemma ShiftedIsOnto(perm: seq<nat>, q: nat)
    requires q <= |perm| && forall i: nat :: i < |perm| ==> i in perm
    ensures forall i: nat :: i <= |perm| ==> i in Shifted(perm, q)
  {
    var perm' := Shifted(perm, q);
    forall i: nat | i <= |perm| ensures i in perm' {
      if i == 0 {
        assert perm'[q] == 0;
      } else {
        var j: nat := i - 1;
        assert j in perm;
        var k :| 0 <= k < |perm| && perm[k] == j;
        assert perm'[if k < q then k else k + 1] == i;
      }
    }
  }

  lemma ShiftedKeepsTies<T>(perm: seq<nat>, sorted: seq<T>, x: T, le: (T, T) -> bool)
    requires |perm| == |sorted| && TiesKept(perm, sorted, le)
    ensures |Insert(x, sorted, le)| == |sorted| + 1
    ensures TiesKept(Shifted(perm, Place(x, sorted, le)), Insert(x, sorted, le), le)
  {
    var q, longer := Place(x, sorted, le), Insert(x, sorted, le);
    InsertPlaces(x, sorted, le);
    forall a, b | 0 <= a < b < |longer| && le(longer[b], longer[a])
      ensures Shifted(perm, q)[a] < Shifted(perm, q)[b]
    {
      if a != q && b != q {
        var a', b' := if a < q then a else a - 1, if b < q then b else b - 1;
        assert longer[a] == sorted[a'] && longer[b] == sorted[b'];
      }
    }
  }

  lemma ListsOneMore<T>(perm: seq<nat>, s: seq<T>, sorted: seq<T>, x: T, le: (T, T) -> bool)
    requires Lists(perm, s, sorted, le)
    ensures Lists(Shifted(perm, Place(x, sorted, le)), [x] + s, Insert(x, sorted, le), le)
  {
    var q, longer := Place(x, sorted, le), Insert(x, sorted, le);
    InsertPlaces(x, sorted, le);
    ShiftedIsOnto(perm, q);
    ShiftedKeepsTies(perm, sorted, x, le);
    forall k | 0 <= k < |longer|
      ensures Shifted(perm, q)[k] < |s| + 1 && longer[k] == ([x] + s)[Shifted(perm, q)[k]]
    {
      if k < q { assert longer[k] == sorted[k]; }
      if k > q { assert longer[k] == sorted[k - 1]; }
    }
  }

  lemma {:induction false} SortLists<T>(s: seq<T>, le: (T, T) -> bool) returns (perm: seq<nat>)
    ensures Lists(perm, s, Sort(s, le), le)
  {
    if s == [] {
      perm := [];
    } else {
      var before := SortLists(s[1..], le);
      assert s == [s[0]] + s[1..];
      perm := Shifted(before, Place(s[0], Sort(s[1..], le), le));
      ListsOneMore(before, s[1..], Sort(s[1..], le), s[0], le);
    }
  }

  predicate IntLe(a: int, b: int) { a <= b }

  /** A strictly ascending listing of a finite set of integers. */
  ghost predicate Ascending(s: seq<int>) {
    forall i, j :: 0 <= i < j < |s| ==> s[i] < s[j]
  }
}
