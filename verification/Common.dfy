/** Small shared vocabulary: optional values, fallible results, maxima, filtering, and "the largest n such that". */
module Common {
  const DAY_MS := 86_400_000

  datatype Option<+T> = None | Some(value: T)

  datatype Result<+T, +E> = Ok(value: T) | Err(error: E)

  function Min(a: real, b: real): real { if b < a then b else a }
  function Max(a: real, b: real): real { if b > a then b else a }

  /** The elements of `s` that satisfy `keep`, in order. */
  function Filter<T>(s: seq<T>, keep: T -> bool): seq<T> {
    if s == [] then [] else
      (if keep(s[0]) then [s[0]] else []) + Filter(s[1..], keep)
  }

  lemma {:induction false} FilterMember<T>(s: seq<T>, keep: T -> bool, x: T)
    ensures x in Filter(s, keep) <==> x in s && keep(x)
  {
    if s != [] {
      FilterMember(s[1..], keep, x);
      assert s == [s[0]] + s[1..];
    }
  }

  lemma {:induction false} FilterMonotone<T>(s: seq<T>, narrow: T -> bool, wide: T -> bool)
    requires forall x :: x in s && narrow(x) ==> wide(x)
    ensures |Filter(s, narrow)| <= |Filter(s, wide)| <= |s|
  {
    if s != [] {
      assert s[0] in s;
      FilterMonotone(s[1..], narrow, wide);
    }
  }

  /** Filtering one element longer: what a left-to-right loop adds at each step. */
  lemma {:induction false} FilterSnoc<T>(s: seq<T>, x: T, keep: T -> bool)
    ensures Filter(s + [x], keep) == Filter(s, keep) + (if keep(x) then [x] else [])
  {
    if s == [] {
      assert [] + [x] == [x];
    } else {
      var head := if keep(s[0]) then [s[0]] else [];
      var last := if keep(x) then [x] else [];
      assert (s + [x])[1..] == s[1..] + [x];
      FilterSnoc(s[1..], x, keep);
      assert head + (Filter(s[1..], keep) + last) == head + Filter(s[1..], keep) + last;
    }
  }

  function KeptAt<T>(s: seq<T>, keep: T -> bool): nat -> bool { (i: nat) => i < |s| && keep(s[i]) }

  /** As many elements are kept as there are places that hold one to keep. */
  lemma {:induction false} FilterCount<T>(s: seq<T>, n: nat, keep: T -> bool)
    requires n <= |s|
    ensures |Filter(s[..n], keep)| == |Below(KeptAt(s, keep), n)|
    decreases n
  {
    if n > 0 {
      FilterCount(s, n - 1, keep);
      assert s[..n] == s[..n - 1] + [s[n - 1]];
      FilterSnoc(s[..n - 1], s[n - 1], keep);
      BelowStep(KeptAt(s, keep), n - 1);
    }
  }

  /** The largest n <= bound with P(n), or 0 when there is none. */
  ghost function Largest(P: nat -> bool, bound: nat): nat {
    if bound == 0 || P(bound) then bound else Largest(P, bound - 1)
  }

  lemma {:induction false} LargestIsMaximal(P: nat -> bool, bound: nat)
    ensures Largest(P, bound) <= bound
    ensures Largest(P, bound) == 0 || P(Largest(P, bound))
    ensures forall n: nat :: Largest(P, bound) < n <= bound ==> !P(n)
  {
    if bound != 0 && !P(bound) {
      LargestIsMaximal(P, bound - 1);
    }
  }

  lemma {:induction false} SubsetSize<T>(a: set<T>, b: set<T>)
    requires a <= b
    ensures |a| <= |b|
  {
    if a != {} {
      var x :| x in a;
      SubsetSize(a - {x}, b - {x});
    }
  }

  /** A subset of the same size is the whole set. */
  lemma SubsetOfSameSize<T>(a: set<T>, b: set<T>)
    requires a <= b && |a| >= |b|
    ensures a == b
  {
    assert b == a + (b - a);
  }

  /** A set of natural numbers below n has at most n elements. */
  lemma {:induction false} BoundedSetSize(s: set<nat>, n: nat)
    requires forall x :: x in s ==> x < n
    ensures |s| <= n
  {
    if n == 0 {
      assert s == {};
    } else {
      BoundedSetSize(s - {n - 1}, n - 1);
      if n - 1 in s {
        assert |s - {n - 1}| == |s| - 1;
      } else {
        assert s - {n - 1} == s;
      }
    }
  }

  /** Trimming a set to a given size. */
  lemma {:induction false} SubsetOfSize<T>(s: set<T>, n: nat) returns (t: set<T>)
    requires n <= |s|
    ensures t <= s && |t| == n
  {
    t := s;
    if n < |s| {
      var x :| x in s;
      t := SubsetOfSize(s - {x}, n);
    }
  }

  /** n different numbers below n are all of them. */
  lemma {:induction false} AllBelow(s: set<nat>, n: nat)
    requires forall x :: x in s ==> x < n
    ensures |s| >= n <==> forall i: nat :: i < n ==> i in s
  {
    if n > 0 {
      var rest := s - {n - 1};
      AllBelow(rest, n - 1);
      BoundedSetSize(rest, n - 1);
      if n - 1 in s { assert |rest| == |s| - 1; } else { assert rest == s; }
    }
  }

  /** The numbers below n that satisfy P. */
  function Below(P: nat -> bool, n: nat): set<nat> { set i: nat | i < n && P(i) }

  lemma BelowStep(P: nat -> bool, n: nat)
    ensures |Below(P, n + 1)| == |Below(P, n)| + if P(n) then 1 else 0
  {
    assert Below(P, n + 1) == if P(n) then Below(P, n) + {n} else Below(P, n);
  }

  // ---------------------------------------------------------------- sequences as sets

  function Elements<T(==)>(s: seq<T>): set<T> { set x | x in s }

  ghost predicate NoRepeats<T>(s: seq<T>) {
    forall i, j :: 0 <= i < j < |s| ==> s[i] != s[j]
  }

  lemma NoRepeatsSnoc<T>(s: seq<T>, x: T)
    ensures NoRepeats(s + [x]) <==> NoRepeats(s) && x !in s
  {
    var t := s + [x];
    assert t[|s|] == x && forall i :: 0 <= i < |s| ==> t[i] == s[i];
  }

  lemma ElementsStep<T>(s: seq<T>, i: nat)
    requires i < |s|
    ensures Elements(s[..i + 1]) == Elements(s[..i]) + {s[i]}
  {
    assert s[..i + 1] == s[..i] + [s[i]];
  }

  lemma {:induction false} NoRepeatsSize<T>(s: seq<T>)
    requires NoRepeats(s)
    ensures |Elements(s)| == |s|
  {
    if s != [] {
      var init := s[..|s| - 1];
      NoRepeatsSize(init);
      assert s == init + [s[|s| - 1]];
      assert Elements(s) == Elements(init) + {s[|s| - 1]};
    }
  }
}
