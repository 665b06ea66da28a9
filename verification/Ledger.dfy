/**
 * The append-only id ledger (packages/catalog/src/ledger.ts): its entries, look-ups, slug minting and
 * the operations that build the next ledger. A ledger lists its ids in insertion order, because the
 * source's look-ups take the first match in that order.
 */
module Ledger {
  import opened Common

  type Id = string

  datatype IdKind = Trl | Fac | Crs | Hol | Dsg | Oft | Ach
  datatype Status = Stub | Verified
  datatype TransitionType = MintedT | VerifiedT | SplitT | MergedT | ClosedT
  datatype Meta = Meta(catalogVersion: string, date: string)
  datatype Transition = Transition(kind: TransitionType, meta: Meta, note: string, siblingIds: seq<Id>)

  /** An absent list or flag is the empty list or false, which is how every reader treats it. */
  datatype Entry = Entry(
    id: Id, kind: IdKind, slug: Option<string>, status: Option<Status>, transitions: seq<Transition>,
    seedRefs: seq<string>, facilityId: Option<Id>, tombstoned: bool, mergedInto: Option<Id>)

  datatype IdLedger = IdLedger(order: seq<Id>, entries: map<Id, Entry>)

  datatype LedgerError =
    | NotASlug | NotAnOsmRef | UnknownId(id: Id) | IsTombstoned(id: Id) | AlreadyVerified(id: Id)
    | SelfMerge(id: Id) | CrossKindMerge(id: Id) | WouldCycle(id: Id)
    | DanglingOwner | NoFacilityLink | NoLinkedCourse

  const EmptyLedger := IdLedger([], map[])

  /** What every ledger built by these operations satisfies: keys listed once each, entries filed under their own id. */
  ghost predicate WellFormed(l: IdLedger) {
    && (forall id :: id in l.order <==> id in l.entries)
    && (forall i, j :: 0 <= i < j < |l.order| ==> l.order[i] != l.order[j])
    && (forall id :: id in l.entries ==> l.entries[id].id == id)
  }

  function WithEntry(l: IdLedger, e: Entry): IdLedger {
    IdLedger(if e.id in l.entries then l.order else l.order + [e.id], l.entries[e.id := e])
  }

  // ---------------------------------------------------------------- merged ids

  function MergedInto(l: IdLedger, id: Id): Option<Id> {
    if id in l.entries then l.entries[id].mergedInto else None
  }

  /** The rest of the closure walk, `seen` being the ids already passed. */
  function ResolveFrom(l: IdLedger, seen: set<Id>, current: Id): Id
    decreases l.entries.Keys - seen
  {
    if current in seen || MergedInto(l, current).None? then current
    else ResolveFrom(l, seen + {current}, MergedInto(l, current).value)
  }

  function Resolve(l: IdLedger, id: Id): Id {
    ResolveFrom(l, {}, id)
  }

  method ResolveMergedId(l: IdLedger, id: Id) returns (root: Id)
    ensures root == Resolve(l, id)
  {
    var seen: set<Id> := {};
    var current := id;
    while true
      invariant ResolveFrom(l, seen, current) == Resolve(l, id)
      decreases l.entries.Keys - seen
    {
      if current in seen { return current; }
      var next := MergedInto(l, current);
      if next.None? { return current; }
      seen := seen + {current};
      current := next.value;
    }
  }

  /** The n-th id on the way from `id`; the walk stays put once there is nothing to follow. */
  ghost function Walk(l: IdLedger, id: Id, n: nat): Id
    decreases n
  {
    if n == 0 || MergedInto(l, id).None? then id else Walk(l, MergedInto(l, id).value, n - 1)
  }

  /** Following links from `id` stops after exactly n steps. */
  ghost predicate StopsIn(l: IdLedger, id: Id, n: nat)
    decreases n
  {
    if n == 0 then MergedInto(l, id).None?
    else MergedInto(l, id).Some? && StopsIn(l, MergedInto(l, id).value, n - 1)
  }

  ghost predicate Stops(l: IdLedger, id: Id) {
    exists n: nat :: StopsIn(l, id, n)
  }

  ghost predicate Acyclic(l: IdLedger) {
    forall id :: Stops(l, id)
  }

  /** `y` is passed (or reached) when links are followed from `x`. */
  ghost predicate OnChain(l: IdLedger, x: Id, y: Id) {
    exists n: nat :: Walk(l, x, n) == y
  }

  lemma {:induction false} StopsInUnique(l: IdLedger, id: Id, m: nat, n: nat)
    requires StopsIn(l, id, m) && StopsIn(l, id, n)
    ensures m == n
    decreases m
  {
    if m != 0 && n != 0 {
      StopsInUnique(l, MergedInto(l, id).value, m - 1, n - 1);
    }
  }

  /** Following links takes longer from `s` than n steps. */
  ghost predicate StopsAfter(l: IdLedger, s: Id, n: nat) {
    exists m: nat :: n < m && StopsIn(l, s, m)
  }

  /** Whenever `s` stops at all, `current` stops too, and sooner. */
  ghost predicate Behind(l: IdLedger, s: Id, current: Id) {
    Stops(l, s) ==> exists n: nat :: StopsIn(l, current, n) && StopsAfter(l, s, n)
  }

  /** A walk that stops never meets an id it has seen, so the guarded resolver follows it to its end. */
  lemma {:induction false} ResolveFromStops(l: IdLedger, seen: set<Id>, id: Id, n: nat)
    requires StopsIn(l, id, n)
    requires forall s :: s in seen ==> StopsAfter(l, s, n)
    ensures ResolveFrom(l, seen, id) == Walk(l, id, n)
    ensures id !in seen
    decreases n
  {
    if id in seen {
      var m: nat :| n < m && StopsIn(l, id, m);
      StopsInUnique(l, id, m, n);
    }
    if n != 0 {
      forall s | s in seen + {id} ensures StopsAfter(l, s, n - 1) {
        var m: nat :| n <= m && StopsIn(l, s, m);
      }
      ResolveFromStops(l, seen + {id}, MergedInto(l, id).value, n - 1);
    }
  }

  /** On a chain that stops, resolution returns the chain's last id, which has no link of its own. */
  lemma ResolveReachesRoot(l: IdLedger, id: Id, n: nat)
    requires StopsIn(l, id, n)
    ensures Resolve(l, id) == Walk(l, id, n)
    ensures MergedInto(l, Resolve(l, id)).None?
    ensures OnChain(l, id, Resolve(l, id))
  {
    ResolveFromStops(l, {}, id, n);
    WalkEnd(l, id, n);
  }

  lemma {:induction false} WalkEnd(l: IdLedger, id: Id, n: nat)
    requires StopsIn(l, id, n)
    ensures MergedInto(l, Walk(l, id, n)).None?
    decreases n
  {
    if n != 0 { WalkEnd(l, MergedInto(l, id).value, n - 1); }
  }

  lemma {:induction false} ResolveStaysIn(l: IdLedger, seen: set<Id>, id: Id, kind: IdKind)
    requires id in l.entries && l.entries[id].kind == kind
    requires forall x :: x in l.entries && l.entries[x].mergedInto.Some? ==>
      l.entries[x].mergedInto.value in l.entries
      && l.entries[l.entries[x].mergedInto.value].kind == l.entries[x].kind
    ensures ResolveFrom(l, seen, id) in l.entries && l.entries[ResolveFrom(l, seen, id)].kind == kind
    decreases l.entries.Keys - seen
  {
    if id !in seen && MergedInto(l, id).Some? {
      ResolveStaysIn(l, seen + {id}, MergedInto(l, id).value, kind);
    }
  }

  /** The cycle check says yes exactly when following links from `id` never stops. */
  method DetectMergeCycle(l: IdLedger, id: Id) returns (cyclic: bool)
    ensures cyclic <==> !Stops(l, id)
  {
    var seen: set<Id> := {};
    var current := id;
    while true
      invariant Stops(l, current) <==> Stops(l, id)
      invariant forall s :: s in seen ==> Behind(l, s, current)
      decreases l.entries.Keys - seen
    {
      if current in seen {
        NotBehindItself(l, current);
        return true;
      }
      var next := MergedInto(l, current);
      if next.None? {
        assert StopsIn(l, current, 0);
        return false;
      }
      StepStops(l, current);
      forall s | s in seen + {current} ensures Behind(l, s, next.value) {
        StepBehind(l, s, current);
      }
      seen := seen + {current};
      current := next.value;
    }
  }

  lemma NotBehindItself(l: IdLedger, id: Id)
    requires Behind(l, id, id)
    ensures !Stops(l, id)
  {
    if Stops(l, id) {
      var n: nat :| StopsIn(l, id, n) && StopsAfter(l, id, n);
      var m: nat :| n < m && StopsIn(l, id, m);
      StopsInUnique(l, id, m, n);
    }
  }

  lemma StepBehind(l: IdLedger, s: Id, current: Id)
    requires MergedInto(l, current).Some?
    requires s == current || Behind(l, s, current)
    ensures Behind(l, s, MergedInto(l, current).value)
  {
    if Stops(l, s) {
      if s == current {
        var m: nat :| StopsIn(l, s, m);
        assert StopsIn(l, MergedInto(l, current).value, m - 1);
        assert StopsAfter(l, s, m - 1);
      } else {
        var n: nat :| StopsIn(l, current, n) && StopsAfter(l, s, n);
        var m: nat :| n < m && StopsIn(l, s, m);
        assert StopsIn(l, MergedInto(l, current).value, n - 1);
        assert StopsAfter(l, s, n - 1);
      }
    }
  }

  lemma StepStops(l: IdLedger, id: Id)
    requires MergedInto(l, id).Some?
    ensures Stops(l, id) <==> Stops(l, MergedInto(l, id).value)
  {
    if Stops(l, id) {
      var n: nat :| StopsIn(l, id, n);
      assert StopsIn(l, MergedInto(l, id).value, n - 1);
    }
    if Stops(l, MergedInto(l, id).value) {
      var n: nat :| StopsIn(l, MergedInto(l, id).value, n);
      assert StopsIn(l, id, n + 1);
    }
  }

  // ---------------------------------------------------------------- slugs

  predicate IsSlugChar(c: char) { 'a' <= c <= 'z' || '0' <= c <= '9' }

  /** Lower-case letters and digits in groups joined by single hyphens. */
  predicate IsSlug(s: string) {
    && s != ""
    && (forall i :: 0 <= i < |s| ==> IsSlugChar(s[i]) || s[i] == '-')
    && s[0] != '-' && s[|s| - 1] != '-'
    && (forall i :: 0 < i < |s| ==> s[i - 1] != '-' || s[i] != '-')
  }

  predicate IsLetter(c: char) {
    || c in {'a', 'b', 'c', 'd', 'e', 'f', 'g', 'h', 'i', 'j', 'k', 'l', 'm'}
    || c in {'n', 'o', 'p', 'q', 'r', 's', 't', 'u', 'v', 'w', 'x', 'y', 'z'}
  }

  predicate IsDigit(c: char) { c in {'0', '1', '2', '3', '4', '5', '6', '7', '8', '9'} }

  /** Letters and digits, at least one. */
  predicate IsWord(s: string) { s != "" && forall c :: c in s ==> IsLetter(c) || IsDigit(c) }

  function Hyphenated(words: seq<string>): string {
    if words == [] then "" else if |words| == 1 then words[0] else words[0] + "-" + Hyphenated(words[1..])
  }

  ghost predicate IsHyphenation(words: seq<string>, s: string) {
    words != [] && (forall i :: 0 <= i < |words| ==> IsWord(words[i])) && s == Hyphenated(words)
  }

  lemma LetterRange(c: char)
    ensures IsLetter(c) <==> 'a' <= c <= 'z'
  {
    if 'a' <= c <= 'm' {
      assert c as int - 'a' as int in {0, 1, 2, 3, 4, 5, 6, 7, 8, 9, 10, 11, 12};
    }
    if 'n' <= c <= 'z' {
      assert c as int - 'n' as int in {0, 1, 2, 3, 4, 5, 6, 7, 8, 9, 10, 11, 12};
    }
  }

  lemma DigitRange(c: char)
    ensures IsDigit(c) <==> '0' <= c <= '9'
  {
    if '0' <= c <= '9' { assert c as int - '0' as int in {0, 1, 2, 3, 4, 5, 6, 7, 8, 9}; }
  }

  lemma WordIff(s: string)
    ensures IsWord(s) <==> s != "" && forall i :: 0 <= i < |s| ==> IsSlugChar(s[i])
  {
    forall i | 0 <= i < |s| ensures IsSlugChar(s[i]) <==> IsLetter(s[i]) || IsDigit(s[i]) {
      LetterRange(s[i]);
      DigitRange(s[i]);
    }
  }

  lemma {:induction false} HyphenatedIsSlug(words: seq<string>, s: string)
    requires IsHyphenation(words, s)
    ensures IsSlug(s)
  {
    var w := words[0];
    WordIff(w);
    if |words| > 1 {
      var rest := Hyphenated(words[1..]);
      HyphenatedIsSlug(words[1..], rest);
      assert s == w + "-" + rest && s[|s| - 1] == rest[|rest| - 1];
      forall i | 0 < i < |s| ensures s[i - 1] != '-' || s[i] != '-' {
        if i > |w| + 1 { assert s[i - 1] == rest[i - |w| - 2] && s[i] == rest[i - |w| - 1]; }
      }
    }
  }

  lemma {:induction false} SlugIsHyphenated(s: string, k: nat) returns (words: seq<string>)
    requires IsSlug(s) && k <= |s| && forall i :: 0 <= i < k ==> s[i] != '-'
    ensures IsHyphenation(words, s)
    decreases |s|, |s| - k
  {
    if k == |s| {
      WordIff(s);
      words := [s];
    } else if s[k] != '-' {
      words := SlugIsHyphenated(s, k + 1);
    } else {
      var w, rest := s[..k], s[k + 1..];
      WordIff(w);
      forall i | 0 < i < |rest| ensures rest[i - 1] != '-' || rest[i] != '-' {
        assert rest[i - 1] == s[k + i] && rest[i] == s[k + 1 + i];
      }
      assert rest[0] == s[k + 1] && rest[|rest| - 1] == s[|s| - 1];
      var more := SlugIsHyphenated(rest, 0);
      words := [w] + more;
      assert words[1..] == more && s == w + "-" + rest;
    }
  }

  /** A slug is words of letters and digits with single hyphens between them. */
  lemma SlugIff(s: string)
    ensures IsSlug(s) <==> exists words :: IsHyphenation(words, s)
  {
    if IsSlug(s) { var words := SlugIsHyphenated(s, 0); }
    if words :| IsHyphenation(words, s) { HyphenatedIsSlug(words, s); }
  }

  function Digit(d: nat): char
    requires d < 10
  {
    "0123456789"[d]
  }

  function Decimal(n: nat): string {
    if n < 10 then [Digit(n)] else Decimal(n / 10) + [Digit(n % 10)]
  }

  function Suffixed(base: string, n: nat): string {
    base + "-" + Decimal(n)
  }

  function TakenSlugs(l: IdLedger): set<string> {
    set id | id in l.entries && l.entries[id].slug.Some? :: l.entries[id].slug.value
  }

  /**
   * The first n', counting up from n, whose suffixed slug is free. A taken one is dropped from the search: it cannot
   * come up again.
   */
  function FreeSuffix(taken: set<string>, base: string, n: nat): nat
    decreases |taken|
  {
    if Suffixed(base, n) in taken then FreeSuffix(taken - {Suffixed(base, n)}, base, n + 1) else n
  }

  function SlugFor(l: IdLedger, desired: string): Result<string, LedgerError> {
    if !IsSlug(desired) then Err(NotASlug)
    else if desired !in TakenSlugs(l) then Ok(desired)
    else Ok(Suffixed(desired, FreeSuffix(TakenSlugs(l), desired, 2)))
  }

  lemma {:induction false} DecimalInjective(a: nat, b: nat)
    requires Decimal(a) == Decimal(b)
    ensures a == b
  {
    var x, y := Decimal(a), Decimal(b);
    assert x[|x| - 1] == Digit(a % 10) && y[|y| - 1] == Digit(b % 10);
    assert a % 10 == b % 10;
    DecimalLength(a);
    DecimalLength(b);
    if a >= 10 && b >= 10 {
      assert x[..|x| - 1] == Decimal(a / 10) && y[..|y| - 1] == Decimal(b / 10);
      DecimalInjective(a / 10, b / 10);
    }
  }

  lemma {:induction false} DecimalLength(n: nat)
    ensures |Decimal(n)| >= 1 && (n >= 10 ==> |Decimal(n)| >= 2)
    ensures forall i :: 0 <= i < |Decimal(n)| ==> '0' <= Decimal(n)[i] <= '9'
  {
    if n >= 10 { DecimalLength(n / 10); }
  }

  lemma SuffixedInjective(base: string, a: nat, b: nat)
    requires Suffixed(base, a) == Suffixed(base, b)
    ensures a == b
  {
    assert Suffixed(base, a)[|base| + 1..] == Decimal(a);
    assert Suffixed(base, b)[|base| + 1..] == Decimal(b);
    DecimalInjective(a, b);
  }

  /** n is the first number from 2 on whose suffixed slug is free. */
  ghost predicate FirstFree(taken: set<string>, base: string, n: nat) {
    && 2 <= n && Suffixed(base, n) !in taken
    && forall k: nat :: 2 <= k < n ==> Suffixed(base, k) in taken
  }

  lemma {:induction false} FreeSuffixIsFirstFree(taken: set<string>, base: string, n: nat)
    ensures n <= FreeSuffix(taken, base, n)
    ensures Suffixed(base, FreeSuffix(taken, base, n)) !in taken
    ensures forall k: nat :: n <= k < FreeSuffix(taken, base, n) ==> Suffixed(base, k) in taken
    decreases |taken|
  {
    if Suffixed(base, n) in taken {
      FreeSuffixIsFirstFree(taken - {Suffixed(base, n)}, base, n + 1);
      var r := FreeSuffix(taken, base, n);
      if Suffixed(base, r) == Suffixed(base, n) { SuffixedInjective(base, r, n); }
    }
  }

  /** A minted slug is well formed, free, and the desired one or its first free numbered variant. */
  lemma SlugForIsFree(l: IdLedger, desired: string)
    ensures SlugFor(l, desired).Ok? <==> IsSlug(desired)
    ensures SlugFor(l, desired).Ok? ==>
      && SlugFor(l, desired).value !in TakenSlugs(l)
      && IsSlug(SlugFor(l, desired).value)
      && (SlugFor(l, desired).value == desired
          || (desired in TakenSlugs(l)
              && exists n: nat ::
                SlugFor(l, desired).value == Suffixed(desired, n) && FirstFree(TakenSlugs(l), desired, n)))
  {
    if IsSlug(desired) && desired in TakenSlugs(l) {
      FreeSuffixIsFirstFree(TakenSlugs(l), desired, 2);
      SuffixedIsSlug(desired, FreeSuffix(TakenSlugs(l), desired, 2));
    }
  }

  lemma SuffixedIsSlug(base: string, n: nat)
    requires IsSlug(base)
    ensures IsSlug(Suffixed(base, n))
  {
    DecimalLength(n);
    var s := Suffixed(base, n);
    assert s[|base|] == '-' && s[|s| - 1] == Decimal(n)[|Decimal(n)| - 1];
    forall i | 0 <= i < |s| ensures IsSlugChar(s[i]) || s[i] == '-' {
      if i < |base| { assert s[i] == base[i]; }
      if i > |base| { assert s[i] == Decimal(n)[i - |base| - 1]; }
    }
    forall i | 0 < i < |s| ensures s[i - 1] != '-' || s[i] != '-' {
      if i < |base| { assert s[i] == base[i] && s[i - 1] == base[i - 1]; }
      if i > |base| { assert s[i] == Decimal(n)[i - |base| - 1]; }
      if i == |base| { assert s[i - 1] == base[|base| - 1]; }
    }
  }

  /** The slug loop: it stops because each turn meets a different taken slug. */
  method MintSlug(l: IdLedger, desired: string) returns (slug: Result<string, LedgerError>)
    ensures slug == SlugFor(l, desired)
  {
    if !IsSlug(desired) { return Err(NotASlug); }
    var taken := TakenSlugs(l);
    if desired !in taken { return Ok(desired); }
    var n: nat := 2;
    ghost var met: set<string> := {};
    assert taken - met == taken;
    while Suffixed(desired, n) in taken
      invariant met <= taken && |met| == n - 2
      invariant forall s :: s in met ==> exists k: nat :: k < n && s == Suffixed(desired, k)
      invariant FreeSuffix(taken - met, desired, n) == FreeSuffix(taken, desired, 2)
      decreases |taken| - |met|
    {
      met := MeetSlug(taken, desired, n, met);
      n := n + 1;
    }
    return Ok(Suffixed(desired, n));
  }

  lemma MeetSlug(taken: set<string>, base: string, n: nat, met: set<string>) returns (met': set<string>)
    requires met <= taken && Suffixed(base, n) in taken
    requires forall s :: s in met ==> exists k: nat :: k < n && s == Suffixed(base, k)
    ensures met' == met + {Suffixed(base, n)}
    ensures met' <= taken && |met'| == |met| + 1 <= |taken|
    ensures FreeSuffix(taken - met, base, n) == FreeSuffix(taken - met', base, n + 1)
  {
    met' := met + {Suffixed(base, n)};
    if Suffixed(base, n) in met {
      var k: nat :| k < n && Suffixed(base, n) == Suffixed(base, k);
      SuffixedInjective(base, n, k);
    }
    SubsetSize(met', taken);
    assert taken - met - {Suffixed(base, n)} == taken - met';
  }
}
