/** What a merge does to the `mergedInto` forest and to the courses under the merged facilities. */
module LedgerMerge {
  import opened Common
  import opened Ledger
  import opened LedgerOps

  /** Following links from `x` passes one of `ids`. */
  ghost predicate Hits(l: IdLedger, x: Id, ids: seq<Id>) {
    exists t :: t in ids && OnChain(l, x, t)
  }

  /** The facility a course belongs to after `ids` were folded into the survivor. */
  function FacilityAfter(l: IdLedger, e: Entry, ids: seq<Id>, survivor: Id): Option<Id> {
    if e.kind == Crs && e.facilityId.Some? && e.facilityId.value in ids
       && e.facilityId.value in l.entries && l.entries[e.facilityId.value].kind == Fac
    then Some(survivor) else e.facilityId
  }

  /**
   * Entry by entry, what folding `ids` into the survivor changes: links, tombstones, re-parented courses, and the
   * transition log.
   */
  ghost predicate Folded(l: IdLedger, l': IdLedger, ids: seq<Id>, survivor: Id) {
    && l'.order == l.order && l'.entries.Keys == l.entries.Keys
    && forall x :: x in l.entries ==> FoldedEntry(l, l.entries[x], l'.entries[x], x, ids, survivor)
  }

  ghost predicate FoldedEntry(l: IdLedger, e: Entry, e': Entry, x: Id, ids: seq<Id>, survivor: Id) {
    && e'.id == e.id && e'.kind == e.kind && e'.slug == e.slug && e'.status == e.status && e'.seedRefs == e.seedRefs
    && e'.tombstoned == (e.tombstoned || x in ids)
    && e'.mergedInto == (if x in ids then Some(survivor) else e.mergedInto)
    && e'.facilityId == FacilityAfter(l, e, ids, survivor)
    && e.transitions <= e'.transitions
    && (x !in ids ==> e'.transitions == e.transitions)
    && (forall k :: |e.transitions| <= k < |e'.transitions| ==> e'.transitions[k].kind == MergedT)
  }

  lemma {:induction false} MergeAllFolds(l: IdLedger, ids: seq<Id>, survivor: Id, meta: Meta)
    requires forall id :: id in l.entries ==> l.entries[id].id == id
    requires forall id :: id in ids ==> id in l.entries && id != survivor
    ensures MergeAll(l, ids, survivor, meta).Ok?
    ensures Folded(l, MergeAll(l, ids, survivor, meta).value, ids, survivor)
    decreases |ids|
  {
    if ids != [] {
      var l1 := MergeOne(l, ids[0], survivor, meta);
      assert ids[0] in ids && ids == [ids[0]] + ids[1..];
      MergeOneFolds(l, ids[0], survivor, meta);
      forall x | x in l1.entries
        ensures l1.entries[x].id == x
      {
        assert FoldedEntry(l, l.entries[x], l1.entries[x], x, [ids[0]], survivor);
      }
      forall id | id in ids[1..]
        ensures id in l1.entries && id != survivor
      {
        assert id in ids;
      }
      MergeAllFolds(l1, ids[1..], survivor, meta);
      FoldedTwice(l, l1, MergeAll(l, ids, survivor, meta).value, ids, survivor);
    }
  }

  lemma MergeOneFolds(l: IdLedger, id: Id, survivor: Id, meta: Meta)
    requires forall x :: x in l.entries ==> l.entries[x].id == x
    requires id in l.entries
    ensures Folded(l, MergeOne(l, id, survivor, meta), [id], survivor)
  {
    var l' := MergeOne(l, id, survivor, meta);
    forall x | x in l.entries
      ensures FoldedEntry(l, l.entries[x], l'.entries[x], x, [id], survivor)
    {
      assert x in [id] <==> x == id;
    }
  }

  lemma FoldedTwice(l: IdLedger, l1: IdLedger, l2: IdLedger, ids: seq<Id>, survivor: Id)
    requires ids != [] && survivor !in ids
    requires Folded(l, l1, [ids[0]], survivor) && Folded(l1, l2, ids[1..], survivor)
    ensures Folded(l, l2, ids, survivor)
  {
    assert ids == [ids[0]] + ids[1..];
    forall x | x in l.entries
      ensures
        var e, e' := l.entries[x], l2.entries[x];
        && e'.facilityId == FacilityAfter(l, e, ids, survivor)
        && e.transitions <= e'.transitions
        && (forall k :: |e.transitions| <= k < |e'.transitions| ==> e'.transitions[k].kind == MergedT)
    {
      var e, m, e' := l.entries[x], l1.entries[x], l2.entries[x];
      assert e.transitions <= m.transitions <= e'.transitions;
      forall k | |e.transitions| <= k < |e'.transitions| ensures e'.transitions[k].kind == MergedT {
        if k < |m.transitions| { assert e'.transitions[k] == m.transitions[k]; }
      }
    }
  }

  lemma {:induction false} AcceptedMerge(l: IdLedger, ids: seq<Id>, survivor: Id)
    requires survivor in l.entries && FirstRefusal(l, ids, survivor).None?
    ensures forall id :: id in ids ==>
      id in l.entries && id != survivor && l.entries[id].kind == l.entries[survivor].kind && Resolve(l, survivor) != id
  {
    if ids != [] {
      assert ids == [ids[0]] + ids[1..];
      AcceptedMerge(l, ids[1..], survivor);
    }
  }

  /** A merge fails exactly on an unknown survivor or a refused id, and otherwise folds exactly the named ids. */
  lemma MergeFolds(l: IdLedger, ids: seq<Id>, survivor: Id, meta: Meta)
    requires WellFormed(l)
    ensures Merge(l, ids, survivor, meta).Ok? <==>
      survivor in l.entries && forall id :: id in ids ==> MergeRefusal(l, id, survivor).None?
    ensures Merge(l, ids, survivor, meta).Ok? ==>
      && (forall id :: id in ids ==>
            id in l.entries && id != survivor && l.entries[id].kind == l.entries[survivor].kind)
      && Folded(l, Merge(l, ids, survivor, meta).value, ids, survivor)
      && WellFormed(Merge(l, ids, survivor, meta).value)
  {
    if survivor in l.entries {
      RefusalIffSome(l, ids, survivor);
      if FirstRefusal(l, ids, survivor).None? {
        AcceptedMerge(l, ids, survivor);
        MergeAllFolds(l, ids, survivor, meta);
      }
    }
  }

  lemma {:induction false} RefusalIffSome(l: IdLedger, ids: seq<Id>, survivor: Id)
    requires survivor in l.entries
    ensures FirstRefusal(l, ids, survivor).None? <==> forall id :: id in ids ==> MergeRefusal(l, id, survivor).None?
  {
    if ids != [] {
      assert ids == [ids[0]] + ids[1..];
      assert ids[0] in ids;
      RefusalIffSome(l, ids[1..], survivor);
    }
  }

  // ---------------------------------------------------------------- chains

  lemma ChainStep(l: IdLedger, x: Id, y: Id)
    ensures OnChain(l, x, y) <==> x == y || (MergedInto(l, x).Some? && OnChain(l, MergedInto(l, x).value, y))
  {
    if OnChain(l, x, y) {
      var n: nat :| Walk(l, x, n) == y;
      if n > 0 && MergedInto(l, x).Some? { assert Walk(l, MergedInto(l, x).value, n - 1) == y; }
    }
    if x == y { assert Walk(l, x, 0) == y; }
    if MergedInto(l, x).Some? && OnChain(l, MergedInto(l, x).value, y) {
      var n: nat :| Walk(l, MergedInto(l, x).value, n) == y;
      assert Walk(l, x, n + 1) == y;
    }
  }

  lemma HitsStep(l: IdLedger, x: Id, ids: seq<Id>)
    ensures Hits(l, x, ids) <==> x in ids || (MergedInto(l, x).Some? && Hits(l, MergedInto(l, x).value, ids))
  {
    forall t | t in ids
      ensures OnChain(l, x, t) <==> x == t || (MergedInto(l, x).Some? && OnChain(l, MergedInto(l, x).value, t))
    {
      ChainStep(l, x, t);
    }
  }

  lemma {:induction false} UntouchedChain(l: IdLedger, l': IdLedger, ids: seq<Id>, survivor: Id, x: Id, n: nat)
    requires Folded(l, l', ids, survivor) && StopsIn(l, x, n) && !Hits(l, x, ids)
    ensures StopsIn(l', x, n) && Walk(l', x, n) == Walk(l, x, n)
    decreases n
  {
    HitsStep(l, x, ids);
    if n != 0 { UntouchedChain(l, l', ids, survivor, MergedInto(l, x).value, n - 1); }
  }

  lemma {:induction false} RedirectedChain(
    l: IdLedger, l': IdLedger, ids: seq<Id>, survivor: Id, x: Id, n: nat, k: nat) returns (m: nat)
    requires Folded(l, l', ids, survivor) && (forall t :: t in ids ==> t in l.entries)
    requires StopsIn(l, x, n) && Hits(l, x, ids)
    requires StopsIn(l', survivor, k)
    ensures StopsIn(l', x, m) && Walk(l', x, m) == Walk(l', survivor, k)
    decreases n
  {
    HitsStep(l, x, ids);
    if x in ids {
      m := k + 1;
    } else {
      m := RedirectedChain(l, l', ids, survivor, MergedInto(l, x).value, n - 1, k);
      m := m + 1;
    }
  }

  /** If `x` runs into a merged id, following it in the new ledger comes back to the survivor. */
  lemma {:induction false} ComesBack(
    l: IdLedger, l': IdLedger, ids: seq<Id>, survivor: Id, x: Id, j: nat, n: nat) returns (k: nat)
    requires Folded(l, l', ids, survivor) && (forall t :: t in ids ==> t in l.entries)
    requires Walk(l, x, j) in ids && StopsIn(l', x, n)
    ensures k < n && StopsIn(l', survivor, k)
    decreases j
  {
    if x in ids {
      k := n - 1;
    } else {
      k := ComesBack(l, l', ids, survivor, MergedInto(l, x).value, j - 1, n - 1);
    }
  }

  /**
   * The merge theorem. Starting without cycles, an accepted merge leaves none exactly when no merged id lies on
   * the survivor's own chain; and then an id resolves to the survivor's root if its chain passed a merged id, and
   * as before otherwise.
   */
  lemma MergeForest(l: IdLedger, ids: seq<Id>, survivor: Id, meta: Meta)
    requires WellFormed(l) && Acyclic(l) && Merge(l, ids, survivor, meta).Ok?
    ensures Acyclic(Merge(l, ids, survivor, meta).value) <==> !Hits(l, survivor, ids)
    ensures !Hits(l, survivor, ids) ==>
      forall x :: Resolve(Merge(l, ids, survivor, meta).value, x) ==
        if Hits(l, x, ids) then Resolve(l, survivor) else Resolve(l, x)
  {
    var l' := Merge(l, ids, survivor, meta).value;
    MergeFolds(l, ids, survivor, meta);
    if Hits(l, survivor, ids) {
      var t :| t in ids && OnChain(l, survivor, t);
      var j: nat :| Walk(l, survivor, j) == t;
      if Stops(l', survivor) {
        var n: nat :| StopsIn(l', survivor, n);
        var k := ComesBack(l, l', ids, survivor, survivor, j, n);
        StopsInUnique(l', survivor, k, n);
      }
    } else {
      assert Stops(l, survivor);
      var k: nat :| StopsIn(l, survivor, k);
      UntouchedChain(l, l', ids, survivor, survivor, k);
      ResolveReachesRoot(l, survivor, k);
      forall x
        ensures Stops(l', x)
        ensures Resolve(l', x) == if Hits(l, x, ids) then Resolve(l, survivor) else Resolve(l, x)
      {
        assert Stops(l, x);
        var n: nat :| StopsIn(l, x, n);
        ResolveReachesRoot(l, x, n);
        if Hits(l, x, ids) {
          var m := RedirectedChain(l, l', ids, survivor, x, n, k);
          ResolveReachesRoot(l', x, m);
        } else {
          UntouchedChain(l, l', ids, survivor, x, n);
          ResolveReachesRoot(l', x, n);
        }
      }
    }
  }

  lemma {:induction false} TerminalOnChain(l: IdLedger, x: Id, n: nat, t: Id)
    requires StopsIn(l, x, n) && MergedInto(l, t).None?
    ensures OnChain(l, x, t) <==> Resolve(l, x) == t
    decreases n
  {
    ChainStep(l, x, t);
    ResolveReachesRoot(l, x, n);
    if n != 0 {
      TerminalOnChain(l, MergedInto(l, x).value, n - 1, t);
      ResolveReachesRoot(l, MergedInto(l, x).value, n - 1);
    }
  }

  /**
   * Merging ids that carry no link yet: always safe, and exactly the ids that resolved to a merged one now resolve to
   * the survivor's root.
   */
  lemma MergeOfUnmergedIds(l: IdLedger, ids: seq<Id>, survivor: Id, meta: Meta)
    requires WellFormed(l) && Acyclic(l) && Merge(l, ids, survivor, meta).Ok?
    requires forall id :: id in ids ==> MergedInto(l, id).None?
    ensures Acyclic(Merge(l, ids, survivor, meta).value)
    ensures forall x ::
      Resolve(Merge(l, ids, survivor, meta).value, x) ==
        if Resolve(l, x) in ids then Resolve(l, survivor) else Resolve(l, x)
  {
    MergeForest(l, ids, survivor, meta);
    AcceptedMerge(l, ids, survivor);
    forall x ensures Hits(l, x, ids) <==> Resolve(l, x) in ids {
      assert Stops(l, x);
      var n: nat :| StopsIn(l, x, n);
      forall t | t in ids ensures OnChain(l, x, t) <==> Resolve(l, x) == t {
        TerminalOnChain(l, x, n, t);
      }
      ResolveReachesRoot(l, x, n);
    }
  }

  // ---------------------------------------------------------------- courses and live facilities

  predicate IsLive(l: IdLedger, id: Id) {
    id in l.entries && l.entries[id].kind == Fac && !l.entries[id].tombstoned
  }

  /** Every course belongs to a facility that has not been merged away. */
  ghost predicate CoursesUnderLiveFacilities(l: IdLedger) {
    forall c :: c in l.entries && l.entries[c].kind == Crs ==>
      l.entries[c].facilityId.Some? && IsLive(l, l.entries[c].facilityId.value)
  }

  /**
   * Re-parenting keeps every course under a live facility exactly when the survivor is itself live or nothing
   * had to move: a merge does not check whether its survivor was merged away before.
   */
  lemma MergeKeepsCoursesLive(l: IdLedger, ids: seq<Id>, survivor: Id, meta: Meta)
    requires WellFormed(l) && CoursesUnderLiveFacilities(l) && Merge(l, ids, survivor, meta).Ok?
    ensures CoursesUnderLiveFacilities(Merge(l, ids, survivor, meta).value) <==>
      IsLive(l, survivor)
      || forall c :: c in l.entries && l.entries[c].kind == Crs ==> l.entries[c].facilityId.value !in ids
  {
    MergeFolds(l, ids, survivor, meta);
    var l' := Merge(l, ids, survivor, meta).value;
  }

}
