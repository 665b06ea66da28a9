/** A run from the empty ledger after which accepted merges break what a merge is meant to keep. */
module LedgerExamples {
  import opened Common
  import opened Ledger
  import opened LedgerOps
  import opened LedgerMerge
  import opened LedgerRuns

  function Mint(fac: Id, crs: Id, meta: Meta): Op { MintOp(Incoming("node/1", "links", meta), fac, crs) }

  predicate AllDifferent(s: Id, sc: Id, a: Id, ac: Id, r: Id, rc: Id) {
    s !in {sc, a, ac, r, rc} && sc !in {a, ac, r, rc} && a !in {ac, r, rc} && ac !in {r, rc} && r != rc
  }

  /** Three stub facilities with a course each; then `a` is merged into `r`. */
  function ChainRun(s: Id, sc: Id, a: Id, ac: Id, r: Id, rc: Id, meta: Meta): seq<Op> {
    [Mint(s, sc, meta), Mint(a, ac, meta), Mint(r, rc, meta), MergeOp([a], r, meta)]
  }

  // ---------------------------------------------------------------- minting

  /** Every course is under a live facility, and nothing is merged. */
  ghost predicate Unmerged(l: IdLedger) {
    && WellFormed(l) && CoursesUnderLiveFacilities(l)
    && (forall id :: id in l.entries ==> l.entries[id].mergedInto.None?)
  }

  ghost predicate HasPair(l: IdLedger, fac: Id, crs: Id) {
    && fac in l.entries && l.entries[fac].kind == Fac
    && crs in l.entries && l.entries[crs].kind == Crs && l.entries[crs].facilityId == Some(fac)
  }

  lemma AddUnmerged(l: IdLedger, e: Entry)
    requires Unmerged(l) && e.id !in l.entries && e.mergedInto.None?
    requires e.kind == Crs ==> e.facilityId.Some? && IsLive(l, e.facilityId.value)
    ensures Unmerged(WithEntry(l, e))
  {
    var l' := WithEntry(l, e);
    forall c | c in l'.entries && l'.entries[c].kind == Crs
      ensures l'.entries[c].facilityId.Some? && IsLive(l', l'.entries[c].facilityId.value)
    {
      assert IsLive(l, l'.entries[c].facilityId.value);
    }
  }

  /** A ledger with one more facility and course. */
  ghost predicate WithPair(l: IdLedger, l': IdLedger, fac: Id, crs: Id) {
    && Unmerged(l') && HasPair(l', fac, crs)
    && l'.entries.Keys == l.entries.Keys + {fac, crs}
    && (forall id :: id in l.entries ==> l'.entries[id] == l.entries[id])
  }

  lemma StubsMakePair(l: IdLedger, slug: string, osmRef: string, meta: Meta, fac: Id, crs: Id)
    requires Unmerged(l) && fac !in l.entries && crs !in l.entries && fac != crs
    ensures WithPair(l,
      WithEntry(WithEntry(l, FacilityStub(fac, slug, osmRef, meta)), CourseStub(fac, crs, osmRef, meta)), fac, crs)
  {
    var l1 := WithEntry(l, FacilityStub(fac, slug, osmRef, meta));
    AddUnmerged(l, FacilityStub(fac, slug, osmRef, meta));
    AddUnmerged(l1, CourseStub(fac, crs, osmRef, meta));
    assert l1.entries.Keys == l.entries.Keys + {fac};
  }

  lemma MintsPair(l: IdLedger, fac: Id, crs: Id, meta: Meta) returns (l': IdLedger)
    requires Unmerged(l) && fac !in l.entries && crs !in l.entries && fac != crs
    ensures WithPair(l, l', fac, crs) && l' == Apply(l, Mint(fac, crs, meta))
  {
    SlugForIsFree(l, "links");
    MintShape(l, "node/1", "links", meta, fac, crs);
    StubsMakePair(l, MintStubFacility(l, "node/1", "links", meta, fac, crs).value.slug, "node/1", meta, fac, crs);
    l' := Apply(l, Mint(fac, crs, meta));
  }

  lemma RunOne(l: IdLedger, op: Op, ops: seq<Op>)
    ensures Run(l, [op] + ops) == Run(Apply(l, op), ops)
    ensures LegalRun(l, [op] + ops) <==> Fresh(l, op) && LegalRun(Apply(l, op), ops)
  {
    assert ([op] + ops)[1..] == ops;
  }

  lemma RunFour(l: IdLedger, l1: IdLedger, l2: IdLedger, l3: IdLedger, o1: Op, o2: Op, o3: Op, o4: Op)
    requires l1 == Apply(l, o1) && l2 == Apply(l1, o2) && l3 == Apply(l2, o3)
    ensures Run(l, [o1, o2, o3, o4]) == Apply(l3, o4)
    ensures LegalRun(l, [o1, o2, o3, o4]) <==> Fresh(l, o1) && Fresh(l1, o2) && Fresh(l2, o3) && Fresh(l3, o4)
  {
    RunOne(l, o1, [o2, o3, o4]);
    RunOne(l1, o2, [o3, o4]);
    RunOne(l2, o3, [o4]);
    RunOne(l3, o4, []);
    assert [o1] + [o2, o3, o4] == [o1, o2, o3, o4] && [o2] + [o3, o4] == [o2, o3, o4];
    assert [o3] + [o4] == [o3, o4] && [o4] + [] == [o4];
  }

  lemma KeepsPair(l: IdLedger, l': IdLedger, fac: Id, crs: Id, fac': Id, crs': Id)
    requires WithPair(l, l', fac, crs) && HasPair(l, fac', crs')
    ensures HasPair(l', fac', crs')
  {
  }

  lemma MintsFirst(s: Id, sc: Id, meta: Meta) returns (l: IdLedger)
    requires s != sc
    ensures l == Apply(EmptyLedger, Mint(s, sc, meta)) && Fresh(EmptyLedger, Mint(s, sc, meta))
    ensures Unmerged(l) && HasPair(l, s, sc) && l.entries.Keys == {s, sc}
  {
    l := MintsPair(EmptyLedger, s, sc, meta);
  }

  lemma MintsSecond(l1: IdLedger, s: Id, sc: Id, a: Id, ac: Id, meta: Meta) returns (l: IdLedger)
    requires s !in {sc, a, ac} && sc !in {a, ac} && a != ac
    requires Unmerged(l1) && HasPair(l1, s, sc) && l1.entries.Keys == {s, sc}
    ensures l == Apply(l1, Mint(a, ac, meta)) && Fresh(l1, Mint(a, ac, meta))
    ensures Unmerged(l) && HasPair(l, s, sc) && HasPair(l, a, ac) && l.entries.Keys == {s, sc, a, ac}
  {
    l := MintsPair(l1, a, ac, meta);
    KeepsPair(l1, l, a, ac, s, sc);
  }

  lemma MintsThird(l2: IdLedger, s: Id, sc: Id, a: Id, ac: Id, r: Id, rc: Id, meta: Meta) returns (l: IdLedger)
    requires AllDifferent(s, sc, a, ac, r, rc) && l2.entries.Keys == {s, sc, a, ac}
    requires Unmerged(l2) && HasPair(l2, s, sc) && HasPair(l2, a, ac)
    ensures l == Apply(l2, Mint(r, rc, meta)) && Fresh(l2, Mint(r, rc, meta))
    ensures Unmerged(l) && HasPair(l, s, sc) && HasPair(l, a, ac) && HasPair(l, r, rc)
  {
    l := MintsPair(l2, r, rc, meta);
    KeepsPair(l2, l, r, rc, s, sc);
    KeepsPair(l2, l, r, rc, a, ac);
  }

  /** The ledger after the three mints, and what the whole run makes of it. */
  lemma MintsThree(s: Id, sc: Id, a: Id, ac: Id, r: Id, rc: Id, meta: Meta) returns (l: IdLedger)
    requires AllDifferent(s, sc, a, ac, r, rc)
    ensures Unmerged(l) && HasPair(l, s, sc) && HasPair(l, a, ac) && HasPair(l, r, rc)
    ensures LegalRun(EmptyLedger, ChainRun(s, sc, a, ac, r, rc, meta))
    ensures Run(EmptyLedger, ChainRun(s, sc, a, ac, r, rc, meta)) == Apply(l, MergeOp([a], r, meta))
  {
    var l1 := MintsFirst(s, sc, meta);
    var l2 := MintsSecond(l1, s, sc, a, ac, meta);
    l := MintsThird(l2, s, sc, a, ac, r, rc, meta);
    RunFour(
      EmptyLedger, l1, l2, l, Mint(s, sc, meta), Mint(a, ac, meta), Mint(r, rc, meta), MergeOp([a], r, meta));
  }

  // ---------------------------------------------------------------- merging

  lemma UnmergedIsAcyclic(l: IdLedger)
    requires Unmerged(l)
    ensures Acyclic(l) && forall id :: Resolve(l, id) == id
  {
    forall id ensures Stops(l, id) && Resolve(l, id) == id {
      assert StopsIn(l, id, 0);
      ResolveReachesRoot(l, id, 0);
    }
  }

  /** Merging one unmerged facility into another facility that does not resolve to it. */
  lemma MergesOne(l: IdLedger, id: Id, survivor: Id, meta: Meta)
    requires WellFormed(l) && Acyclic(l) && id in l.entries && survivor in l.entries && id != survivor
    requires l.entries[id].kind == l.entries[survivor].kind && MergedInto(l, id).None? && Resolve(l, survivor) != id
    ensures Merge(l, [id], survivor, meta).Ok?
    ensures var l' := Merge(l, [id], survivor, meta).value;
      && WellFormed(l') && Folded(l, l', [id], survivor) && Acyclic(l')
      && forall x :: Resolve(l', x) == if Resolve(l, x) == id then Resolve(l, survivor) else Resolve(l, x)
  {
    MergeFolds(l, [id], survivor, meta);
    MergeOfUnmergedIds(l, [id], survivor, meta);
  }

  /** s stands alone with its course, and a has been merged into r. */
  ghost predicate Chained(l: IdLedger, s: Id, sc: Id, a: Id, r: Id) {
    && WellFormed(l) && Acyclic(l) && CoursesUnderLiveFacilities(l) && HasPair(l, s, sc)
    && a in l.entries && l.entries[a].kind == Fac && l.entries[a].tombstoned
    && MergedInto(l, s).None? && Resolve(l, s) == s && Resolve(l, a) == r
  }

  lemma MergeChains(l: IdLedger, s: Id, sc: Id, a: Id, ac: Id, r: Id, rc: Id, meta: Meta)
    requires AllDifferent(s, sc, a, ac, r, rc)
    requires Unmerged(l) && HasPair(l, s, sc) && HasPair(l, a, ac) && HasPair(l, r, rc)
    ensures Chained(Apply(l, MergeOp([a], r, meta)), s, sc, a, r)
  {
    UnmergedIsAcyclic(l);
    MergesOne(l, a, r, meta);
    MergeKeepsCoursesLive(l, [a], r, meta);
    var l' := Merge(l, [a], r, meta).value;
    assert FoldedEntry(l, l.entries[s], l'.entries[s], s, [a], r);
    assert FoldedEntry(l, l.entries[sc], l'.entries[sc], sc, [a], r);
    assert FoldedEntry(l, l.entries[a], l'.entries[a], a, [a], r);
  }

  /** What the run leaves behind. */
  lemma ChainRunChains(s: Id, sc: Id, a: Id, ac: Id, r: Id, rc: Id, meta: Meta)
    requires AllDifferent(s, sc, a, ac, r, rc)
    ensures LegalRun(EmptyLedger, ChainRun(s, sc, a, ac, r, rc, meta))
    ensures Chained(Run(EmptyLedger, ChainRun(s, sc, a, ac, r, rc, meta)), s, sc, a, r)
  {
    var l := MintsThree(s, sc, a, ac, r, rc, meta);
    MergeChains(l, s, sc, a, ac, r, rc, meta);
  }

  lemma ChainedStrands(l: IdLedger, s: Id, sc: Id, a: Id, r: Id, meta: Meta)
    requires Chained(l, s, sc, a, r) && s != a && s != r
    ensures Merge(l, [s], a, meta).Ok? && !CoursesUnderLiveFacilities(Merge(l, [s], a, meta).value)
  {
    MergesOne(l, s, a, meta);
    MergeKeepsCoursesLive(l, [s], a, meta);
  }

  /**
   * Merging `s` into `a`, itself merged away before, is accepted, and leaves the course of `s` under a tombstoned
   * facility.
   */
  lemma AcceptedMergeCanStrandCourses(s: Id, sc: Id, a: Id, ac: Id, r: Id, rc: Id, meta: Meta)
    requires AllDifferent(s, sc, a, ac, r, rc)
    ensures var l := Run(EmptyLedger, ChainRun(s, sc, a, ac, r, rc, meta));
      && CoursesUnderLiveFacilities(l) && Merge(l, [s], a, meta).Ok?
      && !CoursesUnderLiveFacilities(Merge(l, [s], a, meta).value)
  {
    ChainRunChains(s, sc, a, ac, r, rc, meta);
    ChainedStrands(Run(EmptyLedger, ChainRun(s, sc, a, ac, r, rc, meta)), s, sc, a, r, meta);
  }

  lemma ChainedCycles(l: IdLedger, s: Id, sc: Id, a: Id, r: Id, meta: Meta)
    requires Chained(l, s, sc, a, r) && s != a && s != r && a != r
    ensures var l' := Apply(l, MergeOp([s], a, meta));
      Acyclic(l') && Merge(l', [a], s, meta).Ok? && !Acyclic(Merge(l', [a], s, meta).value)
  {
    MergesOne(l, s, a, meta);
    var l' := Merge(l, [s], a, meta).value;
    LoopCloses(l', s, a, meta);
  }

  lemma LoopCloses(l: IdLedger, s: Id, a: Id, meta: Meta)
    requires WellFormed(l) && Acyclic(l) && s in l.entries && a in l.entries && s != a
    requires l.entries[s].kind == l.entries[a].kind && MergedInto(l, s) == Some(a) && Resolve(l, s) != a
    ensures Merge(l, [a], s, meta).Ok? && !Acyclic(Merge(l, [a], s, meta).value)
  {
    MergeFolds(l, [a], s, meta);
    assert Walk(l, s, 1) == a && a in [a];
    assert Hits(l, s, [a]);
    MergeForest(l, [a], s, meta);
  }

  /**
   * The cycle check looks only at the survivor's root: once s -> a -> r, merging `a` into `s` is accepted and
   * closes a loop.
   */
  lemma AcceptedMergeCanCycle(s: Id, sc: Id, a: Id, ac: Id, r: Id, rc: Id, meta: Meta)
    requires AllDifferent(s, sc, a, ac, r, rc)
    ensures var l := Apply(Run(EmptyLedger, ChainRun(s, sc, a, ac, r, rc, meta)), MergeOp([s], a, meta));
      Acyclic(l) && Merge(l, [a], s, meta).Ok? && !Acyclic(Merge(l, [a], s, meta).value)
  {
    ChainRunChains(s, sc, a, ac, r, rc, meta);
    ChainedCycles(Run(EmptyLedger, ChainRun(s, sc, a, ac, r, rc, meta)), s, sc, a, r, meta);
  }
}
