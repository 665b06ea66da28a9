/** Runs of ledger operations that keep the `mergedInto` links a forest and every course under a live facility. */
module LedgerForest {
  import opened Ledger
  import opened LedgerOps
  import opened LedgerMeaning
  import opened LedgerMerge
  import opened LedgerRuns

  /** Following links always stops, and no course is left under a facility that was merged away. */
  ghost predicate Forest(l: IdLedger) { Sound(l) && Acyclic(l) && CoursesUnderLiveFacilities(l) }

  // ---------------------------------------------------------------- operations that are no merges

  /** Links, tombstones and the courses' facilities stay, and what is new is unlinked and, if a course, well placed. */
  ghost predicate StructureKept(l: IdLedger, l': IdLedger) {
    && (forall x :: x in l.entries ==> x in l'.entries && SameStructure(l.entries[x], l'.entries[x]))
    && (forall x :: x in l'.entries && x !in l.entries ==> NewlyPlaced(l', l'.entries[x]))
  }

  predicate SameStructure(e: Entry, e': Entry) {
    e'.kind == e.kind && e'.tombstoned == e.tombstoned && e'.facilityId == e.facilityId && e'.mergedInto == e.mergedInto
  }

  predicate NewlyPlaced(l: IdLedger, e: Entry) {
    e.mergedInto.None? && (e.kind == Crs ==> e.facilityId.Some? && IsLive(l, e.facilityId.value))
  }

  lemma {:induction false} SameLinksStop(l: IdLedger, l': IdLedger, x: Id, n: nat)
    requires StructureKept(l, l') && StopsIn(l, x, n)
    ensures StopsIn(l', x, n)
    decreases n
  {
    if n != 0 { SameLinksStop(l, l', MergedInto(l, x).value, n - 1); }
  }

  lemma KeptIsForest(l: IdLedger, l': IdLedger)
    requires Forest(l) && Sound(l') && StructureKept(l, l')
    ensures Forest(l')
  {
    forall x ensures Stops(l', x) {
      assert Stops(l, x);
      var n: nat :| StopsIn(l, x, n);
      SameLinksStop(l, l', x, n);
    }
    forall c | c in l'.entries && l'.entries[c].kind == Crs
      ensures l'.entries[c].facilityId.Some? && IsLive(l', l'.entries[c].facilityId.value)
    {
      if c in l.entries {
        var f := l.entries[c].facilityId.value;
        assert IsLive(l, f) && SameStructure(l.entries[f], l'.entries[f]);
      }
    }
  }

  lemma MintKeepsStructure(l: IdLedger, osmRef: string, desired: string, meta: Meta, fac: Id, crs: Id)
    requires fac !in l.entries && crs !in l.entries && fac != crs
    requires MintStubFacility(l, osmRef, desired, meta, fac, crs).Ok?
    ensures StructureKept(l, MintStubFacility(l, osmRef, desired, meta, fac, crs).value.ledger)
  {
    MintShape(l, osmRef, desired, meta, fac, crs);
  }

  lemma MatchKeepsStructure(l: IdLedger, inc: Incoming, candidates: seq<Candidate>, fac: Id, crs: Id)
    requires WellFormed(l)
    requires Reseed(l, inc, candidates, fac, crs).Ok? && Reseed(l, inc, candidates, fac, crs).value.Matched?
    ensures StructureKept(l, Reseed(l, inc, candidates, fac, crs).value.ledger)
  {
    MatchShape(l, inc, candidates, fac, crs);
  }

  lemma ReseedKeepsStructure(l: IdLedger, inc: Incoming, candidates: seq<Candidate>, fac: Id, crs: Id)
    requires WellFormed(l) && Fresh(l, ReseedOp(inc, candidates, fac, crs))
    ensures StructureKept(l, Apply(l, ReseedOp(inc, candidates, fac, crs)))
  {
    var r := Reseed(l, inc, candidates, fac, crs);
    if r.Ok? && r.value.Matched? { MatchKeepsStructure(l, inc, candidates, fac, crs); }
    if r.Ok? && r.value.NewlyMinted? { MintKeepsStructure(l, inc.osmRef, inc.desiredSlug, inc.meta, fac, crs); }
  }

  lemma PromoteKeepsStructure(l: IdLedger, ids: seq<Id>, meta: Meta)
    requires WellFormed(l)
    ensures StructureKept(l, Apply(l, PromoteOp(ids, meta)))
  {
    PromotionExactly(l, ids, meta);
  }

  lemma SplitKeepsStructure(l: IdLedger, kept: Id, siblings: seq<Id>, meta: Meta)
    requires WellFormed(l) && CoursesUnderLiveFacilities(l)
    requires Fresh(l, SplitOp(kept, siblings, meta)) && WellKinded(l, SplitOp(kept, siblings, meta))
    ensures StructureKept(l, Apply(l, SplitOp(kept, siblings, meta)))
  {
    SplitExactly(l, kept, siblings, meta);
    if kept in l.entries { assert IsLive(l, l.entries[kept].facilityId.value); }
  }

  lemma OthersKeepForest(l: IdLedger, op: Op)
    requires Forest(l) && Fresh(l, op) && WellKinded(l, op) && !op.MergeOp?
    ensures Forest(Apply(l, op))
  {
    ApplySound(l, op);
    match op {
      case MintOp(inc, fac, crs) =>
        if Apply(l, op) != l { MintKeepsStructure(l, inc.osmRef, inc.desiredSlug, inc.meta, fac, crs); }
      case ReseedOp(inc, candidates, fac, crs) => ReseedKeepsStructure(l, inc, candidates, fac, crs);
      case PromoteOp(ids, meta) => PromoteKeepsStructure(l, ids, meta);
      case SplitOp(kept, siblings, meta) => SplitKeepsStructure(l, kept, siblings, meta);
      case CloseOp(_, _) =>
    }
    if Apply(l, op) != l { KeptIsForest(l, Apply(l, op)); }
  }

  // ---------------------------------------------------------------- merges

  /**
   * An accepted merge has no merged id on the survivor's own chain, and its survivor is a live facility, if any course
   * has to move.
   */
  ghost predicate TidyMerge(l: IdLedger, ids: seq<Id>, survivor: Id) {
    && !Hits(l, survivor, ids)
    && (IsLive(l, survivor)
        || forall c :: c in l.entries && l.entries[c].kind == Crs && l.entries[c].facilityId.Some? ==>
             l.entries[c].facilityId.value !in ids)
  }

  ghost predicate TidyStep(l: IdLedger, op: Op) {
    op.MergeOp? && Merge(l, op.ids, op.survivor, op.meta).Ok? ==> TidyMerge(l, op.ids, op.survivor)
  }

  lemma StepKeepsForestIff(l: IdLedger, op: Op)
    requires Forest(l) && Fresh(l, op) && WellKinded(l, op)
    ensures Forest(Apply(l, op)) <==> TidyStep(l, op)
  {
    if op.MergeOp? {
      ApplySound(l, op);
      if Merge(l, op.ids, op.survivor, op.meta).Ok? {
        MergeForest(l, op.ids, op.survivor, op.meta);
        MergeKeepsCoursesLive(l, op.ids, op.survivor, op.meta);
      }
    } else {
      OthersKeepForest(l, op);
    }
  }

  // ---------------------------------------------------------------- runs

  ghost predicate KindedRun(l: IdLedger, ops: seq<Op>)
    decreases |ops|
  {
    ops == [] || (Fresh(l, ops[0]) && WellKinded(l, ops[0]) && KindedRun(Apply(l, ops[0]), ops[1..]))
  }

  ghost predicate TidyRun(l: IdLedger, ops: seq<Op>)
    decreases |ops|
  {
    ops == [] || (TidyStep(l, ops[0]) && TidyRun(Apply(l, ops[0]), ops[1..]))
  }

  /** The ledger is a forest now and after every operation. */
  ghost predicate AlwaysForest(l: IdLedger, ops: seq<Op>)
    decreases |ops|
  {
    Forest(l) && (ops != [] ==> AlwaysForest(Apply(l, ops[0]), ops[1..]))
  }

  /** Over every run the links stay a forest and the courses under live facilities exactly when every merge is tidy. */
  lemma {:induction false} RunStaysForestIff(l: IdLedger, ops: seq<Op>)
    requires Forest(l) && KindedRun(l, ops)
    ensures AlwaysForest(l, ops) <==> TidyRun(l, ops)
    decreases |ops|
  {
    if ops != [] {
      StepKeepsForestIff(l, ops[0]);
      if TidyStep(l, ops[0]) { RunStaysForestIff(Apply(l, ops[0]), ops[1..]); }
    }
  }

  lemma EmptyIsForest()
    ensures Forest(EmptyLedger)
  {
    forall x ensures Stops(EmptyLedger, x) {
      assert StopsIn(EmptyLedger, x, 0);
    }
  }

  /** What an operator can look up before a merge: no id has a link yet, and the survivor was not merged away. */
  ghost predicate PlainMerge(l: IdLedger, op: Op) {
    op.MergeOp? ==>
      && (forall id :: id in op.ids ==> MergedInto(l, id).None?)
      && (op.survivor in l.entries && l.entries[op.survivor].kind == Fac ==> !l.entries[op.survivor].tombstoned)
  }

  lemma PlainMergeIsTidy(l: IdLedger, op: Op)
    requires Forest(l) && PlainMerge(l, op)
    ensures TidyStep(l, op)
  {
    if op.MergeOp? && Merge(l, op.ids, op.survivor, op.meta).Ok? {
      MergeOfUnmergedIds(l, op.ids, op.survivor, op.meta);
      MergeForest(l, op.ids, op.survivor, op.meta);
      AcceptedMerge(l, op.ids, op.survivor);
      forall c | c in l.entries && l.entries[c].kind == Crs && l.entries[c].facilityId.value in op.ids
        ensures IsLive(l, op.survivor)
      {
        assert IsLive(l, l.entries[c].facilityId.value);
      }
    }
  }

  ghost predicate PlainRun(l: IdLedger, ops: seq<Op>)
    decreases |ops|
  {
    ops == [] || (PlainMerge(l, ops[0]) && PlainRun(Apply(l, ops[0]), ops[1..]))
  }

  /** So a run whose merges fold unlinked ids into survivors that were not merged away never leaves the forest. */
  lemma {:induction false} PlainRunStaysForest(l: IdLedger, ops: seq<Op>)
    requires Forest(l) && KindedRun(l, ops) && PlainRun(l, ops)
    ensures AlwaysForest(l, ops)
    decreases |ops|
  {
    if ops != [] {
      PlainMergeIsTidy(l, ops[0]);
      StepKeepsForestIff(l, ops[0]);
      PlainRunStaysForest(Apply(l, ops[0]), ops[1..]);
    }
  }
}
