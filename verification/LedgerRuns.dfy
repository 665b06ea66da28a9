/** Runs of ledger operations: what no run ever loses, and why a reference never gets a second id. */
module LedgerRuns {
  import opened Common
  import opened Ledger
  import opened LedgerOps
  import opened LedgerMeaning
  import opened LedgerMerge

  datatype Op =
    | MintOp(incoming: Incoming, fac: Id, crs: Id)
    | ReseedOp(incoming: Incoming, candidates: seq<Candidate>, fac: Id, crs: Id)
    | PromoteOp(ids: seq<Id>, meta: Meta)
    | SplitOp(kept: Id, siblings: seq<Id>, meta: Meta)
    | MergeOp(ids: seq<Id>, survivor: Id, meta: Meta)
    | CloseOp(id: Id, meta: Meta)

  function OrElse(r: Result<IdLedger, LedgerError>, l: IdLedger): IdLedger {
    if r.Ok? then r.value else l
  }

  /** The ledger after one operation; an operation that throws, or only reports, leaves it as it was. */
  function Apply(l: IdLedger, op: Op): IdLedger {
    match op
    case MintOp(inc, fac, crs) =>
      var r := MintStubFacility(l, inc.osmRef, inc.desiredSlug, inc.meta, fac, crs);
      if r.Ok? then r.value.ledger else l
    case ReseedOp(inc, candidates, fac, crs) =>
      var r := Reseed(l, inc, candidates, fac, crs);
      if r.Ok? && r.value.Matched? then r.value.ledger
      else if r.Ok? && r.value.NewlyMinted? then r.value.minted.ledger
      else l
    case PromoteOp(ids, meta) => OrElse(PromoteAll(l, ids, meta), l)
    case SplitOp(kept, siblings, meta) => OrElse(SplitCourse(l, kept, siblings, meta), l)
    case MergeOp(ids, survivor, meta) => OrElse(Merge(l, ids, survivor, meta), l)
    case CloseOp(id, meta) => OrElse(RecordClosed(l, id, meta), l)
  }

  function Run(l: IdLedger, ops: seq<Op>): IdLedger
    decreases |ops|
  {
    if ops == [] then l else Run(Apply(l, ops[0]), ops[1..])
  }

  /** Minted ids are unused ones. */
  ghost predicate Fresh(l: IdLedger, op: Op) {
    match op
    case MintOp(_, fac, crs) => fac !in l.entries && crs !in l.entries && fac != crs
    case ReseedOp(_, _, fac, crs) => fac !in l.entries && crs !in l.entries && fac != crs
    case SplitOp(_, siblings, _) => NoRepeats(siblings) && forall s :: s in siblings ==> s !in l.entries
    case _ => true
  }

  ghost predicate LegalRun(l: IdLedger, ops: seq<Op>)
    decreases |ops|
  {
    ops == [] || (Fresh(l, ops[0]) && LegalRun(Apply(l, ops[0]), ops[1..]))
  }

  // ---------------------------------------------------------------- history

  /** Nothing recorded is lost: ids, kinds and slugs stay, logs only grow, and verified never turns back into stub. */
  ghost predicate Grown(e: Entry, e': Entry) {
    && e'.kind == e.kind && e'.slug == e.slug
    && e.transitions <= e'.transitions && e.seedRefs <= e'.seedRefs
    && (e.status == Some(Verified) ==> e'.status == Some(Verified))
    && (e.tombstoned ==> e'.tombstoned)
  }

  ghost predicate Extends(l: IdLedger, l': IdLedger) {
    forall id :: id in l.entries ==> id in l'.entries && Grown(l.entries[id], l'.entries[id])
  }

  ghost predicate SlugsDistinct(l: IdLedger) {
    forall i, j ::
      (i in l.entries && j in l.entries && l.entries[i].slug.Some? && l.entries[i].slug == l.entries[j].slug) ==> i == j
  }

  predicate IsVerifiedEvent(t: Transition) { t.kind == VerifiedT }

  ghost predicate PromotedAtMostOnce(l: IdLedger) {
    forall id :: id in l.entries ==> PromotedOnce(l.entries[id])
  }

  ghost predicate PromotedOnce(e: Entry) {
    |Filter(e.transitions, IsVerifiedEvent)| <= 1
  }

  ghost predicate Sound(l: IdLedger) {
    WellFormed(l) && SlugsDistinct(l) && PromotedAtMostOnce(l)
  }

  lemma {:induction false} FilterNone(ts: seq<Transition>)
    requires forall t :: t in ts ==> !IsVerifiedEvent(t)
    ensures Filter(ts, IsVerifiedEvent) == []
  {
    if ts != [] { FilterNone(ts[1..]); }
  }

  /** Extending a log by events other than `verified` keeps its count. */
  lemma {:induction false} OtherEvents(ts: seq<Transition>, ts': seq<Transition>)
    requires ts <= ts' && forall k :: |ts| <= k < |ts'| ==> !IsVerifiedEvent(ts'[k])
    ensures Filter(ts', IsVerifiedEvent) == Filter(ts, IsVerifiedEvent)
  {
    if ts == [] {
      FilterNone(ts');
    } else {
      OtherEvents(ts[1..], ts'[1..]);
    }
  }

  lemma RewriteSound(l: IdLedger, e: Entry)
    requires Sound(l) && e.id in l.entries && Grown(l.entries[e.id], e) && PromotedOnce(e)
    ensures Sound(WithEntry(l, e)) && Extends(l, WithEntry(l, e))
  {
  }

  /** Adding one entry under an unused id, with a free slug or none. */
  lemma AddSound(l: IdLedger, e: Entry)
    requires Sound(l) && e.id !in l.entries && PromotedOnce(e)
    requires e.slug.Some? ==> e.slug.value !in TakenSlugs(l)
    ensures Sound(WithEntry(l, e)) && Extends(l, WithEntry(l, e))
  {
    forall i | i in l.entries && l.entries[i].slug.Some? ensures l.entries[i].slug != e.slug {
      assert l.entries[i].slug.value in TakenSlugs(l);
    }
  }

  function FacilityStub(fac: Id, slug: string, osmRef: string, meta: Meta): Entry {
    Entry(fac, Fac, Some(slug), Some(Stub), [Transition(MintedT, meta, "", [])], [osmRef], None, false, None)
  }

  function CourseStub(fac: Id, crs: Id, osmRef: string, meta: Meta): Entry {
    Entry(crs, Crs, None, Some(Stub), [Transition(MintedT, meta, "", [])], [osmRef], Some(fac), false, None)
  }

  lemma MintShape(l: IdLedger, osmRef: string, desired: string, meta: Meta, fac: Id, crs: Id)
    requires MintStubFacility(l, osmRef, desired, meta, fac, crs).Ok?
    ensures var m := MintStubFacility(l, osmRef, desired, meta, fac, crs).value;
      && IsOsmRef(osmRef) && m.slug !in TakenSlugs(l)
      && m.ledger ==
         WithEntry(WithEntry(l, FacilityStub(fac, m.slug, osmRef, meta)), CourseStub(fac, crs, osmRef, meta))
  {
    SlugForIsFree(l, desired);
  }

  lemma MintSound(l: IdLedger, osmRef: string, desired: string, meta: Meta, fac: Id, crs: Id)
    requires Sound(l) && fac !in l.entries && crs !in l.entries && fac != crs
    requires MintStubFacility(l, osmRef, desired, meta, fac, crs).Ok?
    ensures Sound(MintStubFacility(l, osmRef, desired, meta, fac, crs).value.ledger)
    ensures Extends(l, MintStubFacility(l, osmRef, desired, meta, fac, crs).value.ledger)
  {
    MintShape(l, osmRef, desired, meta, fac, crs);
    var m := MintStubFacility(l, osmRef, desired, meta, fac, crs).value;
    FilterNone([Transition(MintedT, meta, "", [])]);
    var l1 := WithEntry(l, FacilityStub(fac, m.slug, osmRef, meta));
    AddSound(l, FacilityStub(fac, m.slug, osmRef, meta));
    AddSound(l1, CourseStub(fac, crs, osmRef, meta));
    ExtendsTransitive(l, l1, m.ledger);
  }

  function AddedRef(e: Entry, osmRef: string): Entry { e.(seedRefs := e.seedRefs + [osmRef]) }

  /** A spatial match writes the reference on the matched facility and course, and nothing else. */
  lemma MatchShape(l: IdLedger, inc: Incoming, candidates: seq<Candidate>, fac: Id, crs: Id)
    requires Reseed(l, inc, candidates, fac, crs).Ok? && Reseed(l, inc, candidates, fac, crs).value.Matched?
    ensures var r := Reseed(l, inc, candidates, fac, crs).value;
      && FindBySeedRef(l, inc.osmRef) == Ok(None)
      && r.pair.facilityId in l.entries && r.pair.courseId in l.entries
      && (exists c :: c in candidates && r.pair == Pair(c.facilityId, c.courseId))
      && r.ledger == WithEntry(WithEntry(l, AddedRef(l.entries[r.pair.facilityId], inc.osmRef)),
                               AddedRef(l.entries[r.pair.courseId], inc.osmRef))
  {
    ReseedMatchesIff(l, inc, candidates, fac, crs);
    var i :| OnlyMatch(candidates, i);
    NamedAreMatches(candidates);
    OnlyMatchIsFiltered(candidates, i);
  }

  lemma MatchSound(l: IdLedger, inc: Incoming, candidates: seq<Candidate>, fac: Id, crs: Id)
    requires Sound(l)
    ensures var r := Reseed(l, inc, candidates, fac, crs);
      r.Ok? && r.value.Matched? ==> Sound(r.value.ledger) && Extends(l, r.value.ledger)
  {
    if Reseed(l, inc, candidates, fac, crs).Ok? && Reseed(l, inc, candidates, fac, crs).value.Matched? {
      MatchShape(l, inc, candidates, fac, crs);
      var r := Reseed(l, inc, candidates, fac, crs).value;
      var e1 := AddedRef(l.entries[r.pair.facilityId], inc.osmRef);
      RewriteSound(l, e1);
      RewriteSound(WithEntry(l, e1), AddedRef(l.entries[r.pair.courseId], inc.osmRef));
      ExtendsTransitive(l, WithEntry(l, e1), r.ledger);
    }
  }

  lemma PromotedKeeps(e: Entry, meta: Meta)
    requires !HasVerified(e.transitions)
    ensures Grown(e, Promoted(e, meta)) && PromotedOnce(Promoted(e, meta))
  {
    FilterNone(e.transitions);
    FilterSnoc(e.transitions, Transition(VerifiedT, meta, "", []), IsVerifiedEvent);
  }

  lemma PromoteSound(l: IdLedger, ids: seq<Id>, meta: Meta)
    requires Sound(l) && PromoteAll(l, ids, meta).Ok?
    ensures Sound(PromoteAll(l, ids, meta).value) && Extends(l, PromoteAll(l, ids, meta).value)
  {
    PromotionExactly(l, ids, meta);
    var l' := PromoteAll(l, ids, meta).value;
    forall id | id in l.entries
      ensures Grown(l.entries[id], l'.entries[id]) && PromotedOnce(l'.entries[id])
    {
      if id in ids { PromotedKeeps(l.entries[id], meta); }
    }
  }

  lemma {:induction false} SiblingsSound(l: IdLedger, kept: Id, facility: Option<Id>, siblings: seq<Id>, meta: Meta)
    requires Sound(l) && NoRepeats(siblings) && forall s :: s in siblings ==> s !in l.entries
    ensures Sound(AddSiblings(l, kept, facility, siblings, meta))
      && Extends(l, AddSiblings(l, kept, facility, siblings, meta))
    decreases |siblings|
  {
    if siblings != [] {
      var e := Sibling(siblings[0], kept, facility, meta);
      FilterNone(e.transitions);
      AddSound(l, e);
      SiblingsSound(WithEntry(l, e), kept, facility, siblings[1..], meta);
      ExtendsTransitive(l, WithEntry(l, e), AddSiblings(l, kept, facility, siblings, meta));
    }
  }

  lemma AppendSound(l: IdLedger, id: Id, t: Transition)
    requires Sound(l) && id in l.entries && t.kind != VerifiedT
    ensures Sound(WithTransition(l, id, t)) && Extends(l, WithTransition(l, id, t))
  {
    FilterSnoc(l.entries[id].transitions, t, IsVerifiedEvent);
    RewriteSound(l, l.entries[id].(transitions := l.entries[id].transitions + [t]));
  }

  lemma MergeSound(l: IdLedger, ids: seq<Id>, survivor: Id, meta: Meta)
    requires Sound(l) && Merge(l, ids, survivor, meta).Ok?
    ensures Sound(Merge(l, ids, survivor, meta).value) && Extends(l, Merge(l, ids, survivor, meta).value)
  {
    MergeFolds(l, ids, survivor, meta);
    var l' := Merge(l, ids, survivor, meta).value;
    forall id | id in l'.entries ensures PromotedOnce(l'.entries[id]) {
      OtherEvents(l.entries[id].transitions, l'.entries[id].transitions);
    }
  }

  lemma ApplySound(l: IdLedger, op: Op)
    requires Sound(l) && Fresh(l, op)
    ensures Sound(Apply(l, op)) && Extends(l, Apply(l, op))
  {
    match op
    case MintOp(inc, fac, crs) =>
      if Apply(l, op) != l { MintSound(l, inc.osmRef, inc.desiredSlug, inc.meta, fac, crs); }
    case ReseedOp(inc, candidates, fac, crs) =>
      var r := Reseed(l, inc, candidates, fac, crs);
      if r.Ok? && r.value.Matched? { MatchSound(l, inc, candidates, fac, crs); }
      if r.Ok? && r.value.NewlyMinted? { MintSound(l, inc.osmRef, inc.desiredSlug, inc.meta, fac, crs); }
    case PromoteOp(ids, meta) =>
      if PromoteAll(l, ids, meta).Ok? { PromoteSound(l, ids, meta); }
    case SplitOp(kept, siblings, meta) =>
      if kept in l.entries {
        SiblingsSound(l, kept, l.entries[kept].facilityId, siblings, meta);
        var l1 := AddSiblings(l, kept, l.entries[kept].facilityId, siblings, meta);
        AppendSound(l1, kept, Transition(SplitT, meta, "", siblings));
        ExtendsTransitive(l, l1, Apply(l, op));
      }
    case MergeOp(ids, survivor, meta) =>
      if Merge(l, ids, survivor, meta).Ok? { MergeSound(l, ids, survivor, meta); }
    case CloseOp(id, meta) =>
      if id in l.entries { AppendSound(l, id, Transition(ClosedT, meta, "", [])); }
  }

  lemma ExtendsTransitive(a: IdLedger, b: IdLedger, c: IdLedger)
    requires Extends(a, b) && Extends(b, c)
    ensures Extends(a, c)
  {
    forall id | id in a.entries ensures id in c.entries && Grown(a.entries[id], c.entries[id]) {
      assert Grown(a.entries[id], b.entries[id]) && Grown(b.entries[id], c.entries[id]);
    }
  }

  /** Over every run: nothing is lost, slugs stay pairwise distinct, and each id is promoted at most once. */
  lemma {:induction false} RunSound(l: IdLedger, ops: seq<Op>)
    requires Sound(l) && LegalRun(l, ops)
    ensures Sound(Run(l, ops)) && Extends(l, Run(l, ops))
    decreases |ops|
  {
    if ops != [] {
      ApplySound(l, ops[0]);
      RunSound(Apply(l, ops[0]), ops[1..]);
      ExtendsTransitive(l, Apply(l, ops[0]), Run(l, ops));
    }
  }

  // ---------------------------------------------------------------- references

  /** Each reference is carried by at most one course entry and at most one facility entry. */
  ghost predicate RefsOwnedOnce(l: IdLedger) {
    forall i, j, kind, osmRef ::
      (kind == Crs || kind == Fac) && Owns(l, i, kind, osmRef) && Owns(l, j, kind, osmRef) ==> i == j
  }

  /**
   * Links stay inside the ledger and inside a kind; every course names a facility; only facilities and courses carry
   * references.
   */
  ghost predicate Linked(l: IdLedger) {
    && (forall x :: x in l.entries && l.entries[x].mergedInto.Some? ==>
         l.entries[x].mergedInto.value in l.entries
         && l.entries[l.entries[x].mergedInto.value].kind == l.entries[x].kind)
    && (forall x :: x in l.entries && l.entries[x].kind == Crs ==> l.entries[x].facilityId.Some?)
  }

  ghost predicate Anchored(l: IdLedger) {
    WellFormed(l) && RefsOwnedOnce(l) && Linked(l)
  }

  /**
   * What the argument types say: a candidate pairs a facility with a course, and the id kept by a split is a course.
   */
  ghost predicate WellKinded(l: IdLedger, op: Op) {
    match op
    case ReseedOp(_, candidates, _, _) =>
      forall c :: c in candidates ==>
        && (c.facilityId in l.entries ==> l.entries[c.facilityId].kind == Fac)
        && (c.courseId in l.entries ==> l.entries[c.courseId].kind == Crs)
    case SplitOp(kept, _, _) => kept in l.entries ==> l.entries[kept].kind == Crs
    case _ => true
  }

  ghost predicate Carried(l: IdLedger, osmRef: string) {
    exists id :: Owns(l, id, Crs, osmRef) || Owns(l, id, Fac, osmRef)
  }

  /** Runs in which a facility minted directly, not through a re-seed, brings a reference nobody carries yet. */
  ghost predicate SeedRun(l: IdLedger, ops: seq<Op>)
    decreases |ops|
  {
    ops == [] ||
    ((ops[0].MintOp? ==> !Carried(l, ops[0].incoming.osmRef))
     && Fresh(l, ops[0]) && WellKinded(l, ops[0]) && SeedRun(Apply(l, ops[0]), ops[1..]))
  }

  ghost predicate Handled(l: IdLedger, osmRef: string) {
    exists c :: Owns(l, c, Crs, osmRef)
  }

  /** Look-up by reference: a course that carries it is found, through its merges, whatever else the ledger holds. */
  lemma HandledIsFound(l: IdLedger, osmRef: string, c: Id)
    requires Anchored(l) && IsOsmRef(osmRef) && Owns(l, c, Crs, osmRef)
    ensures Resolve(l, c) in l.entries && l.entries[Resolve(l, c)].facilityId.Some?
    ensures FindBySeedRef(l, osmRef) == Ok(Some(Pair(l.entries[Resolve(l, c)].facilityId.value, Resolve(l, c))))
  {
    FirstIdFinds(l.order, id => Owns(l, id, Crs, osmRef));
    assert c in l.order;
    ResolveStaysIn(l, {}, c, Crs);
  }

  /** Not found means exactly that the reference is well formed and nobody carries it. */
  lemma NotFoundIff(l: IdLedger, osmRef: string)
    requires Anchored(l)
    ensures FindBySeedRef(l, osmRef) == Ok(None) <==> IsOsmRef(osmRef) && !Carried(l, osmRef)
    ensures FindBySeedRef(l, osmRef) == Err(NotAnOsmRef) <==> !IsOsmRef(osmRef)
  {
    FirstIdFinds(l.order, id => Owns(l, id, Crs, osmRef));
    FirstIdFinds(l.order, id => Owns(l, id, Fac, osmRef));
    if Carried(l, osmRef) {
      var id :| Owns(l, id, Crs, osmRef) || Owns(l, id, Fac, osmRef);
      assert id in l.order;
    }
  }

  lemma NotFoundIsUnowned(l: IdLedger, osmRef: string)
    requires WellFormed(l) && FindBySeedRef(l, osmRef) == Ok(None)
    ensures !Carried(l, osmRef)
  {
    FirstIdFinds(l.order, id => Owns(l, id, Crs, osmRef));
    FirstIdFinds(l.order, id => Owns(l, id, Fac, osmRef));
  }

  lemma {:induction false} FirstIdIsFirst(order: seq<Id>, wanted: Id -> bool)
    ensures FirstId(order, wanted).Some? ==>
      exists i :: 0 <= i < |order| && FirstId(order, wanted) == Some(order[i]) && wanted(order[i])
        && forall j :: 0 <= j < i ==> !wanted(order[j])
  {
    if order != [] && !wanted(order[0]) {
      FirstIdIsFirst(order[1..], wanted);
      if FirstId(order[1..], wanted).Some? {
        var i :| 0 <= i < |order[1..]| && FirstId(order[1..], wanted) == Some(order[1..][i]) && wanted(order[1..][i])
          && forall j :: 0 <= j < i ==> !wanted(order[1..][j]);
        assert order[i + 1] == order[1..][i];
        forall j | 0 <= j < i + 1 ensures !wanted(order[j]) {
          if j > 0 { assert order[j] == order[1..][j - 1]; }
        }
      }
    }
  }

  /** The entry is a course of this facility that was not merged away. */
  predicate IsLiveCourse(l: IdLedger, id: Id, facility: Id) {
    id in l.entries && !l.entries[id].tombstoned && CourseOf(l.entries[id], facility)
  }

  /** The earliest minted live course of this facility. */
  ghost predicate IsFirstCourse(l: IdLedger, c: Id, facility: Id) {
    exists i :: 0 <= i < |l.order| && l.order[i] == c && IsLiveCourse(l, c, facility)
      && forall j :: 0 <= j < i ==> !IsLiveCourse(l, l.order[j], facility)
  }

  /**
   * Look-up by a reference that only a facility carries: that facility, through its merges, with its first live course;
   * without one it fails.
   */
  lemma FacilityIsFound(l: IdLedger, osmRef: string, f: Id)
    requires Anchored(l) && IsOsmRef(osmRef) && Owns(l, f, Fac, osmRef) && !Handled(l, osmRef)
    ensures var r, facility := FindBySeedRef(l, osmRef), Resolve(l, f);
      && (r == Err(NoLinkedCourse) <==> forall id :: !IsLiveCourse(l, id, facility))
      && (r != Err(NoLinkedCourse) ==>
            r.Ok? && r.value.Some? && r.value.value.facilityId == facility
            && IsFirstCourse(l, r.value.value.courseId, facility))
  {
    FirstIdFinds(l.order, id => Owns(l, id, Crs, osmRef));
    FirstIdFinds(l.order, id => Owns(l, id, Fac, osmRef));
    assert f in l.order;
    ResolveStaysIn(l, {}, f, Fac);
    var facility := Resolve(l, f);
    FirstIdFinds(l.order, id => IsLiveCourseOf(l, id, facility));
    FirstIdIsFirst(l.order, id => IsLiveCourseOf(l, id, facility));
    forall id ensures IsLiveCourse(l, id, facility) <==> IsLiveCourseOf(l, id, facility) {}
  }

  /** Writing `e` where no entry of its kind carries any of its new references keeps ownership unique. */
  lemma WriteAnchored(l: IdLedger, e: Entry)
    requires Anchored(l)
    requires e.id in l.entries ==>
      e.kind == l.entries[e.id].kind && e.mergedInto == l.entries[e.id].mergedInto
        && e.facilityId == l.entries[e.id].facilityId
    requires e.id !in l.entries ==> e.mergedInto.None? && (e.kind == Crs ==> e.facilityId.Some?)
    requires forall osmRef, i :: osmRef in e.seedRefs && Owns(l, i, e.kind, osmRef) ==> i == e.id
    ensures Anchored(WithEntry(l, e))
  {
    var l' := WithEntry(l, e);
    forall i, j, kind, osmRef | (kind == Crs || kind == Fac) && Owns(l', i, kind, osmRef) && Owns(l', j, kind, osmRef)
      ensures i == j
    {
      assert i != e.id ==> Owns(l, i, kind, osmRef);
      assert j != e.id ==> Owns(l, j, kind, osmRef);
    }
  }

  /** Adding a reference nobody of that kind carries yet. */
  lemma AddedRefAnchored(l: IdLedger, e: Entry, osmRef: string)
    requires Anchored(l) && e.id in l.entries && l.entries[e.id] == e && (e.kind == Crs || e.kind == Fac)
    requires forall i :: !Owns(l, i, e.kind, osmRef)
    ensures Anchored(WithEntry(l, AddedRef(e, osmRef)))
  {
    forall r, i | r in AddedRef(e, osmRef).seedRefs && Owns(l, i, e.kind, r) ensures i == e.id {
      if r != osmRef { assert Owns(l, e.id, e.kind, r); }
    }
    WriteAnchored(l, AddedRef(e, osmRef));
  }

  predicate TookTheRef(r: Result<ReseedOutcome, LedgerError>) {
    r.Ok? && (r.value.Matched? || r.value.NewlyMinted?)
  }

  lemma MatchedAnchored(l: IdLedger, inc: Incoming, candidates: seq<Candidate>, fac: Id, crs: Id)
    requires Anchored(l) && WellKinded(l, ReseedOp(inc, candidates, fac, crs))
    ensures var r := Reseed(l, inc, candidates, fac, crs);
      r.Ok? && r.value.Matched? ==> Anchored(r.value.ledger) && Handled(r.value.ledger, inc.osmRef)
  {
    if Reseed(l, inc, candidates, fac, crs).Ok? && Reseed(l, inc, candidates, fac, crs).value.Matched? {
      var r := Reseed(l, inc, candidates, fac, crs).value;
      MatchShape(l, inc, candidates, fac, crs);
      NotFoundIsUnowned(l, inc.osmRef);
      AddedRefAnchored(l, l.entries[r.pair.facilityId], inc.osmRef);
      var l1 := WithEntry(l, AddedRef(l.entries[r.pair.facilityId], inc.osmRef));
      forall i ensures !Owns(l1, i, Crs, inc.osmRef) { assert !Owns(l, i, Crs, inc.osmRef); }
      AddedRefAnchored(l1, l.entries[r.pair.courseId], inc.osmRef);
      assert Owns(r.ledger, r.pair.courseId, Crs, inc.osmRef);
    }
  }

  /** The two stubs may be added where nobody carries the reference. */
  lemma StubsAnchored(l: IdLedger, slug: string, osmRef: string, meta: Meta, fac: Id, crs: Id)
    requires Anchored(l) && fac !in l.entries && crs !in l.entries && fac != crs
    requires !Carried(l, osmRef)
    ensures
      var l2 := WithEntry(WithEntry(l, FacilityStub(fac, slug, osmRef, meta)), CourseStub(fac, crs, osmRef, meta));
      Anchored(l2) && Handled(l2, osmRef)
  {
    WriteAnchored(l, FacilityStub(fac, slug, osmRef, meta));
    var l1 := WithEntry(l, FacilityStub(fac, slug, osmRef, meta));
    forall i ensures !Owns(l1, i, Crs, osmRef) { assert !Owns(l, i, Crs, osmRef); }
    WriteAnchored(l1, CourseStub(fac, crs, osmRef, meta));
    assert Owns(WithEntry(l1, CourseStub(fac, crs, osmRef, meta)), crs, Crs, osmRef);
  }

  lemma ReseedAnchored(l: IdLedger, inc: Incoming, candidates: seq<Candidate>, fac: Id, crs: Id)
    requires Anchored(l)
    requires Fresh(l, ReseedOp(inc, candidates, fac, crs)) && WellKinded(l, ReseedOp(inc, candidates, fac, crs))
    ensures Anchored(Apply(l, ReseedOp(inc, candidates, fac, crs)))
    ensures TookTheRef(Reseed(l, inc, candidates, fac, crs)) ==>
      Handled(Apply(l, ReseedOp(inc, candidates, fac, crs)), inc.osmRef)
  {
    var r := Reseed(l, inc, candidates, fac, crs);
    if r.Ok? && r.value.Matched? {
      MatchedAnchored(l, inc, candidates, fac, crs);
    } else if r.Ok? && r.value.NewlyMinted? {
      MintShape(l, inc.osmRef, inc.desiredSlug, inc.meta, fac, crs);
      NotFoundIsUnowned(l, inc.osmRef);
      StubsAnchored(l, r.value.minted.slug, inc.osmRef, inc.meta, fac, crs);
    }
  }

  /** A direct mint keeps each reference with one course and one facility exactly when nobody carries its own yet. */
  lemma MintAnchoredIff(l: IdLedger, osmRef: string, desired: string, meta: Meta, fac: Id, crs: Id)
    requires Anchored(l) && fac !in l.entries && crs !in l.entries && fac != crs
    requires MintStubFacility(l, osmRef, desired, meta, fac, crs).Ok?
    ensures Anchored(MintStubFacility(l, osmRef, desired, meta, fac, crs).value.ledger) <==> !Carried(l, osmRef)
  {
    var m := MintStubFacility(l, osmRef, desired, meta, fac, crs).value;
    MintShape(l, osmRef, desired, meta, fac, crs);
    if Carried(l, osmRef) {
      var id :| Owns(l, id, Crs, osmRef) || Owns(l, id, Fac, osmRef);
      var kind := l.entries[id].kind;
      assert Owns(m.ledger, id, kind, osmRef) && Owns(m.ledger, if kind == Crs then crs else fac, kind, osmRef);
    } else {
      StubsAnchored(l, m.slug, osmRef, meta, fac, crs);
    }
  }

  /**
   * Operations other than minting and re-seeding hand out no references and leave every entry's references as they
   * were.
   */
  ghost predicate RefsUntouched(l: IdLedger, l': IdLedger) {
    && (forall x :: x in l'.entries && x !in l.entries ==> l'.entries[x].seedRefs == [])
    && (forall x :: x in l.entries ==>
         x in l'.entries && l'.entries[x].seedRefs == l.entries[x].seedRefs && l'.entries[x].kind == l.entries[x].kind)
  }

  lemma RefsUntouchedKeeps(l: IdLedger, l': IdLedger)
    requires RefsOwnedOnce(l) && RefsUntouched(l, l')
    ensures RefsOwnedOnce(l')
  {
    forall i, kind, osmRef | Owns(l', i, kind, osmRef) ensures Owns(l, i, kind, osmRef) {}
  }

  lemma PromotedLinked(l: IdLedger, l': IdLedger, ids: seq<Id>, meta: Meta)
    requires Linked(l) && WellFormed(l) && PromotedExactly(l, l', ids, meta)
    ensures WellFormed(l') && Linked(l') && RefsUntouched(l, l')
  {
    forall x | x in l'.entries
      ensures l'.entries[x].id == x && l'.entries[x].kind == l.entries[x].kind
      ensures l'.entries[x].mergedInto == l.entries[x].mergedInto && l'.entries[x].facilityId == l.entries[x].facilityId
      ensures l'.entries[x].seedRefs == l.entries[x].seedRefs
    {
    }
  }

  lemma SiblingAnchored(l: IdLedger, e: Entry)
    requires WellFormed(l) && Linked(l) && e.id !in l.entries && e.seedRefs == [] && e.mergedInto.None?
      && e.facilityId.Some?
    ensures WellFormed(WithEntry(l, e)) && Linked(WithEntry(l, e)) && RefsUntouched(l, WithEntry(l, e))
  {
  }

  lemma {:induction false} SiblingsAnchored(l: IdLedger, kept: Id, facility: Option<Id>, siblings: seq<Id>, meta: Meta)
    requires WellFormed(l) && Linked(l) && facility.Some?
    requires NoRepeats(siblings) && forall s :: s in siblings ==> s !in l.entries
    ensures WellFormed(AddSiblings(l, kept, facility, siblings, meta))
      && Linked(AddSiblings(l, kept, facility, siblings, meta))
    ensures RefsUntouched(l, AddSiblings(l, kept, facility, siblings, meta))
    decreases |siblings|
  {
    if siblings != [] {
      var e := Sibling(siblings[0], kept, facility, meta);
      var l1 := WithEntry(l, e);
      SiblingAnchored(l, e);
      SiblingsAnchored(l1, kept, facility, siblings[1..], meta);
    }
  }

  lemma PromoteKeeps(l: IdLedger, ids: seq<Id>, meta: Meta)
    requires Anchored(l)
    ensures Anchored(Apply(l, PromoteOp(ids, meta)))
  {
    if PromoteAll(l, ids, meta).Ok? {
      PromotionExactly(l, ids, meta);
      PromotedLinked(l, PromoteAll(l, ids, meta).value, ids, meta);
      RefsUntouchedKeeps(l, PromoteAll(l, ids, meta).value);
    }
  }

  lemma AppendAnchored(l: IdLedger, id: Id, t: Transition)
    requires Anchored(l) && id in l.entries
    ensures Anchored(WithTransition(l, id, t))
  {
    var e := l.entries[id].(transitions := l.entries[id].transitions + [t]);
    forall osmRef, i | osmRef in e.seedRefs && (e.kind == Crs || e.kind == Fac) && Owns(l, i, e.kind, osmRef)
      ensures i == e.id
    {
      assert Owns(l, id, e.kind, osmRef);
    }
    RefsUntouchedKeeps(l, WithEntry(l, e));
  }

  lemma SplitKeeps(l: IdLedger, kept: Id, siblings: seq<Id>, meta: Meta)
    requires Anchored(l) && Fresh(l, SplitOp(kept, siblings, meta)) && WellKinded(l, SplitOp(kept, siblings, meta))
    ensures Anchored(Apply(l, SplitOp(kept, siblings, meta)))
  {
    if kept in l.entries {
      var l1 := AddSiblings(l, kept, l.entries[kept].facilityId, siblings, meta);
      SiblingsAnchored(l, kept, l.entries[kept].facilityId, siblings, meta);
      RefsUntouchedKeeps(l, l1);
      AppendAnchored(l1, kept, Transition(SplitT, meta, "", siblings));
    }
  }

  lemma FoldedLinked(l: IdLedger, l': IdLedger, ids: seq<Id>, survivor: Id)
    requires Linked(l) && Folded(l, l', ids, survivor)
    requires survivor in l.entries
    requires forall id :: id in ids ==> id in l.entries && l.entries[id].kind == l.entries[survivor].kind
    ensures Linked(l') && RefsUntouched(l, l')
  {
    forall x | x in l'.entries && l'.entries[x].mergedInto.Some?
      ensures l'.entries[x].mergedInto.value in l'.entries
        && l'.entries[l'.entries[x].mergedInto.value].kind == l'.entries[x].kind
    {
      assert FoldedEntry(l, l.entries[x], l'.entries[x], x, ids, survivor);
    }
  }

  lemma MergeKeeps(l: IdLedger, ids: seq<Id>, survivor: Id, meta: Meta)
    requires Anchored(l)
    ensures Anchored(Apply(l, MergeOp(ids, survivor, meta)))
  {
    if Merge(l, ids, survivor, meta).Ok? {
      MergeFolds(l, ids, survivor, meta);
      FoldedLinked(l, Merge(l, ids, survivor, meta).value, ids, survivor);
      RefsUntouchedKeeps(l, Merge(l, ids, survivor, meta).value);
    }
  }

  lemma ApplyAnchored(l: IdLedger, op: Op)
    requires Anchored(l) && (op.MintOp? ==> !Carried(l, op.incoming.osmRef)) && Fresh(l, op) && WellKinded(l, op)
    ensures Anchored(Apply(l, op))
  {
    match op
    case MintOp(inc, fac, crs) =>
      if Apply(l, op) != l { MintAnchoredIff(l, inc.osmRef, inc.desiredSlug, inc.meta, fac, crs); }
    case ReseedOp(inc, candidates, fac, crs) => ReseedAnchored(l, inc, candidates, fac, crs);
    case PromoteOp(ids, meta) => PromoteKeeps(l, ids, meta);
    case SplitOp(kept, siblings, meta) => SplitKeeps(l, kept, siblings, meta);
    case MergeOp(ids, survivor, meta) => MergeKeeps(l, ids, survivor, meta);
    case CloseOp(id, meta) =>
      if id in l.entries { AppendAnchored(l, id, Transition(ClosedT, meta, "", [])); }
  }

  /**
   * Over every run that mixes re-seeds, and mints of references nobody carries, with promotions, splits, merges and
   * closings, a reference has one course and one facility.
   */
  lemma {:induction false} RunAnchored(l: IdLedger, ops: seq<Op>)
    requires Anchored(l) && SeedRun(l, ops)
    ensures Anchored(Run(l, ops))
    decreases |ops|
  {
    if ops != [] {
      ApplyAnchored(l, ops[0]);
      RunAnchored(Apply(l, ops[0]), ops[1..]);
    }
  }

  lemma {:induction false} SeedRunIsLegal(l: IdLedger, ops: seq<Op>)
    requires SeedRun(l, ops)
    ensures LegalRun(l, ops)
    decreases |ops|
  {
    if ops != [] { SeedRunIsLegal(Apply(l, ops[0]), ops[1..]); }
  }

  /** A handled reference stays handled through any run. */
  lemma HandledForever(l: IdLedger, ops: seq<Op>, osmRef: string)
    requires Sound(l) && Anchored(l) && SeedRun(l, ops) && Handled(l, osmRef)
    ensures Anchored(Run(l, ops)) && Handled(Run(l, ops), osmRef)
  {
    RunAnchored(l, ops);
    SeedRunIsLegal(l, ops);
    RunSound(l, ops);
    var c :| Owns(l, c, Crs, osmRef);
    assert Grown(l.entries[c], Run(l, ops).entries[c]);
    assert Owns(Run(l, ops), c, Crs, osmRef);
  }

  /** Re-seeding a handled reference answers already-known for any shortlist, and writes nothing. */
  lemma HandledIsKnown(l: IdLedger, inc: Incoming, candidates: seq<Candidate>, fac: Id, crs: Id)
    requires Anchored(l) && Handled(l, inc.osmRef) && IsOsmRef(inc.osmRef)
    ensures Reseed(l, inc, candidates, fac, crs).Ok? && Reseed(l, inc, candidates, fac, crs).value.AlreadyKnown?
    ensures Apply(l, ReseedOp(inc, candidates, fac, crs)) == l
  {
    var c :| Owns(l, c, Crs, inc.osmRef);
    HandledIsFound(l, inc.osmRef, c);
  }

  /**
   * Once a re-seed has matched or minted a reference, every later re-seed of it, after any run and with any
   * shortlist, answers already-known and changes nothing: there is never a second id.
   */
  lemma NeverASecondId(
    ops1: seq<Op>, op: Op, ops2: seq<Op>, inc': Incoming, candidates': seq<Candidate>, fac': Id, crs': Id)
    requires SeedRun(EmptyLedger, ops1) && op.ReseedOp?
    requires Fresh(Run(EmptyLedger, ops1), op) && WellKinded(Run(EmptyLedger, ops1), op)
    requires TookTheRef(Reseed(Run(EmptyLedger, ops1), op.incoming, op.candidates, op.fac, op.crs))
    requires SeedRun(Apply(Run(EmptyLedger, ops1), op), ops2)
    requires inc'.osmRef == op.incoming.osmRef
    ensures var l2 := Run(Apply(Run(EmptyLedger, ops1), op), ops2);
      && Reseed(l2, inc', candidates', fac', crs').Ok?
      && Reseed(l2, inc', candidates', fac', crs').value.AlreadyKnown?
      && Apply(l2, ReseedOp(inc', candidates', fac', crs')) == l2
  {
    var l1 := Run(EmptyLedger, ops1);
    RunAnchored(EmptyLedger, ops1);
    SeedRunIsLegal(EmptyLedger, ops1);
    RunSound(EmptyLedger, ops1);
    ReseedAnchored(l1, op.incoming, op.candidates, op.fac, op.crs);
    ApplySound(l1, op);
    HandledForever(Apply(l1, op), ops2, op.incoming.osmRef);
    HandledIsKnown(Run(Apply(l1, op), ops2), inc', candidates', fac', crs');
  }
}
