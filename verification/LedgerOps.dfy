/**
 * The operations that build the next ledger: minting, re-seeding, promotion, splitting, merging and
 * closing. Ids the source mints at random are parameters; a legal run only passes unused ones.
 */
module LedgerOps {
  import opened Common
  import opened Ledger

  // ---------------------------------------------------------------- OSM references

  predicate AllDigits(s: string) {
    s != "" && forall i :: 0 <= i < |s| ==> '0' <= s[i] <= '9'
  }

  predicate HasPrefixThenDigits(s: string, prefix: string) {
    |prefix| < |s| && s[..|prefix|] == prefix && AllDigits(s[|prefix|..])
  }

  predicate IsOsmRef(s: string) {
    HasPrefixThenDigits(s, "node/") || HasPrefixThenDigits(s, "way/") || HasPrefixThenDigits(s, "relation/")
  }

  predicate IsNumeral(s: string) { s != "" && forall i :: 0 <= i < |s| ==> IsDigit(s[i]) }

  lemma AllDigitsIff(s: string)
    ensures AllDigits(s) <==> IsNumeral(s)
  {
    forall i | 0 <= i < |s| ensures IsDigit(s[i]) <==> '0' <= s[i] <= '9' {
      DigitRange(s[i]);
    }
  }

  ghost predicate IsRefOf(s: string, kind: string) { exists digits :: IsNumeral(digits) && s == kind + digits }

  lemma PrefixedIff(s: string, kind: string)
    ensures HasPrefixThenDigits(s, kind) <==> IsRefOf(s, kind)
  {
    if HasPrefixThenDigits(s, kind) {
      AllDigitsIff(s[|kind|..]);
      assert s == kind + s[|kind|..];
    }
    if digits :| IsNumeral(digits) && s == kind + digits {
      AllDigitsIff(digits);
      assert s[|kind|..] == digits;
    }
  }

  /** An element kind, a slash, and one or more digits. */
  lemma OsmRefIff(s: string)
    ensures IsOsmRef(s) <==> IsRefOf(s, "node/") || IsRefOf(s, "way/") || IsRefOf(s, "relation/")
  {
    PrefixedIff(s, "node/");
    PrefixedIff(s, "way/");
    PrefixedIff(s, "relation/");
  }

  // ---------------------------------------------------------------- minting

  datatype Minted = Minted(ledger: IdLedger, facilityId: Id, courseId: Id, slug: string)

  /** One facility and one stub course, both carrying the reference; `fac` and `crs` are the freshly minted ids. */
  function MintStubFacility(l: IdLedger, osmRef: string, desiredSlug: string, meta: Meta, fac: Id, crs: Id)
    : Result<Minted, LedgerError>
  {
    if !IsOsmRef(osmRef) then Err(NotAnOsmRef)
    else
      match SlugFor(l, desiredSlug)
      case Err(e) => Err(e)
      case Ok(slug) =>
        var t := Transition(MintedT, meta, "", []);
        var l1 := WithEntry(l, Entry(fac, Fac, Some(slug), Some(Stub), [t], [osmRef], None, false, None));
        var l2 := WithEntry(l1, Entry(crs, Crs, None, Some(Stub), [t], [osmRef], Some(fac), false, None));
        Ok(Minted(l2, fac, crs, slug))
  }

  // ---------------------------------------------------------------- re-seeding

  datatype Pair = Pair(facilityId: Id, courseId: Id)

  /** A shortlisted facility, with its distance from the incoming object and the similarity of their names. */
  datatype Candidate = Candidate(facilityId: Id, courseId: Id, distanceMeters: real, nameSimilarity: real)
  datatype Incoming = Incoming(osmRef: string, desiredSlug: string, meta: Meta)

  datatype ReseedOutcome =
    | AlreadyKnown(pair: Pair)
    | Matched(pair: Pair, ledger: IdLedger)
    | Ambiguous(candidateFacilityIds: seq<Id>)
    | NewlyMinted(minted: Minted)

  const SPATIAL_MATCH_RADIUS_METERS := 150.0
  const NAME_SIMILARITY_THRESHOLD := 0.8

  predicate Nearby(c: Candidate) { c.distanceMeters <= SPATIAL_MATCH_RADIUS_METERS }
  predicate NamedAlike(c: Candidate) { c.nameSimilarity >= NAME_SIMILARITY_THRESHOLD }

  predicate Owns(l: IdLedger, id: Id, kind: IdKind, osmRef: string) {
    id in l.entries && l.entries[id].kind == kind && osmRef in l.entries[id].seedRefs
  }

  /** The first id in ledger order that satisfies `wanted`. */
  function FirstId(order: seq<Id>, wanted: Id -> bool): Option<Id> {
    if order == [] then None
    else if wanted(order[0]) then Some(order[0])
    else FirstId(order[1..], wanted)
  }

  lemma {:induction false} FirstIdFinds(order: seq<Id>, wanted: Id -> bool)
    ensures FirstId(order, wanted).Some? <==> exists id :: id in order && wanted(id)
    ensures FirstId(order, wanted).Some? ==>
      FirstId(order, wanted).value in order && wanted(FirstId(order, wanted).value)
  {
    if order != [] {
      assert order == [order[0]] + order[1..];
      FirstIdFinds(order[1..], wanted);
    }
  }

  predicate IsLiveCourseOf(l: IdLedger, id: Id, facility: Id) {
    id in l.entries && l.entries[id].kind == Crs && !l.entries[id].tombstoned
      && l.entries[id].facilityId == Some(facility)
  }

  /**
   * Who already carries this reference: the course that owns it, else the facility that does, each followed through
   * its merges.
   */
  function FindBySeedRef(l: IdLedger, osmRef: string): Result<Option<Pair>, LedgerError> {
    if !IsOsmRef(osmRef) then Err(NotAnOsmRef)
    else
      match FirstId(l.order, id => Owns(l, id, Crs, osmRef))
      case Some(owner) =>
        var course := Resolve(l, owner);
        if course !in l.entries then Err(DanglingOwner)
        else if l.entries[course].facilityId.None? then Err(NoFacilityLink)
        else Ok(Some(Pair(l.entries[course].facilityId.value, course)))
      case None =>
        match FirstId(l.order, id => Owns(l, id, Fac, osmRef))
        case None => Ok(None)
        case Some(owner) =>
          var facility := Resolve(l, owner);
          if facility !in l.entries then Err(DanglingOwner)
          else
            match FirstId(l.order, id => IsLiveCourseOf(l, id, facility))
            case None => Err(NoLinkedCourse)
            case Some(course) => Ok(Some(Pair(facility, course)))
  }

  function AddRef(l: IdLedger, id: Id, osmRef: string): IdLedger
    requires id in l.entries
  {
    WithEntry(l, l.entries[id].(seedRefs := l.entries[id].seedRefs + [osmRef]))
  }

  /** A re-seed: known references first, then the shortlist, and only then a new facility. */
  function Reseed(l: IdLedger, incoming: Incoming, candidates: seq<Candidate>, fac: Id, crs: Id)
    : Result<ReseedOutcome, LedgerError>
  {
    match FindBySeedRef(l, incoming.osmRef)
    case Err(e) => Err(e)
    case Ok(Some(pair)) => Ok(AlreadyKnown(pair))
    case Ok(None) =>
      var nearby := Filter(candidates, Nearby);
      if nearby != [] then
        var named := Filter(nearby, NamedAlike);
        if |named| != 1 then Ok(Ambiguous(seq(|nearby|, i requires 0 <= i < |nearby| => nearby[i].facilityId)))
        else
          var m := named[0];
          if m.facilityId !in l.entries then Err(UnknownId(m.facilityId))
          else if m.courseId !in l.entries then Err(UnknownId(m.courseId))
          else
            var l1 := AddRef(l, m.facilityId, incoming.osmRef);
            // the course entry is the one read before the facility's was written
            var c := l.entries[m.courseId];
            Ok(Matched(Pair(m.facilityId, m.courseId), WithEntry(l1, c.(seedRefs := c.seedRefs + [incoming.osmRef]))))
      else
        match MintStubFacility(l, incoming.osmRef, incoming.desiredSlug, incoming.meta, fac, crs)
        case Err(e) => Err(e)
        case Ok(m) => Ok(NewlyMinted(m))
  }

  // ---------------------------------------------------------------- promotion

  function WithTransition(l: IdLedger, id: Id, t: Transition): IdLedger
    requires id in l.entries
  {
    WithEntry(l, l.entries[id].(transitions := l.entries[id].transitions + [t]))
  }

  predicate HasVerified(ts: seq<Transition>) {
    exists t :: t in ts && t.kind == VerifiedT
  }

  function PromoteOne(l: IdLedger, id: Id, meta: Meta): Result<IdLedger, LedgerError> {
    if id !in l.entries then Err(UnknownId(id))
    else if l.entries[id].tombstoned then Err(IsTombstoned(id))
    else if HasVerified(l.entries[id].transitions) then Err(AlreadyVerified(id))
    else
      var l1 := WithEntry(l, l.entries[id].(status := Some(Verified)));
      if id !in l1.entries then Err(UnknownId(id))
      else Ok(WithTransition(l1, id, Transition(VerifiedT, meta, "", [])))
  }

  function PromoteAll(l: IdLedger, ids: seq<Id>, meta: Meta): Result<IdLedger, LedgerError>
    decreases |ids|
  {
    if ids == [] then Ok(l)
    else
      match PromoteOne(l, ids[0], meta)
      case Err(e) => Err(e)
      case Ok(l1) => PromoteAll(l1, ids[1..], meta)
  }

  // ---------------------------------------------------------------- splitting and closing

  /** A course split off from `kept`, verified from the start. */
  function Sibling(id: Id, kept: Id, facility: Option<Id>, meta: Meta): Entry {
    var t := Transition(MintedT, meta, "split from " + kept, []);
    Entry(id, Crs, None, Some(Verified), [t], [], facility, false, None)
  }

  function AddSiblings(l: IdLedger, kept: Id, facility: Option<Id>, siblings: seq<Id>, meta: Meta): IdLedger
    decreases |siblings|
  {
    if siblings == [] then l
    else
      AddSiblings(WithEntry(l, Sibling(siblings[0], kept, facility, meta)), kept, facility, siblings[1..], meta)
  }

  /** New sibling courses under the kept course's facility; the kept id records them. */
  function SplitCourse(l: IdLedger, kept: Id, siblings: seq<Id>, meta: Meta): Result<IdLedger, LedgerError> {
    if kept !in l.entries then Err(UnknownId(kept))
    else
      var l1 := AddSiblings(l, kept, l.entries[kept].facilityId, siblings, meta);
      if kept !in l1.entries then Err(UnknownId(kept))
      else Ok(WithTransition(l1, kept, Transition(SplitT, meta, "", siblings)))
  }

  function RecordClosed(l: IdLedger, id: Id, meta: Meta): Result<IdLedger, LedgerError> {
    if id !in l.entries then Err(UnknownId(id))
    else Ok(WithTransition(l, id, Transition(ClosedT, meta, "", [])))
  }

  // ---------------------------------------------------------------- merging

  /** Why merging `id` into the survivor is refused, judged on the ledger before any merge. */
  function MergeRefusal(l: IdLedger, id: Id, survivor: Id): Option<LedgerError>
    requires survivor in l.entries
  {
    if id !in l.entries then Some(UnknownId(id))
    else if id == survivor then Some(SelfMerge(id))
    else if l.entries[id].kind != l.entries[survivor].kind then Some(CrossKindMerge(id))
    else if Resolve(l, survivor) == id then Some(WouldCycle(id))
    else None
  }

  function FirstRefusal(l: IdLedger, ids: seq<Id>, survivor: Id): Option<LedgerError>
    requires survivor in l.entries
  {
    if ids == [] then None
    else if MergeRefusal(l, ids[0], survivor).Some? then MergeRefusal(l, ids[0], survivor)
    else FirstRefusal(l, ids[1..], survivor)
  }

  predicate CourseOf(e: Entry, facility: Id) { e.kind == Crs && e.facilityId == Some(facility) }

  function Moved(e: Entry, from: Id, to: Id): Entry {
    if CourseOf(e, from) then e.(facilityId := Some(to)) else e
  }

  /** Every course of `from` moved under `to`. */
  function Reparent(l: IdLedger, from: Id, to: Id): IdLedger {
    l.(entries := map id | id in l.entries :: Moved(l.entries[id], from, to))
  }

  function MergeOne(l: IdLedger, id: Id, survivor: Id, meta: Meta): IdLedger
    requires id in l.entries
  {
    var l1 := if l.entries[id].kind == Fac then Reparent(l, id, survivor) else l;
    var e := l1.entries[id].(tombstoned := true, mergedInto := Some(survivor));
    WithEntry(l1, e.(transitions := e.transitions + [Transition(MergedT, meta, "merged into " + survivor, [])]))
  }

  function MergeAll(l: IdLedger, ids: seq<Id>, survivor: Id, meta: Meta): Result<IdLedger, LedgerError>
    decreases |ids|
  {
    if ids == [] then Ok(l)
    else if ids[0] !in l.entries then Err(UnknownId(ids[0]))
    else MergeAll(MergeOne(l, ids[0], survivor, meta), ids[1..], survivor, meta)
  }

  function Merge(l: IdLedger, ids: seq<Id>, survivor: Id, meta: Meta): Result<IdLedger, LedgerError> {
    if survivor !in l.entries then Err(UnknownId(survivor))
    else if FirstRefusal(l, ids, survivor).Some? then Err(FirstRefusal(l, ids, survivor).value)
    else MergeAll(l, ids, survivor, meta)
  }

  /** The re-parenting loop: one entry at a time, in ledger order. */
  method ReparentLoop(l: IdLedger, from: Id, to: Id) returns (next: IdLedger)
    requires WellFormed(l)
    ensures next == Reparent(l, from, to)
  {
    next := l;
    for i := 0 to |l.order|
      invariant next.order == l.order && next.entries.Keys == l.entries.Keys
      invariant forall k :: 0 <= k < i ==> next.entries[l.order[k]] == Moved(l.entries[l.order[k]], from, to)
      invariant forall k :: i <= k < |l.order| ==> next.entries[l.order[k]] == l.entries[l.order[k]]
    {
      var e := l.entries[l.order[i]];
      if CourseOf(e, from) {
        next := WithEntry(next, e.(facilityId := Some(to)));
      }
    }
    assert next.entries == Reparent(l, from, to).entries;
  }

  method TombstoneInto(l: IdLedger, id: Id, survivor: Id, meta: Meta) returns (next: IdLedger)
    requires WellFormed(l) && id in l.entries
    ensures next == MergeOne(l, id, survivor, meta)
    ensures WellFormed(next)
  {
    next := l;
    if l.entries[id].kind == Fac {
      next := ReparentLoop(next, id, survivor);
    }
    next := WithEntry(next, next.entries[id].(tombstoned := true, mergedInto := Some(survivor)));
    next := WithTransition(next, id, Transition(MergedT, meta, "merged into " + survivor, []));
    assert next.entries == MergeOne(l, id, survivor, meta).entries;
  }

  method MergeIntoSurvivor(
    l: IdLedger, ids: seq<Id>, survivor: Id, meta: Meta) returns (r: Result<IdLedger, LedgerError>)
    requires WellFormed(l)
    ensures r == Merge(l, ids, survivor, meta)
  {
    if survivor !in l.entries { return Err(UnknownId(survivor)); }
    for i := 0 to |ids|
      invariant FirstRefusal(l, ids[i..], survivor) == FirstRefusal(l, ids, survivor)
    {
      assert ids[i..][0] == ids[i] && ids[i..][1..] == ids[i + 1..];
      var refusal := MergeRefusal(l, ids[i], survivor);
      if refusal.Some? { return Err(refusal.value); }
    }
    var next := l;
    for i := 0 to |ids|
      invariant WellFormed(next)
      invariant MergeAll(next, ids[i..], survivor, meta) == MergeAll(l, ids, survivor, meta)
    {
      assert ids[i..][0] == ids[i] && ids[i..][1..] == ids[i + 1..];
      if ids[i] !in next.entries { return Err(UnknownId(ids[i])); }
      next := TombstoneInto(next, ids[i], survivor, meta);
    }
    return Ok(next);
  }
}
