/** What re-seeding, promotion and splitting do for a caller: when each succeeds, and exactly what it changes. */
module LedgerMeaning {
  import opened Common
  import opened Ledger
  import opened LedgerOps

  // ---------------------------------------------------------------- re-seeding

  predicate Matches(c: Candidate) { Nearby(c) && NamedAlike(c) }

  /** The i-th candidate is near and alike in name, and no other candidate is both. */
  ghost predicate OnlyMatch(candidates: seq<Candidate>, i: int) {
    0 <= i < |candidates| && Matches(candidates[i])
    && forall j :: 0 <= j < |candidates| && j != i ==> !Matches(candidates[j])
  }

  ghost predicate BothKnown(l: IdLedger, c: Candidate) { c.facilityId in l.entries && c.courseId in l.entries }

  lemma {:induction false} NoneMatches(candidates: seq<Candidate>)
    requires forall j :: 0 <= j < |candidates| ==> !Matches(candidates[j])
    ensures Filter(candidates, Matches) == []
  {
    if candidates != [] { NoneMatches(candidates[1..]); }
  }

  lemma {:induction false} OnlyMatchIsFiltered(candidates: seq<Candidate>, i: int)
    requires OnlyMatch(candidates, i)
    ensures Filter(candidates, Matches) == [candidates[i]]
  {
    if i == 0 {
      NoneMatches(candidates[1..]);
    } else {
      assert OnlyMatch(candidates[1..], i - 1);
      OnlyMatchIsFiltered(candidates[1..], i - 1);
    }
  }

  lemma {:induction false} FilteredOnce(candidates: seq<Candidate>) returns (i: int)
    requires |Filter(candidates, Matches)| == 1
    ensures OnlyMatch(candidates, i)
  {
    var rest := candidates[1..];
    if Matches(candidates[0]) {
      i := 0;
      forall j | 0 < j < |candidates| ensures !Matches(candidates[j]) {
        FilterMember(rest, Matches, candidates[j]);
        assert candidates[j] == rest[j - 1];
      }
    } else {
      i := FilteredOnce(rest);
      i := i + 1;
      forall j | 0 < j < |candidates| && j != i ensures !Matches(candidates[j]) {
        assert candidates[j] == rest[j - 1];
      }
    }
  }

  /** The two filters of a re-seed keep the candidates that are near and alike in name. */
  lemma {:induction false} NamedAreMatches(candidates: seq<Candidate>)
    ensures Filter(Filter(candidates, Nearby), NamedAlike) == Filter(candidates, Matches)
  {
    if candidates != [] {
      NamedAreMatches(candidates[1..]);
      var near, rest := Filter(candidates, Nearby), Filter(candidates[1..], Nearby);
      if Nearby(candidates[0]) { assert near[1..] == rest; } else { assert near == rest; }
      assert [] + Filter(rest, NamedAlike) == Filter(rest, NamedAlike);
    }
  }

  /**
   * A re-seed matches exactly when nobody carries the reference and exactly one nearby candidate has a matching
   * name, both of whose ids the ledger knows; it then names that candidate's ids.
   */
  lemma ReseedMatchesIff(l: IdLedger, inc: Incoming, candidates: seq<Candidate>, fac: Id, crs: Id)
    ensures var r := Reseed(l, inc, candidates, fac, crs);
      r.Ok? && r.value.Matched? <==>
      FindBySeedRef(l, inc.osmRef) == Ok(None) && exists i :: OnlyMatch(candidates, i) && BothKnown(l, candidates[i])
    ensures var r := Reseed(l, inc, candidates, fac, crs);
      r.Ok? && r.value.Matched? ==>
        forall i :: OnlyMatch(candidates, i) ==> r.value.pair == Pair(candidates[i].facilityId, candidates[i].courseId)
  {
    NamedAreMatches(candidates);
    if |Filter(candidates, Matches)| == 1 {
      var i := FilteredOnce(candidates);
      OnlyMatchIsFiltered(candidates, i);
    }
    forall i | OnlyMatch(candidates, i) ensures Filter(candidates, Matches) == [candidates[i]] {
      OnlyMatchIsFiltered(candidates, i);
    }
  }

  /** These facilities, in this order: of all the candidates within 150 m, at these positions. */
  ghost predicate NearbyAt(ids: seq<Id>, candidates: seq<Candidate>, positions: seq<int>) {
    && |positions| == |ids|
    && (forall j, k :: 0 <= j < k < |positions| ==> positions[j] < positions[k])
    && (forall i :: i in positions <==> 0 <= i < |candidates| && candidates[i].distanceMeters <= 150.0)
    && (forall j :: 0 <= j < |positions| && 0 <= positions[j] < |candidates| ==>
         ids[j] == candidates[positions[j]].facilityId)
  }

  ghost predicate ListsNearby(ids: seq<Id>, candidates: seq<Candidate>) {
    exists positions :: NearbyAt(ids, candidates, positions)
  }

  function FacilitiesOf(candidates: seq<Candidate>): seq<Id> {
    seq(|candidates|, i requires 0 <= i < |candidates| => candidates[i].facilityId)
  }

  /** Both within 150 m and at least 0.8 alike in name. */
  predicate NearAndAlike(c: Candidate) { c.distanceMeters <= 150.0 && c.nameSimilarity >= 0.8 }

  ghost predicate OnlyNearAndAlike(candidates: seq<Candidate>, i: int) {
    0 <= i < |candidates| && NearAndAlike(candidates[i])
    && forall j :: 0 <= j < |candidates| && j != i ==> !NearAndAlike(candidates[j])
  }

  lemma {:induction false} NearbyPositions(candidates: seq<Candidate>) returns (positions: seq<int>)
    ensures NearbyAt(FacilitiesOf(Filter(candidates, Nearby)), candidates, positions)
  {
    if candidates == [] {
      positions := [];
    } else {
      var n := |candidates| - 1;
      var init, last := candidates[..n], candidates[n];
      assert candidates == init + [last];
      FilterSnoc(init, last, Nearby);
      var before := NearbyPositions(init);
      positions := before + if Nearby(last) then [n] else [];
      forall j | 0 <= j < |before| ensures 0 <= before[j] < n { assert before[j] in before; }
      forall i ensures i in positions <==> 0 <= i < |candidates| && candidates[i].distanceMeters <= 150.0 {
        if 0 <= i < n { assert candidates[i] == init[i]; }
      }
    }
  }

  lemma NoneNearbyIff(candidates: seq<Candidate>)
    ensures Filter(candidates, Nearby) == [] <==> forall c :: c in candidates ==> c.distanceMeters > 150.0
  {
    forall c ensures c in Filter(candidates, Nearby) <==> c in candidates && Nearby(c) {
      FilterMember(candidates, Nearby, c);
    }
    if Filter(candidates, Nearby) != [] { assert Filter(candidates, Nearby)[0] in Filter(candidates, Nearby); }
  }

  /**
   * A reference nobody carries: with no candidate within 150 m a facility is minted, if the wished slug is well formed;
   * with one or more, the single one that is also alike in name is matched, if the ledger knows its ids; and otherwise
   * the object is ambiguous, and the facilities nearby are listed in order.
   */
  lemma UnknownReferenceOutcome(l: IdLedger, inc: Incoming, candidates: seq<Candidate>, fac: Id, crs: Id)
    requires FindBySeedRef(l, inc.osmRef) == Ok(None)
    ensures var r := Reseed(l, inc, candidates, fac, crs);
      var noneNear := forall c :: c in candidates ==> c.distanceMeters > 150.0;
      && (r.Ok? && r.value.NewlyMinted? <==> noneNear && IsSlug(inc.desiredSlug))
      && (r == Err(NotASlug) <==> noneNear && !IsSlug(inc.desiredSlug))
      && (r.Ok? && r.value.Ambiguous? <==> !noneNear && !exists i :: OnlyNearAndAlike(candidates, i))
      && (r.Ok? && r.value.Ambiguous? ==> ListsNearby(r.value.candidateFacilityIds, candidates))
      && (forall i :: OnlyNearAndAlike(candidates, i) ==>
           var c := candidates[i];
           if c.facilityId !in l.entries then r == Err(UnknownId(c.facilityId))
           else if c.courseId !in l.entries then r == Err(UnknownId(c.courseId))
           else r.Ok? && r.value.Matched? && r.value.pair == Pair(c.facilityId, c.courseId))
  {
    ReseedMatchesIff(l, inc, candidates, fac, crs);
    NoneNearbyIff(candidates);
    SlugForIsFree(l, inc.desiredSlug);
    NamedAreMatches(candidates);
    forall i ensures OnlyMatch(candidates, i) <==> OnlyNearAndAlike(candidates, i) {}
    if |Filter(candidates, Matches)| == 1 { var i := FilteredOnce(candidates); }
    forall i | OnlyMatch(candidates, i) ensures Filter(candidates, Matches) == [candidates[i]] {
      OnlyMatchIsFiltered(candidates, i);
    }
    var positions := NearbyPositions(candidates);
    assert ListsNearby(FacilitiesOf(Filter(candidates, Nearby)), candidates);
  }

  /** What the comment above the match says: exactly one candidate is nearby, and its name matches. */
  ghost predicate CleanMatch(candidates: seq<Candidate>, i: int) {
    0 <= i < |candidates| && Matches(candidates[i])
    && forall j :: 0 <= j < |candidates| && j != i ==> !Nearby(candidates[j])
  }

  ghost predicate OthersNearby(candidates: seq<Candidate>, i: int) {
    exists j :: 0 <= j < |candidates| && j != i && Nearby(candidates[j])
  }

  /**
   * The comment describes the outcome exactly when no nearby candidate stands beside the one with the matching
   * name.
   */
  lemma CommentHoldsIff(l: IdLedger, inc: Incoming, candidates: seq<Candidate>, fac: Id, crs: Id)
    requires FindBySeedRef(l, inc.osmRef) == Ok(None)
    requires forall c :: c in candidates ==> BothKnown(l, c)
    ensures var r := Reseed(l, inc, candidates, fac, crs);
      ((r.Ok? && r.value.Matched?) <==> exists i :: CleanMatch(candidates, i))
      <==> !exists i :: OnlyMatch(candidates, i) && OthersNearby(candidates, i)
  {
    ReseedMatchesIff(l, inc, candidates, fac, crs);
    forall i | CleanMatch(candidates, i) ensures OnlyMatch(candidates, i) && !OthersNearby(candidates, i) {}
    forall i | OnlyMatch(candidates, i) ensures CleanMatch(candidates, i) <==> !OthersNearby(candidates, i) {}
    if i :| OnlyMatch(candidates, i) && OthersNearby(candidates, i) {
      assert forall k :: CleanMatch(candidates, k) ==> k == i;
      assert BothKnown(l, candidates[i]);
    }
    if i :| OnlyMatch(candidates, i) && !OthersNearby(candidates, i) {
      assert CleanMatch(candidates, i);
      assert BothKnown(l, candidates[i]);
    }
  }

  /** Two facilities nearby, one of them with a matching name: a re-seed matches it and reports no ambiguity. */
  lemma SecondNearbyStillMatches(l: IdLedger, inc: Incoming, c: Candidate, other: Candidate, fac: Id, crs: Id)
    requires FindBySeedRef(l, inc.osmRef) == Ok(None) && BothKnown(l, c)
    requires c.distanceMeters == 10.0 && c.nameSimilarity == 0.9
    requires other.distanceMeters == 20.0 && other.nameSimilarity == 0.1
    ensures var r := Reseed(l, inc, [c, other], fac, crs);
      r.Ok? && r.value.Matched? && r.value.pair == Pair(c.facilityId, c.courseId)
    ensures !exists i :: CleanMatch([c, other], i)
  {
    ReseedMatchesIff(l, inc, [c, other], fac, crs);
    assert OnlyMatch([c, other], 0);
    forall i ensures !CleanMatch([c, other], i) {
      if i == 0 { assert Nearby([c, other][1]); }
    }
  }

  // ---------------------------------------------------------------- promotion

  /** The log records a promotion. */
  ghost predicate WasPromoted(e: Entry) { exists i :: 0 <= i < |e.transitions| && e.transitions[i].kind == VerifiedT }

  ghost predicate Promotable(l: IdLedger, id: Id) {
    id in l.entries && !l.entries[id].tombstoned && !WasPromoted(l.entries[id])
  }

  lemma PromotedIff(e: Entry)
    ensures HasVerified(e.transitions) <==> WasPromoted(e)
  {
    if WasPromoted(e) {
      var i :| 0 <= i < |e.transitions| && e.transitions[i].kind == VerifiedT;
      assert e.transitions[i] in e.transitions;
    }
  }

  function Promoted(e: Entry, meta: Meta): Entry {
    e.(status := Some(Verified), transitions := e.transitions + [Transition(VerifiedT, meta, "", [])])
  }

  /** Why promoting `id` after `earlier` ids is refused, judged on the ledger before any promotion. */
  ghost function PromoteRefusal(l: IdLedger, id: Id, earlier: seq<Id>): Option<LedgerError> {
    if id !in l.entries then Some(UnknownId(id))
    else if l.entries[id].tombstoned then Some(IsTombstoned(id))
    else if WasPromoted(l.entries[id]) || id in earlier then Some(AlreadyVerified(id))
    else None
  }

  /** Exactly these entries gained status verified and one event. */
  ghost predicate PromotedExactly(l: IdLedger, l': IdLedger, ids: seq<Id>, meta: Meta) {
    && l'.order == l.order && l'.entries.Keys == l.entries.Keys
    && forall x :: x in l.entries ==> l'.entries[x] == if x in ids then Promoted(l.entries[x], meta) else l.entries[x]
  }

  /** The i-th id is refused with this error, and every id before it is promotable and new. */
  ghost predicate FirstRefused(l: IdLedger, ids: seq<Id>, i: nat, e: LedgerError)
    requires i < |ids|
  {
    && NoRepeats(ids[..i]) && (forall id :: id in ids[..i] ==> Promotable(l, id))
    && PromoteRefusal(l, ids[i], ids[..i]) == Some(e)
  }

  lemma {:induction false} PromoteSnoc(l: IdLedger, ids: seq<Id>, id: Id, meta: Meta)
    ensures PromoteAll(l, ids + [id], meta) ==
      match PromoteAll(l, ids, meta)
      case Err(e) => Err(e)
      case Ok(l1) => PromoteOne(l1, id, meta)
    decreases |ids|
  {
    if ids == [] {
      assert ids + [id] == [id];
    } else {
      assert (ids + [id])[1..] == ids[1..] + [id];
      if PromoteOne(l, ids[0], meta).Ok? { PromoteSnoc(PromoteOne(l, ids[0], meta).value, ids[1..], id, meta); }
    }
  }

  lemma PromoteNext(l: IdLedger, l1: IdLedger, ids: seq<Id>, id: Id, meta: Meta)
    requires WellFormed(l) && PromotedExactly(l, l1, ids, meta)
    ensures match PromoteRefusal(l, id, ids)
      case Some(e) => PromoteOne(l1, id, meta) == Err(e)
      case None => PromoteOne(l1, id, meta).Ok? && PromotedExactly(l, PromoteOne(l1, id, meta).value, ids + [id], meta)
  {
    if id in l.entries {
      PromotedIff(l.entries[id]);
      if id in ids { assert Transition(VerifiedT, meta, "", []) in l1.entries[id].transitions; }
    }
  }

  lemma OneMorePromotion(l: IdLedger, ids: seq<Id>, id: Id, meta: Meta)
    requires WellFormed(l) && PromoteAll(l, ids, meta).Ok? && NoRepeats(ids)
    requires forall x :: x in ids ==> Promotable(l, x)
    requires PromotedExactly(l, PromoteAll(l, ids, meta).value, ids, meta)
    ensures var r := PromoteAll(l, ids + [id], meta);
      && (r.Ok? <==> id !in ids && Promotable(l, id))
      && (r.Ok? ==> PromotedExactly(l, r.value, ids + [id], meta))
      && (r.Err? ==> FirstRefused(l, ids + [id], |ids|, r.error))
  {
    PromoteSnoc(l, ids, id, meta);
    PromoteNext(l, PromoteAll(l, ids, meta).value, ids, id, meta);
    assert (ids + [id])[..|ids|] == ids;
  }

  /**
   * A promotion succeeds exactly when its ids are distinct and each is known, live and never promoted before; it
   * then promotes exactly those entries. Otherwise it reports the first id refused, a repeated one as promoted.
   */
  lemma {:induction false} PromotionExactly(l: IdLedger, ids: seq<Id>, meta: Meta)
    requires WellFormed(l)
    ensures PromoteAll(l, ids, meta).Ok? <==> NoRepeats(ids) && forall id :: id in ids ==> Promotable(l, id)
    ensures PromoteAll(l, ids, meta).Ok? ==> PromotedExactly(l, PromoteAll(l, ids, meta).value, ids, meta)
    ensures PromoteAll(l, ids, meta).Err? ==>
      exists i :: 0 <= i < |ids| && FirstRefused(l, ids, i, PromoteAll(l, ids, meta).error)
    decreases |ids|
  {
    if ids != [] {
      var init, last := ids[..|ids| - 1], ids[|ids| - 1];
      assert ids == init + [last];
      PromotionExactly(l, init, meta);
      NoRepeatsSnoc(init, last);
      if PromoteAll(l, init, meta).Ok? {
        OneMorePromotion(l, init, last, meta);
      } else {
        PromoteSnoc(l, init, last, meta);
        var i :| 0 <= i < |init| && FirstRefused(l, init, i, PromoteAll(l, init, meta).error);
        assert ids[..i] == init[..i];
        assert FirstRefused(l, ids, i, PromoteAll(l, ids, meta).error);
      }
    }
  }

  method PromoteToVerified(l: IdLedger, ids: seq<Id>, meta: Meta) returns (r: Result<IdLedger, LedgerError>)
    requires WellFormed(l)
    ensures r == PromoteAll(l, ids, meta)
    ensures r.Ok? <==> NoRepeats(ids) && forall id :: id in ids ==> Promotable(l, id)
    ensures r.Ok? ==> PromotedExactly(l, r.value, ids, meta)
    ensures r.Err? ==> exists i :: 0 <= i < |ids| && FirstRefused(l, ids, i, r.error)
  {
    PromotionExactly(l, ids, meta);
    var next := l;
    for i := 0 to |ids|
      invariant PromoteAll(next, ids[i..], meta) == PromoteAll(l, ids, meta)
    {
      assert ids[i..][0] == ids[i] && ids[i..][1..] == ids[i + 1..];
      match PromoteOne(next, ids[i], meta)
      case Err(e) => return Err(e);
      case Ok(l1) => next := l1;
    }
    return Ok(next);
  }

  // ---------------------------------------------------------------- splitting

  /** Exactly these siblings were added, at the end. */
  ghost predicate SiblingsAdded(
    l: IdLedger, l': IdLedger, kept: Id, facility: Option<Id>, siblings: seq<Id>, meta: Meta)
  {
    && l'.order == l.order + siblings
    && (forall x :: x in l'.entries <==> x in l.entries || x in siblings)
    && (forall x :: x in l.entries ==> l'.entries[x] == l.entries[x])
    && (forall s :: s in siblings ==> l'.entries[s] == Sibling(s, kept, facility, meta))
  }

  lemma {:induction false} SiblingsExactly(l: IdLedger, kept: Id, facility: Option<Id>, siblings: seq<Id>, meta: Meta)
    requires NoRepeats(siblings) && forall s :: s in siblings ==> s !in l.entries
    ensures SiblingsAdded(l, AddSiblings(l, kept, facility, siblings, meta), kept, facility, siblings, meta)
    decreases |siblings|
  {
    if siblings != [] {
      var e := Sibling(siblings[0], kept, facility, meta);
      var l1 := WithEntry(l, e);
      SiblingsExactly(l1, kept, facility, siblings[1..], meta);
    }
  }

  /** A live, verified course that nothing else is known of, minted in the split and placed at this facility. */
  predicate IsSibling(e: Entry, id: Id, kept: Id, facility: Option<Id>, meta: Meta) {
    && e.id == id && e.kind == Crs && e.status == Some(Verified) && e.facilityId == facility && !e.tombstoned
    && e.slug.None? && e.mergedInto.None? && e.seedRefs == [] && |e.transitions| == 1
    && e.transitions[0] == Transition(MintedT, meta, "split from " + kept, [])
  }

  /**
   * Exactly the siblings were added, at the end, verified and under the kept course's facility; the kept course
   * gained one event that lists them; no other entry changed.
   */
  ghost predicate SplitFrom(l: IdLedger, l': IdLedger, kept: Id, siblings: seq<Id>, meta: Meta)
    requires kept in l.entries
  {
    && l'.order == l.order + siblings
    && (forall x :: x in l'.entries <==> x in l.entries || x in siblings)
    && (forall s :: s in siblings ==> IsSibling(l'.entries[s], s, kept, l.entries[kept].facilityId, meta))
    && l'.entries[kept] ==
       l.entries[kept].(transitions := l.entries[kept].transitions + [Transition(SplitT, meta, "", siblings)])
    && (forall x :: x in l.entries && x != kept ==> l'.entries[x] == l.entries[x])
  }

  /** A split fails only on an unknown course. */
  lemma SplitExactly(l: IdLedger, kept: Id, siblings: seq<Id>, meta: Meta)
    requires WellFormed(l) && NoRepeats(siblings) && forall s :: s in siblings ==> s !in l.entries
    ensures SplitCourse(l, kept, siblings, meta).Ok? <==> kept in l.entries
    ensures kept in l.entries ==> SplitFrom(l, SplitCourse(l, kept, siblings, meta).value, kept, siblings, meta)
  {
    if kept in l.entries { SiblingsExactly(l, kept, l.entries[kept].facilityId, siblings, meta); }
  }

  /** The ids of the new siblings, which the source draws one by one, are passed in. */
  method SplitCourseLoop(l: IdLedger, kept: Id, siblings: seq<Id>, meta: Meta)
    returns (r: Result<IdLedger, LedgerError>)
    requires WellFormed(l) && NoRepeats(siblings) && forall s :: s in siblings ==> s !in l.entries
    ensures r == SplitCourse(l, kept, siblings, meta)
    ensures r == Err(UnknownId(kept)) || r.Ok?
    ensures r.Ok? <==> kept in l.entries
    ensures r.Ok? ==> SplitFrom(l, r.value, kept, siblings, meta)
  {
    SplitExactly(l, kept, siblings, meta);
    if kept !in l.entries { return Err(UnknownId(kept)); }
    var facility := l.entries[kept].facilityId;
    var next := l;
    for i := 0 to |siblings|
      invariant AddSiblings(next, kept, facility, siblings[i..], meta) == AddSiblings(l, kept, facility, siblings, meta)
    {
      assert siblings[i..][0] == siblings[i] && siblings[i..][1..] == siblings[i + 1..];
      next := WithEntry(next, Sibling(siblings[i], kept, facility, meta));
    }
    if kept !in next.entries { return Err(UnknownId(kept)); }
    return Ok(WithTransition(next, kept, Transition(SplitT, meta, "", siblings)));
  }

  // ---------------------------------------------------------------- closing

  /** The one entry gained this event at the end of its log. */
  ghost predicate LoggedOnly(l: IdLedger, l': IdLedger, id: Id, t: Transition) {
    && l'.order == l.order && l'.entries.Keys == l.entries.Keys
    && (forall x :: x in l.entries && x != id ==> l'.entries[x] == l.entries[x])
    && (id in l.entries ==> l'.entries[id] == l.entries[id].(transitions := l.entries[id].transitions + [t]))
  }

  /** Recording a closure fails exactly on an unknown id, and otherwise adds one event to that entry alone. */
  lemma CloseExactly(l: IdLedger, id: Id, meta: Meta)
    requires WellFormed(l)
    ensures RecordClosed(l, id, meta) == Err(UnknownId(id)) <==> id !in l.entries
    ensures id in l.entries ==>
      RecordClosed(l, id, meta).Ok?
      && LoggedOnly(l, RecordClosed(l, id, meta).value, id, Transition(ClosedT, meta, "", []))
  {
  }
}
