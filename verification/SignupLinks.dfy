/** What holds of confirm links and of consent over whole runs, whatever the requests in flight have read. */
module SignupLinks {
  import opened Common
  import opened Signup

  predicate Extends(later: Run, earlier: Run) {
    later == earlier || (later.Then? && Extends(later.before, earlier))
  }

  // ---------------------------------------------------------------- confirm links

  /** No row waits for this token, and none ever will: it has already been drawn. */
  ghost predicate Spent(s: State, t: Token) {
    && t.Confirm? && t.nonce < s.nextNonce
    && forall e :: e in s.rows && s.rows[e].confirmHash.Some? ==> s.rows[e].confirmHash.value.token != t
  }

  lemma SpentStays(s: State, t: Token, ev: Event, gate: Setting, day0: Setting)
    requires Spent(s, t)
    ensures Spent(After(s, ev, gate, day0), t)
  {
  }

  lemma SpentIsNotConfirmable(s: State, t: Token, now: int)
    requires Spent(s, t)
    ensures Confirmable(s, t, now).None?
  {
  }

  lemma {:induction false} SpentInLaterRuns(r: Run, later: Run, t: Token, gate: Setting, day0: Setting)
    requires Extends(later, r) && Spent(StateOf(r, gate, day0), t)
    ensures Spent(StateOf(later, gate, day0), t)
    decreases later
  {
    if later != r {
      SpentInLaterRuns(r, later.before, t, gate, day0);
      SpentStays(StateOf(later.before, gate, day0), t, later.event, gate, day0);
    }
  }

  /** Only this row can wait for the token. */
  ghost predicate OnlyAt(s: State, t: Token, e: Email, id: nat) {
    && t.Confirm? && t.nonce < s.nextNonce && id < s.nextNonce
    && forall f :: f in s.rows && s.rows[f].confirmHash.Some? && s.rows[f].confirmHash.value.token == t ==>
      f == e && s.rows[f].id == id
  }

  lemma FoundIsOnlyAt(s: State, t: Token, now: int, e: Email)
    requires HashesOwnRows(s.rows, s.nextNonce) && Confirmable(s, t, now) == Some(e) && s.rows[e].id < s.nextNonce
    ensures OnlyAt(s, t, e, s.rows[e].id)
  {
    assert s.rows[e].confirmHash == Some(Hash(s.pepper, t));
  }

  lemma OnlyAtStays(s: State, t: Token, e: Email, id: nat, ev: Event, gate: Setting, day0: Setting)
    requires OnlyAt(s, t, e, id)
    ensures OnlyAt(After(s, ev, gate, day0), t, e, id)
  {
  }

  lemma {:induction false} OnlyAtInLaterRuns(
    r: Run, later: Run, t: Token, e: Email, id: nat, gate: Setting, day0: Setting)
    requires Extends(later, r) && OnlyAt(StateOf(r, gate, day0), t, e, id)
    ensures OnlyAt(StateOf(later, gate, day0), t, e, id)
    decreases later
  {
    if later != r {
      OnlyAtInLaterRuns(r, later.before, t, e, id, gate, day0);
      OnlyAtStays(StateOf(later.before, gate, day0), t, e, id, later.event, gate, day0);
    }
  }

  ghost predicate IdsDrawn(s: State) { forall e :: e in s.rows ==> s.rows[e].id < s.nextNonce }

  lemma {:induction false} RunDrawsIds(r: Run, gate: Setting, day0: Setting)
    ensures IdsDrawn(StateOf(r, gate, day0))
    decreases r
  {
    if r.Then? {
      RunDrawsIds(r.before, gate, day0);
      StepDrawsIds(StateOf(r.before, gate, day0), r.event, gate, day0);
    }
  }

  lemma StepDrawsIds(s: State, ev: Event, gate: Setting, day0: Setting)
    requires IdsDrawn(s)
    ensures IdsDrawn(After(s, ev, gate, day0))
  {
  }

  /**
   * Once a submission of a confirm link has written, no later look-up finds the link, whatever happened between its
   * own look-up and its write, and whatever happens next. So of several submissions of one link those that looked it
   * up before the first of them wrote can write too, and no others.
   */
  lemma ConfirmLinkWorksOnce(
    looked: Run, wrote: Run, t: Token, at: int, now: int, later: Run, again: int, gate: Setting, day0: Setting)
    requires Confirmable(StateOf(looked, gate, day0), t, at).Some? && Extends(wrote, looked)
    requires
      var e := Confirmable(StateOf(looked, gate, day0), t, at).value;
      Extends(later, Then(wrote, ConfirmLink(e, StateOf(looked, gate, day0).rows[e], now)))
    ensures Confirmable(StateOf(later, gate, day0), t, again).None?
  {
    var s := StateOf(looked, gate, day0);
    var e := Confirmable(s, t, at).value;
    var r1 := Then(wrote, ConfirmLink(e, s.rows[e], now));
    RunKeepsHashes(looked, gate, day0);
    RunDrawsIds(looked, gate, day0);
    FoundIsOnlyAt(s, t, at, e);
    OnlyAtInLaterRuns(looked, wrote, t, e, s.rows[e].id, gate, day0);
    assert Spent(StateOf(r1, gate, day0), t);
    SpentInLaterRuns(r1, later, t, gate, day0);
    SpentIsNotConfirmable(StateOf(later, gate, day0), t, again);
  }

  // ---------------------------------------------------------------- the life of one confirm link

  /** The row waits for this token, stored under p, until it expires. */
  predicate Waits(s: State, e: Email, t: Token, p: Pepper, expires: int) {
    && e in s.rows
    && s.rows[e].confirmHash == Some(Hash(p, t)) && s.rows[e].confirmExpires == Some(expires)
  }

  /** The sign-up leaves a new confirm link in the address's row. */
  predicate Mints(s: State, ev: Event)
    requires ev.SignUp?
  {
    match ev.existing
    case None => ev.email in s.rows ==> !Active(s.rows[ev.email]) && ev.allowed && ev.accepted
    case Some(read) => !Active(read) && ev.allowed && ev.accepted && StillThere(s.rows, ev.email, read)
  }

  function AfterEvent(s: State, ev: Event): State
    requires ev.SignUp?
  {
    AfterSideEffects(s, ev.email, ev.existing, ev.consent, ev.source, ev.now, ev.allowed, ev.accepted)
  }

  /**
   * What ends a link before its time: a confirmation of its row, be it by an older link looked up earlier; a newer
   * link; or the loss of the row.
   */
  ghost predicate Ends(s: State, ev: Event, e: Email, gate: Setting, day0: Setting) {
    match ev
    case ConfirmLink(f, read, _) => f == e && StillThere(s.rows, e, read)
    case SignUp(f, _, _, _, _, _, _) => f == e && Mints(s, ev)
    case Cron(now) => e in s.rows && Purged(s.rows[e], now, gate, day0)
    case _ => false
  }

  /** Nothing since `minted` has ended the link. */
  ghost predicate Undisturbed(later: Run, minted: Run, e: Email, gate: Setting, day0: Setting) {
    later == minted ||
    (later.Then? && Undisturbed(later.before, minted, e, gate, day0)
     && !Ends(StateOf(later.before, gate, day0), later.event, e, gate, day0))
  }

  /** A confirm mail is allowed and accepted, for an address that reads as not active or as not there. */
  predicate Mails(s: State, ev: Event)
    requires ev.SignUp?
  {
    && ev.allowed && ev.accepted
    && match ev.existing
      case None => ev.email in s.rows ==> !Active(s.rows[ev.email])
      case Some(read) => !Active(read)
  }

  /** The new token waits in the address's row exactly when the sign-up put it there. */
  lemma MintedWaitsIff(s: State, ev: Event)
    requires HashesOwnRows(s.rows, s.nextNonce) && ev.SignUp?
    ensures Waits(AfterEvent(s, ev), ev.email, Confirm(s.nextNonce), s.pepper, ev.now + CONFIRM_TOKEN_TTL_MS)
      <==> Mints(s, ev)
  {
    if ev.email in s.rows && s.rows[ev.email].confirmHash.Some? {
      assert s.rows[ev.email].confirmHash.value.token != Confirm(s.nextNonce);
    }
  }

  lemma UnmintedIsSpent(s: State, ev: Event)
    requires HashesOwnRows(s.rows, s.nextNonce) && ev.SignUp? && Mails(s, ev) && !Mints(s, ev)
    ensures Spent(AfterEvent(s, ev), Confirm(s.nextNonce))
  {
  }

  lemma WaitingRowIsTheRow(s: State, e: Email, t: Token, p: Pepper, expires: int, at: int)
    requires HashesOwnRows(s.rows, s.nextNonce) && Waits(s, e, t, p, expires)
    ensures Confirmable(s, t, at) == if at < expires && s.pepper == p then Some(e) else None
  {
    var h := Hash(s.pepper, t);
    assert ConfirmHashIs(h)(s.rows[e]) <==> s.pepper == p;
    forall f | f in s.rows && ConfirmHashIs(h)(s.rows[f])
      ensures f == e
    {
    }
  }

  lemma WaitingStays(s: State, ev: Event, e: Email, t: Token, p: Pepper, expires: int, gate: Setting, day0: Setting)
    requires HashesOwnRows(s.rows, s.nextNonce) && Waits(s, e, t, p, expires) && !Ends(s, ev, e, gate, day0)
    ensures Waits(After(s, ev, gate, day0), e, t, p, expires)
  {
  }

  lemma EndingSpends(s: State, ev: Event, e: Email, t: Token, p: Pepper, expires: int, gate: Setting, day0: Setting)
    requires HashesOwnRows(s.rows, s.nextNonce) && Waits(s, e, t, p, expires) && Ends(s, ev, e, gate, day0)
    ensures Spent(After(s, ev, gate, day0), t)
  {
    forall f | f in s.rows && f != e && s.rows[f].confirmHash.Some?
      ensures s.rows[f].confirmHash.value.token != t
    {
    }
  }

  lemma {:induction false} WaitsOrSpent(
    minted: Run, later: Run, e: Email, t: Token, p: Pepper, expires: int, gate: Setting, day0: Setting)
    requires Extends(later, minted) && Waits(StateOf(minted, gate, day0), e, t, p, expires)
    ensures if Undisturbed(later, minted, e, gate, day0) then Waits(StateOf(later, gate, day0), e, t, p, expires)
            else Spent(StateOf(later, gate, day0), t)
    decreases later
  {
    if later != minted {
      var s := StateOf(later.before, gate, day0);
      WaitsOrSpent(minted, later.before, e, t, p, expires, gate, day0);
      RunKeepsHashes(later.before, gate, day0);
      if !Undisturbed(later.before, minted, e, gate, day0) {
        SpentStays(s, t, later.event, gate, day0);
      } else if Ends(s, later.event, e, gate, day0) {
        EndingSpends(s, later.event, e, t, p, expires, gate, day0);
      } else {
        WaitingStays(s, later.event, e, t, p, expires, gate, day0);
      }
    }
  }

  /**
   * The confirm link of a new row or of an accepted mail, in any later run: it confirms that address, and no other,
   * exactly when the sign-up's write reached the row, its 48 hours are not over, the pepper is the one it was made
   * under, and since then the row was not confirmed, no newer link replaced it, and retention did not take the row.
   */
  lemma ConfirmLinkLife(r: Run, ev: Event, later: Run, at: int, gate: Setting, day0: Setting)
    requires ev.SignUp? && Extends(later, Then(r, ev))
    requires Mails(StateOf(r, gate, day0), ev) || Mints(StateOf(r, gate, day0), ev)
    ensures var s, s1 := StateOf(r, gate, day0), StateOf(later, gate, day0);
      Confirmable(s1, Confirm(s.nextNonce), at) ==
        if Mints(s, ev) && at < ev.now + 48 * 60 * 60 * 1000 && s1.pepper == s.pepper
           && Undisturbed(later, Then(r, ev), ev.email, gate, day0)
        then Some(ev.email) else None
  {
    var s, e, expires := StateOf(r, gate, day0), ev.email, ev.now + CONFIRM_TOKEN_TTL_MS;
    var t := Confirm(s.nextNonce);
    RunKeepsHashes(r, gate, day0);
    if Mints(s, ev) {
      MintedWaitsIff(s, ev);
      WaitsOrSpent(Then(r, ev), later, e, t, s.pepper, expires, gate, day0);
    } else {
      UnmintedIsSpent(s, ev);
      SpentInLaterRuns(Then(r, ev), later, t, gate, day0);
    }
    if Mints(s, ev) && Undisturbed(later, Then(r, ev), e, gate, day0) {
      RunKeepsHashes(later, gate, day0);
      WaitingRowIsTheRow(StateOf(later, gate, day0), e, t, s.pepper, expires, at);
    } else {
      SpentIsNotConfirmable(StateOf(later, gate, day0), t, at);
    }
  }

  /**
   * An accepted sign-up of an address that is in the table and not active gives a link that works exactly when the
   * row it went by, if it had read one, was not active either and is still there.
   */
  lemma FreshLinkWorksIff(s: State, ev: Event, at: int)
    requires HashesOwnRows(s.rows, s.nextNonce) && ev.SignUp? && ev.allowed && ev.accepted
    requires ev.email in s.rows && !Active(s.rows[ev.email]) && at < ev.now + CONFIRM_TOKEN_TTL_MS
    ensures Confirmable(AfterEvent(s, ev), Confirm(s.nextNonce), at) == Some(ev.email) <==>
      (ev.existing.Some? ==> !Active(ev.existing.value) && StillThere(s.rows, ev.email, ev.existing.value))
  {
    var s1, t := AfterEvent(s, ev), Confirm(s.nextNonce);
    MintedWaitsIff(s, ev);
    SideEffectsKeepHashes(
      s, ev.email, ev.existing, ev.consent, ev.source, ev.now, ev.allowed, ev.accepted);
    if Mints(s, ev) {
      WaitingRowIsTheRow(s1, ev.email, t, s.pepper, ev.now + CONFIRM_TOKEN_TTL_MS, at);
    } else if Mails(s, ev) {
      UnmintedIsSpent(s, ev);
      SpentIsNotConfirmable(s1, t, at);
    }
  }

  // ---------------------------------------------------------------- consent

  /**
   * What an address said last: a confirm link that was recorded, an unsubscribe link that was recorded, or nothing
   * since it has a row.
   */
  datatype Word = Silent | Opened | Closed

  predicate Opens(s: State, ev: Event, e: Email) { ev.ConfirmLink? && ev.email == e && StillThere(s.rows, e, ev.read) }

  predicate Closes(s: State, ev: Event, e: Email) {
    ev.UnsubscribeLink? && ev.email == e && Unsubscribes(s, e, ev.read)
  }

  ghost function LastWord(r: Run, e: Email, gate: Setting, day0: Setting): Word {
    match r
    case Begin(_) => Silent
    case Then(before, ev) =>
      var s := StateOf(before, gate, day0);
      if Opens(s, ev, e) then Opened
      else if Closes(s, ev, e) then Closed
      else if e !in StateOf(r, gate, day0).rows then Silent
      else LastWord(before, e, gate, day0)
  }

  ghost predicate KeepsItsWord(rows: map<Email, Row>, e: Email, w: Word) {
    if e !in rows then w == Silent
    else (Active(rows[e]) <==> w == Opened) && (rows[e].unsubscribedAt.Some? <==> w == Closed)
  }

  lemma SignupKeepsWord(s: State, ev: Event, e: Email, w: Word)
    requires ev.SignUp? && KeepsItsWord(s.rows, e, w)
    ensures KeepsItsWord(AfterEvent(s, ev).rows, e, w)
  {
  }

  lemma OthersKeepWord(s: State, ev: Event, e: Email, w: Word, gate: Setting, day0: Setting)
    requires !ev.SignUp? && KeepsItsWord(s.rows, e, w)
    ensures KeepsItsWord(After(s, ev, gate, day0).rows, e,
                         if Opens(s, ev, e) then Opened else if Closes(s, ev, e) then Closed
                         else if e !in After(s, ev, gate, day0).rows then Silent else w)
  {
  }

  /**
   * In every run an address is open to mail exactly when it last said so by a working confirm link: signing up,
   * resends, retention and rotations never change it.
   */
  lemma {:induction false} OpenMeansConfirmedLast(r: Run, e: Email, gate: Setting, day0: Setting)
    ensures KeepsItsWord(StateOf(r, gate, day0).rows, e, LastWord(r, e, gate, day0))
    decreases r
  {
    match r
    case Begin(_) =>
    case Then(before, ev) =>
      OpenMeansConfirmedLast(before, e, gate, day0);
      var s, w := StateOf(before, gate, day0), LastWord(before, e, gate, day0);
      if ev.SignUp? { SignupKeepsWord(s, ev, e, w); } else { OthersKeepWord(s, ev, e, w, gate, day0); }
  }

  /** A confirm link that works now survives retention exactly when its row is not due as a long unsubscribed one. */
  lemma LiveLinkSurvivesCronIff(s: State, t: Token, now: int, e: Email, gate: Setting, day0: Setting)
    requires HashesOwnRows(s.rows, s.nextNonce) && Confirmable(s, t, now) == Some(e)
    ensures Confirmable(AfterCron(s, now, gate, day0), t, now) == Some(e) <==>
      !(MayPurge(gate, day0, now) && StaleUnsubscribed(s.rows[e], now))
  {
    var s1 := AfterCron(s, now, gate, day0);
    assert ConfirmHashIs(Hash(s.pepper, t))(s.rows[e]);
    if e in s1.rows {
      assert s1.rows[e] == s.rows[e];
      forall f | f in s1.rows && ConfirmHashIs(Hash(s.pepper, t))(s1.rows[f])
        ensures f == e
      {
      }
    }
  }
}
