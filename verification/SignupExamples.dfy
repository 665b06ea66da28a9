/** Short runs on which an emailed link is dead or dies early, or a request that read too early does harm. */
module SignupExamples {
  import opened Common
  import opened Signup
  import opened SignupLinks
  import opened UnsubscribeLinks

  /** A request that acts on the row it has just read; its mail is accepted. */
  ghost function SignsUp(r: Run, e: Email, consent: string, now: int, gate: Setting, day0: Setting): Run {
    var rows := StateOf(r, gate, day0).rows;
    Then(r, SignUp(e, if e in rows then Some(rows[e]) else None, consent, None, now, true, true))
  }

  lemma SignsUpAtomically(r: Run, e: Email, consent: string, now: int, gate: Setting, day0: Setting)
    ensures StateOf(SignsUp(r, e, consent, now, gate, day0), gate, day0) ==
      AfterSignup(StateOf(r, gate, day0), e, consent, None, now, true, true)
  {
  }

  /** The address's confirm link, looked up and recorded at once. */
  ghost function Confirms(r: Run, e: Email, now: int, gate: Setting, day0: Setting): Run {
    var rows := StateOf(r, gate, day0).rows;
    if e in rows then Then(r, ConfirmLink(e, rows[e], now)) else r
  }

  /** Its unsubscribe link, likewise. */
  ghost function Leaves(r: Run, e: Email, now: int, gate: Setting, day0: Setting): Run {
    var rows := StateOf(r, gate, day0).rows;
    if e in rows then Then(r, UnsubscribeLink(e, rows[e], now)) else r
  }

  /** The table after the first sign-up. */
  lemma FirstSignup(e: Email, consent: string, p: Pepper, gate: Setting, day0: Setting)
    ensures var s := StateOf(SignsUp(Begin(p), e, consent, 0, gate, day0), gate, day0);
      && s.rows == map[e := NewRow(p, e, consent, None, 0, 0)] && s.nextNonce == 1
      && s.pepper == p && s.previous == None && Mailed(s, e) == {Unsub(p, e)}
  {
  }

  // ---------------------------------------------------------------- a resend after the window

  /** Sign up, rotate, unset the previous pepper. */
  ghost function WindowOver(e: Email, consent: string, p: Pepper, q: Pepper, gate: Setting, day0: Setting): Run {
    Then(Then(SignsUp(Begin(p), e, consent, 0, gate, day0), RotatePepper(q)), UnsetPrevious)
  }

  /** The mail of a sign-up after the window carries an unsubscribe link that was never good. */
  lemma LateResendMailsADeadLink(e: Email, consent: string, p: Pepper, q: Pepper, gate: Setting, day0: Setting)
    requires p != q
    ensures var r := SignsUp(WindowOver(e, consent, p, q, gate, day0), e, consent, 0, gate, day0);
      var s := StateOf(r, gate, day0);
      && RotatesOnce(r, p, q, gate, day0) && e in s.rows
      && Unsub(q, e) in Mailed(s, e) && ByUnsubToken(s, Unsub(q, e)) == None
  {
    var r0 := WindowOver(e, consent, p, q, gate, day0);
    var r := SignsUp(r0, e, consent, 0, gate, day0);
    FirstSignup(e, consent, p, gate, day0);
    SignsUpAtomically(r0, e, consent, 0, gate, day0);
    assert RotatesOnce(r0.before.before, p, q, gate, day0) && RotatesOnce(r0.before, p, q, gate, day0);
    EmailedLinksResolve(r, e, Unsub(q, e), p, q, gate, day0);
  }

  // ---------------------------------------------------------------- a row made anew

  const MONTH_LATER := 31 * DAY_MS

  /** Sign up, let retention take the unconfirmed row, rotate: the previous pepper is still set. */
  ghost function RowTaken(e: Email, consent: string, p: Pepper, q: Pepper, gate: Setting, day0: Setting): Run {
    Then(Then(SignsUp(Begin(p), e, consent, 0, gate, day0), Cron(MONTH_LATER)), RotatePepper(q))
  }

  /** A row made anew after the rotation does not know the link mailed for its predecessor. */
  lemma RebuiltRowForgetsOldLink(e: Email, consent: string, p: Pepper, q: Pepper, gate: Setting, day0: Setting)
    requires p != q
    ensures var r := SignsUp(RowTaken(e, consent, p, q, gate, day0), e, consent, MONTH_LATER, gate, day0);
      var s := StateOf(r, gate, day0);
      && RotatesOnce(r, p, q, gate, day0) && e in s.rows
      && s.previous == Some(p) && s.rows[e].unsubHash.pepper == s.pepper
      && Unsub(p, e) in Mailed(s, e) && ByUnsubToken(s, Unsub(p, e)) == None
  {
    var r0 := RowTaken(e, consent, p, q, gate, day0);
    var r := SignsUp(r0, e, consent, MONTH_LATER, gate, day0);
    FirstSignup(e, consent, p, gate, day0);
    assert e !in StateOf(r0, gate, day0).rows;
    SignsUpAtomically(r0, e, consent, MONTH_LATER, gate, day0);
    assert RotatesOnce(r0.before.before, p, q, gate, day0) && RotatesOnce(r0.before, p, q, gate, day0);
    EmailedLinksResolve(r, e, Unsub(p, e), p, q, gate, day0);
  }

  // ---------------------------------------------------------------- a live link and retention

  /** Sign up, confirm, unsubscribe. */
  ghost function Left(e: Email, consent: string, p: Pepper, gate: Setting, day0: Setting): Run {
    Leaves(Confirms(SignsUp(Begin(p), e, consent, 0, gate, day0), e, 1, gate, day0), e, 2, gate, day0)
  }

  /**
   * An address that left and comes back when the grace period is over: its fresh confirm link works, and the
   * retention run of the same instant takes the row and the link with it.
   */
  lemma RetentionCanTakeALiveLink(e: Email, consent: string, p: Pepper, closes: int)
    requires closes >= GATE_FLOOR
    ensures var gate, day0 := At(closes), At(closes - K2_GATE_WINDOW_DAYS * DAY_MS);
      var now := closes + K2_VERDICT_GRACE_DAYS * DAY_MS;
      var s := StateOf(SignsUp(Left(e, consent, p, gate, day0), e, consent, now, gate, day0), gate, day0);
      && Confirmable(s, Confirm(1), now) == Some(e)
      && Confirmable(AfterCron(s, now, gate, day0), Confirm(1), now) == None
  {
  }

  // ---------------------------------------------------------------- a request that read too early

  /** A second request reads the row of a subscriber, who then unsubscribes, and only then the request goes on. */
  ghost function ReadTooEarly(e: Email, consent: string, p: Pepper, gate: Setting, day0: Setting): Run {
    var r := Confirms(SignsUp(Begin(p), e, consent, 0, gate, day0), e, 1, gate, day0);
    var s := StateOf(r, gate, day0);
    if e !in s.rows then r
    else Then(Leaves(r, e, 2, gate, day0), SignUp(e, Some(s.rows[e]), consent, None, 3, true, true))
  }

  /** The request saw an active subscriber, so the address, unsubscribed by now, gets no link to come back with. */
  lemma StaleReadSendsNothing(e: Email, consent: string, p: Pepper, gate: Setting, day0: Setting)
    ensures var r := ReadTooEarly(e, consent, p, gate, day0);
      && r.Then? && r.event.SignUp? && r.event.allowed && r.event.accepted && ReadsRows(r, gate, day0)
      && StateOf(r, gate, day0) == StateOf(r.before, gate, day0)
      && e in StateOf(r, gate, day0).rows && !Active(StateOf(r, gate, day0).rows[e])
  {
    var r1 := SignsUp(Begin(p), e, consent, 0, gate, day0);
    var r2 := Confirms(r1, e, 1, gate, day0);
    FirstSignup(e, consent, p, gate, day0);
    assert ReadsRows(r1, gate, day0) && ReadsRows(r2, gate, day0);
    assert WasRow(r2, e, StateOf(r2, gate, day0).rows[e], gate, day0);
  }

  /** A second request reads the row, retention takes it, and then the request goes on. */
  ghost function TakenMeanwhile(e: Email, consent: string, p: Pepper, gate: Setting, day0: Setting): Run {
    var r := SignsUp(Begin(p), e, consent, 0, gate, day0);
    var s := StateOf(r, gate, day0);
    if e !in s.rows then r
    else Then(Then(r, Cron(MONTH_LATER)), SignUp(e, Some(s.rows[e]), consent, None, MONTH_LATER, true, true))
  }

  /** Its mail is accepted, but there is no row to write its link into: the link is dead from the start. */
  lemma TakenRowMailsADeadLink(e: Email, consent: string, p: Pepper, at: int, gate: Setting, day0: Setting)
    ensures var r := TakenMeanwhile(e, consent, p, gate, day0);
      && r.Then? && ReadsRows(r, gate, day0)
      && r.event.SignUp? && Mails(StateOf(r.before, gate, day0), r.event)
      && StateOf(r.before, gate, day0).nextNonce == 1
      && e !in StateOf(r, gate, day0).rows && Confirmable(StateOf(r, gate, day0), Confirm(1), at).None?
  {
    var r1 := SignsUp(Begin(p), e, consent, 0, gate, day0);
    FirstSignup(e, consent, p, gate, day0);
    assert ReadsRows(r1, gate, day0) && WasRow(r1, e, StateOf(r1, gate, day0).rows[e], gate, day0);
    assert StateOf(Then(r1, Cron(MONTH_LATER)), gate, day0).rows == map[];
  }

  // ---------------------------------------------------------------- one link submitted twice

  /**
   * The confirm link is submitted twice, and both submissions look it up before either writes; the address
   * unsubscribes between the two writes.
   */
  ghost function SubmittedTwice(e: Email, consent: string, p: Pepper, gate: Setting, day0: Setting): Run {
    var s := StateOf(SignsUp(Begin(p), e, consent, 0, gate, day0), gate, day0);
    var r := Left(e, consent, p, gate, day0);
    if e in s.rows then Then(r, ConfirmLink(e, s.rows[e], 3)) else r
  }

  /** The later write opens an address again that has unsubscribed, with a link that was used before. */
  lemma LateWriteReopens(e: Email, consent: string, p: Pepper, gate: Setting, day0: Setting)
    ensures var r := SubmittedTwice(e, consent, p, gate, day0);
      && r.Then? && r.before == Left(e, consent, p, gate, day0) && r.before.Then? && r.before.before.Then?
      && var s0 := StateOf(r.before.before.before, gate, day0);
      var s2, s3 := StateOf(r.before, gate, day0), StateOf(r, gate, day0);
      && Confirmable(s0, Confirm(0), 1) == Some(e) && r.event == ConfirmLink(e, s0.rows[e], 3)
      && r.before.before.event == ConfirmLink(e, s0.rows[e], 1)
      && e in s2.rows && s2.rows[e].unsubscribedAt == Some(2) && Confirmable(s2, Confirm(0), 3).None?
      && e in s3.rows && Active(s3.rows[e])
  {
  }
}
