/** What holds of emailed unsubscribe links over whole runs with one pepper rotation. */
module UnsubscribeLinks {
  import opened Common
  import opened Signup
  import opened SignupLinks

  /** How a row is stored in a system that has rotated its pepper at most once, from p to q. */
  ghost predicate LinksOf(s: State, e: Email, p: Pepper, q: Pepper)
    requires e in s.rows
  {
    var row := s.rows[e];
    if row.unsubHash == Own(p, e) then row.unsubPrev.None?
    else
      && s.pepper == q && row.unsubHash == Own(q, e)
      && (row.unsubPrev == None || row.unsubPrev == Some(Hash(q, Unsub(p, e))))
  }

  /** What was ever mailed: the address's token under p, and under q once the pepper is q. */
  ghost predicate MailsOf(s: State, e: Email, p: Pepper, q: Pepper) {
    Mailed(s, e) <= {Unsub(p, e), Unsub(q, e)} && (Unsub(q, e) in Mailed(s, e) ==> s.pepper == q)
  }

  ghost predicate OneRotation(s: State, p: Pepper, q: Pepper) {
    && p != q
    && (s.pepper == p || s.pepper == q) && (s.pepper == p ==> s.previous.None?)
    && (s.previous.Some? ==> s.previous.value == p)
    && (forall e :: e in s.rows ==> LinksOf(s, e, p, q))
    && (forall e :: MailsOf(s, e, p, q))
  }

  /** The run starts under p, and only ever rotates once, to q. */
  ghost predicate RotatesOnce(r: Run, p: Pepper, q: Pepper, gate: Setting, day0: Setting) {
    match r
    case Begin(start) => start == p
    case Then(before, ev) =>
      && RotatesOnce(before, p, q, gate, day0)
      && (ev.RotatePepper? ==> ev.next == q && StateOf(before, gate, day0).pepper == p)
  }

  lemma SignupKeepsRowLinks(s: State, ev: Event, e: Email, p: Pepper, q: Pepper)
    requires OneRotation(s, p, q) && ev.SignUp? && e in AfterEvent(s, ev).rows
    ensures LinksOf(AfterEvent(s, ev), e, p, q)
  {
    if e in s.rows { assert LinksOf(s, e, p, q); }
  }

  lemma SignupKeepsLinks(s: State, ev: Event, p: Pepper, q: Pepper)
    requires OneRotation(s, p, q) && ev.SignUp?
    ensures OneRotation(AfterEvent(s, ev), p, q)
  {
    var s1 := AfterEvent(s, ev);
    forall e
      ensures MailsOf(s1, e, p, q)
    {
      assert MailsOf(s, e, p, q);
    }
    forall e | e in s1.rows
      ensures LinksOf(s1, e, p, q)
    {
      SignupKeepsRowLinks(s, ev, e, p, q);
    }
  }

  lemma OthersKeepLinks(s: State, ev: Event, p: Pepper, q: Pepper, gate: Setting, day0: Setting)
    requires OneRotation(s, p, q) && !ev.SignUp? && (ev.RotatePepper? ==> ev.next == q && s.pepper == p)
    ensures OneRotation(After(s, ev, gate, day0), p, q)
  {
    var s1 := After(s, ev, gate, day0);
    forall e
      ensures MailsOf(s1, e, p, q)
    {
      assert MailsOf(s, e, p, q);
    }
    forall e | e in s1.rows
      ensures LinksOf(s1, e, p, q)
    {
      assert LinksOf(s, e, p, q) && MailsOf(s, e, p, q);
      assert s1.rows[e].unsubHash == s.rows[e].unsubHash && s1.rows[e].unsubPrev == s.rows[e].unsubPrev;
    }
  }

  lemma {:induction false} RunKeepsLinks(r: Run, p: Pepper, q: Pepper, gate: Setting, day0: Setting)
    requires p != q && RotatesOnce(r, p, q, gate, day0)
    ensures OneRotation(StateOf(r, gate, day0), p, q)
    decreases r
  {
    match r
    case Begin(_) =>
    case Then(before, ev) =>
      RunKeepsLinks(before, p, q, gate, day0);
      if ev.SignUp? {
        SignupKeepsLinks(StateOf(before, gate, day0), ev, p, q);
      } else {
        OthersKeepLinks(StateOf(before, gate, day0), ev, p, q, gate, day0);
      }
  }

  /** The stored row still knows the pepper the token was derived under. */
  predicate KnowsToken(row: Row, t: Token)
    requires t.Unsub?
  {
    t.pepper == row.unsubHash.pepper || row.unsubPrev.Some?
  }

  lemma LinkResolvesIff(s: State, e: Email, t: Token, p: Pepper, q: Pepper)
    requires HashesOwnRows(s.rows, s.nextNonce) && OneRotation(s, p, q) && t in Mailed(s, e)
    ensures t.Unsub? && ByUnsubToken(s, t) ==
      if e in s.rows && KnowsToken(s.rows[e], t) && (s.previous.Some? || s.rows[e].unsubHash.pepper == s.pepper)
      then Some(e) else None
  {
    assert MailsOf(s, e, p, q);
    assert t.Unsub? && t.email == e;
    forall f, h: Hash | f in s.rows && h.token == t && UnsubHashIs(h)(s.rows[f])
      ensures f == e
    {
    }
    if e in s.rows {
      assert LinksOf(s, e, p, q);
      var h := Hash(s.pepper, t);
      assert UnsubHashIs(h)(s.rows[e]) <==> HasUnsubHash(s.rows[e], h);
      if s.previous.Some? {
        var h0 := Hash(s.previous.value, t);
        assert UnsubHashIs(h0)(s.rows[e]) <==> HasUnsubHash(s.rows[e], h0);
      }
    }
  }

  /**
   * Across one rotation, every unsubscribe link ever emailed to an address: it finds the address's row exactly when
   * there is one, the row was made or migrated so as to know the link's pepper, and the previous pepper is still set
   * or the row is stored under the current one. It never finds another row.
   */
  lemma EmailedLinksResolve(r: Run, e: Email, t: Token, p: Pepper, q: Pepper, gate: Setting, day0: Setting)
    requires p != q && RotatesOnce(r, p, q, gate, day0) && t in Mailed(StateOf(r, gate, day0), e)
    ensures var s := StateOf(r, gate, day0);
      t.Unsub? && ByUnsubToken(s, t) ==
        if e in s.rows && KnowsToken(s.rows[e], t) && (s.previous.Some? || s.rows[e].unsubHash.pepper == s.pepper)
        then Some(e) else None
  {
    RunKeepsHashes(r, gate, day0);
    RunKeepsLinks(r, p, q, gate, day0);
    LinkResolvesIff(StateOf(r, gate, day0), e, t, p, q);
  }

  // ---------------------------------------------------------------- what a request may have read

  /** At some point of the run this was the address's row. */
  ghost predicate WasRow(r: Run, e: Email, row: Row, gate: Setting, day0: Setting) {
    || (e in StateOf(r, gate, day0).rows && StateOf(r, gate, day0).rows[e] == row)
    || (r.Then? && WasRow(r.before, e, row, gate, day0))
  }

  /** Every request read its row at some earlier point of the run. */
  ghost predicate ReadsRows(r: Run, gate: Setting, day0: Setting) {
    r.Then? ==>
      && ReadsRows(r.before, gate, day0)
      && (r.event.SignUp? && r.event.existing.Some? ==>
          WasRow(r.before, r.event.email, r.event.existing.value, gate, day0))
  }

  /** What becomes of a row's links: they stay, or move from p to q and keep the old one. */
  predicate LinksMoved(row: Row, row': Row, e: Email, p: Pepper, q: Pepper) {
    || (row'.unsubHash == row.unsubHash && row'.unsubPrev == row.unsubPrev)
    || (row.unsubHash == Own(p, e) && row'.unsubHash == Own(q, e) && row'.unsubPrev == Some(Hash(q, Unsub(p, e))))
  }

  /** The row read is an earlier state of the row now in the table, or its row is gone. */
  predicate ReadInTime(s: State, e: Email, read: Row, p: Pepper, q: Pepper) {
    read.id < s.nextNonce && (StillThere(s.rows, e, read) ==> LinksMoved(read, s.rows[e], e, p, q))
  }

  predicate Honest(s: State, ev: Event, p: Pepper, q: Pepper) {
    ev.SignUp? && ev.existing.Some? ==> ReadInTime(s, ev.email, ev.existing.value, p, q)
  }

  lemma StepMovesLinks(s: State, ev: Event, e: Email, p: Pepper, q: Pepper, gate: Setting, day0: Setting)
    requires OneRotation(s, p, q) && Honest(s, ev, p, q)
    requires e in s.rows && StillThere(After(s, ev, gate, day0).rows, e, s.rows[e]) && s.rows[e].id < s.nextNonce
    ensures LinksMoved(s.rows[e], After(s, ev, gate, day0).rows[e], e, p, q)
  {
    assert LinksOf(s, e, p, q);
  }

  lemma StepKeepsIds(s: State, ev: Event, e: Email, gate: Setting, day0: Setting)
    requires e in After(s, ev, gate, day0).rows
    ensures var s1 := After(s, ev, gate, day0);
      && s.nextNonce <= s1.nextNonce
      && (s1.rows[e].id == s.nextNonce < s1.nextNonce || (e in s.rows && s1.rows[e].id == s.rows[e].id))
  {
  }

  /** What a request has read is an earlier state of the row it finds, whatever happened in between. */
  lemma {:induction false} ReadRowsAreInTime(
    r: Run, e: Email, read: Row, p: Pepper, q: Pepper, gate: Setting, day0: Setting)
    requires p != q && RotatesOnce(r, p, q, gate, day0) && ReadsRows(r, gate, day0) && WasRow(r, e, read, gate, day0)
    ensures ReadInTime(StateOf(r, gate, day0), e, read, p, q)
    decreases r
  {
    if r.Then? {
      var s, s1, ev := StateOf(r.before, gate, day0), StateOf(r, gate, day0), r.event;
      RunKeepsLinks(r.before, p, q, gate, day0);
      if ev.SignUp? && ev.existing.Some? {
        ReadRowsAreInTime(r.before, ev.email, ev.existing.value, p, q, gate, day0);
      }
      if e in s1.rows { StepKeepsIds(s, ev, e, gate, day0); }
      if e in s.rows { ReadRowsAreInTime(r.before, e, s.rows[e], p, q, gate, day0); }
      if WasRow(r.before, e, read, gate, day0) {
        ReadRowsAreInTime(r.before, e, read, p, q, gate, day0);
        if StillThere(s1.rows, e, read) {
          StepMovesLinks(s, ev, e, p, q, gate, day0);
        }
      }
    }
  }

  // ---------------------------------------------------------------- a resend inside the window

  /** The row of this address stays in the table from one run to the other. */
  ghost predicate RowStays(later: Run, earlier: Run, e: Email, gate: Setting, day0: Setting) {
    e in StateOf(later, gate, day0).rows &&
    (later == earlier || (later.Then? && RowStays(later.before, earlier, e, gate, day0)))
  }

  lemma MigratedStep(s: State, e: Email, ev: Event, p: Pepper, q: Pepper, gate: Setting, day0: Setting)
    requires OneRotation(s, p, q) && Honest(s, ev, p, q) && s.pepper == q && !ev.RotatePepper?
    requires e in s.rows && e in After(s, ev, gate, day0).rows && s.rows[e].unsubHash == Own(q, e)
    ensures var s1 := After(s, ev, gate, day0);
      && s1.pepper == q && Mailed(s, e) <= Mailed(s1, e)
      && s1.rows[e].unsubHash == Own(q, e) && s1.rows[e].unsubPrev == s.rows[e].unsubPrev
  {
  }

  lemma HonestRequest(r: Run, ev: Event, p: Pepper, q: Pepper, gate: Setting, day0: Setting)
    requires p != q && RotatesOnce(r, p, q, gate, day0) && ReadsRows(Then(r, ev), gate, day0)
    ensures OneRotation(StateOf(r, gate, day0), p, q) && Honest(StateOf(r, gate, day0), ev, p, q)
  {
    RunKeepsLinks(r, p, q, gate, day0);
    if ev.SignUp? && ev.existing.Some? {
      ReadRowsAreInTime(r, ev.email, ev.existing.value, p, q, gate, day0);
    }
  }

  /** Once a row is stored under q, its stored links stay, and everything mailed for it stays on record. */
  lemma {:induction false} MigratedRowStays(
    r: Run, later: Run, e: Email, p: Pepper, q: Pepper, gate: Setting, day0: Setting)
    requires p != q && RotatesOnce(later, p, q, gate, day0) && ReadsRows(later, gate, day0)
    requires RowStays(later, r, e, gate, day0) && StateOf(r, gate, day0).pepper == q
    requires e in StateOf(r, gate, day0).rows && StateOf(r, gate, day0).rows[e].unsubHash == Own(q, e)
    ensures var s, s1 := StateOf(r, gate, day0), StateOf(later, gate, day0);
      && s1.pepper == q && Mailed(s, e) <= Mailed(s1, e)
      && s1.rows[e].unsubHash == Own(q, e) && s1.rows[e].unsubPrev == s.rows[e].unsubPrev
    decreases later
  {
    if later != r {
      MigratedRowStays(r, later.before, e, p, q, gate, day0);
      HonestRequest(later.before, later.event, p, q, gate, day0);
      MigratedStep(StateOf(later.before, gate, day0), e, later.event, p, q, gate, day0);
    }
  }

  /** An accepted resend inside the window stores the row under q, and keeps a link it had under p. */
  lemma ResendMigrates(s: State, ev: Event, t: Token, p: Pepper, q: Pepper)
    requires OneRotation(s, p, q) && Honest(s, ev, p, q) && s.previous == Some(p)
    requires ev.SignUp? && ev.email in s.rows && Mints(s, ev)
    requires t in Mailed(s, ev.email) || t == Unsub(q, ev.email)
    ensures var s1, row := AfterEvent(s, ev), s.rows[ev.email];
      && s1.pepper == q && t in Mailed(s1, ev.email) && t.Unsub?
      && ev.email in s1.rows && s1.rows[ev.email].unsubHash == Own(q, ev.email)
      && (KnowsToken(s1.rows[ev.email], t) <==>
          t == Unsub(q, ev.email) || row.unsubHash == Own(p, ev.email) || row.unsubPrev.Some?)
  {
    assert LinksOf(s, ev.email, p, q) && MailsOf(s, ev.email, p, q);
  }

  /**
   * After an accepted resend inside the window, ever after and whether or not the previous pepper is set, while the
   * row lives: the new link works, and an earlier one works exactly when the row was not made anew under q.
   */
  lemma ResendInWindowSavesLinks(
    r: Run, ev: Event, later: Run, t: Token, p: Pepper, q: Pepper, gate: Setting, day0: Setting)
    requires p != q && RotatesOnce(r, p, q, gate, day0) && StateOf(r, gate, day0).previous == Some(p)
    requires ev.SignUp? && ev.email in StateOf(r, gate, day0).rows && Mints(StateOf(r, gate, day0), ev)
    requires ReadsRows(Then(r, ev), gate, day0) && ReadsRows(later, gate, day0)
    requires RotatesOnce(later, p, q, gate, day0) && RowStays(later, Then(r, ev), ev.email, gate, day0)
    requires t in Mailed(StateOf(r, gate, day0), ev.email) || t == Unsub(q, ev.email)
    ensures var row := StateOf(r, gate, day0).rows[ev.email];
      ByUnsubToken(StateOf(later, gate, day0), t) == Some(ev.email) <==>
        t == Unsub(q, ev.email) || row.unsubHash == Own(p, ev.email) || row.unsubPrev.Some?
  {
    HonestRequest(r, ev, p, q, gate, day0);
    ResendMigrates(StateOf(r, gate, day0), ev, t, p, q);
    MigratedRowStays(Then(r, ev), later, ev.email, p, q, gate, day0);
    EmailedLinksResolve(later, ev.email, t, p, q, gate, day0);
  }
}
