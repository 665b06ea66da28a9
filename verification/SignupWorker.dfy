/**
 * The worker's handlers, each one a sequence of reads and writes of the signups table (apps/signup-
 * worker/src/index.ts and db.ts).
 */
module SignupWorker {
  import opened Common
  import opened Signup

  function WithoutUnconfirmed(rows: map<Email, Row>, now: int): map<Email, Row> {
    map e | e in rows && !StaleUnconfirmed(rows[e], now) :: rows[e]
  }

  function WithoutUnsubscribed(rows: map<Email, Row>, now: int): map<Email, Row> {
    map e | e in rows && !StaleUnsubscribed(rows[e], now) :: rows[e]
  }

  function AllUnconfirmed(rows: map<Email, Row>, now: int): set<Email> {
    set e | e in rows && StaleUnconfirmed(rows[e], now)
  }

  function AllUnsubscribed(rows: map<Email, Row>, now: int): set<Email> {
    set e | e in rows && StaleUnsubscribed(rows[e], now)
  }

  /** What a delete takes and what it leaves add up. */
  lemma PartsAddUp(rows: map<Email, Row>, taken: set<Email>, left: map<Email, Row>)
    requires taken <= rows.Keys && left.Keys == rows.Keys - taken
    ensures |rows| == |taken| + |left|
  {
    assert rows.Keys == taken + left.Keys;
    assert |rows| == |rows.Keys| && |left| == |left.Keys|;
  }

  lemma TwoDeletes(s: State, now: int, gate: Setting, day0: Setting)
    ensures AfterCron(s, now, gate, day0).rows ==
      (if MayPurge(gate, day0, now) then WithoutUnsubscribed(WithoutUnconfirmed(s.rows, now), now)
       else WithoutUnconfirmed(s.rows, now))
  {
    var first := WithoutUnconfirmed(s.rows, now);
    var last := if MayPurge(gate, day0, now) then WithoutUnsubscribed(first, now) else first;
    forall e
      ensures e in last <==> e in AfterCron(s, now, gate, day0).rows
    {
    }
  }

  class Worker {
    var rows: map<Email, Row>
    var pepper: Pepper
    var previous: Option<Pepper>
    var nextNonce: nat
    ghost var mailed: map<Email, set<Token>>

    ghost function Now(): State
      reads this
    {
      State(rows, pepper, previous, nextNonce, mailed)
    }

    ghost predicate Valid()
      reads this
    {
      HashesOwnRows(rows, nextNonce)
    }

    constructor (pepper: Pepper)
      ensures Valid() && Now() == State(map[], pepper, None, 0, map[])
    {
      rows, this.pepper, previous, nextNonce, mailed := map[], pepper, None, 0, map[];
    }

    // -------------------------------------------------------------- one statement each

    /** Inserts nothing when the address already has a row. */
    method CreatePendingSignup(e: Email, row: Row) returns (inserted: bool)
      modifies this`rows
      ensures inserted == (e !in old(rows))
      ensures rows == if inserted then old(rows)[e := row] else old(rows)
    {
      inserted := e !in rows;
      if inserted { rows := rows[e := row]; }
    }

    method GenerateToken() returns (t: Token)
      modifies this`nextNonce
      ensures t == Confirm(old(nextNonce)) && nextNonce == old(nextNonce) + 1
    {
      t := Confirm(nextNonce);
      nextNonce := nextNonce + 1;
    }

    method FindByConfirmTokenHash(h: Hash) returns (found: Option<Email>)
      requires Valid()
      ensures found == TheRow(rows, ConfirmHashIs(h))
    {
      if exists e :: e in rows && rows[e].confirmHash == Some(h) {
        var e :| e in rows && rows[e].confirmHash == Some(h);
        assert ConfirmHashIs(h)(rows[e]);
        return Some(e);
      }
      return None;
    }

    method FindByUnsubscribeTokenHash(h: Hash) returns (found: Option<Email>)
      requires Valid()
      ensures found == TheRow(rows, UnsubHashIs(h))
    {
      if exists e :: e in rows && (rows[e].unsubHash == h || rows[e].unsubPrev == Some(h)) {
        var e :| e in rows && (rows[e].unsubHash == h || rows[e].unsubPrev == Some(h));
        assert UnsubHashIs(h)(rows[e]);
        return Some(e);
      }
      return None;
    }

    method DeleteStaleUnconfirmed(now: int) returns (deleted: nat)
      modifies this`rows
      ensures rows == WithoutUnconfirmed(old(rows), now)
      ensures deleted == |AllUnconfirmed(old(rows), now)|
    {
      var left := WithoutUnconfirmed(rows, now);
      PartsAddUp(rows, AllUnconfirmed(rows, now), left);
      deleted := |rows| - |left|;
      rows := left;
    }

    method DeleteStaleUnsubscribed(now: int) returns (deleted: nat)
      modifies this`rows
      ensures rows == WithoutUnsubscribed(old(rows), now)
      ensures deleted == |AllUnsubscribed(old(rows), now)|
    {
      var left := WithoutUnsubscribed(rows, now);
      PartsAddUp(rows, AllUnsubscribed(rows, now), left);
      deleted := |rows| - |left|;
      rows := left;
    }

    // -------------------------------------------------------------- signing up

    /** Re-hashes a row the last rotation left under the previous pepper, going by the row as read. */
    method MaybeMigrateUnsubscribeHash(e: Email, read: Row)
      modifies this`rows
      ensures rows ==
        if StillThere(old(rows), e, read)
        then old(rows)[e := MigratedFrom(old(rows)[e], read.unsubHash, pepper, previous, e)]
        else old(rows)
    {
      var currentHash := Hash(pepper, Unsub(pepper, e));
      if read.unsubHash == currentHash { return; }
      if previous.None? { return; }
      var previousToken := Unsub(previous.value, e);
      if read.unsubHash != Hash(previous.value, previousToken) { return; }
      if StillThere(rows, e, read) {
        rows := rows[e := rows[e].(unsubHash := currentHash, unsubPrev := Some(Hash(pepper, previousToken)))];
      }
    }

    /** Tokens rotate only once the new mail has been accepted. */
    method RotateAndSendIfAllowed(
      e: Email, read: Row, consent: string, source: Option<string>, now: int, allowed: bool, accepted: bool)
      modifies this
      ensures Now() == AfterResendOf(old(Now()), e, read, consent, source, now, allowed, allowed && accepted)
    {
      if !allowed { return; }
      var token := GenerateToken();
      if !accepted { return; }
      mailed := mailed[e := Mailed(Now(), e) + {Unsub(pepper, e)}];
      if StillThere(rows, e, read) {
        rows := rows[e := rows[e].(
          consent := consent, source := if source.Some? then source else read.source,
          confirmHash := Some(Hash(pepper, token)), confirmExpires := Some(now + CONFIRM_TOKEN_TTL_MS))];
      }
      MaybeMigrateUnsubscribeHash(e, read);
    }

    /**
     * `existing` is the row the request read before its side effects ran, if any; the table may have moved on since.
     */
    method RunSignupSideEffects(
      e: Email, consent: string, source: Option<string>, existing: Option<Row>, now: int, allowed: bool, accepted: bool)
      requires Valid()
      modifies this
      ensures Valid() && Now() == AfterSideEffects(old(Now()), e, existing, consent, source, now, allowed, accepted)
    {
      ghost var before := Now();
      if existing.None? {
        MakeOrResend(e, consent, source, now, allowed, accepted);
      } else if !Active(existing.value) {
        RotateAndSendIfAllowed(e, existing.value, consent, source, now, allowed, accepted);
      }
      SideEffectsKeepHashes(before, e, existing, consent, source, now, allowed, accepted);
    }

    /** A request that read no row: it makes one, unless another has made it meanwhile. */
    method MakeOrResend(e: Email, consent: string, source: Option<string>, now: int, allowed: bool, accepted: bool)
      modifies this
      ensures Now() == AfterSignup(old(Now()), e, consent, source, now, allowed, accepted)
    {
      ghost var before := Now();
      var token := Confirm(nextNonce);
      var row := Row(nextNonce, consent, source, now, None, None, Some(Hash(pepper, token)),
                     Some(now + CONFIRM_TOKEN_TTL_MS), Hash(pepper, Unsub(pepper, e)), None);
      var inserted := CreatePendingSignup(e, row);
      if inserted {
        nextNonce := nextNonce + 1;
        mailed := mailed[e := Mailed(Now(), e) + if allowed && accepted then {Unsub(pepper, e)} else {}];
        return;
      }
      var raced := rows[e];
      if Active(raced) { return; }
      UnchangedRowIsAtomic(before, e, Some(raced), consent, source, now, allowed, accepted);
      RotateAndSendIfAllowed(e, raced, consent, source, now, allowed, accepted);
    }

    // -------------------------------------------------------------- links

    /** The row a confirm link finds, unless it has expired. */
    method FindConfirmable(t: Token, now: int) returns (found: Option<Email>)
      requires Valid()
      ensures found == Confirmable(Now(), t, now)
    {
      found := FindByConfirmTokenHash(Hash(pepper, t));
      if found.None? { return; }
      var row := rows[found.value];
      if row.confirmExpires.None? || row.confirmExpires.value <= now { return None; }
    }

    /** Writes by id, whatever has become of the row since it was read. */
    method RecordConfirmation(e: Email, read: Row, now: int)
      modifies this`rows
      ensures Now() == AfterConfirmOf(old(Now()), e, read, now)
    {
      if StillThere(rows, e, read) {
        rows := rows[e := rows[e].(
          confirmedAt := if rows[e].confirmedAt.Some? then rows[e].confirmedAt else Some(now), unsubscribedAt := None,
          confirmHash := None, confirmExpires := None)];
      }
    }

    method HandleConfirmSubmit(t: Token, now: int) returns (ok: bool)
      requires Valid()
      modifies this`rows
      ensures Valid() && Now() == AfterConfirm(old(Now()), t, now) && (ok <==> Confirmable(old(Now()), t, now).Some?)
    {
      var found := FindConfirmable(t, now);
      if found.None? { return false; }
      ConfirmKeepsHashes(Now(), found.value, rows[found.value], now);
      RecordConfirmation(found.value, rows[found.value], now);
      ok := true;
    }

    /** The current pepper first, then the previous one. */
    method FindRowByRawUnsubscribeToken(t: Token) returns (found: Option<Email>)
      requires Valid()
      ensures found == ByUnsubToken(Now(), t)
    {
      found := FindByUnsubscribeTokenHash(Hash(pepper, t));
      if found.None? && previous.Some? {
        found := FindByUnsubscribeTokenHash(Hash(previous.value, t));
      }
    }

    /** Writes by id, unless the row was read as unsubscribed. */
    method MarkUnsubscribed(e: Email, read: Row, now: int)
      modifies this`rows
      ensures Now() == AfterUnsubscribeOf(old(Now()), e, read, now)
    {
      if read.unsubscribedAt.None? {
        if StillThere(rows, e, read) { rows := rows[e := rows[e].(unsubscribedAt := Some(now))]; }
      }
    }

    method HandleUnsubscribeSubmit(t: Token, now: int) returns (ok: bool)
      requires Valid()
      modifies this`rows
      ensures Valid() && Now() == AfterUnsubscribe(old(Now()), t, now) && (ok <==> ByUnsubToken(old(Now()), t).Some?)
    {
      var found := FindRowByRawUnsubscribeToken(t);
      if found.None? { return false; }
      UnsubscribeKeepsHashes(Now(), found.value, rows[found.value], now);
      MarkUnsubscribed(found.value, rows[found.value], now);
      ok := true;
    }

    // -------------------------------------------------------------- retention

    /** Both deletes in turn; the second only when it may run. */
    method PurgeRows(now: int, gate: Setting, day0: Setting, both: bool) returns (unconfirmed: nat, unsubscribed: nat)
      requires both == MayPurge(gate, day0, now)
      modifies this`rows
      ensures rows == AfterCron(old(Now()), now, gate, day0).rows
      ensures unconfirmed == |AllUnconfirmed(old(rows), now)|
      ensures unsubscribed == if both then |AllUnsubscribed(old(rows), now) - AllUnconfirmed(old(rows), now)| else 0
    {
      TwoDeletes(Now(), now, gate, day0);
      ghost var all := rows;
      unconfirmed := DeleteStaleUnconfirmed(now);
      unsubscribed := 0;
      assert AllUnsubscribed(rows, now) == AllUnsubscribed(all, now) - AllUnconfirmed(all, now);
      if both { unsubscribed := DeleteStaleUnsubscribed(now); }
    }

    /** Unconfirmed rows by age; unsubscribed ones only with agreeing settings, and only after the grace period. */
    method RunRetentionCron(now: int, gate: Setting, day0: Setting) returns (unconfirmed: nat, unsubscribed: nat)
      requires Valid()
      modifies this`rows
      ensures Valid() && Now() == AfterCron(old(Now()), now, gate, day0)
      ensures unconfirmed == |AllUnconfirmed(old(rows), now)|
      ensures unsubscribed ==
        if MayPurge(gate, day0, now) then |AllUnsubscribed(old(rows), now) - AllUnconfirmed(old(rows), now)| else 0
    {
      CronKeepsHashes(Now(), now, gate, day0);
      var gateCheck := CheckGateClosesAt(gate);
      var day0Check := CheckDay0(day0);
      var agree := gateCheck.Ok? && day0Check.Ok? && gateCheck.value == day0Check.value + K2_GATE_WINDOW_DAYS * DAY_MS;
      var both := agree && now >= gateCheck.value + K2_VERDICT_GRACE_DAYS * DAY_MS;
      unconfirmed, unsubscribed := PurgeRows(now, gate, day0, both);
    }

    // -------------------------------------------------------------- the operator

    method RotateTokenPepper(next: Pepper)
      requires Valid()
      modifies this
      ensures Valid() && Now() == After(old(Now()), RotatePepper(next), Unset, Unset)
    {
      pepper, previous := next, Some(pepper);
    }

    method UnsetPreviousPepper()
      requires Valid()
      modifies this
      ensures Valid() && Now() == After(old(Now()), UnsetPrevious, Unset, Unset)
    {
      previous := None;
    }
  }
}
