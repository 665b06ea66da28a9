/**
 * The signup worker's table and its steps: double opt-in, unsubscribe links across a pepper rotation, and retention
 * (apps/signup-worker/src).
 */
module Signup {
  import opened Common

  // ---------------------------------------------------------------- tokens and hashes

  type Pepper = nat
  type Email = string

  /** The unsubscribe token is derived from the address; the confirm token is drawn fresh. */
  datatype Token = Unsub(pepper: Pepper, email: Email) | Confirm(nonce: nat)

  /** Hashing keeps distinct inputs distinct. */
  datatype Hash = Hash(pepper: Pepper, token: Token)

  // ---------------------------------------------------------------- the table

  /** `id` is drawn when the row is made. */
  datatype Row = Row(
    id: nat, consent: string, source: Option<string>, createdAt: int, confirmedAt: Option<int>,
    unsubscribedAt: Option<int>, confirmHash: Option<Hash>, confirmExpires: Option<int>, unsubHash: Hash,
    unsubPrev: Option<Hash>)

  /** `mailed` is history: the unsubscribe tokens in all the emails ever accepted for sending to the address. */
  datatype State = State(
    rows: map<Email, Row>, pepper: Pepper, previous: Option<Pepper>, nextNonce: nat, mailed: map<Email, set<Token>>)

  const CONFIRM_TOKEN_TTL_MS := 48 * 60 * 60 * 1000
  const UNCONFIRMED_RETENTION_DAYS := 30
  const UNSUBSCRIBED_RETENTION_DAYS := 30
  const K2_VERDICT_GRACE_DAYS := 30
  const K2_GATE_WINDOW_DAYS := 42
  /** 2026-11-16T00:00:00Z. */
  const GATE_FLOOR := 1_794_787_200_000

  function Own(p: Pepper, e: Email): Hash { Hash(p, Unsub(p, e)) }

  /** A confirmed, not unsubscribed address is left alone. */
  predicate Active(row: Row) { row.confirmedAt.Some? && row.unsubscribedAt.None? }

  function NewRow(p: Pepper, e: Email, consent: string, source: Option<string>, now: int, nonce: nat): Row {
    Row(nonce, consent, source, now, None, None, Some(Hash(p, Confirm(nonce))), Some(now + CONFIRM_TOKEN_TTL_MS),
        Own(p, e), None)
  }

  function Rotated(row: Row, p: Pepper, consent: string, source: Option<string>, now: int, nonce: nat): Row {
    row.(consent := consent, source := if source.Some? then source else row.source,
         confirmHash := Some(Hash(p, Confirm(nonce))), confirmExpires := Some(now + CONFIRM_TOKEN_TTL_MS))
  }

  /**
   * A row hashed under the previous pepper, as far as the request has read, moves to the current one, and keeps the
   * old link under the current pepper too.
   */
  function MigratedFrom(row: Row, read: Hash, p: Pepper, previous: Option<Pepper>, e: Email): Row {
    if read == Own(p, e) then row
    else if previous.None? then row
    else if read != Own(previous.value, e) then row
    else row.(unsubHash := Own(p, e), unsubPrev := Some(Hash(p, Unsub(previous.value, e))))
  }

  function Migrated(row: Row, p: Pepper, previous: Option<Pepper>, e: Email): Row {
    MigratedFrom(row, row.unsubHash, p, previous, e)
  }

  function Mailed(s: State, e: Email): set<Token> { if e in s.mailed then s.mailed[e] else {} }

  /** An address without a row: the row is made whether or not a mail may go out. */
  function AfterCreation(s: State, e: Email, consent: string, source: Option<string>, now: int, sent: bool): State {
    s.(rows := s.rows[e := NewRow(s.pepper, e, consent, source, now, s.nextNonce)],
       nextNonce := s.nextNonce + 1,
       mailed := s.mailed[e := Mailed(s, e) + if sent then {Unsub(s.pepper, e)} else {}])
  }

  /** An address with a row: nothing is written unless the new mail was accepted. */
  function AfterResend(
    s: State, e: Email, consent: string, source: Option<string>, now: int, allowed: bool, sent: bool): State
    requires e in s.rows
  {
    if !allowed then s
    else if !sent then s.(nextNonce := s.nextNonce + 1)
    else
      var row := Rotated(s.rows[e], s.pepper, consent, source, now, s.nextNonce);
      s.(rows := s.rows[e := Migrated(row, s.pepper, s.previous, e)],
         nextNonce := s.nextNonce + 1,
         mailed := s.mailed[e := Mailed(s, e) + {Unsub(s.pepper, e)}])
  }

  /** `allowed`: the send limits let a mail out; `accepted`: the mail service took it. */
  function AfterSignup(
    s: State, e: Email, consent: string, source: Option<string>, now: int, allowed: bool, accepted: bool): State
  {
    if e !in s.rows then AfterCreation(s, e, consent, source, now, allowed && accepted)
    else if Active(s.rows[e]) then s
    else AfterResend(s, e, consent, source, now, allowed, allowed && accepted)
  }

  /** The row whose id the request has read, if it is still there. */
  predicate StillThere(rows: map<Email, Row>, e: Email, read: Row) { e in rows && rows[e].id == read.id }

  /** The same for an address whose row the request read earlier, as `read`. */
  function AfterResendOf(
    s: State, e: Email, read: Row, consent: string, source: Option<string>, now: int, allowed: bool, sent: bool): State
  {
    if !allowed then s
    else if !sent then s.(nextNonce := s.nextNonce + 1)
    else
      s.(rows :=
           if !StillThere(s.rows, e, read) then s.rows
           else
             var row := s.rows[e].(
               consent := consent, source := if source.Some? then source else read.source,
               confirmHash := Some(Hash(s.pepper, Confirm(s.nextNonce))),
               confirmExpires := Some(now + CONFIRM_TOKEN_TTL_MS));
             s.rows[e := MigratedFrom(row, read.unsubHash, s.pepper, s.previous, e)],
         nextNonce := s.nextNonce + 1,
         mailed := s.mailed[e := Mailed(s, e) + {Unsub(s.pepper, e)}])
  }

  /** What a request does that read `existing` when it came in. */
  function AfterSideEffects(
    s: State, e: Email, existing: Option<Row>, consent: string, source: Option<string>, now: int, allowed: bool,
    accepted: bool): State
  {
    match existing
    case None => AfterSignup(s, e, consent, source, now, allowed, accepted)
    case Some(read) =>
      if Active(read) then s else AfterResendOf(s, e, read, consent, source, now, allowed, allowed && accepted)
  }

  /** As long as nobody else has written the row since, reading it first makes no difference. */
  lemma UnchangedRowIsAtomic(
    s: State, e: Email, existing: Option<Row>, consent: string, source: Option<string>, now: int, allowed: bool,
    accepted: bool)
    requires existing.Some? ==> e in s.rows && existing == Some(s.rows[e])
    ensures AfterSideEffects(s, e, existing, consent, source, now, allowed, accepted) ==
      AfterSignup(s, e, consent, source, now, allowed, accepted)
  {
  }

  // ---------------------------------------------------------------- looking rows up by hash

  predicate HasConfirmHash(row: Row, h: Hash) { row.confirmHash == Some(h) }
  predicate HasUnsubHash(row: Row, h: Hash) { row.unsubHash == h || row.unsubPrev == Some(h) }

  /** Every stored hash belongs to one row only. */
  ghost predicate HashesOwnRows(rows: map<Email, Row>, nextNonce: nat) {
    && (forall e :: e in rows ==> rows[e].unsubHash.token.Unsub? && rows[e].unsubHash.token.email == e)
    && (forall e :: e in rows && rows[e].unsubPrev.Some? ==>
      rows[e].unsubPrev.value.token.Unsub? && rows[e].unsubPrev.value.token.email == e)
    && (forall e :: e in rows && rows[e].confirmHash.Some? ==>
      rows[e].confirmHash.value.token.Confirm? && rows[e].confirmHash.value.token.nonce < nextNonce)
    && (forall e, f :: e in rows && f in rows && e != f && rows[e].confirmHash.Some? && rows[f].confirmHash.Some? ==>
      rows[e].confirmHash.value.token.nonce != rows[f].confirmHash.value.token.nonce)
  }

  /** The address whose row has a property, when there is one. */
  ghost function TheRow(rows: map<Email, Row>, has: Row -> bool): (found: Option<Email>)
    ensures found.Some? ==> found.value in rows && has(rows[found.value])
    ensures found.None? ==> forall e :: e in rows ==> !has(rows[e])
  {
    if exists e :: e in rows && has(rows[e]) then
      var e :| e in rows && has(rows[e]);
      Some(e)
    else None
  }

  function ConfirmHashIs(h: Hash): Row -> bool { (row: Row) => HasConfirmHash(row, h) }
  function UnsubHashIs(h: Hash): Row -> bool { (row: Row) => HasUnsubHash(row, h) }

  ghost function ByConfirmToken(s: State, t: Token): Option<Email> { TheRow(s.rows, ConfirmHashIs(Hash(s.pepper, t))) }

  /** The current pepper first, then the previous one when it is set. */
  ghost function ByUnsubToken(s: State, t: Token): Option<Email> {
    var found := TheRow(s.rows, UnsubHashIs(Hash(s.pepper, t)));
    if found.Some? || s.previous.None? then found else TheRow(s.rows, UnsubHashIs(Hash(s.previous.value, t)))
  }

  // ---------------------------------------------------------------- confirm, unsubscribe, retention

  /** The address a confirm link would confirm now. */
  ghost function Confirmable(s: State, t: Token, now: int): Option<Email> {
    var found := ByConfirmToken(s, t);
    if found.None? then None
    else
      var row := s.rows[found.value];
      if row.confirmExpires.None? || row.confirmExpires.value <= now then None else found
  }

  /** The first confirmation is kept for good; the link is spent; the address is open again. */
  function Confirmed(row: Row, now: int): Row {
    row.(confirmedAt := if row.confirmedAt.Some? then row.confirmedAt else Some(now),
         unsubscribedAt := None, confirmHash := None, confirmExpires := None)
  }

  /** The write of a submitted confirm link, by the id of the row its look-up read. */
  function AfterConfirmOf(s: State, e: Email, read: Row, now: int): State {
    if StillThere(s.rows, e, read) then s.(rows := s.rows[e := Confirmed(s.rows[e], now)]) else s
  }

  /** Look-up and write with nothing in between. */
  ghost function AfterConfirm(s: State, t: Token, now: int): State {
    match Confirmable(s, t, now)
    case None => s
    case Some(e) => AfterConfirmOf(s, e, s.rows[e], now)
  }

  /** Nothing is written for a row read as unsubscribed. */
  predicate Unsubscribes(s: State, e: Email, read: Row) { read.unsubscribedAt.None? && StillThere(s.rows, e, read) }

  function AfterUnsubscribeOf(s: State, e: Email, read: Row, now: int): State {
    if Unsubscribes(s, e, read) then s.(rows := s.rows[e := s.rows[e].(unsubscribedAt := Some(now))]) else s
  }

  ghost function AfterUnsubscribe(s: State, t: Token, now: int): State {
    match ByUnsubToken(s, t)
    case None => s
    case Some(e) => AfterUnsubscribeOf(s, e, s.rows[e], now)
  }

  /** A configured date, as far as its text goes. */
  datatype Setting = Unset | Malformed | NoSuchDate | At(ms: int)
  datatype Refusal = IsUnset | IsMalformed | IsNoDate | BeforeFloor | NotDay0Plus42

  function CheckGateClosesAt(gate: Setting): Result<int, Refusal> {
    match gate
    case Unset => Err(IsUnset)
    case Malformed => Err(IsMalformed)
    case NoSuchDate => Err(IsNoDate)
    case At(ms) => if ms < GATE_FLOOR then Err(BeforeFloor) else Ok(ms)
  }

  function CheckDay0(day0: Setting): Result<int, Refusal> {
    match day0
    case Unset => Err(IsUnset)
    case Malformed => Err(IsMalformed)
    case NoSuchDate => Err(IsNoDate)
    case At(ms) => Ok(ms)
  }

  /** When the gate closes, if both settings are valid and agree. */
  function GateCloses(gate: Setting, day0: Setting): Result<int, Refusal> {
    match CheckGateClosesAt(gate)
    case Err(e) => Err(e)
    case Ok(g) =>
      match CheckDay0(day0)
      case Err(e) => Err(e)
      case Ok(d) => if g != d + K2_GATE_WINDOW_DAYS * DAY_MS then Err(NotDay0Plus42) else Ok(g)
  }

  predicate StaleUnconfirmed(row: Row, now: int) {
    && row.confirmedAt.None? && row.createdAt < now - UNCONFIRMED_RETENTION_DAYS * DAY_MS
    && (row.confirmExpires.None? || row.confirmExpires.value < now)
  }

  predicate StaleUnsubscribed(row: Row, now: int) {
    row.unsubscribedAt.Some? && row.unsubscribedAt.value < now - UNSUBSCRIBED_RETENTION_DAYS * DAY_MS
  }

  predicate MayPurge(gate: Setting, day0: Setting, now: int) {
    var closes := GateCloses(gate, day0);
    closes.Ok? && now >= closes.value + K2_VERDICT_GRACE_DAYS * DAY_MS
  }

  predicate Purged(row: Row, now: int, gate: Setting, day0: Setting) {
    StaleUnconfirmed(row, now) || (MayPurge(gate, day0, now) && StaleUnsubscribed(row, now))
  }

  function AfterCron(s: State, now: int, gate: Setting, day0: Setting): State {
    s.(rows := map e | e in s.rows && !Purged(s.rows[e], now, gate, day0) :: s.rows[e])
  }

  // ---------------------------------------------------------------- runs

  /**
   * Sign-ups and submitted links act on the table by the row they read earlier: any row, however old. A submission
   * whose look-up finds nothing is no event.
   */
  datatype Event =
    | SignUp(email: Email, existing: Option<Row>, consent: string, source: Option<string>, now: int,
             allowed: bool, accepted: bool)
    | ConfirmLink(email: Email, read: Row, now: int)
    | UnsubscribeLink(email: Email, read: Row, now: int)
    | Cron(now: int)
    | RotatePepper(next: Pepper)
    | UnsetPrevious

  ghost function After(s: State, ev: Event, gate: Setting, day0: Setting): State {
    match ev
    case SignUp(e, existing, consent, source, now, allowed, accepted) =>
      AfterSideEffects(s, e, existing, consent, source, now, allowed, accepted)
    case ConfirmLink(e, read, now) => AfterConfirmOf(s, e, read, now)
    case UnsubscribeLink(e, read, now) => AfterUnsubscribeOf(s, e, read, now)
    case Cron(now) => AfterCron(s, now, gate, day0)
    case RotatePepper(next) => s.(pepper := next, previous := Some(s.pepper))
    case UnsetPrevious => s.(previous := None)
  }

  /** The events so far, the latest last. */
  datatype Run = Begin(pepper: Pepper) | Then(before: Run, event: Event)

  ghost function StateOf(r: Run, gate: Setting, day0: Setting): State {
    match r
    case Begin(p) => State(map[], p, None, 0, map[])
    case Then(before, ev) => After(StateOf(before, gate, day0), ev, gate, day0)
  }

  lemma ResendKeepsHashes(
    s: State, e: Email, consent: string, source: Option<string>, now: int, allowed: bool, sent: bool)
    requires HashesOwnRows(s.rows, s.nextNonce) && e in s.rows
    ensures var s1 := AfterResend(s, e, consent, source, now, allowed, sent); HashesOwnRows(s1.rows, s1.nextNonce)
  {
  }

  lemma SignupKeepsHashes(
    s: State, e: Email, consent: string, source: Option<string>, now: int, allowed: bool, accepted: bool)
    requires HashesOwnRows(s.rows, s.nextNonce)
    ensures var s1 := AfterSignup(s, e, consent, source, now, allowed, accepted); HashesOwnRows(s1.rows, s1.nextNonce)
  {
    if e !in s.rows {
    } else if !Active(s.rows[e]) {
      ResendKeepsHashes(s, e, consent, source, now, allowed, allowed && accepted);
    }
  }

  lemma ResendOfKeepsHashes(
    s: State, e: Email, read: Row, consent: string, source: Option<string>, now: int, allowed: bool, sent: bool)
    requires HashesOwnRows(s.rows, s.nextNonce)
    ensures var s1 := AfterResendOf(s, e, read, consent, source, now, allowed, sent);
      HashesOwnRows(s1.rows, s1.nextNonce)
  {
  }

  lemma SideEffectsKeepHashes(
    s: State, e: Email, existing: Option<Row>, consent: string, source: Option<string>, now: int, allowed: bool,
    accepted: bool)
    requires HashesOwnRows(s.rows, s.nextNonce)
    ensures var s1 := AfterSideEffects(s, e, existing, consent, source, now, allowed, accepted);
      HashesOwnRows(s1.rows, s1.nextNonce)
  {
    if existing.None? {
      SignupKeepsHashes(s, e, consent, source, now, allowed, accepted);
    } else {
      ResendOfKeepsHashes(s, e, existing.value, consent, source, now, allowed, allowed && accepted);
    }
  }

  lemma ConfirmKeepsHashes(s: State, e: Email, read: Row, now: int)
    requires HashesOwnRows(s.rows, s.nextNonce)
    ensures HashesOwnRows(AfterConfirmOf(s, e, read, now).rows, s.nextNonce)
  {
  }

  lemma UnsubscribeKeepsHashes(s: State, e: Email, read: Row, now: int)
    requires HashesOwnRows(s.rows, s.nextNonce)
    ensures HashesOwnRows(AfterUnsubscribeOf(s, e, read, now).rows, s.nextNonce)
  {
  }

  lemma CronKeepsHashes(s: State, now: int, gate: Setting, day0: Setting)
    requires HashesOwnRows(s.rows, s.nextNonce)
    ensures HashesOwnRows(AfterCron(s, now, gate, day0).rows, s.nextNonce)
  {
  }

  lemma StepKeepsHashes(s: State, ev: Event, gate: Setting, day0: Setting)
    requires HashesOwnRows(s.rows, s.nextNonce)
    ensures HashesOwnRows(After(s, ev, gate, day0).rows, After(s, ev, gate, day0).nextNonce)
  {
    match ev
    case SignUp(e, existing, consent, source, now, allowed, accepted) =>
      SideEffectsKeepHashes(s, e, existing, consent, source, now, allowed, accepted);
    case ConfirmLink(e, read, now) => ConfirmKeepsHashes(s, e, read, now);
    case UnsubscribeLink(e, read, now) => UnsubscribeKeepsHashes(s, e, read, now);
    case Cron(now) => CronKeepsHashes(s, now, gate, day0);
    case RotatePepper(_) =>
    case UnsetPrevious =>
  }

  /** In every run, each stored hash finds one row and no other. */
  lemma {:induction false} RunKeepsHashes(r: Run, gate: Setting, day0: Setting)
    ensures HashesOwnRows(StateOf(r, gate, day0).rows, StateOf(r, gate, day0).nextNonce)
    decreases r
  {
    match r
    case Begin(_) =>
    case Then(before, ev) =>
      RunKeepsHashes(before, gate, day0);
      StepKeepsHashes(StateOf(before, gate, day0), ev, gate, day0);
  }
}
