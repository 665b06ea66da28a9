/**
 * The gate count read from the signups table is a fact of history, and stays the same between gate close and the end
 * of the grace period.
 */
module K2Stability {
  import opened Common
  import K2Count
  import opened Signup

  // ---------------------------------------------------------------- clocks

  function TimeOf(ev: Event): Option<int> {
    match ev
    case SignUp(_, _, _, _, now, _, _) => Some(now)
    case ConfirmLink(_, _, now) => Some(now)
    case UnsubscribeLink(_, _, now) => Some(now)
    case Cron(now) => Some(now)
    case RotatePepper(_) => None
    case UnsetPrevious => None
  }

  /** The clock never runs backwards, and has not passed t. */
  predicate Timely(r: Run, t: int) {
    match r
    case Begin(_) => true
    case Then(before, ev) =>
      if TimeOf(ev).None? then Timely(before, t) else TimeOf(ev).value <= t && Timely(before, TimeOf(ev).value)
  }

  lemma {:induction false} TimelyLater(r: Run, t: int, u: int)
    requires Timely(r, t) && t <= u
    ensures Timely(r, u)
    decreases r
  {
    if r.Then? && TimeOf(r.event).None? { TimelyLater(r.before, t, u); }
  }

  // ---------------------------------------------------------------- what history says

  /** Here a confirm link's write reaches this address's row, before the cutoff. */
  predicate ConfirmsInTime(s: State, ev: Event, e: Email, cutoff: int) {
    ev.ConfirmLink? && ev.now < cutoff && ev.email == e && StillThere(s.rows, e, ev.read)
  }

  /** Some confirm link for this address succeeded before the cutoff. */
  ghost predicate ConfirmedInTime(r: Run, e: Email, cutoff: int, gate: Setting, day0: Setting) {
    r.Then? &&
    (ConfirmedInTime(r.before, e, cutoff, gate, day0) ||
     ConfirmsInTime(StateOf(r.before, gate, day0), r.event, e, cutoff))
  }

  /** What the table says. */
  predicate Early(rows: map<Email, Row>, e: Email, cutoff: int) {
    e in rows && rows[e].confirmedAt.Some? && rows[e].confirmedAt.value < cutoff
  }

  ghost predicate ConfirmedBy(rows: map<Email, Row>, t: int) {
    forall e :: e in rows && rows[e].confirmedAt.Some? ==> rows[e].confirmedAt.value <= t
  }

  lemma SignUpKeepsEarly(s: State, ev: Event, e: Email, cutoff: int, gate: Setting, day0: Setting)
    requires ev.SignUp?
    ensures Early(After(s, ev, gate, day0).rows, e, cutoff) <==> Early(s.rows, e, cutoff)
  {
  }

  lemma StepKeepsEarly(s: State, ev: Event, e: Email, cutoff: int, gate: Setting, day0: Setting)
    requires TimeOf(ev).Some? ==> ConfirmedBy(s.rows, TimeOf(ev).value)
    requires ev.Cron? ==> !MayPurge(gate, day0, ev.now)
    ensures Early(After(s, ev, gate, day0).rows, e, cutoff) <==>
      Early(s.rows, e, cutoff) || ConfirmsInTime(s, ev, e, cutoff)
  {
    if ev.SignUp? { SignUpKeepsEarly(s, ev, e, cutoff, gate, day0); }
  }

  lemma StepKeepsConfirmedBy(s: State, ev: Event, t: int, gate: Setting, day0: Setting)
    requires ConfirmedBy(s.rows, if TimeOf(ev).Some? then TimeOf(ev).value else t)
    requires TimeOf(ev).Some? ==> TimeOf(ev).value <= t
    ensures ConfirmedBy(After(s, ev, gate, day0).rows, t)
  {
  }

  /** As long as nothing may be purged, the table's early confirmations are exactly the history's, for any cutoff. */
  lemma {:induction false} TableTellsHistory(r: Run, t: int, e: Email, cutoff: int, gate: Setting, day0: Setting)
    requires Timely(r, t) && !MayPurge(gate, day0, t)
    ensures Early(StateOf(r, gate, day0).rows, e, cutoff) <==> ConfirmedInTime(r, e, cutoff, gate, day0)
    ensures ConfirmedBy(StateOf(r, gate, day0).rows, t)
    decreases r
  {
    match r
    case Begin(_) =>
    case Then(before, ev) =>
      var u := if TimeOf(ev).Some? then TimeOf(ev).value else t;
      TableTellsHistory(before, u, e, cutoff, gate, day0);
      StepKeepsEarly(StateOf(before, gate, day0), ev, e, cutoff, gate, day0);
      StepKeepsConfirmedBy(StateOf(before, gate, day0), ev, t, gate, day0);
  }

  // ---------------------------------------------------------------- the count

  function Exported(e: Email, row: Row): K2Count.ExportRow {
    K2Count.ExportRow(Some(e), match row.confirmedAt case None => K2Count.Missing case Some(ms) => K2Count.At(ms))
  }

  ghost predicate IsExported(x: K2Count.ExportRow, rows: map<Email, Row>) {
    exists e :: e in rows && x == Exported(e, rows[e])
  }

  /** An export of the table, in any order. */
  ghost predicate IsExport(table: seq<K2Count.ExportRow>, rows: map<Email, Row>) {
    && (forall i :: 0 <= i < |table| ==> IsExported(table[i], rows))
    && (forall e :: e in rows ==> Exported(e, rows[e]) in table)
  }

  /** The table stores addresses trimmed and lower-cased. */
  ghost predicate Normal(rows: map<Email, Row>, norm: K2Count.Norm) { forall e :: e in rows ==> norm(e) == e }

  lemma ExportCountsEarly(
    x: seq<K2Count.ExportRow>, rows: map<Email, Row>, norm: K2Count.Norm, excluded: set<string>, cutoff: int,
    e: Email)
    requires IsExport(x, rows) && Normal(rows, norm)
    ensures e in K2Count.Before(x, |x|, norm, excluded, cutoff) <==> e !in excluded && Early(rows, e, cutoff)
  {
    if e in K2Count.Before(x, |x|, norm, excluded, cutoff) {
      var i :| 0 <= i < |x| && K2Count.Counts(x[i], norm, excluded) && x[i].confirmedAt.ms < cutoff
        && K2Count.Address(x[i], norm) == e;
      assert IsExported(x[i], rows);
    }
    if e !in excluded && Early(rows, e, cutoff) {
      var i :| 0 <= i < |x| && x[i] == Exported(e, rows[e]);
      assert K2Count.Counts(x[i], norm, excluded) && K2Count.Address(x[i], norm) == e;
    }
  }

  /**
   * The gate count of an export taken before anything may be purged is the number of addresses that confirmed in
   * time, the excluded ones apart.
   */
  lemma GateCountIsHistory(
    r: Run, t: int, x: seq<K2Count.ExportRow>, norm: K2Count.Norm, excluded: set<string>, cutoff: int,
    gate: Setting, day0: Setting, confirmed: set<Email>)
    requires Timely(r, t) && !MayPurge(gate, day0, t)
    requires IsExport(x, StateOf(r, gate, day0).rows) && Normal(StateOf(r, gate, day0).rows, norm)
    requires forall e :: e in confirmed <==> ConfirmedInTime(r, e, cutoff, gate, day0)
    ensures K2Count.Before(x, |x|, norm, excluded, cutoff) == confirmed - excluded
  {
    var rows := StateOf(r, gate, day0).rows;
    forall e
      ensures e in K2Count.Before(x, |x|, norm, excluded, cutoff) <==> e in confirmed - excluded
    {
      ExportCountsEarly(x, rows, norm, excluded, cutoff, e);
      TableTellsHistory(r, t, e, cutoff, gate, day0);
    }
  }

  // ---------------------------------------------------------------- stability

  /** Everything that happened after `earlier` happened at or after the instant. */
  predicate OnlySince(later: Run, earlier: Run, from: int) {
    later == earlier ||
    (later.Then? && (TimeOf(later.event).Some? ==> TimeOf(later.event).value >= from)
     && OnlySince(later.before, earlier, from))
  }

  lemma {:induction false} LateEventsConfirmNobodyInTime(
    r: Run, later: Run, e: Email, cutoff: int, gate: Setting, day0: Setting)
    requires OnlySince(later, r, cutoff)
    ensures ConfirmedInTime(later, e, cutoff, gate, day0) <==> ConfirmedInTime(r, e, cutoff, gate, day0)
    decreases later
  {
    if later != r { LateEventsConfirmNobodyInTime(r, later.before, e, cutoff, gate, day0); }
  }

  lemma EarlyIsStable(r: Run, later: Run, t: int, e: Email, cutoff: int, gate: Setting, day0: Setting)
    requires OnlySince(later, r, cutoff) && Timely(r, t) && Timely(later, t) && !MayPurge(gate, day0, t)
    ensures Early(StateOf(r, gate, day0).rows, e, cutoff) <==> Early(StateOf(later, gate, day0).rows, e, cutoff)
  {
    TableTellsHistory(r, t, e, cutoff, gate, day0);
    TableTellsHistory(later, t, e, cutoff, gate, day0);
    LateEventsConfirmNobodyInTime(r, later, e, cutoff, gate, day0);
  }

  lemma TablesStayAlike(r: Run, later: Run, t: int, cutoff: int, gate: Setting, day0: Setting)
    requires OnlySince(later, r, cutoff) && Timely(r, t) && Timely(later, t) && !MayPurge(gate, day0, t)
    ensures forall e :: Early(StateOf(r, gate, day0).rows, e, cutoff) <==>
      Early(StateOf(later, gate, day0).rows, e, cutoff)
  {
    forall e
      ensures Early(StateOf(r, gate, day0).rows, e, cutoff) <==> Early(StateOf(later, gate, day0).rows, e, cutoff)
    {
      EarlyIsStable(r, later, t, e, cutoff, gate, day0);
    }
  }

  lemma ExportsOfSameEarlyAgree(
    x: seq<K2Count.ExportRow>, y: seq<K2Count.ExportRow>, rows: map<Email, Row>, rows': map<Email, Row>,
    norm: K2Count.Norm, excluded: set<string>, cutoff: int)
    requires IsExport(x, rows) && Normal(rows, norm) && IsExport(y, rows') && Normal(rows', norm)
    requires forall e :: Early(rows, e, cutoff) <==> Early(rows', e, cutoff)
    ensures K2Count.Before(x, |x|, norm, excluded, cutoff) == K2Count.Before(y, |y|, norm, excluded, cutoff)
  {
    forall e
      ensures e in K2Count.Before(x, |x|, norm, excluded, cutoff) <==>
        e in K2Count.Before(y, |y|, norm, excluded, cutoff)
    {
      ExportCountsEarly(x, rows, norm, excluded, cutoff, e);
      ExportCountsEarly(y, rows', norm, excluded, cutoff, e);
    }
  }

  /**
   * Two exports, both taken from gate close on and before gate close + 30 days, give the same gate count, whatever
   * happened between them.
   */
  lemma GateCountIsStable(
    r: Run, later: Run, t: int, x: seq<K2Count.ExportRow>, y: seq<K2Count.ExportRow>, norm: K2Count.Norm,
    excluded: set<string>, gate: Setting, day0: Setting)
    requires GateCloses(gate, day0).Ok?
    requires OnlySince(later, r, GateCloses(gate, day0).value)
    requires Timely(r, t) && Timely(later, t) && t < GateCloses(gate, day0).value + K2_VERDICT_GRACE_DAYS * DAY_MS
    requires IsExport(x, StateOf(r, gate, day0).rows) && Normal(StateOf(r, gate, day0).rows, norm)
    requires IsExport(y, StateOf(later, gate, day0).rows) && Normal(StateOf(later, gate, day0).rows, norm)
    ensures var cutoff := day0.ms + K2Count.GATE_WINDOW_DAYS * DAY_MS;
      K2Count.Before(x, |x|, norm, excluded, cutoff) == K2Count.Before(y, |y|, norm, excluded, cutoff)
  {
    var cutoff := GateCloses(gate, day0).value;
    TablesStayAlike(r, later, t, cutoff, gate, day0);
    ExportsOfSameEarlyAgree(
      x, y, StateOf(r, gate, day0).rows, StateOf(later, gate, day0).rows, norm, excluded, cutoff);
  }

  /** With settings that never agree no confirmed address is ever purged: the count tells history at any time. */
  lemma DisagreeingSettingsKeepHistory(
    r: Run, t: int, x: seq<K2Count.ExportRow>, norm: K2Count.Norm, excluded: set<string>, cutoff: int,
    gate: Setting, day0: Setting, confirmed: set<Email>)
    requires !(gate.At? && day0.At? && gate.ms >= GATE_FLOOR && gate.ms == day0.ms + K2_GATE_WINDOW_DAYS * DAY_MS)
    requires Timely(r, t)
    requires IsExport(x, StateOf(r, gate, day0).rows) && Normal(StateOf(r, gate, day0).rows, norm)
    requires forall e :: e in confirmed <==> ConfirmedInTime(r, e, cutoff, gate, day0)
    ensures K2Count.Before(x, |x|, norm, excluded, cutoff) == confirmed - excluded
  {
    GateCountIsHistory(r, t, x, norm, excluded, cutoff, gate, day0, confirmed);
  }
}
