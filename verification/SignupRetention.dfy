/** What retention takes, and when its settings let it, in days and dates. */
module SignupRetention {
  import opened Calendar
  import opened Common
  import opened Signup

  /** So many days, or hours, in milliseconds. */
  function Hours(n: int): int { n * 60 * 60 * 1000 }
  function Days(n: int): int { n * Hours(24) }

  /** The instant a day begins, in coordinated universal time; months count from January of year 0. */
  function Midnight(year: int, month: int, day: int): int { Days(FirstDay(12 * year + month - 1) + day - 1) }

  /** No gate is accepted that closes before 16 November 2026. */
  lemma FloorIsMidNovember()
    ensures GATE_FLOOR == Midnight(2026, 11, 16)
  {
  }

  /** A gate date and a day 0 that are dates, the gate not too early, and 42 days apart. */
  predicate Agree(gate: Setting, day0: Setting) {
    gate.At? && day0.At? && gate.ms >= Midnight(2026, 11, 16) && gate.ms - day0.ms == Days(42)
  }

  /** The gate closes at its date exactly when the settings agree; otherwise the first fault found is named. */
  lemma GateClosesIff(gate: Setting, day0: Setting)
    ensures var r := GateCloses(gate, day0);
      if Agree(gate, day0) then r == Ok(gate.ms)
      else if !gate.At? then r == Err(FaultOf(gate))
      else if gate.ms < Midnight(2026, 11, 16) then r == Err(BeforeFloor)
      else if !day0.At? then r == Err(FaultOf(day0))
      else r == Err(NotDay0Plus42)
  {
    FloorIsMidNovember();
  }

  function FaultOf(s: Setting): Refusal
    requires !s.At?
  {
    if s == Unset then IsUnset else if s == NoSuchDate then IsNoDate else IsMalformed
  }

  /**
   * Retention takes exactly the rows never confirmed, made more than 30 days ago, whose confirm link is over or gone;
   * and, with settings that agree and from 30 days after the gate on, those unsubscribed more than 30 days ago.
   */
  lemma PurgedIff(row: Row, now: int, gate: Setting, day0: Setting)
    ensures Purged(row, now, gate, day0) <==>
      || (row.confirmedAt == None && row.createdAt + Days(30) < now
          && !(row.confirmExpires.Some? && now <= row.confirmExpires.value))
      || (Agree(gate, day0) && gate.ms + Days(30) <= now
          && row.unsubscribedAt.Some? && row.unsubscribedAt.value + Days(30) < now)
  {
    GateClosesIff(gate, day0);
  }
}
