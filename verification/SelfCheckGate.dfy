/** The shared self-check gate (supabase/functions/_shared/edge-selfcheck-gate.ts) against a reading of its history. */
module SelfCheckGate {
  import opened Common

  // ---------------------------------------------------------------- the gate

  /** `captured` holds, for each check still running, the generation its completion will compare with. */
  datatype State = State(
    inflight: Option<nat>, trusted: bool, checkedAt: int, callsSince: nat, started: nat, generation: nat,
    captured: map<nat, nat>)

  /** What a call to `ensure` comes to. */
  datatype Outcome = Passed | Joined(check: nat) | Started(check: nat)

  const Initial := State(None, false, 0, 0, 0, 0, map[])

  predicate Fresh(s: State, now: int, intervalMs: int, everyN: nat) {
    s.trusted && now - s.checkedAt < intervalMs && (everyN > 0 ==> s.callsSince < everyN)
  }

  function EnsureOutcome(s: State, now: int, intervalMs: int, everyN: nat): Outcome {
    if s.inflight.Some? then Joined(s.inflight.value)
    else if Fresh(s, now, intervalMs, everyN) then Passed
    else Started(s.started)
  }

  function AfterEnsure(s: State, o: Outcome): State {
    match o
    case Joined(_) => s
    case Passed => s.(callsSince := s.callsSince + 1)
    case Started(check) =>
      s.(inflight := Some(check), started := s.started + 1, captured := s.captured[check := s.generation])
  }

  function AfterCompletion(s: State, check: nat, ok: bool, now: int): State
    requires check in s.captured
  {
    var s1 := s.(captured := s.captured - {check}, inflight := if s.inflight == Some(check) then None else s.inflight);
    if s.captured[check] != s.generation then s1
    else if ok then s1.(trusted := true, checkedAt := now, callsSince := 0)
    else s1.(trusted := false)
  }

  function AfterReset(s: State): State {
    s.(generation := s.generation + 1, inflight := None, trusted := false, checkedAt := 0, callsSince := 0)
  }

  class Gate {
    const intervalMs: int
    const everyN: nat
    var inflight: Option<nat>
    var trusted: bool
    var checkedAt: int
    var callsSince: nat
    var started: nat
    var generation: nat
    var captured: map<nat, nat>

    ghost function Now(): State
      reads this
    {
      State(inflight, trusted, checkedAt, callsSince, started, generation, captured)
    }

    constructor (intervalMs: int, everyNCalls: Option<int>)
      ensures Now() == Initial && this.intervalMs == intervalMs
      ensures everyN == if everyNCalls.Some? && everyNCalls.value > 0 then everyNCalls.value else 0
    {
      this.intervalMs := intervalMs;
      everyN := if everyNCalls.Some? && everyNCalls.value > 0 then everyNCalls.value else 0;
      inflight, trusted, checkedAt, callsSince, started, generation, captured := None, false, 0, 0, 0, 0, map[];
    }

    method Ensure(now: int) returns (o: Outcome)
      modifies this
      ensures o == EnsureOutcome(old(Now()), now, intervalMs, everyN)
      ensures Now() == AfterEnsure(old(Now()), o)
    {
      if inflight.Some? { return Joined(inflight.value); }
      if trusted && now - checkedAt < intervalMs && !(everyN > 0 && callsSince >= everyN) {
        callsSince := callsSince + 1;
        return Passed;
      }
      o := Started(started);
      captured := captured[started := generation];
      inflight := Some(started);
      started := started + 1;
    }

    method Complete(check: nat, ok: bool, now: int)
      requires check in captured
      modifies this
      ensures Now() == AfterCompletion(old(Now()), check, ok, now)
    {
      if captured[check] == generation {
        if ok {
          trusted, checkedAt, callsSince := true, now, 0;
        } else {
          trusted := false;
        }
      }
      if inflight == Some(check) { inflight := None; }
      captured := captured - {check};
    }

    method Reset()
      modifies this
      ensures Now() == AfterReset(old(Now()))
    {
      generation := generation + 1;
      inflight, trusted, checkedAt, callsSince := None, false, 0, 0;
    }
  }

  // ---------------------------------------------------------------- a run and its history

  datatype Event = Ensure(now: int) | Complete(check: nat, ok: bool, at: int) | Reset

  /** What happened, in order: every call with its outcome, every completion, every reset. */
  datatype History = Nothing | Then(before: History, last: Entry)
  datatype Entry = Called(outcome: Outcome) | Completed(check: nat, ok: bool, at: int) | WasReset

  /** Only a check that is running can complete. */
  predicate Legal(s: State, e: Event) { e.Complete? ==> e.check in s.captured }

  function EntryOf(s: State, e: Event, intervalMs: int, everyN: nat): Entry {
    match e
    case Ensure(now) => Called(EnsureOutcome(s, now, intervalMs, everyN))
    case Complete(check, ok, at) => Completed(check, ok, at)
    case Reset => WasReset
  }

  function After(s: State, e: Event, intervalMs: int, everyN: nat): State
    requires Legal(s, e)
  {
    match e
    case Ensure(now) => AfterEnsure(s, EnsureOutcome(s, now, intervalMs, everyN))
    case Complete(check, ok, at) => AfterCompletion(s, check, ok, at)
    case Reset => AfterReset(s)
  }

  /** The events so far, the latest last. */
  datatype Run = NoEvents | Step(before: Run, event: Event)

  predicate LegalRun(r: Run, intervalMs: int, everyN: nat)
    decreases r, 0
  {
    r.Step? ==> LegalRun(r.before, intervalMs, everyN) && Legal(StateOf(r.before, intervalMs, everyN), r.event)
  }

  function StateOf(r: Run, intervalMs: int, everyN: nat): State
    requires LegalRun(r, intervalMs, everyN)
    decreases r, 1
  {
    match r
    case NoEvents => Initial
    case Step(before, event) => After(StateOf(before, intervalMs, everyN), event, intervalMs, everyN)
  }

  function HistoryOf(r: Run, intervalMs: int, everyN: nat): History
    requires LegalRun(r, intervalMs, everyN)
  {
    match r
    case NoEvents => Nothing
    case Step(before, event) =>
      Then(HistoryOf(before, intervalMs, everyN),
           EntryOf(StateOf(before, intervalMs, everyN), event, intervalMs, everyN))
  }

  // ---------------------------------------------------------------- reading the history

  predicate WasStarted(h: History, check: nat) {
    h.Then? && (h.last == Called(Started(check)) || WasStarted(h.before, check))
  }

  /** Started since the last reset. */
  predicate OfThisGeneration(h: History, check: nat) {
    h.Then? && h.last != WasReset && (h.last == Called(Started(check)) || OfThisGeneration(h.before, check))
  }

  predicate HasCompleted(h: History, check: nat) {
    h.Then? && ((h.last.Completed? && h.last.check == check) || HasCompleted(h.before, check))
  }

  /** Started since the last reset and not completed: the check later callers wait for. */
  predicate Running(h: History, check: nat) { OfThisGeneration(h, check) && !HasCompleted(h, check) }

  /** The latest completion, since the last reset, of a check also started since then; and the free passes after it. */
  datatype Verdict = Verdict(ok: bool, at: int, passes: nat)

  function LatestVerdict(h: History): Option<Verdict> {
    if h.Nothing? || h.last == WasReset then None
    else if h.last.Completed? && OfThisGeneration(h.before, h.last.check) then Some(Verdict(h.last.ok, h.last.at, 0))
    else
      match LatestVerdict(h.before)
      case None => None
      case Some(v) => Some(if h.last == Called(Passed) then v.(passes := v.passes + 1) else v)
  }

  /** A success of this generation that no later failure has overturned, recent enough and not yet used up. */
  predicate Trusts(h: History, now: int, intervalMs: int, everyN: nat) {
    var v := LatestVerdict(h);
    v.Some? && v.value.ok && now - v.value.at < intervalMs && (everyN > 0 ==> v.value.passes < everyN)
  }

  // ---------------------------------------------------------------- the gate keeps to its history

  ghost predicate ChecksAgree(s: State, h: History) {
    && (forall c: nat :: c in s.captured <==> WasStarted(h, c) && !HasCompleted(h, c))
    && (forall c :: c in s.captured ==> s.captured[c] <= s.generation)
    && (forall c :: c in s.captured ==> (s.captured[c] == s.generation <==> OfThisGeneration(h, c)))
    && (forall c: nat :: OfThisGeneration(h, c) ==> WasStarted(h, c))
    && (forall c: nat :: WasStarted(h, c) ==> c < s.started)
    && (forall c: nat :: HasCompleted(h, c) ==> WasStarted(h, c))
    && (forall c: nat :: s.inflight == Some(c) <==> Running(h, c))
  }

  predicate TrustAgrees(s: State, h: History) {
    match LatestVerdict(h)
    case None => !s.trusted
    case Some(v) => s.trusted == v.ok && (v.ok ==> s.checkedAt == v.at && s.callsSince == v.passes)
  }

  lemma CheckStep(s: State, h: History, e: Event, intervalMs: int, everyN: nat)
    requires ChecksAgree(s, h) && Legal(s, e)
    ensures ChecksAgree(After(s, e, intervalMs, everyN), Then(h, EntryOf(s, e, intervalMs, everyN)))
  {
    var s1, h1 := After(s, e, intervalMs, everyN), Then(h, EntryOf(s, e, intervalMs, everyN));
    forall c: nat
      ensures s1.inflight == Some(c) <==> Running(h1, c)
    {
      assert s.inflight == Some(c) <==> Running(h, c);
    }
    forall c: nat | HasCompleted(h1, c)
      ensures WasStarted(h1, c)
    {
      if !HasCompleted(h, c) { assert c in s.captured; }
    }
  }

  lemma {:induction false} GateFollowsHistory(r: Run, intervalMs: int, everyN: nat)
    requires LegalRun(r, intervalMs, everyN)
    ensures ChecksAgree(StateOf(r, intervalMs, everyN), HistoryOf(r, intervalMs, everyN))
    ensures TrustAgrees(StateOf(r, intervalMs, everyN), HistoryOf(r, intervalMs, everyN))
    decreases r
  {
    if r.Step? {
      GateFollowsHistory(r.before, intervalMs, everyN);
      var s, h := StateOf(r.before, intervalMs, everyN), HistoryOf(r.before, intervalMs, everyN);
      CheckStep(s, h, r.event, intervalMs, everyN);
    }
  }

  // ---------------------------------------------------------------- what callers may rely on

  /**
   * In every interleaving, a call joins exactly the running check of this generation, passes exactly on a success the
   * history still trusts, and starts a check otherwise.
   */
  lemma EnsureMeansItsHistory(r: Run, now: int, intervalMs: int, everyN: nat)
    requires LegalRun(r, intervalMs, everyN)
    ensures var h := HistoryOf(r, intervalMs, everyN);
      var o := EnsureOutcome(StateOf(r, intervalMs, everyN), now, intervalMs, everyN);
      && (o == Passed <==> (forall c: nat :: !Running(h, c)) && Trusts(h, now, intervalMs, everyN))
      && (forall c: nat :: o == Joined(c) <==> Running(h, c))
      && (o.Started? ==> !WasStarted(h, o.check))
  {
    GateFollowsHistory(r, intervalMs, everyN);
  }

  /** Each generation has at most one check in flight. */
  lemma OneRunningCheck(r: Run, intervalMs: int, everyN: nat, c: nat, d: nat)
    requires LegalRun(r, intervalMs, everyN)
    requires Running(HistoryOf(r, intervalMs, everyN), c) && Running(HistoryOf(r, intervalMs, everyN), d)
    ensures c == d
  {
    GateFollowsHistory(r, intervalMs, everyN);
  }

  /**
   * A check started before a reset never grants trust: its completion changes neither what is trusted nor what is
   * waited for.
   */
  lemma StaleCheckGrantsNothing(r: Run, intervalMs: int, everyN: nat, check: nat, ok: bool, at: int)
    requires LegalRun(r, intervalMs, everyN) && check in StateOf(r, intervalMs, everyN).captured
    requires !OfThisGeneration(HistoryOf(r, intervalMs, everyN), check)
    ensures var s := StateOf(r, intervalMs, everyN);
      AfterCompletion(s, check, ok, at) == s.(captured := s.captured - {check})
  {
    GateFollowsHistory(r, intervalMs, everyN);
    var s := StateOf(r, intervalMs, everyN);
    assert s.inflight != Some(check);
  }
}
