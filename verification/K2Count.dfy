/** The K2 signup count (apps/signup-worker/src/k2-count.ts). */
module K2Count {
  import opened Common

  const ADVISORY_THRESHOLD := 100
  const GATE_THRESHOLD := 300
  const ADVISORY_WINDOW_DAYS := 14
  const GATE_WINDOW_DAYS := 42

  /** A confirmation time as exported: absent, without a UTC offset or unreadable, or an instant. */
  datatype Stamp = Missing | Unreadable | At(ms: int)

  datatype ExportRow = ExportRow(email: Option<string>, confirmedAt: Stamp)

  /** `norm` trims and lower-cases. */
  type Norm = string -> string

  predicate Considered(row: ExportRow) { row.email.Some? && row.confirmedAt != Missing }

  function Excluded(addresses: seq<string>, norm: Norm): set<string> {
    set a | a in addresses && norm(a) != "" :: norm(a)
  }

  /** An address is left out exactly when its normal form is that of a listed one, blank entries apart. */
  lemma ExcludedIff(addresses: seq<string>, norm: Norm, address: string)
    ensures norm(address) in Excluded(addresses, norm) <==>
      norm(address) != "" && exists a :: a in addresses && norm(a) == norm(address)
  {
  }

  function Address(row: ExportRow, norm: Norm): string
    requires Considered(row)
  {
    norm(row.email.value)
  }

  /** A row that can put its address into the count. */
  predicate Counts(row: ExportRow, norm: Norm, excluded: set<string>) {
    Considered(row) && row.confirmedAt.At? && Address(row, norm) !in excluded
  }

  // ---------------------------------------------------------------- what is counted

  /**
   * The distinct addresses among the first n rows with some confirmation before the cutoff, the excluded ones apart.
   */
  ghost function Before(rows: seq<ExportRow>, n: nat, norm: Norm, excluded: set<string>, cutoff: int): set<string>
    requires n <= |rows|
  {
    set i | 0 <= i < n && Counts(rows[i], norm, excluded) && rows[i].confirmedAt.ms < cutoff :: Address(rows[i], norm)
  }

  ghost function Distinct(rows: seq<ExportRow>, n: nat, norm: Norm, excluded: set<string>): set<string>
    requires n <= |rows|
  {
    set i | 0 <= i < n && Counts(rows[i], norm, excluded) :: Address(rows[i], norm)
  }

  ghost function ExcludedMatches(rows: seq<ExportRow>, n: nat, norm: Norm, excluded: set<string>): set<string>
    requires n <= |rows|
  {
    set i | 0 <= i < n && Considered(rows[i]) && Address(rows[i], norm) in excluded :: Address(rows[i], norm)
  }

  ghost function Such(rows: seq<ExportRow>, n: nat, p: ExportRow -> bool): set<nat>
    requires n <= |rows|
  {
    set i: nat | i < n && p(rows[i])
  }

  function IsConsidered(): ExportRow -> bool { (row: ExportRow) => Considered(row) }
  function IsUnreadable(norm: Norm, excluded: set<string>): ExportRow -> bool {
    (row: ExportRow) => Considered(row) && Address(row, norm) !in excluded && row.confirmedAt.Unreadable?
  }

  lemma SuchStep(rows: seq<ExportRow>, n: nat, p: ExportRow -> bool)
    requires n < |rows|
    ensures |Such(rows, n + 1, p)| == |Such(rows, n, p)| + if p(rows[n]) then 1 else 0
  {
    assert Such(rows, n + 1, p) == Such(rows, n, p) + if p(rows[n]) then {n} else {};
  }

  /** The earliest confirmation noted for each address seen. */
  ghost predicate IsEarliest(m: map<string, int>, rows: seq<ExportRow>, n: nat, norm: Norm, excluded: set<string>)
    requires n <= |rows|
  {
    && m.Keys == Distinct(rows, n, norm, excluded)
    && (forall i :: 0 <= i < n && Counts(rows[i], norm, excluded) ==>
          m[Address(rows[i], norm)] <= rows[i].confirmedAt.ms)
    && (forall e :: e in m ==> NotedFor(e, m[e], rows, n, norm, excluded))
  }

  ghost predicate NotedFor(e: string, at: int, rows: seq<ExportRow>, n: nat, norm: Norm, excluded: set<string>)
    requires n <= |rows|
  {
    exists i :: 0 <= i < n && Counts(rows[i], norm, excluded) && Address(rows[i], norm) == e
      && rows[i].confirmedAt.ms == at
  }

  lemma EarliestStep(m: map<string, int>, rows: seq<ExportRow>, n: nat, norm: Norm, excluded: set<string>)
    requires n < |rows| && IsEarliest(m, rows, n, norm, excluded) && Counts(rows[n], norm, excluded)
    ensures var e, at := Address(rows[n], norm), rows[n].confirmedAt.ms;
      IsEarliest(if e !in m || at < m[e] then m[e := at] else m, rows, n + 1, norm, excluded)
  {
    var e, at := Address(rows[n], norm), rows[n].confirmedAt.ms;
    var m1 := if e !in m || at < m[e] then m[e := at] else m;
    assert Distinct(rows, n + 1, norm, excluded) == Distinct(rows, n, norm, excluded) + {e};
    forall f | f in m1
      ensures NotedFor(f, m1[f], rows, n + 1, norm, excluded)
    {
      if f in m && m1[f] == m[f] { assert NotedFor(f, m[f], rows, n, norm, excluded); }
    }
  }

  /** An address's earliest confirmation precedes the cutoff exactly when one of its confirmations does. */
  lemma EarlyIffBefore(m: map<string, int>, rows: seq<ExportRow>, norm: Norm, excluded: set<string>, cutoff: int)
    requires IsEarliest(m, rows, |rows|, norm, excluded)
    ensures Early(m, m.Keys, cutoff) == Before(rows, |rows|, norm, excluded, cutoff)
  {
    forall e | e in m && m[e] < cutoff
      ensures e in Before(rows, |rows|, norm, excluded, cutoff)
    {
      assert NotedFor(e, m[e], rows, |rows|, norm, excluded);
    }
    forall e | e in Before(rows, |rows|, norm, excluded, cutoff)
      ensures e in m && m[e] < cutoff
    {
      var i :| 0 <= i < |rows| && Counts(rows[i], norm, excluded) && rows[i].confirmedAt.ms < cutoff
        && Address(rows[i], norm) == e;
      assert e in Distinct(rows, |rows|, norm, excluded);
    }
  }

  // ---------------------------------------------------------------- the two loops

  datatype Counted = Counted(
    totalRows: nat, totalConfirmedRaw: nat, malformedConfirmedAt: nat, excludedMatches: nat,
    distinctConfirmed: nat, advisoryCount: nat, gateCount: nat, advisoryPass: bool, gatePass: bool)

  method NoteEarliest(rows: seq<ExportRow>, norm: Norm, excluded: set<string>)
      returns (earliest: map<string, int>, raw: nat, malformed: nat, excludedSeen: set<string>)
    ensures IsEarliest(earliest, rows, |rows|, norm, excluded)
    ensures raw == |Such(rows, |rows|, IsConsidered())|
    ensures malformed == |Such(rows, |rows|, IsUnreadable(norm, excluded))|
    ensures excludedSeen == ExcludedMatches(rows, |rows|, norm, excluded)
  {
    earliest, raw, malformed, excludedSeen := map[], 0, 0, {};
    for n := 0 to |rows|
      invariant IsEarliest(earliest, rows, n, norm, excluded)
      invariant raw == |Such(rows, n, IsConsidered())|
      invariant malformed == |Such(rows, n, IsUnreadable(norm, excluded))|
      invariant excludedSeen == ExcludedMatches(rows, n, norm, excluded)
    {
      var row := rows[n];
      SuchStep(rows, n, IsConsidered());
      SuchStep(rows, n, IsUnreadable(norm, excluded));
      if row.email.Some? && row.confirmedAt != Missing {
        raw := raw + 1;
        var email := norm(row.email.value);
        if email in excluded {
          excludedSeen := excludedSeen + {email};
        } else if row.confirmedAt.Unreadable? {
          malformed := malformed + 1;
        } else {
          EarliestStep(earliest, rows, n, norm, excluded);
          if email !in earliest || row.confirmedAt.ms < earliest[email] {
            earliest := earliest[email := row.confirmedAt.ms];
          }
        }
      }
    }
  }

  /** The keys among these whose values precede the cutoff. */
  ghost function Early(m: map<string, int>, keys: set<string>, cutoff: int): set<string>
    requires keys <= m.Keys
  {
    set e | e in keys && m[e] < cutoff
  }

  lemma EarlyStep(m: map<string, int>, keys: set<string>, cutoff: int, e: string)
    requires keys <= m.Keys && e in m && e !in keys
    ensures |Early(m, keys + {e}, cutoff)| == |Early(m, keys, cutoff)| + if m[e] < cutoff then 1 else 0
  {
    assert Early(m, keys + {e}, cutoff) == Early(m, keys, cutoff) + if m[e] < cutoff then {e} else {};
  }

  /** How many of the map's values precede the cutoff. */
  method CountBefore(m: map<string, int>, cutoff: int) returns (count: nat)
    ensures count == |Early(m, m.Keys, cutoff)|
  {
    count := 0;
    var rest := m.Keys;
    ghost var done: set<string> := {};
    while rest != {}
      invariant rest <= m.Keys && done == m.Keys - rest
      invariant count == |Early(m, done, cutoff)|
      decreases |rest|
    {
      var e :| e in rest;
      EarlyStep(m, done, cutoff, e);
      if m[e] < cutoff { count := count + 1; }
      rest, done := rest - {e}, done + {e};
    }
    assert done == m.Keys;
  }

  /** So many days in milliseconds. */
  function Days(n: int): int { n * 24 * 60 * 60 * 1000 }

  /** Every figure is a number of rows or of distinct addresses; without a readable day 0 there is none. */
  method ComputeK2Counts(rows: seq<ExportRow>, day0: Stamp, excludedAddresses: seq<string>, norm: Norm)
      returns (r: Option<Counted>)
    ensures r.Some? <==> day0.At?
    ensures r.Some? ==>
      var excluded := Excluded(excludedAddresses, norm);
      var c := r.value;
      && c.totalRows == |rows|
      && c.totalConfirmedRaw == |Such(rows, |rows|, IsConsidered())|
      && c.malformedConfirmedAt == |Such(rows, |rows|, IsUnreadable(norm, excluded))|
      && c.excludedMatches == |ExcludedMatches(rows, |rows|, norm, excluded)|
      && c.distinctConfirmed == |Distinct(rows, |rows|, norm, excluded)|
      && c.advisoryCount == |Before(rows, |rows|, norm, excluded, day0.ms + Days(14))|
      && c.gateCount == |Before(rows, |rows|, norm, excluded, day0.ms + Days(42))|
      && (c.advisoryPass <==> c.advisoryCount >= 100) && (c.gatePass <==> c.gateCount >= 300)
  {
    if !day0.At? { return None; }
    var advisoryCutoff := day0.ms + ADVISORY_WINDOW_DAYS * DAY_MS;
    var gateCutoff := day0.ms + GATE_WINDOW_DAYS * DAY_MS;
    var excluded := Excluded(excludedAddresses, norm);
    var earliest, raw, malformed, excludedSeen := NoteEarliest(rows, norm, excluded);
    var advisoryCount := CountBefore(earliest, advisoryCutoff);
    var gateCount := CountBefore(earliest, gateCutoff);
    EarlyIffBefore(earliest, rows, norm, excluded, advisoryCutoff);
    EarlyIffBefore(earliest, rows, norm, excluded, gateCutoff);
    return Some(Counted(|rows|, raw, malformed, |excludedSeen|, |earliest.Keys|, advisoryCount, gateCount,
                        advisoryCount >= ADVISORY_THRESHOLD, gateCount >= GATE_THRESHOLD));
  }
}
