/**
 * What the prescan's acceptance means: the data section is a well-formed record list within the caps, and nothing
 * else is accepted.
 */
module FitMeaning {
  import opened Common
  import opened FitFormat
  import opened FitPrescan

  // ---------------------------------------------------------------- the walk's state, record by record

  /** The lengths the walk keeps are the lengths a decoder reads. */
  lemma SummaryAgreesWithDecoder(d: Record, compressed: bool)
    requires d.Definition?
    ensures BodyLength(SummaryOf(d), compressed) == DecoderReads(d, compressed)
  {
    if d.native != [] { SumSizesHead(d.native); }
  }

  function Note(t: Tally, r: Record): Tally {
    match r
    case Definition(h, _, _, _, _, native, developer) =>
      NoteDefinition(t, LocalType(h), SummaryOf(r), |native| + |developer|)
    case Data(h, _) =>
      if LocalType(h) in t.definitions then NoteData(t, t.definitions[LocalType(h)].number) else t
  }

  function After(records: Records): Tally {
    match records
    case Empty => NothingSeen
    case Then(before, last) => Note(After(before), last)
  }

  lemma {:induction false} DefinitionsAfter(records: Records, local: nat)
    ensures match InForce(records, local)
      case None => local !in After(records).definitions
      case Some(d) => local in After(records).definitions && After(records).definitions[local] == SummaryOf(d)
    decreases records
  {
    if records.Then? { DefinitionsAfter(records.before, local); }
  }

  function Length(records: Records): nat { if records.Empty? then 0 else Length(records.before) + 1 }

  function DeclaredFields(records: Records): nat {
    match records
    case Empty => 0
    case Then(before, last) =>
      DeclaredFields(before) + if last.Definition? then |last.native| + |last.developer| else 0
  }

  /** Data whose definition in force gives it this message number. */
  predicate Carries(before: Records, r: Record, number: nat) {
    && r.Data?
    && var d := InForce(before, LocalType(r.header));
      d.Some? && GlobalOf(d.value) == number
  }

  /** How many of the records are data carrying this message number. */
  function Carriers(records: Records, number: nat): nat {
    match records
    case Empty => 0
    case Then(before, last) => Carriers(before, number) + if Carries(before, last, number) then 1 else 0
  }

  predicate SmallEnough(records: Records) {
    Length(records) <= 250_000 && DeclaredFields(records) <= 250_000
  }

  /** The tally counts every record, every declared field, and every data record under the definition then in force. */
  lemma {:induction false} TallyAfter(records: Records)
    requires WellFormed(records)
    ensures After(records).messages == Length(records) && After(records).fields == DeclaredFields(records)
    ensures forall number: nat :: Count(After(records).counts, number) == Carriers(records, number)
    decreases records
  {
    match records
    case Empty =>
    case Then(before, last) =>
      TallyAfter(before);
      if last.Data? { DefinitionsAfter(before, LocalType(last.header)); }
  }

  // ---------------------------------------------------------------- one step is one record

  lemma ListRead(b: seq<Byte>, at: nat, fields: seq<Field>)
    requires at + 1 + 3 * |fields| <= |b| && ListLies(b, at, fields)
    ensures Fields(b, at + 1, |fields|) == fields
  {
    var read := Fields(b, at + 1, |fields|);
    forall i: nat | i < |fields|
      ensures read[i] == fields[i]
    {
    }
  }

  lemma ReadsDefinition(b: seq<Byte>, at: nat, end: nat, r: Record)
    requires at + Size(r) <= end <= |b| && Lies(b, at, r)
    requires r.Definition? && TimestampIsFourBytes(r.native) && (r.developer != [] ==> HasDeveloper(r.header))
    ensures ReadDefinition(b, at + 1, end) == Ok(r)
  {
    ListRead(b, at + 5, r.native);
    NoBadTimestamp(r.native, 0);
    if HasDeveloper(r.header) { ListRead(b, at + 6 + 3 * |r.native|, r.developer); }
  }

  lemma ReadsData(b: seq<Byte>, at: nat, end: nat, before: Records, r: Record)
    requires r.Data? && at + Size(r) <= end <= |b| && b[at] == r.header && Fits(before, r)
    ensures StepData(b, at, end, After(before)) == Ok(Stepped(Note(After(before), r), at + Size(r)))
  {
    var local := LocalType(r.header);
    DefinitionsAfter(before, local);
    SummaryAgreesWithDecoder(InForce(before, local).value, IsCompressed(r.header));
  }

  /** The walk over a record's bytes lands exactly behind them. */
  lemma ReadsRecord(b: seq<Byte>, at: nat, end: nat, before: Records, r: Record)
    requires at + Size(r) <= end <= |b| && Lies(b, at, r) && Fits(before, r)
    requires CapError(Note(After(before), r)).None?
    ensures Step(b, at, end, After(before)) == Ok(Stepped(After(Then(before, r)), at + Size(r)))
  {
    assert b[at] == r.header;
    if r.Definition? { ReadsDefinition(b, at, end, r); } else { ReadsData(b, at, end, before, r); }
  }

  lemma DefinitionRead(b: seq<Byte>, at: nat, end: nat)
    requires at < end <= |b| && IsDefinition(b[at]) && ReadDefinition(b, at + 1, end).Ok?
    ensures var r := ReadDefinition(b, at + 1, end).value;
      at + Size(r) <= end && Lies(b, at, r) && Fits(Empty, r)
  {
    NoBadTimestamp(NativeList(b, at + 1, end).value, 0);
  }

  /** Whatever one step accepts is one record standing where it may. */
  lemma StepReadsRecord(b: seq<Byte>, at: nat, end: nat, before: Records) returns (r: Record)
    requires at < end <= |b| && Step(b, at, end, After(before)).Ok?
    ensures Fits(before, r) && at + Size(r) <= end && Lies(b, at, r)
    ensures Step(b, at, end, After(before)) == Ok(Stepped(After(Then(before, r)), at + Size(r)))
    ensures CapError(After(Then(before, r))).None?
  {
    if IsDefinition(b[at]) {
      DefinitionRead(b, at, end);
      r := ReadDefinition(b, at + 1, end).value;
    } else {
      var local := LocalType(b[at]);
      DefinitionsAfter(before, local);
      var d := InForce(before, local).value;
      SummaryAgreesWithDecoder(d, IsCompressed(b[at]));
      r := Data(b[at], b[at + 1..at + 1 + DecoderReads(d, IsCompressed(b[at]))]);
    }
  }

  // ---------------------------------------------------------------- the whole data section

  /** Walking over records that lie there consumes exactly their bytes. */
  lemma {:induction false} WalksOver(b: seq<Byte>, from: nat, to: nat, end: nat, records: Records)
    requires from <= to <= end <= |b| && AllLie(b, from, to, records)
    requires WellFormed(records) && SmallEnough(records)
    ensures Walk(b, from, end, NothingSeen) == Walk(b, to, end, After(records))
    decreases records
  {
    if records.Then? {
      var before, last := records.before, records.last;
      var k := to - Size(last);
      WalksOver(b, from, k, end, before);
      TallyAfter(records);
      ReadsRecord(b, k, end, before, last);
    }
  }

  /** The walk's next step reads one record more, and the walk goes on behind it. */
  lemma ReadsOneMore(b: seq<Byte>, from: nat, at: nat, end: nat, before: Records) returns (records: Records, to: nat)
    requires from <= at < end <= |b| && AllLie(b, from, at, before)
    requires WellFormed(before) && Walk(b, at, end, After(before)).Ok?
    ensures at < to <= end && AllLie(b, from, to, records) && WellFormed(records) && SmallEnough(records)
    ensures Walk(b, to, end, After(records)).Ok?
  {
    var r := StepReadsRecord(b, at, end, before);
    records, to := Then(before, r), at + Size(r);
    TallyAfter(records);
  }

  /** What the walk accepts after some records is more records. */
  lemma {:induction false} WalkReadsRecords(b: seq<Byte>, from: nat, at: nat, end: nat, before: Records)
      returns (records: Records)
    requires from <= at <= end <= |b| && AllLie(b, from, at, before)
    requires WellFormed(before) && SmallEnough(before) && Walk(b, at, end, After(before)).Ok?
    ensures AllLie(b, from, end, records) && WellFormed(records) && SmallEnough(records)
    decreases end - at
  {
    if at == end {
      records := before;
    } else {
      var next, to := ReadsOneMore(b, from, at, end, before);
      records := WalkReadsRecords(b, from, to, end, next);
    }
  }

  // ---------------------------------------------------------------- the file

  /** The data section is the serialization of these records. */
  predicate Holds(b: seq<Byte>, from: nat, to: nat, records: Records)
    requires from <= to <= |b|
  {
    WellFormed(records) && b[from..to] == Serialize(records)
  }

  lemma HoldsIff(b: seq<Byte>, from: nat, to: nat, records: Records)
    requires from <= to <= |b|
    ensures Holds(b, from, to, records) <==> WellFormed(records) && AllLie(b, from, to, records)
  {
    AllLieIff(b, from, to, records);
    var s, slice := Serialize(records), b[from..to];
    if |s| == |slice| && Stands(b, from, s) {
      forall i: nat | i < |s|
        ensures slice[i] == s[i]
      {
        assert b[from + i] == s[i];
      }
    }
    if slice == s {
      forall i: nat | i < |s|
        ensures b[from + i] == s[i]
      {
        assert slice[i] == b[from + i];
      }
    }
  }

  /** The prescan accepts exactly the files whose data section is a well-formed record list within the caps. */
  lemma AcceptsExactlyWellFormed(b: seq<Byte>)
    requires Section(b).Ok?
    ensures var (from, to) := Section(b).value;
      Scan(b).Ok? <==> exists records :: Holds(b, from, to, records) && SmallEnough(records)
  {
    var (from, to) := Section(b).value;
    if Scan(b).Ok? {
      var records := WalkReadsRecords(b, from, from, to, Empty);
      HoldsIff(b, from, to, records);
    }
    if records :| Holds(b, from, to, records) && SmallEnough(records) {
      HoldsIff(b, from, to, records);
      WalksOver(b, from, to, to, records);
    }
  }

  /**
   * On such a file the report ends at the section's end, counts every record, and tallies each data record under the
   * definition then in force.
   */
  lemma ReportIsExact(b: seq<Byte>, records: Records)
    requires Section(b).Ok? && Holds(b, Section(b).value.0, Section(b).value.1, records) && SmallEnough(records)
    ensures Scan(b).Ok?
    ensures Scan(b).value.headerLength == Section(b).value.0 && Scan(b).value.crcStart == Section(b).value.1
    ensures Scan(b).value.messages == Length(records)
    ensures forall number: nat :: Count(Scan(b).value.counts, number) == Carriers(records, number)
  {
    var (from, to) := Section(b).value;
    HoldsIff(b, from, to, records);
    WalksOver(b, from, to, to, records);
    TallyAfter(records);
  }

  // ---------------------------------------------------------------- a file made from records

  function LittleEndian(n: nat): (b: seq<Byte>)
    requires n < 0x1_0000_0000
    ensures |b| == 4 && b[0] + 256 * b[1] + 65536 * b[2] + 16777216 * b[3] == n
    ensures forall i :: 0 <= i < 4 ==> b[i] < 256
  {
    var n1 := n / 256;
    var n2 := n1 / 256;
    [n % 256, n1 % 256, n2 % 256, n2 / 256]
  }

  /** A fourteen-byte header, the records, and a file CRC of zero (which is never checked). */
  function FileOf(records: Records, profile: seq<Byte>): seq<Byte>
    requires |profile| == 3 && |Serialize(records)| < 0x1_0000_0000
  {
    [14] + profile + LittleEndian(|Serialize(records)|) + [0x2E, 0x46, 0x49, 0x54] + [0, 0]
    + Serialize(records) + [0, 0]
  }

  lemma SectionOfFile(records: Records, profile: seq<Byte>)
    requires |profile| == 3 && |Serialize(records)| < 0x1_0000_0000
    ensures var n, b := |Serialize(records)|, FileOf(records, profile);
      && Section(b) == Ok((14, 14 + n)) && 14 + n <= |b|
      && b[14..14 + n] == Serialize(records)
  {
    var data := Serialize(records);
    var size := LittleEndian(|data|);
    var b := FileOf(records, profile);
    assert |b| == 16 + |data|;
    assert b[4] == size[0] && b[5] == size[1] && b[6] == size[2] && b[7] == size[3];
    assert b[8] == 0x2E && b[9] == 0x46 && b[10] == 0x49 && b[11] == 0x54;
    assert Uint32(b, 4) == |data|;
    assert b[14..14 + |data|] == data;
  }

  /**
   * Every well-formed record list within the caps, written to a file (its length must fit the header's 32 bits), is
   * accepted and reported exactly.
   */
  lemma SerializedRecordsAreAccepted(records: Records, profile: seq<Byte>)
    requires |profile| == 3 && WellFormed(records) && SmallEnough(records) && |Serialize(records)| < 0x1_0000_0000
    ensures var r := Scan(FileOf(records, profile));
      && r.Ok? && r.value.headerLength == 14 && r.value.crcStart == 14 + |Serialize(records)| && !r.value.fileCrcMissing
      && r.value.messages == Length(records)
      && forall number: nat :: Count(r.value.counts, number) == Carriers(records, number)
  {
    var b := FileOf(records, profile);
    SectionOfFile(records, profile);
    assert Holds(b, 14, 14 + |Serialize(records)|, records);
    ReportIsExact(b, records);
  }
}
