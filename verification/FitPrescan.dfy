/**
 * The walk over a FIT file's record headers (packages/import/src/fit-prescan.ts), as functions on positions and as
 * the loops that compute them.
 */
module FitPrescan {
  import opened Common
  import opened FitCrc
  import opened FitFormat

  const TIMESTAMP_FIELD: Byte := 253
  const MAX_FIT_MESSAGES := 250_000
  const MAX_FIT_DEFINITION_FIELDS := 250_000

  datatype Error =
    | TooSmall | BadHeaderSize | HeaderCut | NoMarker | LengthExceeds
    | DefinitionCut | FieldListCut | TimestampSize(size: Byte) | DeveloperCountCut | DeveloperListCut
    | NoDefinition | DataCut | TooManyMessages | TooManyFields | Aborted

  /** What the walk remembers of a definition: lengths only. */
  datatype Summary = Summary(number: nat, recordLength: nat, compressedLength: nat)

  datatype Tally = Tally(definitions: map<nat, Summary>, counts: map<nat, nat>, messages: nat, fields: nat)

  const NothingSeen := Tally(map[], map[], 0, 0)

  function First(fields: seq<Field>): (f: Option<Field>)
    ensures f.Some? ==> f.value.size <= SumSizes(fields)
  {
    if fields == [] then None else
      SumSizesHead(fields);
      Some(fields[0])
  }

  /** A leading timestamp field is not on the wire under a compressed header. */
  function Summarise(number: nat, total: nat, first: Option<Field>): Summary
    requires first.Some? ==> first.value.size <= total
  {
    Summary(number, total,
            if first.Some? && first.value.number == TIMESTAMP_FIELD then total - first.value.size else total)
  }

  function NoteDefinition(t: Tally, local: nat, s: Summary, fields: nat): Tally {
    Tally(t.definitions[local := s], t.counts, t.messages + 1, t.fields + fields)
  }

  function Count(counts: map<nat, nat>, number: nat): nat { if number in counts then counts[number] else 0 }

  function NoteData(t: Tally, number: nat): Tally {
    Tally(t.definitions, t.counts[number := Count(t.counts, number) + 1], t.messages + 1, t.fields)
  }

  function CapError(t: Tally): Option<Error> {
    if t.messages > MAX_FIT_MESSAGES then Some(TooManyMessages)
    else if t.fields > MAX_FIT_DEFINITION_FIELDS then Some(TooManyFields)
    else None
  }

  // ---------------------------------------------------------------- one record

  function FirstBadTimestamp(fields: seq<Field>, from: nat): Option<Byte>
    requires from <= |fields|
    decreases |fields| - from
  {
    if from == |fields| then None
    else if fields[from].number == TIMESTAMP_FIELD && fields[from].size != 4 then Some(fields[from].size)
    else FirstBadTimestamp(fields, from + 1)
  }

  lemma {:induction false} NoBadTimestamp(fields: seq<Field>, from: nat)
    requires from <= |fields|
    ensures FirstBadTimestamp(fields, from).None? <==>
      (forall i :: from <= i < |fields| ==> fields[i].number == TIMESTAMP_FIELD ==> fields[i].size == 4)
    decreases |fields| - from
  {
    if from < |fields| { NoBadTimestamp(fields, from + 1); }
  }

  function Fields(b: seq<Byte>, at: nat, n: nat): (fields: seq<Field>)
    requires at + 3 * n <= |b|
    ensures |fields| == n && FieldsLie(b, at, fields, n)
  {
    seq(n, i requires 0 <= i < n => FieldAt(b, at, i))
  }

  /**
   * The native field list of a definition whose fixed part starts here: five bytes, the last one the count, then the
   * fields.
   */
  function NativeList(b: seq<Byte>, at: nat, end: nat): (r: Result<seq<Field>, Error>)
    requires at <= end <= |b|
    ensures r.Ok? ==> at + 5 + 3 * |r.value| <= end
  {
    if at + 5 > end then Err(DefinitionCut)
    else if at + 5 + 3 * b[at + 4] > end then Err(FieldListCut)
    else
      var native := Fields(b, at + 5, b[at + 4]);
      match FirstBadTimestamp(native, 0)
      case Some(size) => Err(TimestampSize(size))
      case None => Ok(native)
  }

  /** The developer field list, when the header announces one: a count byte, then the fields. */
  function DeveloperList(b: seq<Byte>, at: nat, end: nat, announced: bool): (r: Result<seq<Field>, Error>)
    requires at <= end <= |b|
    ensures r.Ok? ==> at + (if announced then 1 + 3 * |r.value| else 0) <= end
  {
    if !announced then Ok([])
    else if at + 1 > end then Err(DeveloperCountCut)
    else if at + 1 + 3 * b[at] > end then Err(DeveloperListCut)
    else Ok(Fields(b, at + 1, b[at]))
  }

  /** The definition record whose header is the byte before `at`. */
  function ReadDefinition(b: seq<Byte>, at: nat, end: nat): (r: Result<Record, Error>)
    requires 0 < at <= end <= |b|
    ensures r.Ok? ==> r.value.Definition? && at - 1 + Size(r.value) <= end
  {
    match NativeList(b, at, end)
    case Err(e) => Err(e)
    case Ok(native) =>
      match DeveloperList(b, at + 5 + 3 * |native|, end, HasDeveloper(b[at - 1]))
      case Err(e) => Err(e)
      case Ok(developer) => Ok(Definition(b[at - 1], b[at], b[at + 1], b[at + 2], b[at + 3], native, developer))
  }

  /** The lengths kept of a definition. */
  function SummaryOf(d: Record): Summary
    requires d.Definition?
  {
    Summarise(GlobalOf(d), SumSizes(d.native) + SumSizes(d.developer), First(d.native))
  }

  datatype Stepped = Stepped(tally: Tally, next: nat)

  function StepDefinition(b: seq<Byte>, at: nat, end: nat, t: Tally): (r: Result<Stepped, Error>)
    requires at < end <= |b|
    ensures r.Ok? ==> at < r.value.next <= end
  {
    match ReadDefinition(b, at + 1, end)
    case Err(e) => Err(e)
    case Ok(d) =>
      Ok(Stepped(NoteDefinition(t, LocalType(b[at]), SummaryOf(d), |d.native| + |d.developer|), at + Size(d)))
  }

  function BodyLength(s: Summary, compressed: bool): nat { if compressed then s.compressedLength else s.recordLength }

  function StepData(b: seq<Byte>, at: nat, end: nat, t: Tally): (r: Result<Stepped, Error>)
    requires at < end <= |b|
    ensures r.Ok? ==> at < r.value.next <= end
  {
    var local := LocalType(b[at]);
    if local !in t.definitions then Err(NoDefinition)
    else
      var length := BodyLength(t.definitions[local], IsCompressed(b[at]));
      if at + 1 + length > end then Err(DataCut)
      else Ok(Stepped(NoteData(t, t.definitions[local].number), at + 1 + length))
  }

  function Step(b: seq<Byte>, at: nat, end: nat, t: Tally): (r: Result<Stepped, Error>)
    requires at < end <= |b|
    ensures r.Ok? ==> at < r.value.next <= end
  {
    match (if IsDefinition(b[at]) then StepDefinition(b, at, end, t) else StepData(b, at, end, t))
    case Err(e) => Err(e)
    case Ok(s) =>
      match CapError(s.tally)
      case Some(e) => Err(e)
      case None => Ok(s)
  }

  /** The walk from here to the end of the data section. */
  function Walk(b: seq<Byte>, at: nat, end: nat, t: Tally): Result<Tally, Error>
    requires at <= end <= |b|
    decreases end - at
  {
    if at == end then Ok(t)
    else
      match Step(b, at, end, t)
      case Err(e) => Err(e)
      case Ok(s) => Walk(b, s.next, end, s.tally)
  }

  // ---------------------------------------------------------------- the whole file

  /** A verdict is absent when there is no checksum, or one declared as zero. */
  datatype Report = Report(
    headerLength: nat, crcStart: nat, messages: nat, counts: map<nat, nat>,
    headerCrcOk: Option<bool>, fileCrcOk: Option<bool>, fileCrcMissing: bool)

  function Uint32(b: seq<Byte>, at: nat): nat
    requires at + 4 <= |b|
  {
    b[at] + 256 * b[at + 1] + 65536 * b[at + 2] + 16777216 * b[at + 3]
  }

  /** Where the data section lies, from the file header. */
  function Section(b: seq<Byte>): (r: Result<(nat, nat), Error>)
    ensures r.Ok? ==> r.value.0 <= r.value.1 <= |b|
  {
    if |b| < 12 then Err(TooSmall)
    else if b[0] != 12 && b[0] != 14 then Err(BadHeaderSize)
    else if |b| < b[0] then Err(HeaderCut)
    else if !(b[8] == 0x2E && b[9] == 0x46 && b[10] == 0x49 && b[11] == 0x54) then Err(NoMarker)
    else if b[0] + Uint32(b, 4) > |b| then Err(LengthExceeds)
    else Ok((b[0], b[0] + Uint32(b, 4)))
  }

  /** The four header bytes from the eighth on. */
  predicate HasMarker(b: seq<Byte>) {
    |b| >= 12 && b[8..12] == ['.' as int, 'F' as int, 'I' as int, 'T' as int]
  }

  /**
   * A file header is accepted exactly if it is complete, 12 or 14 bytes long by its first byte, marked, and declares no
   * more data than there is; then the data follows it. Otherwise the first fault is named.
   */
  lemma SectionIff(b: seq<Byte>, from: nat, to: nat)
    ensures Section(b) == Ok((from, to)) <==>
      && HasMarker(b) && from <= to <= |b| && b[0] == from && (from == 12 || from == 14)
      && to - from == b[4] + 256 * b[5] + 256 * 256 * b[6] + 256 * 256 * 256 * b[7]
    ensures Section(b) == Err(TooSmall) <==> |b| < 12
    ensures Section(b) == Err(BadHeaderSize) <==> |b| >= 12 && b[0] != 12 && b[0] != 14
    ensures Section(b) == Err(HeaderCut) <==> |b| in {12, 13} && b[0] == 14
    ensures Section(b) == Err(NoMarker) <==>
      |b| >= 12 && !HasMarker(b) && (b[0] == 12 || (b[0] == 14 && |b| >= 14))
  {
    if |b| >= 12 {
      assert b[8..12] == [b[8], b[9], b[10], b[11]];
      assert '.' as int == 0x2E && 'F' as int == 0x46 && 'I' as int == 0x49 && 'T' as int == 0x54;
    }
  }

  /** Only the long header form has a checksum. */
  function HeaderVerdict(b: seq<Byte>, headerLength: nat): Option<bool>
    requires headerLength <= |b|
  {
    if headerLength == 14 then Verdict(b, 12) else None
  }

  function FileVerdict(b: seq<Byte>, crcStart: nat): Option<bool> {
    if crcStart + 2 > |b| then None else Verdict(b, crcStart)
  }

  function Scan(b: seq<Byte>): Result<Report, Error> {
    match Section(b)
    case Err(e) => Err(e)
    case Ok((from, to)) =>
      match Walk(b, from, to, NothingSeen)
      case Err(e) => Err(e)
      case Ok(t) =>
        Ok(Report(from, to, t.messages, t.counts, HeaderVerdict(b, from), FileVerdict(b, to), to + 2 > |b|))
  }

  /** The caller's signal stops a walk before its first record, if it has any; an interval of zero never comes round. */
  predicate Stopped(from: nat, to: nat, aborted: bool, interval: int) { aborted && interval != 0 && from < to }

  // ---------------------------------------------------------------- the loops

  /** One field list; the totals run along, and a misdeclared timestamp stops it. */
  method ReadNative(b: seq<Byte>, at: nat, n: nat) returns (total: nat, first: Option<Field>, bad: Option<Byte>)
    requires at + 3 * n <= |b|
    ensures bad == FirstBadTimestamp(Fields(b, at, n), 0)
    ensures bad.None? ==> total == SumSizes(Fields(b, at, n)) && first == First(Fields(b, at, n))
  {
    ghost var native := Fields(b, at, n);
    total, first, bad := 0, None, None;
    for f := 0 to n
      invariant bad.None? && FirstBadTimestamp(native, 0) == FirstBadTimestamp(native, f)
      invariant total == SizeOfFirst(native, f)
      invariant first == if f == 0 then None else First(native)
    {
      var field := Field(b[at + 3 * f], b[at + 3 * f + 1], b[at + 3 * f + 2]);
      assert native[f] == field;
      if field.number == TIMESTAMP_FIELD && field.size != 4 {
        return total, first, Some(field.size);
      }
      if f == 0 { first := Some(field); }
      total := total + field.size;
    }
  }

  method ReadDeveloper(b: seq<Byte>, at: nat, n: nat) returns (total: nat)
    requires at + 3 * n <= |b|
    ensures total == SumSizes(Fields(b, at, n))
  {
    ghost var fields := Fields(b, at, n);
    total := 0;
    for f := 0 to n
      invariant total == SizeOfFirst(fields, f)
    {
      assert fields[f] == FieldAt(b, at, f);
      total := total + b[at + 3 * f + 1];
    }
  }

  /** A definition read by its header byte: the walk never builds the record, only its lengths. */
  method ScanDefinition(b: seq<Byte>, start: nat, end: nat, t: Tally) returns (r: Result<Stepped, Error>)
    requires start < end <= |b|
    ensures r == StepDefinition(b, start, end, t)
  {
    var index := start + 1;
    if index + 5 > end { return Err(DefinitionCut); }
    var number := GlobalNumber(b[index + 1], b[index + 2], b[index + 3]);
    var n := b[index + 4];
    index := index + 5;
    if index + n * 3 > end { return Err(FieldListCut); }
    var total, first, bad := ReadNative(b, index, n);
    if bad.Some? { return Err(TimestampSize(bad.value)); }
    index := index + n * 3;
    var fields := n;
    if HasDeveloper(b[start]) {
      if index + 1 > end { return Err(DeveloperCountCut); }
      var m := b[index];
      index := index + 1;
      if index + m * 3 > end { return Err(DeveloperListCut); }
      var more := ReadDeveloper(b, index, m);
      total := total + more;
      index := index + m * 3;
      fields := fields + m;
    }
    return Ok(Stepped(NoteDefinition(t, LocalType(b[start]), Summarise(number, total, first), fields), index));
  }

  method CheckCrc(b: seq<Byte>, at: nat) returns (ok: Option<bool>)
    requires at + 2 <= |b|
    ensures ok == Verdict(b, at)
  {
    var declared := b[at] + 256 * b[at + 1];
    if declared == 0 { return None; }
    var crc := CalculateFitCrc(b, 0, at);
    return Some(declared == crc);
  }

  method ScanData(b: seq<Byte>, at: nat, end: nat, t: Tally) returns (r: Result<Stepped, Error>)
    requires at < end <= |b|
    ensures r == StepData(b, at, end, t)
  {
    var header := b[at];
    var local := LocalType(header);
    if local !in t.definitions { return Err(NoDefinition); }
    var d := t.definitions[local];
    var length := if IsCompressed(header) then d.compressedLength else d.recordLength;
    if at + 1 + length > end { return Err(DataCut); }
    return Ok(Stepped(NoteData(t, d.number), at + 1 + length));
  }

  method ScanRecords(b: seq<Byte>, from: nat, to: nat, aborted: bool, interval: int) returns (r: Result<Tally, Error>)
    requires from <= to <= |b|
    ensures r == if Stopped(from, to, aborted, interval) then Err(Aborted) else Walk(b, from, to, NothingSeen)
  {
    var tally, index := NothingSeen, from;
    while index < to
      invariant from <= index <= to
      invariant Stopped(from, to, aborted, interval) ==> index == from && tally == NothingSeen
      invariant Walk(b, index, to, tally) == Walk(b, from, to, NothingSeen)
    {
      if aborted && interval != 0 && tally.messages % interval == 0 { return Err(Aborted); }
      var step: Result<Stepped, Error>;
      if IsDefinition(b[index]) {
        step := ScanDefinition(b, index, to, tally);
      } else {
        step := ScanData(b, index, to, tally);
      }
      if step.Err? { return Err(step.error); }
      tally, index := step.value.tally, step.value.next;
      if tally.messages > MAX_FIT_MESSAGES { return Err(TooManyMessages); }
      if tally.fields > MAX_FIT_DEFINITION_FIELDS { return Err(TooManyFields); }
    }
    return Ok(tally);
  }

  /** `aborted`: the caller's signal, which cannot change while the walk runs; `interval`: how often it is looked at. */
  method PrescanFit(b: seq<Byte>, aborted: bool, interval: int) returns (r: Result<Report, Error>)
    ensures r ==
      if Section(b).Ok? && Stopped(Section(b).value.0, Section(b).value.1, aborted, interval) then Err(Aborted)
      else Scan(b)
  {
    var section := Section(b);
    if section.Err? { return Err(section.error); }
    var (headerLength, crcStart) := section.value;
    var headerCrcOk, fileCrcOk: Option<bool> := None, None;
    if headerLength == 14 { headerCrcOk := CheckCrc(b, 12); }
    if crcStart + 2 <= |b| { fileCrcOk := CheckCrc(b, crcStart); }
    var walked := ScanRecords(b, headerLength, crcStart, aborted, interval);
    if walked.Err? { return Err(walked.error); }
    return Ok(Report(
      headerLength, crcStart, walked.value.messages, walked.value.counts, headerCrcOk, fileCrcOk,
      crcStart + 2 > |b|));
  }
}
