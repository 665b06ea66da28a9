/** Which single wrong bytes the checksum verdicts of an accepted FIT file notice. */
module FitDamage {
  import opened Common
  import opened FitCrc
  import opened FitFormat
  import opened FitPrescan

  /** The two header bytes groups that say where the data section ends: the header length, and the data length. */
  predicate MovesTheEnd(i: nat) { i == 0 || 4 <= i < 8 }

  lemma EndStays(b: seq<Byte>, c: seq<Byte>, i: nat)
    requires DifferOnlyAt(b, c, i) && !MovesTheEnd(i) && Section(b).Ok? && Section(c).Ok?
    ensures Section(c) == Section(b)
  {
    assert Uint32(b, 4) == Uint32(c, 4);
  }

  /** What remains of a right checksum ending at `at` after one byte before `at + 2` has changed. */
  function Remains(c: seq<Byte>, at: nat): Option<bool>
    requires at + 2 <= |c|
  {
    if Declared(c, at) == 0 then None else Some(false)
  }

  /**
   * A file with a right file checksum, and the same file with one byte up to the end of the checksum changed, other
   * than the header length and the data length: if it is still accepted, its data ends at the same place and its
   * checksum is reported wrong, or not checked if its two bytes read zero.
   */
  lemma DamageIsReported(b: seq<Byte>, c: seq<Byte>, i: nat)
    requires IsBytes(b) && IsBytes(c) && DifferOnlyAt(b, c, i) && !MovesTheEnd(i)
    ensures Scan(b).Ok? && Scan(c).Ok? ==>
      var r, r' := Scan(b).value, Scan(c).value;
      && r'.headerLength == r.headerLength && r'.crcStart == r.crcStart
      && (r.fileCrcOk == Some(true) && i < r.crcStart + 2 ==> r'.fileCrcOk == Remains(c, r.crcStart))
  {
    if Scan(b).Ok? && Scan(c).Ok? {
      EndStays(b, c, i);
      var to := Scan(b).value.crcStart;
      if i < to + 2 && FileVerdict(b, to) == Some(true) { OneWrongByteIsNoticed(b, c, to, i); }
    }
  }

  // ---------------------------------------------------------------- both checksums together

  /** The long header, its checksum and the file's, both right. */
  predicate BothRight(b: seq<Byte>, to: nat) {
    14 <= to && to + 2 <= |b| && b[0] == 14 && Verdict(b, 12) == Some(true) && Verdict(b, to) == Some(true)
  }

  /** One of the two is wrong, the data ending at `to`. */
  predicate OneWrong(c: seq<Byte>, to: nat) {
    |c| > 0 && ((c[0] == 14 <= |c| && HeaderVerdict(c, 14) == Some(false)) || FileVerdict(c, to) == Some(false))
  }

  lemma HeaderDamageIsNoticed(b: seq<Byte>, c: seq<Byte>, i: nat, to: nat, to': nat)
    requires IsBytes(b) && IsBytes(c) && DifferOnlyAt(b, c, i) && BothRight(b, to) && 0 < i < 14
    requires !MovesTheEnd(i) ==> to' == to
    ensures OneWrong(c, to') && Declared(c, to) != 0
  {
    OneWrongByteIsNoticed(b, c, 12, i);
    if !MovesTheEnd(i) { OneWrongByteIsNoticed(b, c, to, i); }
  }

  lemma LaterDamageIsNoticedIff(b: seq<Byte>, c: seq<Byte>, i: nat, to: nat)
    requires IsBytes(b) && IsBytes(c) && DifferOnlyAt(b, c, i) && BothRight(b, to) && 14 <= i < to + 2
    ensures OneWrong(c, to) <==> Declared(c, to) != 0
  {
    OneWrongByteIsNoticed(b, c, to, i);
    SameBytesSameCrc(b, c, 0, 12);
  }

  lemma NewEnd(b: seq<Byte>, c: seq<Byte>, i: nat)
    requires DifferOnlyAt(b, c, i) && Section(b).Ok? && Section(c).Ok? && b[0] == 14
    ensures i == 0 ==> Section(c).value == (12, Section(b).value.1 - 2)
    ensures i > 0 ==> Section(c).value.0 == 14 && (!MovesTheEnd(i) ==> Section(c) == Section(b))
  {
    if i == 0 { assert Uint32(b, 4) == Uint32(c, 4); }
    if !MovesTheEnd(i) { EndStays(b, c, i); }
  }

  predicate Noticed(r: Report) { r.headerCrcOk == Some(false) || r.fileCrcOk == Some(false) }

  /** What a report says of the section and of the checksums. */
  predicate Describes(r: Report, b: seq<Byte>) {
    && Section(b) == Ok((r.headerLength, r.crcStart))
    && r.headerCrcOk == HeaderVerdict(b, r.headerLength) && r.fileCrcOk == FileVerdict(b, r.crcStart)
  }

  lemma ScanDescribes(b: seq<Byte>)
    ensures Scan(b).Ok? ==> Describes(Scan(b).value, b)
  {
  }

  lemma DescribedNoticeIff(b: seq<Byte>, c: seq<Byte>, i: nat, r: Report, r': Report)
    requires IsBytes(b) && IsBytes(c) && DifferOnlyAt(b, c, i) && Describes(r, b) && Describes(r', c)
    requires r.headerCrcOk == Some(true) && r.fileCrcOk == Some(true) && i < r.crcStart + 2
    ensures Noticed(r') <==>
      if i == 0 then FileVerdict(c, r.crcStart - 2) == Some(false) else Declared(c, r.crcStart) != 0
  {
    NewEnd(b, c, i);
    if 0 < i < 14 { HeaderDamageIsNoticed(b, c, i, r.crcStart, r'.crcStart); }
    if 14 <= i { LaterDamageIsNoticedIff(b, c, i, r.crcStart); }
  }

  /**
   * With both checksums right, one wrong byte up to the end of the file checksum is noticed by one of them exactly
   * when the file checksum does not read zero afterwards, or, if the byte is the header length, when the bytes now
   * taken for the checksum, two places further ahead, are not those of what precedes them.
   */
  lemma BothVerdictsNoticeIff(b: seq<Byte>, c: seq<Byte>, i: nat)
    requires IsBytes(b) && IsBytes(c) && DifferOnlyAt(b, c, i)
    ensures Scan(b).Ok? && Scan(c).Ok? ==>
      var r, r' := Scan(b).value, Scan(c).value;
      (r.headerCrcOk == Some(true) && r.fileCrcOk == Some(true) && i < r.crcStart + 2) ==>
        (Noticed(r') <==>
          if i == 0 then FileVerdict(c, r.crcStart - 2) == Some(false) else Declared(c, r.crcStart) != 0)
  {
    ScanDescribes(b);
    ScanDescribes(c);
    if Scan(b).Ok? && Scan(c).Ok? {
      var r, r' := Scan(b).value, Scan(c).value;
      if r.headerCrcOk == Some(true) && r.fileCrcOk == Some(true) && i < r.crcStart + 2 {
        DescribedNoticeIff(b, c, i, r, r');
      }
    }
  }

  // ---------------------------------------------------------------- three bytes that fix the checksum

  lemma {:induction false} XorNothing(a: nat)
    ensures Xor(a, 0) == a
  {
    if a > 0 { XorNothing(a / 2); }
  }

  lemma {:induction false} XorItself(a: nat)
    ensures Xor(a, a) == 0
  {
    if a > 0 { XorItself(a / 2); }
  }

  lemma Double(low: nat, rest: nat)
    ensures (low + 2 * rest) / 2 == low / 2 + rest && (low + 2 * rest + low) % 2 == 0
  {
  }

  lemma EvenSteps(v: nat, n: nat, half: nat)
    requires BitSteps(v, n) == 2 * half
    ensures BitSteps(v, n + 1) == half
  {
  }

  lemma Shifted(k: nat, high: nat)
    requires k > 0
    ensures Pow2(k) * high == 2 * (Pow2(k - 1) * high)
  {
  }

  /** Mixed with its own low digits, a number keeps the high ones. */
  lemma {:induction false} XorLow(low: nat, high: nat, k: nat, shifted: nat)
    requires low < Pow2(k) && shifted == Pow2(k) * high
    ensures Xor(low + shifted, low) == shifted
    decreases k
  {
    if k == 0 {
      XorNothing(high);
    } else {
      var rest := Pow2(k - 1) * high;
      Shifted(k, high);
      XorLow(low / 2, high, k - 1, rest);
      Double(low, rest);
    }
  }

  /** Zeros are shifted out. */
  lemma {:induction false} ShiftOut(v: nat, high: nat, k: nat, n: nat)
    requires n <= k && v == Pow2(k) * high
    ensures BitSteps(v, n) == Pow2(k - n) * high
    decreases n
  {
    if n > 0 {
      ShiftOut(v, high, k, n - 1);
      Shifted(k - n + 1, high);
      EvenSteps(v, n - 1, Pow2(k - n) * high);
    }
  }

  lemma StepOfThree()
    ensures BitStep(3) == 40960
  {
    XorCommutes(0, 20480);
    XorNothing(20480);
  }

  lemma StepOfSix()
    ensures BitSteps(6, BITS) == 640
  {
    EvenSteps(6, 0, 3);
    StepOfThree();
    EvenSteps(6, 2, 20480);
    EvenSteps(6, 3, 10240);
    EvenSteps(6, 4, 5120);
    EvenSteps(6, 5, 2560);
    EvenSteps(6, 6, 1280);
    EvenSteps(6, 7, 640);
  }

  /** Followed by the two bytes of its own checksum and a six. */
  function Signed(s: seq<Byte>): seq<Byte> {
    var c := Crc(s, 0, |s|);
    s + [c % 256, c / 256, 6]
  }

  lemma OwnLowDigits(low: nat, high: nat, k: nat, shifted: nat)
    requires low < Pow2(k) && shifted == Pow2(k) * high
    ensures BitSteps(Xor(low + shifted, low), k) == high
  {
    XorLow(low, high, k, shifted);
    ShiftOut(shifted, high, k, k);
  }

  lemma OwnLowByte(low: nat, high: nat)
    requires low < 256
    ensures BitSteps(Xor(low + 256 * high, low), BITS) == high
  {
    Sizes();
    OwnLowDigits(low, high, BITS, 256 * high);
  }

  lemma OwnHighByte(h: nat)
    ensures BitSteps(Xor(h, h), BITS) == 0
  {
    XorItself(h);
    ShiftOut(0, 0, 8, 8);
  }

  lemma ThenSix()
    ensures BitSteps(Xor(0, 6), BITS) == 640
  {
    XorCommutes(0, 6);
    XorNothing(6);
    StepOfSix();
  }

  lemma CrcSnoc(t: seq<Byte>, n: nat, before: nat, x: Byte, after: nat)
    requires n < |t| && Crc(t, 0, n) == before && t[n] == x && BitSteps(Xor(before, x), BITS) == after
    ensures Crc(t, 0, n + 1) == after
  {
  }

  /** The three bytes take any checksum to 640. */
  lemma SignatureCrc(t: seq<Byte>, n: nat, low: nat, high: nat)
    requires n + 3 <= |t| && low < 256 && Crc(t, 0, n) == low + 256 * high
    requires t[n] == low && t[n + 1] == high && t[n + 2] == 6
    ensures Crc(t, 0, n + 3) == 640
  {
    OwnLowByte(low, high);
    CrcSnoc(t, n, low + 256 * high, low, high);
    OwnHighByte(high);
    CrcSnoc(t, n + 1, high, high, 0);
    ThenSix();
    CrcSnoc(t, n + 2, 0, 6, 640);
  }

  /** Whatever is signed so has the same checksum. */
  lemma SignedCrc(s: seq<Byte>, t: seq<Byte>)
    requires IsBytes(s) && Signed(s) <= t
    ensures IsBytes(Signed(s)) && Crc(t, 0, |s| + 3) == 640
  {
    var c := Crc(s, 0, |s|);
    CrcBelow(s, 0, |s|);
    assert forall i :: 0 <= i < |s| + 3 ==> t[i] == Signed(s)[i];
    SameBytesSameCrc(t, s, 0, |s|);
    SignatureCrc(t, |s|, c % 256, c / 256);
  }

  // ---------------------------------------------------------------- a wrong length byte that goes unnoticed

  /**
   * A twelve-byte header with its data length, a definition of local type 0 as message 20 with one field of four
   * bytes, and the first two bytes of a data record.
   */
  function Start(profile: seq<Byte>, length: Byte): seq<Byte> {
    [12] + profile + [length, 0, 0, 0, 0x2E, 0x46, 0x49, 0x54, 0x40, 0, 0, 20, 0, 1, 1, 4, 0, 0, 0]
  }

  predicate Starts(b: seq<Byte>, length: Byte) {
    && |b| >= 23 && b[0] == 12 && b[4] == length && b[5] == b[6] == b[7] == 0
    && b[8] == 0x2E && b[9] == 0x46 && b[10] == 0x49 && b[11] == 0x54
    && b[12] == 0x40 && b[13] == b[14] == 0 && b[15] == 20 && b[16] == 0 && b[17] == 1
    && b[18] == 1 && b[19] == 4 && b[20] == b[21] == 0
  }

  /** The field of the data record is signed. */
  function OneRecord(profile: seq<Byte>): (one: seq<Byte>)
    requires |profile| == 3
    ensures |one| == 26
  {
    Signed(Start(profile, 14))
  }

  /** A second data record, under a compressed header, signed too; then the file checksum. */
  function TwoRecords(one: seq<Byte>): seq<Byte>
    requires |one| == 26
  {
    Signed(one[4 := 19] + [0x80, 2]) + [0x80, 2]
  }

  lemma SignedLength(s: seq<Byte>)
    ensures |Signed(s)| == |s| + 3 && s <= Signed(s)
  {
  }

  lemma StartStarts(profile: seq<Byte>, length: Byte)
    requires |profile| == 3 && IsBytes(profile) && length < 256
    ensures |Start(profile, length)| == 23 && Starts(Start(profile, length), length) && IsBytes(Start(profile, length))
  {
    var s := Start(profile, length);
    assert forall k :: 0 <= k < 3 ==> s[1 + k] == profile[k];
  }

  lemma OneRecordBytes(profile: seq<Byte>)
    requires |profile| == 3 && IsBytes(profile)
    ensures var one := OneRecord(profile);
      |one| == 26 && IsBytes(one) && Starts(one, 14) && forall c :: one <= c ==> Crc(c, 0, 26) == 640
  {
    var s, one := Start(profile, 14), OneRecord(profile);
    StartStarts(profile, 14);
    SignedLength(s);
    SignedCrc(s, one);
    assert forall k :: 0 <= k < 23 ==> one[k] == s[k];
    forall c | one <= c ensures Crc(c, 0, 26) == 640 { SignedCrc(s, c); }
  }

  lemma TwoRecordsBytes(one: seq<Byte>)
    requires |one| == 26 && IsBytes(one)
    ensures var b := TwoRecords(one);
      && |b| == 33 && IsBytes(b) && Crc(b, 0, 31) == 640
      && (forall k :: 0 <= k < 26 && k != 4 ==> b[k] == one[k]) && b[4] == 19
      && b[26] == 0x80 && b[27] == 2 && b[31] == 0x80 && b[32] == 2
  {
    var s, b := one[4 := 19] + [0x80, 2], TwoRecords(one);
    SignedLength(s);
    SignedCrc(s, b);
    assert forall k :: 0 <= k < 31 ==> b[k] == Signed(s)[k];
    assert forall k :: 0 <= k < 28 ==> b[k] == s[k];
  }

  const SEEN := NoteDefinition(NothingSeen, 0, Summary(20, 4, 4), 1)

  lemma OneFieldSummary(d: Record)
    requires d.Definition? && GlobalOf(d) == 20 && d.native == [Field(1, 4, 0)] && d.developer == []
    ensures SummaryOf(d) == Summary(20, 4, 4)
  {
    SumSizesHead(d.native);
  }

  lemma OneFieldList(b: seq<Byte>, end: nat)
    requires 21 <= end <= |b| && b[17] == 1 && b[18] == 1 && b[19] == 4 && b[20] == 0
    ensures NativeList(b, 13, end) == Ok([Field(1, 4, 0)])
  {
    assert Fields(b, 18, 1) == [Field(1, 4, 0)];
  }

  const TWENTY := Definition(0x40, 0, 0, 20, 0, [Field(1, 4, 0)], [])

  lemma ReadsTwenty(b: seq<Byte>, end: nat, length: Byte)
    requires 21 <= end <= |b| && Starts(b, length)
    ensures ReadDefinition(b, 13, end) == Ok(TWENTY)
  {
    OneFieldList(b, end);
  }

  lemma DefinitionStep(b: seq<Byte>, end: nat, length: Byte)
    requires 21 <= end <= |b| && Starts(b, length)
    ensures Step(b, 12, end, NothingSeen) == Ok(Stepped(SEEN, 21))
  {
    ReadsTwenty(b, end, length);
    OneFieldSummary(TWENTY);
  }

  lemma DataStep(b: seq<Byte>, at: nat, end: nat, t: Tally)
    requires at + 5 <= end <= |b| && (b[at] == 0 || b[at] == 0x80)
    requires t.definitions == SEEN.definitions && t.messages < 10 && t.fields < 10
    ensures Step(b, at, end, t) == Ok(Stepped(NoteData(t, 20), at + 5))
  {
    assert LocalType(b[at]) == 0 && !IsDefinition(b[at]);
    assert t.definitions[0] == Summary(20, 4, 4);
    assert StepData(b, at, end, t) == Ok(Stepped(NoteData(t, 20), at + 5));
  }

  lemma WalkOn(b: seq<Byte>, at: nat, end: nat, t: Tally, s: Stepped)
    requires at < end <= |b| && Step(b, at, end, t) == Ok(s)
    ensures Walk(b, at, end, t) == Walk(b, s.next, end, s.tally)
  {
  }

  lemma StartSection(b: seq<Byte>, length: Byte)
    requires Starts(b, length) && 12 + length <= |b|
    ensures Section(b) == Ok((12, 12 + length))
  {
  }

  lemma WalksTwo(b: seq<Byte>)
    requires |b| == 33 && Starts(b, 19) && b[26] == 0x80
    ensures Walk(b, 12, 31, NothingSeen) == Ok(NoteData(NoteData(SEEN, 20), 20))
  {
    var t := NoteData(SEEN, 20);
    DefinitionStep(b, 31, 19);
    WalkOn(b, 12, 31, NothingSeen, Stepped(SEEN, 21));
    DataStep(b, 21, 31, SEEN);
    WalkOn(b, 21, 31, SEEN, Stepped(t, 26));
    DataStep(b, 26, 31, t);
    WalkOn(b, 26, 31, t, Stepped(NoteData(t, 20), 31));
  }

  lemma WalksOne(c: seq<Byte>)
    requires |c| == 33 && Starts(c, 14)
    ensures Walk(c, 12, 26, NothingSeen) == Ok(NoteData(SEEN, 20))
  {
    DefinitionStep(c, 26, 14);
    WalkOn(c, 12, 26, NothingSeen, Stepped(SEEN, 21));
    DataStep(c, 21, 26, SEEN);
    WalkOn(c, 21, 26, SEEN, Stepped(NoteData(SEEN, 20), 26));
  }

  /** The data ends where the first length byte says, and is followed by its right checksum, 640. */
  predicate Closes(b: seq<Byte>, to: nat) {
    to + 2 <= |b| && b[to] == 0x80 && b[to + 1] == 2 && Crc(b, 0, to) == 640
  }

  lemma RightChecksum(b: seq<Byte>, to: nat)
    requires Closes(b, to)
    ensures FileVerdict(b, to) == Some(true)
  {
    assert Declared(b, to) == 640;
  }

  lemma ReportOfWalk(b: seq<Byte>, from: nat, to: nat, t: Tally)
    requires Section(b) == Ok((from, to)) && Walk(b, from, to, NothingSeen) == Ok(t)
    ensures Scan(b) == Ok(
        Report(from, to, t.messages, t.counts, HeaderVerdict(b, from), FileVerdict(b, to), to + 2 > |b|))
  {
  }

  /** A walk's report, with no header checksum and the file's right. */
  lemma ScanOf(b: seq<Byte>, length: Byte, to: nat, t: Tally)
    requires Starts(b, length) && to == 12 + length && Closes(b, to)
    requires Walk(b, 12, to, NothingSeen) == Ok(t)
    ensures Scan(b) == Ok(Report(12, to, t.messages, t.counts, None, Some(true), false))
  {
    StartSection(b, length);
    RightChecksum(b, to);
    ReportOfWalk(b, 12, to, t);
  }

  lemma TwoCounted(t: Tally)
    requires t == NoteData(NoteData(SEEN, 20), 20)
    ensures t.messages == 3 && t.counts == map[20 := 2]
  {
  }

  lemma OneCounted(t: Tally)
    requires t == NoteData(SEEN, 20)
    ensures t.messages == 2 && t.counts == map[20 := 1]
  {
  }

  lemma ScansTwo(b: seq<Byte>)
    requires |b| == 33 && Starts(b, 19) && b[26] == 0x80 && Closes(b, 31)
    ensures Scan(b) == Ok(Report(12, 31, 3, map[20 := 2], None, Some(true), false))
  {
    var t :| t == NoteData(NoteData(SEEN, 20), 20);
    TwoCounted(t);
    WalksTwo(b);
    ScanOf(b, 19, 31, t);
  }

  lemma ScansOne(c: seq<Byte>)
    requires |c| == 33 && Starts(c, 14) && Closes(c, 26)
    ensures Scan(c) == Ok(Report(12, 26, 2, map[20 := 1], None, Some(true), false))
  {
    var t :| t == NoteData(SEEN, 20);
    OneCounted(t);
    WalksOne(c);
    ScanOf(c, 14, 26, t);
  }

  lemma BothStart(one: seq<Byte>)
    requires |one| == 26 && IsBytes(one) && Starts(one, 14) && (forall c :: one <= c ==> Crc(c, 0, 26) == 640)
    ensures var b := TwoRecords(one); var c := b[4 := 14];
      && |b| == 33 && IsBytes(b) && DifferOnlyAt(b, c, 4)
      && Starts(b, 19) && b[26] == 0x80 && Closes(b, 31)
      && Starts(c, 14) && Closes(c, 26)
  {
    TwoRecordsBytes(one);
    assert one <= TwoRecords(one)[4 := 14];
  }

  /**
   * A wrong length byte can go unnoticed, whatever the profile bytes: with a data length of 14 instead of 19 the file
   * is still accepted and its checksum still reported right, but a data record is lost.
   */
  lemma WrongLengthGoesUnnoticed(profile: seq<Byte>)
    requires |profile| == 3 && IsBytes(profile)
    ensures var b := TwoRecords(OneRecord(profile));
      && |b| == 33 && IsBytes(b) && DifferOnlyAt(b, b[4 := 14], 4)
      && Scan(b) == Ok(Report(12, 31, 3, map[20 := 2], None, Some(true), false))
      && Scan(b[4 := 14]) == Ok(Report(12, 26, 2, map[20 := 1], None, Some(true), false))
  {
    OneRecordBytes(profile);
    BothStart(OneRecord(profile));
    ScansTwo(TwoRecords(OneRecord(profile)));
    ScansOne(TwoRecords(OneRecord(profile))[4 := 14]);
  }
}
