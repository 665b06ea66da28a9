/** FIT data sections as lists of records: how they are written down, and how many bytes a decoder reads for each. */
module FitFormat {
  import opened Common

  /**
   * A byte; nothing below depends on the bound of 256, so it is left out and every statement holds of bytes in
   * particular.
   */
  type Byte = nat

  datatype Field = Field(number: Byte, size: Byte, baseType: Byte)

  /**
   * One record of a data section; every byte is kept, so that a data section determines its records and is determined
   * by them.
   */
  datatype Record =
    | Definition(header: Byte, reserved: Byte, architecture: Byte, low: Byte, high: Byte,
                 native: seq<Field>, developer: seq<Field>)
    | Data(header: Byte, body: seq<Byte>)

  predicate IsCompressed(h: Byte) { h >= 128 }
  predicate IsDefinition(h: Byte) { !IsCompressed(h) && h / 64 == 1 }
  predicate HasDeveloper(h: Byte) { h / 32 % 2 == 1 }
  function LocalType(h: Byte): nat { if IsCompressed(h) then h / 32 % 4 else h % 16 }

  /** The message number's two bytes come low first only when the architecture byte is zero. */
  function GlobalNumber(architecture: Byte, first: Byte, second: Byte): nat {
    if architecture == 0 then first + 256 * second else 256 * first + second
  }

  /** A compressed header: the highest bit, two bits of local type, five of time offset. */
  lemma CompressedHeader(local: nat, offset: nat)
    requires local < 4 && offset < 32
    ensures var h := 128 + 32 * local + offset; IsCompressed(h) && !IsDefinition(h) && LocalType(h) == local
  {
  }

  /** Any other: a bit for a definition, one for developer fields, one that means nothing, four bits of local type. */
  lemma NormalHeader(definition: bool, developer: bool, unused: bool, local: nat)
    requires local < 16
    ensures var h :=
        (if definition then 64 else 0) + (if developer then 32 else 0) + (if unused then 16 else 0) + local;
      && !IsCompressed(h) && LocalType(h) == local
      && (IsDefinition(h) <==> definition) && (HasDeveloper(h) <==> developer)
  {
  }

  /** A message number is read back in either byte order. */
  lemma GlobalNumberReads(n: nat, architecture: Byte)
    ensures GlobalNumber(0, n % 256, n / 256) == n
    ensures architecture != 0 ==> GlobalNumber(architecture, n / 256, n % 256) == n
  {
  }

  function GlobalOf(d: Record): nat
    requires d.Definition?
  {
    GlobalNumber(d.architecture, d.low, d.high)
  }

  function SizeOfFirst(fields: seq<Field>, n: nat): nat
    requires n <= |fields|
  {
    if n == 0 then 0 else SizeOfFirst(fields, n - 1) + fields[n - 1].size
  }

  function SumSizes(fields: seq<Field>): nat { SizeOfFirst(fields, |fields|) }

  /**
   * What a decoder reads for a data record: every declared field, except that under a compressed header a leading
   * timestamp field, which has number 253, takes no bytes.
   */
  function DecoderReads(d: Record, compressed: bool): nat
    requires d.Definition?
  {
    var native :=
      if compressed && d.native != [] && d.native[0].number == 253 then d.native[1..] else d.native;
    SumSizes(native) + SumSizes(d.developer)
  }

  lemma {:induction false} SizeAfterFirst(fields: seq<Field>, n: nat)
    requires 0 < n <= |fields|
    ensures SizeOfFirst(fields, n) == fields[0].size + SizeOfFirst(fields[1..], n - 1)
  {
    if n > 1 { SizeAfterFirst(fields, n - 1); }
  }

  lemma SumSizesHead(fields: seq<Field>)
    requires fields != []
    ensures SumSizes(fields) == fields[0].size + SumSizes(fields[1..])
  {
    SizeAfterFirst(fields, |fields|);
  }

  /** The records of a data section, the latest last. */
  datatype Records = Empty | Then(before: Records, last: Record)

  /** The definition in force for a local type after these records: the latest one for it. */
  function InForce(records: Records, local: nat): (d: Option<Record>)
    ensures d.Some? ==> d.value.Definition? && LocalType(d.value.header) == local
  {
    match records
    case Empty => None
    case Then(before, last) =>
      if last.Definition? && LocalType(last.header) == local then Some(last) else InForce(before, local)
  }

  predicate TimestampIsFourBytes(fields: seq<Field>) {
    forall i :: 0 <= i < |fields| ==> fields[i].number == 253 ==> fields[i].size == 4
  }

  /**
   * The record can stand where it does: a definition in the format's terms, or data of exactly the length its
   * definition declares.
   */
  predicate Fits(before: Records, r: Record) {
    match r
    case Definition(h, _, _, _, _, native, developer) =>
      IsDefinition(h) && TimestampIsFourBytes(native) && (developer != [] ==> HasDeveloper(h))
    case Data(h, body) =>
      && !IsDefinition(h)
      && var d := InForce(before, LocalType(h));
      d.Some? && |body| == DecoderReads(d.value, IsCompressed(h))
  }

  predicate WellFormed(records: Records) {
    records.Then? ==> WellFormed(records.before) && Fits(records.before, records.last)
  }

  // ---------------------------------------------------------------- bytes

  function FieldBytes(fields: seq<Field>, n: nat): (b: seq<Byte>)
    requires n <= |fields|
    ensures |b| == 3 * n
  {
    if n == 0 then [] else
      FieldBytes(fields, n - 1) + [fields[n - 1].number, fields[n - 1].size, fields[n - 1].baseType]
  }

  function ListBytes(fields: seq<Field>): (b: seq<Byte>)
    ensures |b| == 1 + 3 * |fields|
  {
    [|fields|] + FieldBytes(fields, |fields|)
  }

  function RecordBytes(r: Record): (b: seq<Byte>)
    ensures |b| == Size(r)
  {
    match r
    case Definition(h, reserved, architecture, low, high, native, developer) =>
      [h, reserved, architecture, low, high] + ListBytes(native) + if HasDeveloper(h) then ListBytes(developer) else []
    case Data(h, body) => [h] + body
  }

  function Size(r: Record): nat {
    match r
    case Definition(h, _, _, _, _, native, developer) =>
      6 + 3 * |native| + if HasDeveloper(h) then 1 + 3 * |developer| else 0
    case Data(_, body) => 1 + |body|
  }

  function Serialize(records: Records): seq<Byte> {
    match records
    case Empty => []
    case Then(before, last) => Serialize(before) + RecordBytes(last)
  }

  // ---------------------------------------------------------------- where a record lies in a file

  function FieldAt(b: seq<Byte>, at: nat, i: nat): Field
    requires at + 3 * i + 2 < |b|
  {
    Field(b[at + 3 * i], b[at + 3 * i + 1], b[at + 3 * i + 2])
  }

  predicate FieldsLie(b: seq<Byte>, at: nat, fields: seq<Field>, n: nat)
    requires n <= |fields| && at + 3 * n <= |b|
  {
    forall i: nat :: i < n ==> fields[i] == FieldAt(b, at, i)
  }

  /** A count byte, then the fields. */
  predicate ListLies(b: seq<Byte>, at: nat, fields: seq<Field>)
    requires at + 1 + 3 * |fields| <= |b|
  {
    b[at] == |fields| && FieldsLie(b, at + 1, fields, |fields|)
  }

  /** These bytes stand there. */
  predicate Stands(b: seq<Byte>, at: nat, s: seq<Byte>)
    requires at + |s| <= |b|
  {
    forall i: nat :: i < |s| ==> b[at + i] == s[i]
  }

  /** The record's bytes are the ones from here on. */
  predicate Lies(b: seq<Byte>, at: nat, r: Record)
    requires at + Size(r) <= |b|
  {
    && b[at] == r.header
    && match r
      case Definition(h, reserved, architecture, low, high, native, developer) =>
        && b[at + 1] == reserved && b[at + 2] == architecture && b[at + 3] == low && b[at + 4] == high
        && ListLies(b, at + 5, native)
        && (HasDeveloper(h) ==> ListLies(b, at + 6 + 3 * |native|, developer))
      case Data(_, body) => Stands(b, at + 1, body)
  }

  /** All the bytes from here to there are these records. */
  predicate AllLie(b: seq<Byte>, from: nat, to: nat, records: Records)
    requires to <= |b|
  {
    match records
    case Empty => from == to
    case Then(before, last) =>
      from + Size(last) <= to && AllLie(b, from, to - Size(last), before) && Lies(b, to - Size(last), last)
  }

  lemma StandsJoin(b: seq<Byte>, at: nat, left: seq<Byte>, right: seq<Byte>)
    requires at + |left| + |right| <= |b|
    ensures Stands(b, at, left + right) <==> Stands(b, at, left) && Stands(b, at + |left|, right)
  {
    var s := left + right;
    if Stands(b, at, s) {
      forall i: nat | i < |right|
        ensures b[at + |left| + i] == right[i]
      {
        assert s[|left| + i] == right[i];
      }
      assert forall i: nat :: i < |left| ==> left[i] == s[i];
    }
  }

  lemma {:induction false} FieldsLieIff(b: seq<Byte>, at: nat, fields: seq<Field>, n: nat)
    requires n <= |fields| && at + 3 * n <= |b|
    ensures FieldsLie(b, at, fields, n) <==> Stands(b, at, FieldBytes(fields, n))
    decreases n
  {
    if n > 0 {
      var f := fields[n - 1];
      var last: seq<Byte> := [f.number, f.size, f.baseType];
      FieldsLieIff(b, at, fields, n - 1);
      StandsJoin(b, at, FieldBytes(fields, n - 1), last);
      ThreeStand(b, at + 3 * (n - 1), last);
    }
  }

  lemma ThreeStand(b: seq<Byte>, at: nat, s: seq<Byte>)
    requires |s| == 3 && at + 3 <= |b|
    ensures Stands(b, at, s) <==> b[at] == s[0] && b[at + 1] == s[1] && b[at + 2] == s[2]
  {
    if Stands(b, at, s) { assert b[at + 0] == s[0]; }
  }

  lemma FiveStand(b: seq<Byte>, at: nat, s: seq<Byte>)
    requires |s| == 5 && at + 5 <= |b|
    ensures Stands(b, at, s) <==>
      b[at] == s[0] && b[at + 1] == s[1] && b[at + 2] == s[2] && b[at + 3] == s[3] && b[at + 4] == s[4]
  {
    if Stands(b, at, s) { assert b[at + 0] == s[0]; }
  }

  lemma OneStands(b: seq<Byte>, at: nat, x: Byte)
    requires at + 1 <= |b|
    ensures Stands(b, at, [x]) <==> b[at] == x
  {
    if Stands(b, at, [x]) { assert b[at + 0] == [x][0]; }
  }

  lemma ListLiesIff(b: seq<Byte>, at: nat, fields: seq<Field>)
    requires at + 1 + 3 * |fields| <= |b|
    ensures ListLies(b, at, fields) <==> Stands(b, at, ListBytes(fields))
  {
    FieldsLieIff(b, at + 1, fields, |fields|);
    StandsJoin(b, at, [|fields|], FieldBytes(fields, |fields|));
    OneStands(b, at, |fields|);
  }

  lemma DefinitionLiesIff(b: seq<Byte>, at: nat, r: Record)
    requires r.Definition? && at + Size(r) <= |b|
    ensures Lies(b, at, r) <==> Stands(b, at, RecordBytes(r))
  {
    var front: seq<Byte> := [r.header, r.reserved, r.architecture, r.low, r.high];
    var native := ListBytes(r.native);
    FiveStand(b, at, front);
    ListLiesIff(b, at + 5, r.native);
    StandsJoin(b, at, front, native);
    if HasDeveloper(r.header) {
      StandsJoin(b, at, front + native, ListBytes(r.developer));
      ListLiesIff(b, at + 6 + 3 * |r.native|, r.developer);
    } else {
      assert front + native + [] == front + native;
    }
  }

  lemma LiesIff(b: seq<Byte>, at: nat, r: Record)
    requires at + Size(r) <= |b|
    ensures Lies(b, at, r) <==> Stands(b, at, RecordBytes(r))
  {
    if r.Definition? {
      DefinitionLiesIff(b, at, r);
    } else {
      StandsJoin(b, at, [r.header], r.body);
      OneStands(b, at, r.header);
    }
  }

  /** A data section holds these records exactly when its bytes are their serialization. */
  lemma {:induction false} AllLieIff(b: seq<Byte>, from: nat, to: nat, records: Records)
    requires from <= to <= |b|
    ensures AllLie(b, from, to, records) <==>
      (|Serialize(records)| == to - from && Stands(b, from, Serialize(records)))
    decreases records
  {
    if records.Then? {
      var own := RecordBytes(records.last);
      if from + |own| <= to {
        var k := to - |own|;
        AllLieIff(b, from, k, records.before);
        LiesIff(b, k, records.last);
        if |Serialize(records)| == to - from { StandsJoin(b, from, Serialize(records.before), own); }
      }
    }
  }
}
