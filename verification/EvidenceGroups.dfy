/** Which evidence rows combine as one (`deriveGroups` in packages/rules/src/score-play.ts). */
module EvidenceGroups {
  import opened Common
  import opened Evidence
  import opened Chains
  import opened Dsu

  // ---------------------------------------------------------------- what links two rows

  function CorrelationFixIds(row: Evidence): seq<string> {
    match row
    case StaffPresence(_, _, _, _, fix) => if fix.Some? then [fix.value.fixId] else []
    case ForegroundDwell(_, _, _, checkin, _) => [checkin.fixId]
    case ForegroundCheckin(_, _, _, fix) => [fix.fixId]
    case _ => []
  }

  function PaymentRefs(row: Evidence): seq<string> {
    match row
    case Booking(_, _, _, _, ref) => if ref != "" then [ref] else []
    case GreenFee(r) => if r.paymentRef != "" then [r.paymentRef] else []
    case _ => []
  }

  predicate IsRound(row: Evidence) { (row.HealthRoute? || row.FileImport?) && row.startedAt.Some? }

  /** Two recordings of one round: same facility, starts at most fifteen minutes apart. */
  predicate SameRound(a: Evidence, b: Evidence) {
    IsRound(a) && IsRound(b) && a.facilityId == b.facilityId
    && WithinMs(a.startedAt.value, b.startedAt.value, ROUND_CORRELATION_WINDOW_MS)
  }

  /** Row a has no fix of its own and takes one of b's. */
  predicate Absorbs(a: Evidence, b: Evidence, ctx: PlayContext) {
    (a.StaffPresence? && a.coSignalFix.None?
     && exists k :: 0 <= k < |FixesOf(b)| && StaffFixSatisfies(FixesOf(b)[k], a.scanAt, ctx))
    || (a.Booking? && a.presenceFix.None? && a.localDate == ctx.playLocalDate
        && exists k :: 0 <= k < |FixesOf(b)| && BookingFixSatisfies(FixesOf(b)[k], ctx))
  }

  /** A row with the evidence class it was given. */
  datatype Classified = Classified(row: Evidence, classId: string)

  /** The row's correlating fix, if it has one, is this: a scan's own, a dwell's first, a check-in's. */
  predicate CarriesFix(row: Evidence, fixId: string) {
    || (row.StaffPresence? && row.coSignalFix.Some? && row.coSignalFix.value.fixId == fixId)
    || (row.ForegroundDwell? && row.checkinFix.fixId == fixId)
    || (row.ForegroundCheckin? && row.fix.fixId == fixId)
  }

  predicate CarriesPayment(row: Evidence, ref: string) {
    ref != "" && ((row.Booking? && row.paymentRef == ref) || (row.GreenFee? && row.receipt.paymentRef == ref))
  }

  /** When a recorded round began. */
  function RoundStart(row: Evidence): Option<EpochMs> {
    match row
    case HealthRoute(_, _, _, at) => at
    case FileImport(_, _, _, at) => at
    case _ => None
  }

  predicate NearInTime(a: Option<EpochMs>, b: Option<EpochMs>, minutes: int) {
    a.Some? && b.Some? && a.value - b.value <= minutes * 60_000 && b.value - a.value <= minutes * 60_000
  }

  /** Nothing about the fix speaks against it. */
  predicate IsSound(fix: AppFix, facilityId: string) {
    && fix.facilityId == facilityId && fix.fromApp && fix.foreground && !fix.simulated && fix.challenge != NoChallenge
    && fix.playVerified && fix.polygonGeometry && fix.insideBuffer && 0.0 <= fix.accuracyMeters <= 50.0
    && fix.token != Present(FailedGrade) && fix.token != Absent(true)
  }

  /** The row carries this fix. */
  predicate HasFix(row: Evidence, fix: AppFix) {
    || (row.StaffPresence? && row.coSignalFix == Some(fix)) || (row.Booking? && row.presenceFix == Some(fix))
    || (row.GreenFee? && row.receipt.coSignalFix == Some(fix)) || (row.ForegroundCheckin? && row.fix == fix)
    || (row.ForegroundDwell? && (row.checkinFix == fix || row.checkoutFix == fix))
  }

  /** This fix would do for row a, which lacks one: it proves presence at the play's facility and day. */
  predicate WouldDo(fix: AppFix, a: Evidence, ctx: PlayContext) {
    && IsSound(fix, ctx.playFacilityId) && fix.localDate == ctx.playLocalDate
    && (|| (a.StaffPresence? && a.coSignalFix.None? && NearInTime(Some(fix.capturedAt), Some(a.scanAt), 10))
        || (a.Booking? && a.presenceFix.None? && a.localDate == ctx.playLocalDate))
  }

  ghost predicate TakesFix(a: Evidence, b: Evidence, ctx: PlayContext) {
    exists fix :: HasFix(b, fix) && WouldDo(fix, a, ctx)
  }

  ghost predicate LinkedRows(a: Classified, b: Classified, ctx: PlayContext) {
    || a.classId == b.classId
    || (exists id :: CarriesFix(a.row, id) && CarriesFix(b.row, id))
    || (exists ref :: CarriesPayment(a.row, ref) && CarriesPayment(b.row, ref))
    || (NearInTime(RoundStart(a.row), RoundStart(b.row), 15) && a.row.facilityId == b.row.facilityId)
    || TakesFix(a.row, b.row, ctx) || TakesFix(b.row, a.row, ctx)
  }

  lemma CarriersListed(row: Evidence, k: string)
    ensures k in CorrelationFixIds(row) <==> CarriesFix(row, k)
    ensures k in PaymentRefs(row) <==> CarriesPayment(row, k)
  {
  }

  lemma SameRoundIff(a: Evidence, b: Evidence)
    ensures SameRound(a, b) <==> NearInTime(RoundStart(a), RoundStart(b), 15) && a.facilityId == b.facilityId
  {
  }

  lemma FixesListed(row: Evidence, fix: AppFix)
    ensures fix in FixesOf(row) <==> HasFix(row, fix)
  {
  }

  lemma SoundFixSatisfies(fix: AppFix, ctx: PlayContext)
    ensures BookingFixSatisfies(fix, ctx) <==> IsSound(fix, ctx.playFacilityId) && fix.localDate == ctx.playLocalDate
  {
    match fix.challenge
    case Live =>
    case Prefetched =>
    case NoChallenge =>
  }

  predicate Absorbable(fix: AppFix, a: Evidence, ctx: PlayContext) {
    || (a.StaffPresence? && a.coSignalFix.None? && StaffFixSatisfies(fix, a.scanAt, ctx))
    || (a.Booking? && a.presenceFix.None? && a.localDate == ctx.playLocalDate && BookingFixSatisfies(fix, ctx))
  }

  lemma AbsorbableIff(fix: AppFix, a: Evidence, ctx: PlayContext)
    ensures Absorbable(fix, a, ctx) <==> WouldDo(fix, a, ctx)
  {
    SoundFixSatisfies(fix, ctx);
  }

  lemma AbsorbsIffTakes(a: Evidence, b: Evidence, ctx: PlayContext)
    ensures Absorbs(a, b, ctx) <==> TakesFix(a, b, ctx)
  {
    if Absorbs(a, b, ctx) {
      var k :| 0 <= k < |FixesOf(b)| && Absorbable(FixesOf(b)[k], a, ctx);
      AbsorbableIff(FixesOf(b)[k], a, ctx);
      FixesListed(b, FixesOf(b)[k]);
    }
    if fix :| HasFix(b, fix) && WouldDo(fix, a, ctx) {
      AbsorbableIff(fix, a, ctx);
      FixesListed(b, fix);
      var k :| 0 <= k < |FixesOf(b)| && FixesOf(b)[k] == fix;
    }
  }

  ghost function LinkOf(rows: seq<Classified>, ctx: PlayContext): Link {
    (i: nat, j: nat) => i < |rows| && j < |rows| && LinkedRows(rows[i], rows[j], ctx)
  }

  ghost predicate Together(rows: seq<Classified>, ctx: PlayContext, i: nat, j: nat) {
    Connected(LinkOf(rows, ctx), |rows|, i, j)
  }

  // ---------------------------------------------------------------- the unions

  /** Only linked rows have been united. */
  ghost predicate OnlyLinks(joined: set<(nat, nat)>, link: Link, n: nat) {
    forall e :: e in joined ==> e.0 < n && e.1 < n && link(e.0, e.1)
  }

  /** A working union-find over n rows that has united only linked ones. */
  ghost predicate Ready(dsu: Dsu, link: Link, n: nat)
    reads dsu, dsu.parent
  {
    dsu.Valid() && dsu.Exact() && |dsu.rep| == n && OnlyLinks(dsu.joined, link, n)
  }

  method Unite(dsu: Dsu, a: nat, b: nat, ghost link: Link, ghost n: nat)
    requires Ready(dsu, link, n) && a < n && b < n && link(a, b)
    modifies dsu, dsu.parent
    ensures Ready(dsu, link, n) && dsu.joined == old(dsu.joined) + {(a, b)}
  {
    dsu.Union(a, b);
  }

  /** For each key, the rows that carry it. */
  ghost predicate Buckets(buckets: map<string, seq<nat>>, keys: seq<seq<string>>) {
    && (forall k, i :: k in buckets && i in buckets[k] ==> i < |keys|)
    && (forall k, i :: 0 <= i < |keys| ==> (k in keys[i] <==> k in buckets && i in buckets[k]))
  }

  method FillBuckets(keys: seq<seq<string>>) returns (buckets: map<string, seq<nat>>)
    ensures Buckets(buckets, keys)
  {
    buckets := map[];
    for i := 0 to |keys|
      invariant Buckets(buckets, keys[..i])
    {
      for m := 0 to |keys[i]|
        invariant forall k, x :: k in buckets && x in buckets[k] ==> x <= i
        invariant forall k, x :: 0 <= x < i ==> (k in keys[x] <==> k in buckets && x in buckets[k])
        invariant forall k :: k in keys[i][..m] <==> k in buckets && i in buckets[k]
      {
        var k := keys[i][m];
        buckets := buckets[k := (if k in buckets then buckets[k] else []) + [i]];
        assert keys[i][..m + 1] == keys[i][..m] + [k];
      }
      assert keys[i][..|keys[i]|] == keys[i];
      assert forall x :: 0 <= x < i + 1 ==> keys[..i + 1][x] == keys[x];
    }
    assert keys[..|keys|] == keys;
  }

  /** One row was united with each of two others (or is one of them). */
  ghost predicate Hub(joined: set<(nat, nat)>, h: nat, i: nat, j: nat) {
    (h == i || (h, i) in joined) && (h == j || (h, j) in joined)
  }

  ghost predicate Bridged(joined: set<(nat, nat)>, i: nat, j: nat) {
    exists h :: Hub(joined, h, i, j)
  }

  /** Rows that share a key are bridged. */
  ghost predicate KeysBridged(joined: set<(nat, nat)>, keys: seq<seq<string>>) {
    forall i, j, k :: 0 <= i < |keys| && 0 <= j < |keys| && k in keys[i] && k in keys[j] ==> Bridged(joined, i, j)
  }

  /** Sharing a key of this kind is a link. */
  ghost predicate KeysLink(keys: seq<seq<string>>, link: Link) {
    forall i, j, k :: 0 <= i < |keys| && 0 <= j < |keys| && k in keys[i] && k in keys[j] ==> link(i, j)
  }

  /** Unites the first row of a bucket with each of the others. */
  method JoinBucket(dsu: Dsu, bucket: seq<nat>, ghost link: Link, ghost n: nat)
    requires Ready(dsu, link, n)
    requires forall i :: i in bucket ==> i < n
    requires forall i, j :: i in bucket && j in bucket ==> link(i, j)
    modifies dsu, dsu.parent
    ensures Ready(dsu, link, n)
    ensures old(dsu.joined) <= dsu.joined
    ensures forall i, j :: i in bucket && j in bucket ==> Bridged(dsu.joined, i, j)
  {
    var k := 1;
    while k < |bucket|
      invariant 1 <= k
      invariant Ready(dsu, link, n)
      invariant old(dsu.joined) <= dsu.joined
      invariant forall m :: 1 <= m < k && m < |bucket| ==> (bucket[0], bucket[m]) in dsu.joined
    {
      assert bucket[0] in bucket && bucket[k] in bucket;
      Unite(dsu, bucket[0], bucket[k], link, n);
      k := k + 1;
    }
    forall i, j | i in bucket && j in bucket ensures Bridged(dsu.joined, i, j) {
      assert Hub(dsu.joined, bucket[0], i, j);
    }
  }

  method JoinByKey(dsu: Dsu, keys: seq<seq<string>>, ghost link: Link, ghost n: nat)
    requires Ready(dsu, link, n)
    requires |keys| == n && KeysLink(keys, link)
    modifies dsu, dsu.parent
    ensures Ready(dsu, link, n)
    ensures old(dsu.joined) <= dsu.joined
    ensures KeysBridged(dsu.joined, keys)
  {
    var buckets := FillBuckets(keys);
    var left := buckets.Keys;
    while left != {}
      invariant left <= buckets.Keys
      invariant Ready(dsu, link, n)
      invariant old(dsu.joined) <= dsu.joined
      invariant forall k, i, j :: k in buckets && k !in left && i in buckets[k] && j in buckets[k] ==>
        Bridged(dsu.joined, i, j)
      decreases |left|
    {
      var k :| k in left;
      assert forall i :: i in buckets[k] ==> k in keys[i];
      ghost var before := dsu.joined;
      JoinBucket(dsu, buckets[k], link, n);
      forall i, j | Bridged(before, i, j) ensures Bridged(dsu.joined, i, j) {
        var h :| Hub(before, h, i, j);
        assert Hub(dsu.joined, h, i, j);
      }
      left := left - {k};
    }
    forall i, j, k | 0 <= i < |keys| && 0 <= j < |keys| && k in keys[i] && k in keys[j]
      ensures Bridged(dsu.joined, i, j)
    {
      assert k in buckets && i in buckets[k] && j in buckets[k];
    }
  }

  lemma StillBridged(before: set<(nat, nat)>, after: set<(nat, nat)>, keys: seq<seq<string>>)
    requires before <= after && KeysBridged(before, keys)
    ensures KeysBridged(after, keys)
  {
    forall i, j, k | 0 <= i < |keys| && 0 <= j < |keys| && k in keys[i] && k in keys[j] ensures Bridged(after, i, j) {
      var h :| Hub(before, h, i, j);
      assert Hub(after, h, i, j);
    }
  }

  /** The pair loop over a < b. */
  method JoinLaterPairs(dsu: Dsu, n: nat, together: Link, ghost link: Link)
    requires Ready(dsu, link, n)
    requires forall i: nat, j: nat :: i < n && j < n && together(i, j) ==> link(i, j)
    modifies dsu, dsu.parent
    ensures Ready(dsu, link, n) && old(dsu.joined) <= dsu.joined
    ensures forall i: nat, j: nat :: i < j < n && together(i, j) ==> (i, j) in dsu.joined
  {
    for a := 0 to n
      invariant Ready(dsu, link, n) && old(dsu.joined) <= dsu.joined
      invariant forall i: nat, j: nat :: i < a && i < j < n && together(i, j) ==> (i, j) in dsu.joined
    {
      for b := a + 1 to n
        invariant Ready(dsu, link, n) && old(dsu.joined) <= dsu.joined
        invariant forall i: nat, j: nat :: i < a && i < j < n && together(i, j) ==> (i, j) in dsu.joined
        invariant forall j: nat :: a < j < b && together(a, j) ==> (a, j) in dsu.joined
      {
        if together(a, b) { Unite(dsu, a, b, link, n); }
      }
    }
  }

  /** The pair loop over all a != b. */
  method JoinOtherPairs(dsu: Dsu, n: nat, together: Link, ghost link: Link)
    requires Ready(dsu, link, n)
    requires forall i: nat, j: nat :: i < n && j < n && together(i, j) ==> link(i, j)
    modifies dsu, dsu.parent
    ensures Ready(dsu, link, n) && old(dsu.joined) <= dsu.joined
    ensures forall i: nat, j: nat :: i < n && j < n && i != j && together(i, j) ==> (i, j) in dsu.joined
  {
    for a := 0 to n
      invariant Ready(dsu, link, n) && old(dsu.joined) <= dsu.joined
      invariant forall i: nat, j: nat :: i < a && j < n && i != j && together(i, j) ==> (i, j) in dsu.joined
    {
      for b := 0 to n
        invariant Ready(dsu, link, n) && old(dsu.joined) <= dsu.joined
        invariant forall i: nat, j: nat :: i < a && j < n && i != j && together(i, j) ==> (i, j) in dsu.joined
        invariant forall j: nat :: j < b && a != j && together(a, j) ==> (a, j) in dsu.joined
      {
        if a != b && together(a, b) { Unite(dsu, a, b, link, n); }
      }
    }
  }

  function RoundLink(rows: seq<Classified>): Link {
    (i: nat, j: nat) => i < |rows| && j < |rows| && SameRound(rows[i].row, rows[j].row)
  }

  function AbsorbLink(rows: seq<Classified>, ctx: PlayContext): Link {
    (i: nat, j: nat) => i < |rows| && j < |rows| && Absorbs(rows[i].row, rows[j].row, ctx)
  }

  function ClassKeys(rows: seq<Classified>): seq<seq<string>> {
    seq(|rows|, i requires 0 <= i < |rows| => [rows[i].classId])
  }

  function FixKeys(rows: seq<Classified>): seq<seq<string>> {
    seq(|rows|, i requires 0 <= i < |rows| => CorrelationFixIds(rows[i].row))
  }

  function PaymentKeys(rows: seq<Classified>): seq<seq<string>> {
    seq(|rows|, i requires 0 <= i < |rows| => PaymentRefs(rows[i].row))
  }

  /** Every link was united, directly or through a hub. */
  ghost predicate AllLinksUnited(joined: set<(nat, nat)>, rows: seq<Classified>, ctx: PlayContext) {
    && KeysBridged(joined, ClassKeys(rows)) && KeysBridged(joined, FixKeys(rows))
    && KeysBridged(joined, PaymentKeys(rows))
    && (forall i: nat, j: nat :: i < j < |rows| && RoundLink(rows)(i, j) ==> (i, j) in joined)
    && (forall i: nat, j: nat :: i < |rows| && j < |rows| && i != j && AbsorbLink(rows, ctx)(i, j) ==> (i, j) in joined)
  }

  lemma BridgeConnects(joined: set<(nat, nat)>, n: nat, i: nat, j: nat)
    requires Bridged(joined, i, j) && i < n && j < n
    requires forall e :: e in joined ==> e.0 < n && e.1 < n
    ensures Connected(JoinedOf(joined), n, i, j)
  {
    var h :| Hub(joined, h, i, j);
    ConnectedByLink(JoinedOf(joined), n, i, h);
    ConnectedByLink(JoinedOf(joined), n, h, j);
    ConnectedTransitive(JoinedOf(joined), n, i, h, j);
  }

  lemma LinkIsUnited(joined: set<(nat, nat)>, rows: seq<Classified>, ctx: PlayContext, i: nat, j: nat)
    requires AllLinksUnited(joined, rows, ctx) && OnlyLinks(joined, LinkOf(rows, ctx), |rows|)
    requires LinkOf(rows, ctx)(i, j)
    ensures Connected(JoinedOf(joined), |rows|, i, j)
  {
    var n, a, b := |rows|, rows[i], rows[j];
    SameRoundIff(a.row, b.row);
    AbsorbsIffTakes(a.row, b.row, ctx);
    AbsorbsIffTakes(b.row, a.row, ctx);
    if i == j || SameRound(a.row, b.row) || Absorbs(a.row, b.row, ctx) || Absorbs(b.row, a.row, ctx) {
      assert SameRound(a.row, b.row) ==> RoundLink(rows)(i, j) && RoundLink(rows)(j, i);
      assert Absorbs(a.row, b.row, ctx) ==> AbsorbLink(rows, ctx)(i, j);
      assert Absorbs(b.row, a.row, ctx) ==> AbsorbLink(rows, ctx)(j, i);
      ConnectedByLink(JoinedOf(joined), n, i, j);
    } else {
      if a.classId == b.classId {
        assert a.classId in ClassKeys(rows)[i] && a.classId in ClassKeys(rows)[j];
      } else if k :| CarriesFix(a.row, k) && CarriesFix(b.row, k) {
        CarriersListed(a.row, k);
        CarriersListed(b.row, k);
        assert k in FixKeys(rows)[i] && k in FixKeys(rows)[j];
      } else {
        var k :| CarriesPayment(a.row, k) && CarriesPayment(b.row, k);
        CarriersListed(a.row, k);
        CarriersListed(b.row, k);
        assert k in PaymentKeys(rows)[i] && k in PaymentKeys(rows)[j];
      }
      BridgeConnects(joined, n, i, j);
    }
  }

  /** Uniting exactly the links makes the united classes the classes of the link relation. */
  lemma ClassesAreLinkClasses(joined: set<(nat, nat)>, rows: seq<Classified>, ctx: PlayContext, i: nat, j: nat)
    requires AllLinksUnited(joined, rows, ctx) && OnlyLinks(joined, LinkOf(rows, ctx), |rows|)
    ensures Connected(JoinedOf(joined), |rows|, i, j) <==> Together(rows, ctx, i, j)
  {
    if Connected(JoinedOf(joined), |rows|, i, j) {
      forall x: nat, y: nat | x < |rows| && y < |rows| && JoinedOf(joined)(x, y)
        ensures Connected(LinkOf(rows, ctx), |rows|, x, y)
      {
        ConnectedByLink(LinkOf(rows, ctx), |rows|, x, y);
      }
      ConnectionBridged(JoinedOf(joined), LinkOf(rows, ctx), |rows|, i, j);
    }
    if Together(rows, ctx, i, j) {
      forall x: nat, y: nat | x < |rows| && y < |rows| && LinkOf(rows, ctx)(x, y)
        ensures Connected(JoinedOf(joined), |rows|, x, y)
      {
        LinkIsUnited(joined, rows, ctx, x, y);
      }
      ConnectionBridged(LinkOf(rows, ctx), JoinedOf(joined), |rows|, i, j);
    }
  }

  lemma KeysAreLinks(rows: seq<Classified>, ctx: PlayContext)
    ensures KeysLink(FixKeys(rows), LinkOf(rows, ctx)) && KeysLink(PaymentKeys(rows), LinkOf(rows, ctx))
  {
    forall i, k | 0 <= i < |rows|
      ensures k in FixKeys(rows)[i] <==> CarriesFix(rows[i].row, k)
      ensures k in PaymentKeys(rows)[i] <==> CarriesPayment(rows[i].row, k)
    {
      CarriersListed(rows[i].row, k);
    }
  }

  lemma AbsorptionsAreLinks(rows: seq<Classified>, ctx: PlayContext)
    ensures forall i: nat, j: nat :: AbsorbLink(rows, ctx)(i, j) ==> LinkOf(rows, ctx)(i, j)
  {
    forall i: nat, j: nat | AbsorbLink(rows, ctx)(i, j) ensures LinkOf(rows, ctx)(i, j) {
      AbsorbsIffTakes(rows[i].row, rows[j].row, ctx);
    }
  }

  method UniteLinks(rows: seq<Classified>, ctx: PlayContext) returns (dsu: Dsu)
    ensures fresh(dsu) && fresh(dsu.parent)
    ensures Ready(dsu, LinkOf(rows, ctx), |rows|) && AllLinksUnited(dsu.joined, rows, ctx)
  {
    ghost var link := LinkOf(rows, ctx);
    dsu := new Dsu(|rows|);
    KeysAreLinks(rows, ctx);
    AbsorptionsAreLinks(rows, ctx);
    JoinByKey(dsu, ClassKeys(rows), link, |rows|);
    ghost var j1 := dsu.joined;
    JoinByKey(dsu, FixKeys(rows), link, |rows|);
    ghost var j2 := dsu.joined;
    JoinByKey(dsu, PaymentKeys(rows), link, |rows|);
    ghost var j3 := dsu.joined;
    JoinLaterPairs(dsu, |rows|, RoundLink(rows), link);
    JoinOtherPairs(dsu, |rows|, AbsorbLink(rows, ctx), link);
    StillBridged(j1, dsu.joined, ClassKeys(rows));
    StillBridged(j2, dsu.joined, FixKeys(rows));
    StillBridged(j3, dsu.joined, PaymentKeys(rows));
  }

  /** Two rows get the same group id exactly when a chain of links joins them. */
  ghost predicate IsPartition(groups: seq<nat>, rows: seq<Classified>, ctx: PlayContext) {
    && |groups| == |rows|
    && forall i, j :: 0 <= i < |rows| && 0 <= j < |rows| ==> (groups[i] == groups[j] <==> Together(rows, ctx, i, j))
  }

  method DeriveGroups(rows: seq<Classified>, ctx: PlayContext) returns (groups: seq<nat>)
    ensures IsPartition(groups, rows, ctx)
  {
    var dsu := UniteLinks(rows, ctx);
    ExactIsPartition(dsu.rep, dsu.joined, rows, ctx);
    groups := ReadGroups(dsu);
  }

  method ReadGroups(dsu: Dsu) returns (groups: seq<nat>)
    requires dsu.Valid()
    modifies dsu.parent
    ensures groups == dsu.rep
  {
    groups := [];
    for i := 0 to dsu.parent.Length
      invariant dsu.Valid() && groups == dsu.rep[..i]
    {
      var g := dsu.Find(i);
      groups := groups + [g];
    }
  }

  lemma ExactIsPartition(rep: seq<nat>, joined: set<(nat, nat)>, rows: seq<Classified>, ctx: PlayContext)
    requires ExactFor(rep, joined) && |rep| == |rows|
    requires AllLinksUnited(joined, rows, ctx) && OnlyLinks(joined, LinkOf(rows, ctx), |rows|)
    ensures IsPartition(rep, rows, ctx)
  {
    forall i, j | 0 <= i < |rows| && 0 <= j < |rows| ensures rep[i] == rep[j] <==> Together(rows, ctx, i, j) {
      ClassesAreLinkClasses(joined, rows, ctx, i, j);
    }
  }

  // ---------------------------------------------------------------- order independence

  /** `order` lists every position once. */
  ghost predicate IsPermutation(order: seq<nat>, inverse: seq<nat>, n: nat) {
    && |order| == |inverse| == n
    && (forall i :: 0 <= i < n ==> order[i] < n && inverse[i] < n && inverse[order[i]] == i && order[inverse[i]] == i)
  }

  /** A chain carried over by a renaming of positions that keeps links. */
  lemma RenamedChain(from: Link, to: Link, n: nat, p: seq<nat>, order: seq<nat>)
    requires |order| == n && forall k :: 0 <= k < n ==> order[k] < n
    requires forall a: nat, b: nat :: a < n && b < n && from(a, b) ==> to(order[a], order[b])
    requires Chain(from, n, p)
    ensures Connected(to, n, order[p[0]], order[p[|p| - 1]])
  {
    var q: seq<nat> := seq(|p|, k requires 0 <= k < |p| && p[k] < n => order[p[k]]);
    forall k | 0 < k < |q|
      ensures to(q[k - 1], q[k])
    {
      assert from(p[k - 1], p[k]);
    }
    assert Chain(to, n, q);
  }

  lemma PermutedChain(rows: seq<Classified>, rows': seq<Classified>, ctx: PlayContext, order: seq<nat>, i: nat, j: nat)
    requires |rows| == |rows'| == |order| && i < |rows| && j < |rows|
    requires forall k :: 0 <= k < |order| ==> order[k] < |rows| && rows'[k] == rows[order[k]]
    requires Together(rows', ctx, i, j)
    ensures Together(rows, ctx, order[i], order[j])
  {
    var p :| Chain(LinkOf(rows', ctx), |rows|, p) && p[0] == i && p[|p| - 1] == j;
    RenamedChain(LinkOf(rows', ctx), LinkOf(rows, ctx), |rows|, p, order);
  }

  /** The partition does not depend on the order the evidence arrives in. */
  lemma GroupsIgnoreOrder(
    rows: seq<Classified>, rows': seq<Classified>, ctx: PlayContext, order: seq<nat>, inverse: seq<nat>,
    groups: seq<nat>, groups': seq<nat>, i: nat, j: nat)
    requires IsPermutation(order, inverse, |rows|) && |rows'| == |rows|
    requires forall k :: 0 <= k < |rows| ==> rows'[k] == rows[order[k]]
    requires IsPartition(groups, rows, ctx) && IsPartition(groups', rows', ctx)
    requires i < |rows| && j < |rows|
    ensures groups'[i] == groups'[j] <==> groups[order[i]] == groups[order[j]]
  {
    if Together(rows', ctx, i, j) { PermutedChain(rows, rows', ctx, order, i, j); }
    if Together(rows, ctx, order[i], order[j]) {
      forall k | 0 <= k < |rows| ensures rows[k] == rows'[inverse[k]] {
        assert order[inverse[k]] == k;
      }
      PermutedChain(rows', rows, ctx, inverse, order[i], order[j]);
    }
  }
}
