/** Which of several receipts with one fingerprint survives (packages/rules/src/score-play.ts). */
module Receipts {
  import opened Common
  import opened Ordering
  import opened Evidence

  // ---------------------------------------------------------------- the comparator

  predicate StringLt(a: string, b: string) {
    b != "" && (a == "" || a[0] < b[0] || (a[0] == b[0] && StringLt(a[1..], b[1..])))
  }

  lemma {:induction false} StringLtTotal(a: string, b: string)
    ensures StringLt(a, b) || StringLt(b, a) || a == b
    ensures !(StringLt(a, b) && StringLt(b, a))
    ensures a == b ==> !StringLt(a, b)
  {
    if a != "" && b != "" {
      StringLtTotal(a[1..], b[1..]);
      if a[0] == b[0] && a[1..] == b[1..] { assert a == [a[0]] + a[1..] == b; }
    }
  }

  lemma {:induction false} StringLtTransitive(a: string, b: string, c: string)
    requires StringLt(a, b) && StringLt(b, c)
    ensures StringLt(a, c)
  {
    if a != "" && a[0] == b[0] && b[0] == c[0] {
      StringLtTransitive(a[1..], b[1..], c[1..]);
    }
  }

  function StatusRank(s: ReceiptStatus): int {
    match s case Approved => 2 case Pending => 1 case Void => 0
  }

  /** Negative when `a` comes first: better status, then carrying a fix, then the earlier fix, then the smaller id. */
  function CompareCandidates(a: Receipt, b: Receipt): int {
    if StatusRank(b.status) != StatusRank(a.status) then StatusRank(b.status) - StatusRank(a.status)
    else if a.coSignalFix.Some? != b.coSignalFix.Some? then (if a.coSignalFix.Some? then -1 else 1)
    else if a.coSignalFix.Some? && a.coSignalFix.value.capturedAt != b.coSignalFix.value.capturedAt
      then a.coSignalFix.value.capturedAt - b.coSignalFix.value.capturedAt
    else if StringLt(a.id, b.id) then -1
    else if StringLt(b.id, a.id) then 1
    else 0
  }

  predicate ComesFirst(a: Receipt, b: Receipt) { CompareCandidates(a, b) <= 0 }

  /** The comparator is one strict total order on receipts with different ids. */
  lemma ComparatorIsTotalOrder()
    ensures TotalPreorder(ComesFirst)
    ensures forall a, b :: CompareCandidates(a, b) < 0 <==> CompareCandidates(b, a) > 0
    ensures forall a, b :: CompareCandidates(a, b) == 0 ==> a.id == b.id
  {
    forall a: Receipt, b: Receipt
      ensures ComesFirst(a, b) || ComesFirst(b, a)
      ensures CompareCandidates(a, b) < 0 <==> CompareCandidates(b, a) > 0
      ensures CompareCandidates(a, b) == 0 ==> a.id == b.id
    {
      StringLtTotal(a.id, b.id);
    }
    forall a: Receipt, b: Receipt, c: Receipt | ComesFirst(a, b) && ComesFirst(b, c) ensures ComesFirst(a, c) {
      ComparatorTransitive(a, b, c);
    }
  }

  lemma ComparatorTransitive(a: Receipt, b: Receipt, c: Receipt)
    requires ComesFirst(a, b) && ComesFirst(b, c)
    ensures ComesFirst(a, c)
  {
    StringLtTotal(a.id, b.id);
    StringLtTotal(b.id, c.id);
    StringLtTotal(a.id, c.id);
    if StringLt(a.id, b.id) && StringLt(b.id, c.id) { StringLtTransitive(a.id, b.id, c.id); }
  }

  // ---------------------------------------------------------------- voiding

  /** A void without a reason is taken as a reviewer's. */
  predicate Poisons(r: Receipt) {
    r.status == Void && r.voidReason != Some(DuplicateVoid)
  }

  predicate IsCandidate(r: Receipt) { r.status != Void }

  function ReceiptsWith(ev: seq<Evidence>, fingerprint: string): seq<Receipt> {
    if ev == [] then [] else
      ReceiptsWith(ev[..|ev| - 1], fingerprint) +
      var row := ev[|ev| - 1];
      if row.GreenFee? && row.receipt.fingerprint == fingerprint then [row.receipt] else []
  }

  lemma {:induction false} ReceiptsWithMember(ev: seq<Evidence>, fingerprint: string, r: Receipt)
    ensures r in ReceiptsWith(ev, fingerprint) <==> GreenFee(r) in ev && r.fingerprint == fingerprint
  {
    if ev != [] {
      ReceiptsWithMember(ev[..|ev| - 1], fingerprint, r);
      assert ev == ev[..|ev| - 1] + [ev[|ev| - 1]];
    }
  }

  function AnyPoison(group: seq<Receipt>): bool {
    exists i :: 0 <= i < |group| && Poisons(group[i])
  }

  datatype Verdict = Untouched | AllVoid | Winner(id: string)

  /** What the source decides for one fingerprint group. */
  function VerdictOf(group: seq<Receipt>): Verdict {
    if |group| < 2 then Untouched
    else if AnyPoison(group) then AllVoid
    else
      var candidates := Filter(group, IsCandidate);
      if candidates == [] then Untouched
      else
        var sorted := Sort(candidates, ComesFirst);
        if sorted == [] then Untouched else Winner(sorted[0].id)
  }

  function Judge(ev: seq<Evidence>, row: Evidence): Evidence {
    if !row.GreenFee? || row.receipt.fingerprint == "" then row
    else
      match VerdictOf(ReceiptsWith(ev, row.receipt.fingerprint))
      case Untouched => row
      case AllVoid => Voided(row)
      case Winner(id) => if row.receipt.id == id then row else Voided(row)
  }

  function Voided(row: Evidence): Evidence
    requires row.GreenFee?
  {
    GreenFee(row.receipt.(status := Void))
  }

  method DecideGroup(group: seq<Receipt>) returns (v: Verdict)
    ensures v == VerdictOf(group)
  {
    if |group| < 2 { return Untouched; }
    for i := 0 to |group|
      invariant forall k :: 0 <= k < i ==> !Poisons(group[k])
    {
      if Poisons(group[i]) { return AllVoid; }
    }
    var candidates := Filter(group, IsCandidate);
    if candidates == [] { return Untouched; }
    var sorted := Sort(candidates, ComesFirst);
    if sorted == [] { return Untouched; }
    return Winner(sorted[0].id);
  }

  ghost predicate IsGrouping(groups: map<string, seq<Receipt>>, ev: seq<Evidence>) {
    && "" !in groups
    && forall f :: f != "" ==> (if f in groups then groups[f] else []) == ReceiptsWith(ev, f)
  }

  method GroupByFingerprint(ev: seq<Evidence>) returns (groups: map<string, seq<Receipt>>)
    ensures IsGrouping(groups, ev)
  {
    groups := map[];
    for i := 0 to |ev|
      invariant IsGrouping(groups, ev[..i])
    {
      assert ev[..i + 1][..i] == ev[..i];
      if ev[i].GreenFee? && ev[i].receipt.fingerprint != "" {
        var f := ev[i].receipt.fingerprint;
        groups := groups[f := (if f in groups then groups[f] else []) + [ev[i].receipt]];
      }
    }
    assert ev[..|ev|] == ev;
  }

  method DecideGroups(groups: map<string, seq<Receipt>>) returns (verdicts: map<string, Verdict>)
    ensures verdicts.Keys == groups.Keys && forall f :: f in groups ==> verdicts[f] == VerdictOf(groups[f])
  {
    verdicts := map[];
    var keys := groups.Keys;
    while keys != {}
      invariant keys <= groups.Keys
      invariant verdicts.Keys == groups.Keys - keys
      invariant forall f :: f in verdicts ==> verdicts[f] == VerdictOf(groups[f])
      decreases |keys|
    {
      var f :| f in keys;
      var verdict := DecideGroup(groups[f]);
      verdicts := verdicts[f := verdict];
      keys := keys - {f};
    }
  }

  method VoidDuplicateFingerprints(ev: seq<Evidence>) returns (out: seq<Evidence>)
    ensures |out| == |ev|
    ensures forall i :: 0 <= i < |ev| ==> out[i] == Judge(ev, ev[i])
  {
    var groups := GroupByFingerprint(ev);
    var verdicts := DecideGroups(groups);
    out := [];
    for i := 0 to |ev|
      invariant |out| == i
      invariant forall k :: 0 <= k < i ==> out[k] == Judge(ev, ev[k])
    {
      var row := ev[i];
      if row.GreenFee? && row.receipt.fingerprint in verdicts {
        var v := verdicts[row.receipt.fingerprint];
        if v.AllVoid? || (v.Winner? && row.receipt.id != v.id) { row := Voided(row); }
      }
      assert row == Judge(ev, ev[i]);
      out := out + [row];
    }
  }

  // ---------------------------------------------------------------- who survives

  ghost predicate DistinctIds(ev: seq<Evidence>) {
    forall i, j :: 0 <= i < j < |ev| && ev[i].GreenFee? && ev[j].GreenFee? ==> ev[i].receipt.id != ev[j].receipt.id
  }

  /** No reviewer or fraud void shares its fingerprint, and no other standing receipt with it comes first. */
  ghost predicate Survives(ev: seq<Evidence>, r: Receipt) {
    && IsCandidate(r)
    && (forall q :: GreenFee(q) in ev && q.fingerprint == r.fingerprint ==> !Poisons(q))
    && (forall q :: GreenFee(q) in ev && q.fingerprint == r.fingerprint && IsCandidate(q) ==> ComesFirst(r, q))
  }

  /** The winner of a group is its least candidate. */
  lemma WinnerIsLeast(group: seq<Receipt>) returns (w: Receipt)
    requires Filter(group, IsCandidate) != []
    ensures Sort(Filter(group, IsCandidate), ComesFirst) != [] && w == Sort(Filter(group, IsCandidate), ComesFirst)[0]
    ensures w in group && IsCandidate(w) && forall q :: q in group && IsCandidate(q) ==> ComesFirst(w, q)
  {
    var candidates := Filter(group, IsCandidate);
    var sorted := Sort(candidates, ComesFirst);
    ComparatorIsTotalOrder();
    SortSorts(candidates, ComesFirst);
    w := sorted[0];
    SortMember(candidates, ComesFirst, w);
    FilterMember(group, IsCandidate, w);
    forall q | q in group && IsCandidate(q) ensures ComesFirst(w, q) {
      FilterMember(group, IsCandidate, q);
      SortMember(candidates, ComesFirst, q);
      var j :| 0 <= j < |sorted| && sorted[j] == q;
      StringLtTotal(q.id, q.id);
    }
  }

  /**
   * The output row is the input row when it survives, and void otherwise: whatever the order, and whatever else rides
   * along.
   */
  lemma JudgeKeepsExactlySurvivors(ev: seq<Evidence>, r: Receipt)
    requires DistinctIds(ev) && GreenFee(r) in ev && r.fingerprint != ""
    ensures Judge(ev, GreenFee(r)) == if Survives(ev, r) then GreenFee(r) else Voided(GreenFee(r))
  {
    var group := ReceiptsWith(ev, r.fingerprint);
    forall q ensures q in group <==> GreenFee(q) in ev && q.fingerprint == r.fingerprint {
      ReceiptsWithMember(ev, r.fingerprint, q);
    }
    assert r in group;
    if AnyPoison(group) {
      if |group| < 2 { assert group == [r]; }
      var i :| 0 <= i < |group| && Poisons(group[i]);
      assert group[i] in group;
    } else {
      forall q | q in group ensures !Poisons(q) {}
      if |group| < 2 {
        assert group == [r];
        StringLtTotal(r.id, r.id);
        assert Survives(ev, r) <==> IsCandidate(r);
      } else if Filter(group, IsCandidate) == [] {
        FilterMember(group, IsCandidate, r);
      } else {
        var w := WinnerIsLeast(group);
        ComparatorIsTotalOrder();
        if Survives(ev, r) {
          assert CompareCandidates(w, r) == 0;
        }
      }
    }
  }

  /** At most one row per fingerprint is left standing. */
  lemma AtMostOneStands(ev: seq<Evidence>, i: nat, j: nat)
    requires DistinctIds(ev) && i < |ev| && j < |ev| && ev[i].GreenFee? && ev[j].GreenFee?
    requires ev[i].receipt.fingerprint == ev[j].receipt.fingerprint != ""
    requires Judge(ev, ev[i]).receipt.status != Void && Judge(ev, ev[j]).receipt.status != Void
    ensures i == j
  {
    JudgeKeepsExactlySurvivors(ev, ev[i].receipt);
    JudgeKeepsExactlySurvivors(ev, ev[j].receipt);
    ComparatorIsTotalOrder();
    assert ev[i] == GreenFee(ev[i].receipt) && ev[j] == GreenFee(ev[j].receipt);
  }

  /** One stands exactly when some receipt was standing and none was voided by a reviewer or for fraud. */
  lemma OneStandsUnlessPoisoned(ev: seq<Evidence>, fingerprint: string)
    requires DistinctIds(ev) && fingerprint != ""
    ensures
      (exists r ::
         GreenFee(r) in ev && r.fingerprint == fingerprint && Judge(ev, GreenFee(r)).receipt.status != Void) <==>
      ((exists r :: GreenFee(r) in ev && r.fingerprint == fingerprint && IsCandidate(r))
       && (forall q :: GreenFee(q) in ev && q.fingerprint == fingerprint ==> !Poisons(q)))
  {
    forall r | GreenFee(r) in ev && r.fingerprint == fingerprint
      ensures Judge(ev, GreenFee(r)) == if Survives(ev, r) then GreenFee(r) else Voided(GreenFee(r))
    {
      JudgeKeepsExactlySurvivors(ev, r);
    }
    if (exists r :: GreenFee(r) in ev && r.fingerprint == fingerprint && IsCandidate(r))
       && (forall q :: GreenFee(q) in ev && q.fingerprint == fingerprint ==> !Poisons(q))
    {
      var r :| GreenFee(r) in ev && r.fingerprint == fingerprint && IsCandidate(r);
      var group := ReceiptsWith(ev, fingerprint);
      forall q ensures q in group <==> GreenFee(q) in ev && q.fingerprint == fingerprint {
        ReceiptsWithMember(ev, fingerprint, q);
      }
      FilterMember(group, IsCandidate, r);
      var w := WinnerIsLeast(group);
      assert Survives(ev, w);
    }
  }

  // ---------------------------------------------------------------- what the standing receipt is like

  /** They agree up to somewhere, and there the first one ends or has the smaller character. */
  ghost predicate ComesBefore(a: string, b: string) {
    exists k: nat :: k <= |a| && k < |b| && a[..k] == b[..k] && (k == |a| || a[k] < b[k])
  }

  lemma SameHead(a: string, b: string, k: nat)
    requires 0 < k <= |a| && k <= |b| && a[..k] == b[..k]
    ensures a[0] == b[0]
  {
    assert a[..k][0] == b[..k][0];
  }

  lemma {:induction false} StringLtIff(a: string, b: string)
    ensures StringLt(a, b) <==> ComesBefore(a, b)
  {
    if a != "" && b != "" && a[0] == b[0] {
      StringLtIff(a[1..], b[1..]);
      if k: nat :|
        k <= |a[1..]| && k < |b[1..]| && a[1..][..k] == b[1..][..k] && (k == |a[1..]| || a[1..][k] < b[1..][k]) {
        assert a[..k + 1] == [a[0]] + a[1..][..k] && b[..k + 1] == [b[0]] + b[1..][..k];
        var next := k + 1;
        assert next <= |a| && next < |b| && a[..next] == b[..next];
      }
      if ComesBefore(a, b) {
        var k: nat :| k <= |a| && k < |b| && a[..k] == b[..k] && (k == |a| || a[k] < b[k]);
        if k > 0 {
          assert a[1..][..k - 1] == a[..k][1..] && b[1..][..k - 1] == b[..k][1..];
        }
      }
    } else if b != "" && (a == "" || a[0] < b[0]) {
      assert a[..0] == b[..0];
    } else {
      if k: nat :| k <= |a| && k < |b| && a[..k] == b[..k] && (k == |a| || a[k] < b[k]) {
        if k > 0 { SameHead(a, b, k); }
      }
    }
  }

  predicate SameFixTime(r: Receipt, q: Receipt) {
    match (r.coSignalFix, q.coSignalFix)
    case (None, None) => true
    case (Some(f), Some(g)) => f.capturedAt == g.capturedAt
    case _ => false
  }

  /**
   * Approved rather than pending; of one status, with a fix rather than without; of those with one, the earlier
   * captured; and if nothing else tells them apart, the smaller id.
   */
  ghost predicate Better(r: Receipt, q: Receipt) {
    || (r.status == Approved && q.status == Pending)
    || (r.status == q.status && r.coSignalFix.Some? && q.coSignalFix.None?)
    || (r.status == q.status && r.coSignalFix.Some? && q.coSignalFix.Some?
        && r.coSignalFix.value.capturedAt < q.coSignalFix.value.capturedAt)
    || (r.status == q.status && SameFixTime(r, q) && ComesBefore(r.id, q.id))
  }

  lemma FirstIffBetter(r: Receipt, q: Receipt)
    requires r.status != Void && q.status != Void && r.id != q.id
    ensures ComesFirst(r, q) <==> Better(r, q)
  {
    StringLtIff(r.id, q.id);
    StringLtTotal(r.id, q.id);
  }

  /** Voided by a reviewer, for fraud, or for no stated reason. */
  predicate TaintedVoid(q: Receipt) {
    q.status == Void && (q.voidReason == None || q.voidReason == Some(ReviewerVoid) || q.voidReason == Some(FraudVoid))
  }

  ghost predicate Shares(ev: seq<Evidence>, r: Receipt, q: Receipt) {
    GreenFee(q) in ev && q.fingerprint == r.fingerprint
  }

  /** It was not void, its fingerprint is untainted, and it is better than every other receipt that was not void. */
  ghost predicate Stands(ev: seq<Evidence>, r: Receipt) {
    && r.status != Void && (forall q :: Shares(ev, r, q) ==> !TaintedVoid(q))
    && (forall q :: Shares(ev, r, q) && q != r && q.status != Void ==> Better(r, q))
  }

  lemma SameIdSameReceipt(ev: seq<Evidence>, r: Receipt, q: Receipt)
    requires DistinctIds(ev) && GreenFee(r) in ev && GreenFee(q) in ev && r.id == q.id
    ensures r == q
  {
    var i :| 0 <= i < |ev| && ev[i] == GreenFee(r);
    var j :| 0 <= j < |ev| && ev[j] == GreenFee(q);
  }

  lemma PoisonsIffTainted(q: Receipt)
    ensures Poisons(q) <==> TaintedVoid(q)
  {
    if q.voidReason.Some? {
      match q.voidReason.value
      case DuplicateVoid =>
      case ReviewerVoid =>
      case FraudVoid =>
    }
  }

  lemma SurvivesIffStands(ev: seq<Evidence>, r: Receipt)
    requires DistinctIds(ev) && GreenFee(r) in ev
    ensures Survives(ev, r) <==> Stands(ev, r)
  {
    StringLtTotal(r.id, r.id);
    forall q | Shares(ev, r, q) && q.status != Void && r.status != Void && q != r
      ensures ComesFirst(r, q) <==> Better(r, q)
    {
      if q.id == r.id { SameIdSameReceipt(ev, r, q); }
      FirstIffBetter(r, q);
    }
    forall q ensures GreenFee(q) in ev && q.fingerprint == r.fingerprint <==> Shares(ev, r, q) {}
    forall q: Receipt ensures Poisons(q) <==> TaintedVoid(q) { PoisonsIffTainted(q); }
    if Stands(ev, r) {
      forall q | GreenFee(q) in ev && q.fingerprint == r.fingerprint
        ensures !Poisons(q) && (IsCandidate(q) ==> ComesFirst(r, q))
      {
        assert Shares(ev, r, q);
      }
    }
  }

  /**
   * A receipt with a fingerprint comes out as it was when it stands, and void otherwise; every other row comes out as
   * it was.
   */
  lemma ReceiptStandsIff(ev: seq<Evidence>, row: Evidence)
    requires DistinctIds(ev) && row in ev
    ensures Judge(ev, row) ==
      if row.GreenFee? && row.receipt.fingerprint != "" && !Stands(ev, row.receipt)
      then GreenFee(row.receipt.(status := Void)) else row
  {
    if row.GreenFee? && row.receipt.fingerprint != "" {
      var r := row.receipt;
      JudgeKeepsExactlySurvivors(ev, r);
      SurvivesIffStands(ev, r);
    }
  }

  /** The rows that can influence the outcome: receipts that are not mere duplicates. */
  ghost predicate Relevant(ev: seq<Evidence>, r: Receipt) {
    GreenFee(r) in ev && (IsCandidate(r) || Poisons(r))
  }

  /**
   * Two inputs with the same relevant receipts, in any order and with any duplicate-voided copies, treat a shared
   * receipt alike.
   */
  lemma OutcomeIgnoresOrderAndDuplicates(ev: seq<Evidence>, ev': seq<Evidence>, r: Receipt)
    requires DistinctIds(ev) && DistinctIds(ev')
    requires forall q :: Relevant(ev, q) <==> Relevant(ev', q)
    requires GreenFee(r) in ev && GreenFee(r) in ev' && r.fingerprint != ""
    ensures Judge(ev, GreenFee(r)) == Judge(ev', GreenFee(r))
  {
    JudgeKeepsExactlySurvivors(ev, r);
    JudgeKeepsExactlySurvivors(ev', r);
    forall q | GreenFee(q) in ev && (IsCandidate(q) || Poisons(q))
      ensures GreenFee(q) in ev'
    {
      assert Relevant(ev, q);
    }
    forall q | GreenFee(q) in ev' && (IsCandidate(q) || Poisons(q))
      ensures GreenFee(q) in ev
    {
      assert Relevant(ev', q);
    }
  }

  /** In particular, permuting the evidence changes nothing. */
  lemma OutcomeIgnoresOrder(ev: seq<Evidence>, ev': seq<Evidence>, r: Receipt)
    requires DistinctIds(ev) && multiset(ev) == multiset(ev') && GreenFee(r) in ev && r.fingerprint != ""
    ensures Judge(ev, GreenFee(r)) == Judge(ev', GreenFee(r))
  {
    forall row ensures row in ev <==> row in ev' {
      assert row in ev <==> row in multiset(ev);
      assert row in ev' <==> row in multiset(ev');
    }
    assert DistinctIds(ev') by { PermutedIds(ev, ev'); }
    OutcomeIgnoresOrderAndDuplicates(ev, ev', r);
  }

  /** Distinct ids survive a permutation. */
  lemma PermutedIds(ev: seq<Evidence>, ev': seq<Evidence>)
    requires DistinctIds(ev) && multiset(ev) == multiset(ev')
    ensures DistinctIds(ev')
  {
    forall i, j | 0 <= i < j < |ev'| && ev'[i].GreenFee? && ev'[j].GreenFee?
      ensures ev'[i].receipt.id != ev'[j].receipt.id
    {
      assert ev' == ev'[..j] + ev'[j..];
      assert ev'[i] in ev'[..j] && ev'[j] == ev'[j..][0];
      if ev'[i] == ev'[j] {
        assert multiset(ev')[ev'[i]] >= 2;
        TwicePlaced(ev, ev'[i]);
      } else {
        assert ev'[i] in multiset(ev') && ev'[j] in multiset(ev');
        var a :| 0 <= a < |ev| && ev[a] == ev'[i];
        var b :| 0 <= b < |ev| && ev[b] == ev'[j];
        assert ev[a].receipt.id != ev[b].receipt.id by {
          if a < b {} else { assert b < a; }
        }
      }
    }
  }

  lemma {:induction false} TwicePlaced(ev: seq<Evidence>, row: Evidence)
    requires multiset(ev)[row] >= 2
    ensures exists i, j :: 0 <= i < j < |ev| && ev[i] == row && ev[j] == row
  {
    var n := |ev| - 1;
    assert ev == ev[..n] + [ev[n]];
    if ev[n] == row {
      assert row in multiset(ev[..n]);
      var i :| 0 <= i < n && ev[..n][i] == row;
      assert ev[i] == row;
    } else {
      TwicePlaced(ev[..n], row);
      var i, j :| 0 <= i < j < n && ev[..n][i] == row && ev[..n][j] == row;
      assert ev[i] == row && ev[j] == row;
    }
  }
}
