/**
 * The remaining rule aggregates (packages/rules/src/aggregates.ts and completion.ts): counts over the distinct
 * qualifying courses, the monthly streak and marker credit.
 */
module Aggregates {
  import opened Calendar
  import opened Common
  import opened Ordering
  import opened Completion

  datatype Field = Region | CountryField | Designer | Facility | Trail

  // ---------------------------------------------------------------- plays and courses

  function Played(courseId: Id, plays: seq<Play>, ctx: Context, opts: EvalOptions): nat {
    |Filter(plays, p => PlayQualifies(p, ctx, opts, None) && ResolveId(ctx, p.courseId) == ResolveId(ctx, courseId))|
  }

  /** The distinct courses with a qualifying play, each named by its surviving id. */
  function QualifyingCourses(plays: seq<Play>, ctx: Context, opts: EvalOptions): set<Id> {
    set p | p in plays && PlayQualifies(p, ctx, opts, None) :: ResolveId(ctx, p.courseId)
  }

  function UniqueCourses(plays: seq<Play>, ctx: Context, opts: EvalOptions): nat {
    |QualifyingCourses(plays, ctx, opts)|
  }

  /** The insertion-ordered set of the source, as a listing without repeats. */
  method ListQualifyingCourses(plays: seq<Play>, ctx: Context, opts: EvalOptions) returns (ids: seq<Id>)
    ensures NoRepeats(ids)
    ensures forall id :: id in ids <==> id in QualifyingCourses(plays, ctx, opts)
  {
    ids := [];
    for i := 0 to |plays|
      invariant NoRepeats(ids)
      invariant forall id :: id in ids <==> id in QualifyingCourses(plays[..i], ctx, opts)
    {
      assert plays[..i + 1] == plays[..i] + [plays[i]];
      if PlayQualifies(plays[i], ctx, opts, None) {
        var id := ResolveId(ctx, plays[i].courseId);
        if id !in ids { ids := ids + [id]; }
      }
    }
    assert plays[..|plays|] == plays;
  }

  method CountUniqueCourses(plays: seq<Play>, ctx: Context, opts: EvalOptions) returns (n: nat)
    ensures n == UniqueCourses(plays, ctx, opts)
  {
    var ids := ListQualifyingCourses(plays, ctx, opts);
    NoRepeatsSize(ids);
    assert Elements(ids) == QualifyingCourses(plays, ctx, opts);
    n := |ids|;
  }

  // ---------------------------------------------------------------- field values

  function CountryCode(c: Country): string { match c case US => "US" case CA => "CA" }

  predicate TrailContains(versions: seq<RosterVersion>, course: Id, ctx: Context) {
    exists i, k :: 0 <= i < |versions| && 0 <= k < |versions[i].members|
      && MemberCovers(course, versions[i].members[k], versions[i].completionUnit, ctx)
  }

  function TrailsWith(course: Id, ctx: Context): set<Id> {
    set t | t in ctx.trails && TrailContains(ctx.trails[t], course, ctx)
  }

  /** The values a course contributes for a field, with repetitions: a designer listed twice contributes twice. */
  function FieldValues(course: Id, field: Field, ctx: Context): multiset<string> {
    if field == Trail then multiset(TrailsWith(course, ctx))
    else if course !in ctx.courses then multiset{}
    else
      var meta := ctx.courses[course];
      match field
      case Region => if meta.region.Some? && meta.region.value != "" then multiset{meta.region.value} else multiset{}
      case CountryField => if meta.country.Some? then multiset{CountryCode(meta.country.value)} else multiset{}
      case Designer => multiset(meta.designers)
      case Facility => if meta.facilityId != "" then multiset{meta.facilityId} else multiset{}
      case Trail => multiset{}
  }

  function ValuesOf(field: Field, ctx: Context): Id -> multiset<string> {
    c => FieldValues(c, field, ctx)
  }

  predicate Allowed(v: string, only: Option<seq<string>>) { only.Some? ==> v in only.value }

  function DistinctValues(courses: set<Id>, values: Id -> multiset<string>, only: Option<seq<string>>): set<string> {
    set c, v | c in courses && v in values(c) && Allowed(v, only) :: v
  }

  function CountDistinct(
    field: Field, only: Option<seq<string>>, plays: seq<Play>, ctx: Context, opts: EvalOptions): nat
  {
    |DistinctValues(QualifyingCourses(plays, ctx, opts), ValuesOf(field, ctx), only)|
  }

  function OwnValues(course: Id, values: Id -> multiset<string>, only: Option<seq<string>>): set<string> {
    set v | v in values(course) && Allowed(v, only)
  }

  lemma DistinctValuesStep(courses: set<Id>, c: Id, values: Id -> multiset<string>, only: Option<seq<string>>)
    ensures DistinctValues(courses + {c}, values, only) ==
      DistinctValues(courses, values, only) + OwnValues(c, values, only)
  {
    forall v ensures v in DistinctValues(courses + {c}, values, only) <==>
      v in DistinctValues(courses, values, only) || v in OwnValues(c, values, only)
    {
      if v in OwnValues(c, values, only) { assert c in courses + {c}; }
      if v in DistinctValues(courses, values, only) {
        var d :| d in courses && v in values(d) && Allowed(v, only);
        assert d in courses + {c};
      }
    }
  }

  method ComputeCountDistinct(
    field: Field, only: Option<seq<string>>, plays: seq<Play>, ctx: Context, opts: EvalOptions) returns (n: nat)
    ensures n == CountDistinct(field, only, plays, ctx, opts)
  {
    var ids := ListQualifyingCourses(plays, ctx, opts);
    var found: set<string> := {};
    for i := 0 to |ids|
      invariant found == DistinctValues(Elements(ids[..i]), ValuesOf(field, ctx), only)
    {
      DistinctValuesStep(Elements(ids[..i]), ids[i], ValuesOf(field, ctx), only);
      ElementsStep(ids, i);
      found := found + OwnValues(ids[i], ValuesOf(field, ctx), only);
    }
    assert Elements(ids[..|ids|]) == QualifyingCourses(plays, ctx, opts);
    n := |found|;
  }

  function CountWhere(field: Field, value: string, plays: seq<Play>, ctx: Context, opts: EvalOptions): nat {
    |Sharing(QualifyingCourses(plays, ctx, opts), ValuesOf(field, ctx), value)|
  }

  /** How often each value occurs over the given courses. */
  ghost function Tally(courses: set<Id>, values: Id -> multiset<string>): multiset<string> {
    if courses == {} then multiset{}
    else var c :| c in courses; Tally(courses - {c}, values) + values(c)
  }

  lemma {:induction false} TallySplit(courses: set<Id>, c: Id, values: Id -> multiset<string>)
    requires c in courses
    ensures Tally(courses, values) == Tally(courses - {c}, values) + values(c)
  {
    var d :| d in courses && Tally(courses, values) == Tally(courses - {d}, values) + values(d);
    if d != c {
      TallySplit(courses - {d}, c, values);
      TallySplit(courses - {c}, d, values);
      assert courses - {d} - {c} == courses - {c} - {d};
    }
  }

  lemma {:induction false} TallyMonotone(few: set<Id>, many: set<Id>, values: Id -> multiset<string>)
    requires few <= many
    ensures Tally(few, values) <= Tally(many, values)
  {
    if few != {} {
      var c :| c in few;
      TallyMonotone(few - {c}, many - {c}, values);
      TallySplit(few, c, values);
      TallySplit(many, c, values);
    }
  }

  /** The highest multiplicity in a multiset. */
  ghost function Peak(m: multiset<string>): nat {
    Largest(ReachesOf(m), |m|)
  }

  ghost predicate Reaches(m: multiset<string>, n: nat) { exists v :: m[v] >= n }

  ghost function ReachesOf(m: multiset<string>): nat -> bool { (n: nat) => Reaches(m, n) }

  lemma PeakMeaning(m: multiset<string>)
    ensures forall v :: m[v] <= Peak(m)
    ensures Reaches(m, Peak(m))
  {
    LargestIsMaximal(ReachesOf(m), |m|);
    assert m[""] >= 0;
    forall v ensures m[v] <= Peak(m) {
      assert Reaches(m, m[v]) && ReachesOf(m)(m[v]);
    }
  }

  lemma PeakMonotone(a: multiset<string>, b: multiset<string>)
    requires a <= b
    ensures Peak(a) <= Peak(b)
  {
    PeakMeaning(a);
    PeakMeaning(b);
    var v :| a[v] >= Peak(a);
    assert a[v] <= b[v];
  }

  ghost function MaxCountBy(field: Field, plays: seq<Play>, ctx: Context, opts: EvalOptions): nat {
    Peak(Tally(QualifyingCourses(plays, ctx, opts), ValuesOf(field, ctx)))
  }

  /** The map holds exactly the multiplicities. */
  ghost predicate Records(counts: map<string, nat>, m: multiset<string>) {
    forall v :: m[v] == if v in counts then counts[v] else 0
  }

  method AddValues(
    counts: map<string, nat>, values: multiset<string>, ghost m: multiset<string>) returns (next: map<string, nat>)
    requires Records(counts, m)
    ensures Records(next, m + values)
  {
    next := counts;
    var rest := values;
    while rest != multiset{}
      invariant rest <= values
      invariant Records(next, m + (values - rest))
      decreases |rest|
    {
      var v :| v in rest;
      next := next[v := (if v in next then next[v] else 0) + 1];
      rest := rest - multiset{v};
    }
    assert m + (values - rest) == m + values;
  }

  method HighestCount(counts: map<string, nat>, ghost m: multiset<string>) returns (best: nat)
    requires Records(counts, m)
    ensures best == Peak(m)
  {
    best := 0;
    var keys := counts.Keys;
    while keys != {}
      invariant keys <= counts.Keys
      invariant forall v :: v in counts && v !in keys ==> counts[v] <= best
      invariant best == 0 || exists v :: v in counts && counts[v] == best
      decreases |keys|
    {
      var v :| v in keys;
      if counts[v] > best { best := counts[v]; }
      keys := keys - {v};
    }
    PeakMeaning(m);
    ghost var top :| m[top] >= Peak(m);
    assert m[top] <= best;
    if best > 0 {
      ghost var v :| v in counts && counts[v] == best;
      assert m[v] == best;
    }
  }

  /** Counts into a map, then scans it for the highest count. */
  method ComputeMaxCountBy(field: Field, plays: seq<Play>, ctx: Context, opts: EvalOptions) returns (best: nat)
    ensures best == MaxCountBy(field, plays, ctx, opts)
  {
    var ids := ListQualifyingCourses(plays, ctx, opts);
    var values := ValuesOf(field, ctx);
    var counts: map<string, nat> := map[];
    for i := 0 to |ids|
      invariant Records(counts, Tally(Elements(ids[..i]), values))
    {
      ElementsStep(ids, i);
      TallySplit(Elements(ids[..i + 1]), ids[i], values);
      assert ids[i] !in Elements(ids[..i]);
      assert Elements(ids[..i + 1]) - {ids[i]} == Elements(ids[..i]);
      counts := AddValues(counts, values(ids[i]), Tally(Elements(ids[..i]), values));
    }
    assert Elements(ids[..|ids|]) == QualifyingCourses(plays, ctx, opts);
    best := HighestCount(counts, Tally(QualifyingCourses(plays, ctx, opts), values));
  }

  /** The source's count loop: one for each course that includes the value. */
  method ComputeCountWhere(
    field: Field, value: string, plays: seq<Play>, ctx: Context, opts: EvalOptions) returns (n: nat)
    ensures n == CountWhere(field, value, plays, ctx, opts)
  {
    var ids := ListQualifyingCourses(plays, ctx, opts);
    var values := ValuesOf(field, ctx);
    var includes := (c: Id) => value in values(c);
    n := CountSatisfying(ids, includes);
    ghost var courses := QualifyingCourses(plays, ctx, opts);
    assert Kept(ids, includes) == Sharing(courses, values, value) by {
      forall c ensures c in Kept(ids, includes) <==> c in Sharing(courses, values, value) {}
    }
  }

  function Kept(list: seq<Id>, keep: Id -> bool): set<Id> {
    set x | x in list && keep(x)
  }

  method CountSatisfying(list: seq<Id>, keep: Id -> bool) returns (n: nat)
    requires NoRepeats(list)
    ensures n == |Kept(list, keep)|
  {
    n := 0;
    ghost var counted: set<Id> := {};
    for i := 0 to |list|
      invariant forall x :: x in counted <==> x in list[..i] && keep(x)
      invariant n == |counted|
    {
      assert list[..i + 1] == list[..i] + [list[i]];
      if keep(list[i]) {
        counted := counted + {list[i]};
        n := n + 1;
      }
    }
    assert counted == Kept(list, keep);
  }

  /** The largest number of distinct qualifying courses sharing one value: what the aggregate is documented to be. */
  ghost predicate SharedBy(courses: set<Id>, values: Id -> multiset<string>, n: nat) {
    exists v :: |Sharing(courses, values, v)| >= n
  }

  function Sharing(courses: set<Id>, values: Id -> multiset<string>, v: string): set<Id> {
    set c | c in courses && v in values(c)
  }

  ghost predicate IsLargestShare(courses: set<Id>, values: Id -> multiset<string>, n: nat) {
    SharedBy(courses, values, n) && !SharedBy(courses, values, n + 1)
  }

  lemma {:induction false} TallyVersusSharing(courses: set<Id>, values: Id -> multiset<string>, v: string)
    ensures |Sharing(courses, values, v)| <= Tally(courses, values)[v]
    ensures (forall c :: c in courses ==> values(c)[v] <= 1) ==>
      |Sharing(courses, values, v)| == Tally(courses, values)[v]
  {
    if courses != {} {
      var c :| c in courses;
      TallySplit(courses, c, values);
      TallyVersusSharing(courses - {c}, values, v);
      SharingSplit(courses, c, values, v);
    }
  }

  lemma SharingSplit(courses: set<Id>, c: Id, values: Id -> multiset<string>, v: string)
    requires c in courses
    ensures |Sharing(courses, values, v)| ==
      |Sharing(courses - {c}, values, v)| + if v in values(c) then 1 else 0
  {
    var rest := Sharing(courses - {c}, values, v);
    if v in values(c) {
      assert Sharing(courses, values, v) == rest + {c};
    } else {
      assert Sharing(courses, values, v) == rest;
    }
  }

  /** A course's own values, without counting any twice. */
  ghost predicate ListsOnce(course: Id, values: Id -> multiset<string>) {
    forall v :: values(course)[v] <= 1
  }

  lemma MaxCountByCountsCourses(courses: set<Id>, values: Id -> multiset<string>)
    requires forall c :: c in courses ==> ListsOnce(c, values)
    ensures IsLargestShare(courses, values, Peak(Tally(courses, values)))
  {
    var m := Tally(courses, values);
    PeakMeaning(m);
    forall v ensures |Sharing(courses, values, v)| == m[v] {
      TallyVersusSharing(courses, values, v);
    }
    var v :| m[v] >= Peak(m);
    assert |Sharing(courses, values, v)| >= Peak(m);
  }

  lemma RepeatedValueCountsTwice(c: Id, values: Id -> multiset<string>)
    requires !ListsOnce(c, values)
    ensures !IsLargestShare({c}, values, Peak(Tally({c}, values)))
  {
    var v :| values(c)[v] > 1;
    TallySplit({c}, c, values);
    assert {c} - {c} == {};
    var m := Tally({c}, values);
    PeakMeaning(m);
    assert m[v] > 1;
    forall w ensures |Sharing({c}, values, w)| <= 1 {
      SubsetSize(Sharing({c}, values, w), {c});
    }
  }

  /** Some play could make this course count. */
  ghost predicate Playable(c: Id, ctx: Context) {
    exists id :: ResolveId(ctx, id) == c && CourseVerified(ctx, id)
  }

  lemma SharesWithoutRepeats(field: Field, plays: seq<Play>, ctx: Context, opts: EvalOptions)
    requires forall c :: Playable(c, ctx) ==> ListsOnce(c, ValuesOf(field, ctx))
    ensures IsLargestShare(
      QualifyingCourses(plays, ctx, opts), ValuesOf(field, ctx), MaxCountBy(field, plays, ctx, opts))
  {
    var values := ValuesOf(field, ctx);
    forall c | c in QualifyingCourses(plays, ctx, opts) ensures ListsOnce(c, values) {
      assert Playable(c, ctx);
    }
    MaxCountByCountsCourses(QualifyingCourses(plays, ctx, opts), values);
  }

  /** One play on a course that repeats a value is miscounted. */
  lemma RepeatIsMiscounted(field: Field, c: Id, ctx: Context, opts: EvalOptions) returns (play: Play)
    requires Playable(c, ctx) && !ListsOnce(c, ValuesOf(field, ctx))
    ensures !IsLargestShare(
      QualifyingCourses([play], ctx, opts), ValuesOf(field, ctx), MaxCountBy(field, [play], ctx, opts))
  {
    var id :| ResolveId(ctx, id) == c && CourseVerified(ctx, id);
    play := Play(id, if opts.Money? then opts.programmeStartsOn else 0, Geometry, 1.0, true);
    assert PlayQualifies(play, ctx, opts, None);
    assert QualifyingCourses([play], ctx, opts) == {c};
    RepeatedValueCountsTwice(c, ValuesOf(field, ctx));
  }

  /**
   * `maxCountBy` is documented to count courses, one per distinct course, for a value they share. That is what it
   * returns for every list of plays if and only if no playable course lists a value twice: a designer listed twice
   * on one course counts twice.
   */
  lemma MaxCountByCountsCoursesIff(field: Field, ctx: Context, opts: EvalOptions)
    ensures (forall plays: seq<Play> ::
        IsLargestShare(QualifyingCourses(plays, ctx, opts), ValuesOf(field, ctx), MaxCountBy(field, plays, ctx, opts)))
      <==> (forall c :: Playable(c, ctx) ==> ListsOnce(c, ValuesOf(field, ctx)))
  {
    if forall c :: Playable(c, ctx) ==> ListsOnce(c, ValuesOf(field, ctx)) {
      forall plays: seq<Play>
        ensures IsLargestShare(
          QualifyingCourses(plays, ctx, opts), ValuesOf(field, ctx), MaxCountBy(field, plays, ctx, opts))
      {
        SharesWithoutRepeats(field, plays, ctx, opts);
      }
    } else {
      var c :| Playable(c, ctx) && !ListsOnce(c, ValuesOf(field, ctx));
      var play := RepeatIsMiscounted(field, c, ctx, opts);
    }
  }

  // ---------------------------------------------------------------- months

  function PlayedMonths(plays: seq<Play>, ctx: Context, opts: EvalOptions): set<int> {
    set p | p in plays && PlayQualifies(p, ctx, opts, None) :: MonthOf(p.localDate)
  }

  ghost predicate RunAt(months: set<int>, start: int, n: nat) {
    forall m :: start <= m < start + n ==> m in months
  }

  ghost predicate HasRun(months: set<int>, n: nat) {
    exists start :: RunAt(months, start, n)
  }

  ghost function RunsOf(months: set<int>): nat -> bool { (n: nat) => HasRun(months, n) }

  ghost function LongestRun(months: set<int>): nat {
    Largest(RunsOf(months), |months|)
  }

  ghost function MonthlyStreak(plays: seq<Play>, ctx: Context, opts: EvalOptions): nat {
    LongestRun(PlayedMonths(plays, ctx, opts))
  }

  lemma {:induction false} RunSize(months: set<int>, start: int, n: nat)
    requires RunAt(months, start, n)
    ensures n <= |months|
    decreases n
  {
    if n > 0 {
      var last := start + n - 1;
      assert last in months;
      RunSize(months - {last}, start, n - 1);
    }
  }

  /** The longest run is a run, and no longer one exists anywhere. */
  lemma LongestRunMeaning(months: set<int>)
    ensures HasRun(months, LongestRun(months))
    ensures forall n: nat :: HasRun(months, n) <==> n <= LongestRun(months)
  {
    LargestIsMaximal(RunsOf(months), |months|);
    assert RunAt(months, 0, 0);
    forall n: nat ensures HasRun(months, n) <==> n <= LongestRun(months) {
      if HasRun(months, n) {
        var start :| RunAt(months, start, n);
        RunSize(months, start, n);
        assert RunsOf(months)(n);
      }
      if n <= LongestRun(months) {
        var start :| RunAt(months, start, LongestRun(months));
        assert RunAt(months, start, n);
      }
    }
  }

  lemma LongestRunMonotone(few: set<int>, many: set<int>)
    requires few <= many
    ensures LongestRun(few) <= LongestRun(many)
  {
    LongestRunMeaning(few);
    LongestRunMeaning(many);
    var start :| RunAt(few, start, LongestRun(few));
    assert RunAt(many, start, LongestRun(few));
    assert HasRun(many, LongestRun(few));
  }

  /** `best` is the longest run among the months seen, `current` the one ending at the newest of them. */
  ghost predicate StreakState(seen: set<int>, newest: int, current: nat, best: nat) {
    && HasRun(seen, best) && !HasRun(seen, best + 1)
    && current <= best
    && (seen != {} ==>
         && newest in seen && (forall m :: m in seen ==> m <= newest)
         && RunAt(seen, newest - current + 1, current) && newest - current !in seen && current > 0)
  }

  lemma NextMonth(seen: set<int>, newest: int, current: nat, best: nat, m: int)
    requires StreakState(seen, newest, current, best)
    requires seen != {} ==> newest < m
    ensures var current' := if seen != {} && m == newest + 1 then current + 1 else 1;
      StreakState(seen + {m}, m, current', if current' > best then current' else best)
  {
    var continues := seen != {} && m == newest + 1;
    var current' := if continues then current + 1 else 1;
    var best' := if current' > best then current' else best;
    var seen' := seen + {m};
    assert RunAt(seen', m - current' + 1, current');
    assert m - current' !in seen';
    if best' == best {
      var start :| RunAt(seen, start, best);
      assert RunAt(seen', start, best);
    }
    var longer := best' + 1;
    if start :| RunAt(seen', start, longer) {
      assert start + best' in seen';
      if start + best' != m {
        assert RunAt(seen, start, best + 1);
      }
    }
  }

  method ComputeMonthlyStreak(plays: seq<Play>, ctx: Context, opts: EvalOptions) returns (best: nat)
    ensures best == MonthlyStreak(plays, ctx, opts)
  {
    var months := ListMonths(plays, ctx, opts);
    var sorted := AscendingOf(months);
    best := 0;
    var current: nat := 0;
    var prevKey: Option<int> := None;
    ghost var newest := 0;
    NoMonthsNoRun();
    for i := 0 to |sorted|
      invariant StreakState(Elements(sorted[..i]), newest, current, best)
      invariant prevKey == if i == 0 then None else Some(newest)
      invariant i > 0 ==> newest == sorted[i - 1]
    {
      var key := sorted[i];
      ghost var seen := Elements(sorted[..i]);
      assert i > 0 ==> newest in seen;
      NextMonth(seen, newest, current, best, key);
      assert sorted[..i + 1] == sorted[..i] + [key];
      assert Elements(sorted[..i + 1]) == seen + {key};
      if prevKey.Some? && key == prevKey.value + 1 {
        current := current + 1;
      } else {
        current := 1;
      }
      prevKey := Some(key);
      newest := key;
      if current > best { best := current; }
    }
    assert Elements(sorted[..|sorted|]) == PlayedMonths(plays, ctx, opts);
    LongestRunMeaning(PlayedMonths(plays, ctx, opts));
  }

  lemma NoMonthsNoRun()
    ensures forall seen: set<int> :: seen == {} ==> HasRun(seen, 0) && !HasRun(seen, 1)
  {
    var none: set<int> := {};
    assert RunAt(none, 0, 0);
    forall start ensures !RunAt(none, start, 1) { assert start !in none; }
  }

  method ListMonths(plays: seq<Play>, ctx: Context, opts: EvalOptions) returns (months: seq<int>)
    ensures NoRepeats(months)
    ensures forall m :: m in months <==> m in PlayedMonths(plays, ctx, opts)
  {
    months := [];
    for i := 0 to |plays|
      invariant NoRepeats(months)
      invariant forall m :: m in months <==> m in PlayedMonths(plays[..i], ctx, opts)
    {
      assert plays[..i + 1] == plays[..i] + [plays[i]];
      if PlayQualifies(plays[i], ctx, opts, None) {
        var m := MonthOf(plays[i].localDate);
        if m !in months { months := months + [m]; }
      }
    }
    assert plays[..|plays|] == plays;
  }

  method AscendingOf(s: seq<int>) returns (sorted: seq<int>)
    requires NoRepeats(s)
    ensures Ascending(sorted)
    ensures forall m :: m in sorted <==> m in s
  {
    sorted := Sort(s, IntLe);
    SortSorts(s, IntLe);
    forall m ensures m in sorted <==> m in s { SortMember(s, IntLe, m); }
    assert NoRepeats(sorted) by {
      forall m ensures multiset(s)[m] <= 1 { OnceEach(s, m); }
      forall i, j | 0 <= i < j < |sorted| ensures sorted[i] != sorted[j] {
        if sorted[i] == sorted[j] { TwiceIn(sorted, i, j); }
      }
    }
    forall i, j | 0 <= i < j < |sorted| ensures sorted[i] < sorted[j] {
      assert IntLe(sorted[i], sorted[j]);
    }
  }

  lemma {:induction false} OnceEach(s: seq<int>, m: int)
    requires NoRepeats(s)
    ensures multiset(s)[m] <= 1
  {
    if s != [] {
      assert s == [s[0]] + s[1..];
      OnceEach(s[1..], m);
    }
  }

  lemma TwiceIn(s: seq<int>, i: nat, j: nat)
    requires i < j < |s| && s[i] == s[j]
    ensures multiset(s)[s[i]] >= 2
  {
    assert s == s[..j] + s[j..];
    assert s[i] in s[..j] && s[j] == s[j..][0];
  }

  // ---------------------------------------------------------------- markers

  /** The distinct facilities that host a member. */
  function MarkerRoster(v: RosterVersion, ctx: Context): set<Id> {
    set k | 0 <= k < |v.members| && FacilityOfMember(v.members[k], ctx).Some?
      && FacilityOfMember(v.members[k], ctx).value != ""
      :: FacilityOfMember(v.members[k], ctx).value
  }

  predicate Credited(
    f: Id, v: RosterVersion, all: seq<RosterVersion>, plays: seq<Play>, ctx: Context, opts: EvalOptions)
  {
    var removedOn := RemovedOn(FacilityIdentity(f), v.version, all, ctx);
    exists i :: 0 <= i < |plays| && PlayQualifies(plays[i], ctx, opts, v.trackingStartsOn)
      && (removedOn.Some? ==> plays[i].localDate < removedOn.value) && FacilityOf(ctx, plays[i].courseId) == Some(f)
  }

  function CreditedFacilities(
    v: RosterVersion, all: seq<RosterVersion>, plays: seq<Play>, ctx: Context, opts: EvalOptions): set<Id>
  {
    set f | f in MarkerRoster(v, ctx) && Credited(f, v, all, plays, ctx, opts)
  }

  /** A version's credit. */
  function Credit(v: RosterVersion, all: seq<RosterVersion>, plays: seq<Play>, ctx: Context, opts: EvalOptions): nat {
    |CreditedFacilities(v, all, plays, ctx, opts)|
  }

  function BestCredit(
    vs: seq<RosterVersion>, all: seq<RosterVersion>, plays: seq<Play>, ctx: Context, opts: EvalOptions): nat
  {
    if vs == [] then 0 else
      var before := BestCredit(vs[..|vs| - 1], all, plays, ctx, opts);
      var here := Credit(vs[|vs| - 1], all, plays, ctx, opts);
      if here > before then here else before
  }

  lemma {:induction false} BestCreditBounds(
    vs: seq<RosterVersion>, all: seq<RosterVersion>, plays: seq<Play>, ctx: Context, opts: EvalOptions, k: nat)
    requires k < |vs|
    ensures Credit(vs[k], all, plays, ctx, opts) <= BestCredit(vs, all, plays, ctx, opts)
    decreases |vs|
  {
    if k < |vs| - 1 { BestCreditBounds(vs[..|vs| - 1], all, plays, ctx, opts, k); }
  }

  lemma {:induction false} BestCreditReached(
    vs: seq<RosterVersion>, all: seq<RosterVersion>, plays: seq<Play>, ctx: Context, opts: EvalOptions)
    returns (k: nat)
    requires vs != []
    ensures k < |vs| && Credit(vs[k], all, plays, ctx, opts) == BestCredit(vs, all, plays, ctx, opts)
    decreases |vs|
  {
    k := |vs| - 1;
    var init := vs[..k];
    if init != [] && Credit(vs[k], all, plays, ctx, opts) <= BestCredit(init, all, plays, ctx, opts) {
      k := BestCreditReached(init, all, plays, ctx, opts);
    }
  }

  /** The best credit is the largest of the versions' credits, and some version reaches it. */
  lemma BestCreditIsLargest(
    vs: seq<RosterVersion>, all: seq<RosterVersion>, plays: seq<Play>, ctx: Context, opts: EvalOptions)
    ensures forall k :: 0 <= k < |vs| ==> Credit(vs[k], all, plays, ctx, opts) <= BestCredit(vs, all, plays, ctx, opts)
    ensures if vs == [] then BestCredit(vs, all, plays, ctx, opts) == 0
      else exists k :: 0 <= k < |vs| && Credit(vs[k], all, plays, ctx, opts) == BestCredit(vs, all, plays, ctx, opts)
  {
    forall k | 0 <= k < |vs|
      ensures Credit(vs[k], all, plays, ctx, opts) <= BestCredit(vs, all, plays, ctx, opts)
    {
      BestCreditBounds(vs, all, plays, ctx, opts, k);
    }
    if vs != [] { var k := BestCreditReached(vs, all, plays, ctx, opts); }
  }

  function MarkerCredits(all: seq<RosterVersion>, plays: seq<Play>, ctx: Context, opts: EvalOptions): nat {
    BestCredit(all, all, plays, ctx, opts)
  }

  predicate IsHostedBy(m: Member, f: Id, ctx: Context) { FacilityOfMember(m, ctx) == Some(f) }

  /** The first member hosted by f comes before every member hosted by g. */
  ghost predicate MentionedBefore(ms: seq<Member>, f: Id, g: Id, ctx: Context) {
    exists k :: 0 <= k < |ms| && IsHostedBy(ms[k], f, ctx)
      && forall l :: 0 <= l <= k ==> !IsHostedBy(ms[l], g, ctx)
  }

  lemma MentionedSoFar(v: RosterVersion, n: nat, f: Id, g: Id, ctx: Context)
    requires n <= |v.members| && g != ""
    requires f in MarkerRoster(v.(members := v.members[..n]), ctx)
    requires g !in MarkerRoster(v.(members := v.members[..n]), ctx)
    ensures MentionedBefore(v.members, f, g, ctx)
  {
    var ms := v.members[..n];
    var k :| 0 <= k < n && IsHostedBy(ms[k], f, ctx);
    assert IsHostedBy(v.members[k], f, ctx);
    forall l | 0 <= l <= k
      ensures !IsHostedBy(v.members[l], g, ctx)
    {
      assert v.members[l] == ms[l];
    }
  }

  /** The roster listing: each facility once, in the order the members first mention them. */
  method ListMarkerRoster(v: RosterVersion, ctx: Context) returns (roster: seq<Id>)
    ensures NoRepeats(roster)
    ensures forall f :: f in roster <==> f in MarkerRoster(v, ctx)
    ensures forall i, j :: 0 <= i < j < |roster| ==> MentionedBefore(v.members, roster[i], roster[j], ctx)
    ensures |roster| == |MarkerRoster(v, ctx)|
  {
    roster := [];
    for i := 0 to |v.members|
      invariant NoRepeats(roster)
      invariant forall f :: f in roster <==> f in MarkerRoster(v.(members := v.members[..i]), ctx)
      invariant forall j, k :: 0 <= j < k < |roster| ==> MentionedBefore(v.members, roster[j], roster[k], ctx)
    {
      assert forall k :: 0 <= k < i ==> v.members[..i + 1][k] == v.members[..i][k];
      var f := FacilityOfMember(v.members[i], ctx);
      assert v.members[..i + 1][i] == v.members[i];
      if f.Some? && f.value != "" && f.value !in roster {
        forall j | 0 <= j < |roster|
          ensures MentionedBefore(v.members, roster[j], f.value, ctx)
        {
          MentionedSoFar(v, i, roster[j], f.value, ctx);
        }
        roster := roster + [f.value];
      }
    }
    assert v.members[..|v.members|] == v.members;
    NoRepeatsSize(roster);
    assert Elements(roster) == MarkerRoster(v, ctx);
  }

  method CountCredited(v: RosterVersion, all: seq<RosterVersion>, plays: seq<Play>, ctx: Context, opts: EvalOptions)
    returns (credited: nat, rosterSize: nat)
    ensures credited == |CreditedFacilities(v, all, plays, ctx, opts)| && rosterSize == |MarkerRoster(v, ctx)|
  {
    var roster := ListMarkerRoster(v, ctx);
    rosterSize := |roster|;
    var isCredited := (f: Id) => Credited(f, v, all, plays, ctx, opts);
    credited := CountSatisfying(roster, isCredited);
    assert Kept(roster, isCredited) == CreditedFacilities(v, all, plays, ctx, opts);
  }

  method ComputeMarkerCredits(
    all: seq<RosterVersion>, plays: seq<Play>, ctx: Context, opts: EvalOptions) returns (best: nat)
    ensures best == MarkerCredits(all, plays, ctx, opts)
  {
    best := 0;
    for i := 0 to |all|
      invariant best == BestCredit(all[..i], all, plays, ctx, opts)
    {
      assert all[..i + 1][..i] == all[..i];
      var credited, _ := CountCredited(all[i], all, plays, ctx, opts);
      if credited > best { best := credited; }
    }
    assert all[..|all|] == all;
  }

  ghost predicate AllCredited(
    fs: set<Id>, v: RosterVersion, all: seq<RosterVersion>, plays: seq<Play>, ctx: Context, opts: EvalOptions)
  {
    fs <= MarkerRoster(v, ctx) && forall f :: f in fs ==> Credited(f, v, all, plays, ctx, opts)
  }

  /** Enough of the version's facilities are credited: all of them, or as many different ones as the rule names. */
  ghost predicate EnoughCredited(
    v: RosterVersion, all: seq<RosterVersion>, plays: seq<Play>, ctx: Context, opts: EvalOptions)
  {
    match v.markerRule
    case All => AllCredited(MarkerRoster(v, ctx), v, all, plays, ctx, opts)
    case NofM(n) => exists fs :: |fs| == n && AllCredited(fs, v, all, plays, ctx, opts)
  }

  lemma CreditMeets(v: RosterVersion, all: seq<RosterVersion>, plays: seq<Play>, ctx: Context, opts: EvalOptions)
    ensures Credit(v, all, plays, ctx, opts) >= RequiredCount(v.markerRule, |MarkerRoster(v, ctx)|) <==>
      EnoughCredited(v, all, plays, ctx, opts)
  {
    var credited, roster := CreditedFacilities(v, all, plays, ctx, opts), MarkerRoster(v, ctx);
    match v.markerRule {
      case All =>
        if |credited| >= |roster| { SubsetOfSameSize(credited, roster); }
        if EnoughCredited(v, all, plays, ctx, opts) { SubsetSize(roster, credited); }
      case NofM(n) =>
        if n <= |credited| {
          var fs := SubsetOfSize(credited, n);
          assert AllCredited(fs, v, all, plays, ctx, opts);
        }
        if fs :| |fs| == n && AllCredited(fs, v, all, plays, ctx, opts) { SubsetSize(fs, credited); }
    }
  }

  /** The marker set is complete exactly when some version has enough of its facilities credited. */
  lemma MarkerSetIff(all: seq<RosterVersion>, plays: seq<Play>, ctx: Context, opts: EvalOptions)
    ensures MarkerSetComplete(all, plays, ctx, opts) <==>
      exists k :: 0 <= k < |all| && EnoughCredited(all[k], all, plays, ctx, opts)
  {
    forall k | 0 <= k < |all|
      ensures Credit(all[k], all, plays, ctx, opts) >= RequiredCount(all[k].markerRule, |MarkerRoster(all[k], ctx)|)
        <==> EnoughCredited(all[k], all, plays, ctx, opts)
    {
      CreditMeets(all[k], all, plays, ctx, opts);
    }
  }

  predicate MarkerSetComplete(all: seq<RosterVersion>, plays: seq<Play>, ctx: Context, opts: EvalOptions) {
    exists k :: 0 <= k < |all| &&
      Credit(all[k], all, plays, ctx, opts) >= RequiredCount(all[k].markerRule, |MarkerRoster(all[k], ctx)|)
  }
}
