# Golf Raven: verified models of the core algorithms

This project models, in Dafny, the parts of the Golf Raven repository where a mistake would be silent: the rule engine
that decides badges and money, the evidence grouping behind it, the append-only id ledger, the polygon and route geometry
of round matching, the CSV and FIT readers, the signup worker with its K2 count, and the self-check gate of the edge
functions. Every file stands beside one part of the source and proves what that part is for.

Run `dafny verify dfyconfig.toml` in this directory to check everything.

| files | part of the source |
|---|---|
| `Completion`, `CompletionMeaning`, `TrailWindow`, `Aggregates`, `StopOrder`, `RuleExpr`, `RuleEval`, `RuleMeaning`, `RuleNumbers`, `RuleCheck`, `Polarity`, `PolarityExamples` | rule engine (`packages/rules`, `packages/catalog/src/rule-expr.ts`) |
| `Evidence`, `Receipts`, `Dsu`, `EvidenceGroups` | one play's evidence (`packages/rules/src/score-play.ts`) |
| `Ledger`, `LedgerOps`, `LedgerMeaning`, `LedgerMerge`, `LedgerRuns`, `LedgerForest`, `LedgerExamples` | id ledger (`packages/catalog/src/ledger.ts`) |
| `Polygon`, `PolygonInside`, `PolygonSound`, `Simplify` | geometry (`packages/matching`) |
| `Csv`, `FitFormat`, `FitCrc`, `FitPrescan`, `FitMeaning`, `FitDamage` | readers (`packages/import`) |
| `StructuralBounds` | the size check before an untyped rule is parsed (`packages/rules/src/offer-eligibility.ts`) |
| `Signup`, `SignupWorker`, `SignupRetention`, `SignupLinks`, `UnsubscribeLinks`, `SignupExamples`, `K2Count`, `K2Stability` | signup worker (`apps/signup-worker`) |
| `SelfCheckGate` | edge self-check gate (`supabase/functions/_shared`) |
| `Common`, `Ordering`, `Calendar` | options, results, maxima, filtering, a stable sort, calendar months |

## How the model is built

Where the source changes things step by step, the Dafny member is a method with the same loop, or a class whose methods
change the same fields; its `ensures` ties the outcome to a specification function or predicate, and the lemmas are about
that specification. Where the source is made of expressions, the Dafny member is a function.

- The lemmas named `...Iff`, `...Meaning` and `...Exactly` say what an outcome means in terms of the input alone, without
  the functions that compute it.
- ISO dates are day numbers, instants are milliseconds, scores and coordinates are reals. Coordinates are the already
  projected ones. Distances are compared by their squares; where the source rounds both sides to two decimals, the
  squared distance is compared with the square of the least number that rounds to more than the limit, which is proved to
  be the same test (`Polygon.RoundedComparison`).
- A freshly minted id or token is a parameter or a counter that was never used before. A salted hash is a datatype
  constructor, so distinct inputs have distinct hashes.
- Exceptions are `Result` errors or a `Throws` outcome. An early `return` keeps its place in the order of the checks.
- A byte in the FIT model is a natural number; the statements about checksums ask for the bound of 256, no other needs it.
- A sign-up or a submitted link in a run carries the row its request read, which may be any row, however stale: the
  theorems about runs cover requests in flight while other requests, links, retention runs and rotations happen.

## What the proofs found

- **Merging.** The cycle check compares only with the survivor's terminal id, so merging an id the survivor's chain passes
  through is accepted and closes a loop, five operations after the empty ledger (`LedgerExamples.AcceptedMergeCanCycle`). A
  merge stays acyclic exactly when no merged id lies on the survivor's chain (`LedgerMerge.MergeForest`); merging only ids
  without a link of their own is always safe.
- **Merging into a tombstone.** A merge does not ask whether its survivor was itself merged away; courses then end up under
  a dead facility (`LedgerExamples.AcceptedMergeCanStrandCourses`), exactly when some course had to move
  (`LedgerMerge.MergeKeepsCoursesLive`). Over whole runs the ledger stays a forest with its courses under live facilities
  exactly when every merge avoids both (`LedgerForest.RunStaysForestIff`).
- **Minting directly.** A direct mint does not look whether its reference is already carried; each reference keeps one
  course and one facility exactly when it is not (`LedgerRuns.MintAnchoredIff`).
- **Re-seeding.** The comment on `reseedFacility` speaks of exactly one nearby candidate, with a matching name; the code
  matches when exactly one nearby candidate has a matching name, whatever else is nearby
  (`LedgerMeaning.ReseedMatchesIff`, `LedgerMeaning.SecondNearbyStillMatches`). Comment and code agree exactly when no
  other nearby candidate stands beside the only one with a matching name (`LedgerMeaning.CommentHoldsIff`). The model
  follows the code.
- **`maxCountBy`.** A course that lists one designer twice is counted twice for that designer. The value is the largest
  number of courses sharing a value, for every list of plays, exactly when no course that could count lists a value twice
  (`Aggregates.MaxCountByCountsCoursesIff`).
- **Polygon fast reject.** The bounding box is made of the outer rings only, and the walk rounds distances to two decimals
  while the reject does not. When the buffered test rejects a point, the walk rejects it too, for every geometry that fills
  the box, exactly when the buffer is zero or the rounded distance to the box is larger than the rounded buffer
  (`PolygonSound.BufferRejectAgreesIff`); for the distance test the rounded distances decide alone
  (`PolygonSound.DistanceRejectAgreesIff`). No geometry is exempt: each has a point that is beyond the limit of its box and
  that the walk accepts (`PolygonSound.EveryGeometryHasAMisjudgedPoint`). And the box settles the walk at all only when the
  hole vertices lie in it (`PolygonSound.BoxSettlesWalkIffHolesInBox`).
- **CSV.** Parsing undoes printing except for a table whose last row is one empty field, which the trailing-row clean-up
  drops; `Csv.RoundTrip` states exactly that.
- **Unsubscribe links.** Across a pepper rotation an emailed link finds its row exactly when the row knows the link's
  pepper and the previous pepper is set or the row is stored under the current one (`UnsubscribeLinks.EmailedLinksResolve`).
  So a row that is not resent while `TOKEN_PEPPER_PREVIOUS` is set loses its links when it is unset, and a mail sent after
  that carries a link that never resolves (`SignupExamples.LateResendMailsADeadLink`); and a row that retention took and a
  sign-up made anew does not know the links mailed before, even inside the window
  (`SignupExamples.RebuiltRowForgetsOldLink`).
- **Retention and live links.** The cron spares rows whose confirm link still works only on its unconfirmed side. An
  address that unsubscribed long ago and signs up again after the grace period loses its row, and its working link, to the
  next run (`SignupExamples.RetentionCanTakeALiveLink`, `SignupLinks.LiveLinkSurvivesCronIff`).
- **Stale reads.** An accepted sign-up of an address that is in the table and not active leaves a link that works exactly
  when the row it went by, if it had read one, was not active and is still there (`SignupLinks.FreshLinkWorksIff`). So a
  request that read its row as confirmed sends nothing even when the address has unsubscribed since
  (`SignupExamples.StaleReadSendsNothing`), and one whose row retention took meanwhile mails a link that never works
  (`SignupExamples.TakenRowMailsADeadLink`).
- **One link, two submissions.** A confirm link is looked up by hash and recorded by id. Once a submission has written, no
  later look-up finds the link (`SignupLinks.ConfirmLinkWorksOnce`), but submissions that looked it up before that still
  write: the second one opens an address again that unsubscribed between the two (`SignupExamples.LateWriteReopens`).
- **FIT checksums.** The position of the file checksum follows from the header length and the data length. One wrong byte
  anywhere else is noticed, with one exception: a checksum whose two bytes then read zero is never checked
  (`FitDamage.DamageIsReported`). A wrong length byte can go unnoticed and lose a record
  (`FitDamage.WrongLengthGoesUnnoticed`), unless the header has a checksum of its own: with both right, one wrong byte is
  noticed by one of the two except where the file checksum then reads zero, or the byte is the header length and the two
  bytes now taken for the checksum fit (`FitDamage.BothVerdictsNoticeIff`).
- **`inOrder`.** More qualifying plays can take its truth away, which is why money rules may not use it
  (`PolarityExamples.MoreQualifiesButOutOfOrder`).

## Model

| member | source | states |
|---|---|---|
| CompletionMeaning.MergedIdsAlike | packages/rules/src/completion.ts:155-167 | A merged id and the one it was merged into are looked up as one id, which has no link of its own. |
| CompletionMeaning.QualifiesIff | packages/rules/src/completion.ts:194-228 | A play qualifies if and only if its course's record is verified, it is not before the roster's tracking or, for money, the programme start, and it is money-qualifying or, for the badge, scores at least the threshold, one half unless given. |
| CompletionMeaning.SpeaksForIff | packages/rules/src/completion.ts:235-252 | A user pick speaks for its course's facility, if known, and its day; no other play speaks for any. |
| CompletionMeaning.CoversIff | packages/rules/src/completion.ts:408-450 | A course covers a member if and only if the member is of the version's unit and is the facility the course is at, or a course that after merges is the same, or a composite of which one is a nine of the other. |
| CompletionMeaning.HostedIff | packages/rules/src/completion.ts:302-320 | A member is hosted by its facility, by its course's, or by that of its first course with a known one. |
| CompletionMeaning.RemovedOnIff | packages/rules/src/completion.ts:276-370 | A member is removed on a day if and only if a later version effective from that day drops it for good: neither it nor any newer version has its facility or covers one of its courses, and the one before does. |
| CompletionMeaning.CountsForIff | packages/rules/src/completion.ts:453-509 | A play counts for a member if and only if it qualifies under the version's tracking start, its course covers the member, and it is from before the member's removal. |
| CompletionMeaning.FieldMeaning | packages/rules/src/aggregates.ts:62-104 | How often a course counts for a value of a field: once for its region, country, facility or a trail one of whose versions it covers a member of, and for a designer as often as it is listed. |
| CompletionMeaning.CreditedIff | packages/rules/src/completion.ts:697-717 | A facility is credited if and only if there is a qualifying play at it from before its removal. |
| Completion.ApplyUserPickGuard | packages/rules/src/completion.ts:235-252 | The two passes keep exactly the plays of the specification: every play that is not a user pick at a known facility, and of the picks for one facility and day the last. |
| Completion.GuardLeavesOnePick | packages/rules/src/completion.ts:235-252 | No two surviving user picks speak for the same facility and day. |
| Completion.GuardIsIdempotent | packages/rules/src/completion.ts:235-252 | Every play no later pick replaces survives, and guarding the guarded plays changes nothing. |
| Completion.DeriveRemovedOn | packages/rules/src/completion.ts:351-370 | The scan over later roster versions gives the specified removal date. |
| Completion.AbsentSinceIsClosingAbsence | packages/rules/src/completion.ts:351-388 | That date is the start of the unbroken absence that lasts to the newest version, and there is none when the member is still present. |
| Completion.QualifyingDatesMember | packages/rules/src/completion.ts:479-509 | A date is among a member's dates if and only if some play on it qualifies and covers the member before it was removed; the dates ascend. |
| Completion.CollectQualifyingDates | packages/rules/src/completion.ts:479-509 | The loop over plays collects exactly those dates, sorted. |
| Completion.EvaluateVersionCompletion | packages/rules/src/completion.ts:522-551 | Every member's dates, the number of members with one, the number required, and completeness: every member has a date, or under an n-of-m rule some n different ones have. |
| Completion.CompleteIff | packages/rules/src/completion.ts:522-551 | A version is complete if and only if some play counts for every member, or, under an n-of-m rule, for each of some n different members. |
| Completion.ComputeTrailProgress | packages/rules/src/completion.ts:570-586 | The loop's running maximum is the best share over all versions, capped at one. |
| Completion.TrailProgressMeaning | packages/rules/src/completion.ts:570-586 | Progress lies in [0, 1] and is one exactly when some version with a positive requirement is complete. |
| TrailWindow.Slide | packages/rules/src/completion.ts:621-637 | On date-sorted points the two-pointer loop answers true if and only if some position closes a window with enough distinct members; the left edge never passes the right one. |
| TrailWindow.Shrink | packages/rules/src/completion.ts:628-634 | Advancing the left edge keeps the per-member counts and the distinct count exact for the shorter window and stops at the first date within the limit. |
| TrailWindow.WindowGivesWitness | packages/rules/src/completion.ts:621-637 | A window with enough members yields distinct members with one qualifying date each, all pairwise within the limit. |
| TrailWindow.WitnessGivesWindow | packages/rules/src/completion.ts:621-637 | Conversely, any such choice of members and dates shows up as a window. |
| TrailWindow.ComputeTrailCompleteWithin | packages/rules/src/completion.ts:602-638 | True if and only if some complete version has a choice of the required number (at least one) of distinct members with pairwise close qualifying dates. |
| TrailWindow.TrailWithinIff | packages/rules/src/completion.ts:602-638 | That is so if and only if for all members of some version, or n of them under an n-of-m rule, one at least, there are plays that count for them, all within the days of one another. |
| Aggregates.CountUniqueCourses | packages/rules/src/completion.ts:895-906 | The number of distinct resolved courses with a qualifying play. |
| Aggregates.ComputeCountDistinct | packages/rules/src/aggregates.ts:106-122 | The loop's set has as many elements as there are distinct, allowed field values over the qualifying courses. |
| Aggregates.ComputeMaxCountBy | packages/rules/src/aggregates.ts:128-144 | The map of counters yields the highest tally of any value. |
| Aggregates.MaxCountByCountsCoursesIff | packages/rules/src/aggregates.ts:128-144 | The value is the largest number of qualifying courses sharing a field value, for every list of plays, if and only if no course that could count lists a value twice. |
| Aggregates.ComputeCountWhere | packages/rules/src/aggregates.ts:149-161 | The number of qualifying courses whose field includes the given value. |
| Aggregates.ComputeMonthlyStreak | packages/rules/src/completion.ts:910-938 | The loop over sorted distinct months returns the longest run. |
| Calendar.MonthOfIsCalendarMonth | packages/rules/src/completion.ts:918-931 | A day's month, as months since year 0, is the calendar month among whose days it lies, for every day number. |
| Calendar.EpochIsDayZero | packages/rules/src/completion.ts:640-643 | Day 0 is 1 January 1970, the day the source's dates are counted from. |
| Calendar.MonthsFollow | packages/rules/src/completion.ts:918-931 | Each month is followed by the next after as many days as the Gregorian calendar gives it, leap years included. |
| Aggregates.LongestRunMeaning | packages/rules/src/completion.ts:910-938 | There is a run of n consecutive months if and only if n is at most the longest run. |
| Aggregates.LongestRunMonotone | packages/rules/src/completion.ts:910-938 | More played months never shorten the longest run. |
| Aggregates.ListMarkerRoster | packages/rules/src/completion.ts:679-693 | The marker roster is each facility behind a member once, and a facility comes earlier in it exactly by being mentioned by an earlier member. |
| Aggregates.ComputeMarkerCredits | packages/rules/src/aggregates.ts:166-181 | The loop's maximum is the best credit over the trail's versions. |
| Aggregates.BestCreditIsLargest | packages/rules/src/aggregates.ts:166-181 | No version credits more facilities than the best credit, and some version credits that many; without versions it is zero. |
| Aggregates.MarkerSetIff | packages/rules/src/completion.ts:679-745 | The marker set is complete if and only if all facilities of some version's marker roster are credited, or n different ones under an n-of-m rule. |
| StopOrder.VersionInOrderIff | packages/rules/src/completion.ts:645-672 | A version is played in order if and only if every member has a stop number, enough members are attained, all of them if there are several, and each stop was first reached no later than any stop after it, equal numbers taken in list order. |
| RuleExpr.RangeTestIsExact | packages/rules/src/rule-expr-check.ts:139-167 | The range test says satisfiable if and only if two numbers in the two ranges stand in the relation. |
| RuleExpr.IssueLog.Record | packages/rules/src/rule-expr-check.ts:199-274 | The recursive walk appends to the shared list exactly the issues of the specification for this node, after what was there. |
| RuleExpr.RunCheck | packages/rules/src/rule-expr-check.ts:190-197 | A check reports exactly the specified issues, in walk order. |
| RuleExpr.ReportedIffDeserved | packages/rules/src/rule-expr-check.ts:199-274 | An issue is reported if and only if the node its path leads to deserves it at the polarity met on the way. |
| RuleCheck.ReportedIffEarned | packages/rules/src/rule-expr-check.ts:199-274 | A complaint is reported if and only if the node at its path is `==` or `!=` on an aggregate in money mode, a comparison not under an odd number of `not`s that no values its operands can take satisfy, or `inOrder` in money mode. |
| RuleMeaning.AndMeaning | packages/rules/src/rule-expr-eval.ts:118-126 | `and` holds if and only if every argument does; it is false, or throws, if and only if the first argument that does not hold is false, or throws. |
| RuleMeaning.OrMeaning | packages/rules/src/rule-expr-eval.ts:118-128 | `or` is false if and only if every argument is; it holds, or throws, if and only if the first argument that is not false holds, or throws. |
| RuleMeaning.AndHoldsIff | packages/rules/src/rule-expr-eval.ts:102-126 | A rule `and` holds if and only if each argument, evaluated as a rule, holds. |
| RuleMeaning.OrHoldsIff | packages/rules/src/rule-expr-eval.ts:102-128 | Where no argument throws, a rule `or` holds if and only if some argument, evaluated as a rule, holds. |
| RuleMeaning.CompareMeaning | packages/rules/src/rule-expr-eval.ts:131-162 | A comparison throws if and only if it needs a missing programme start, and otherwise holds if and only if its numbers stand in the relation; in money mode the side that helps counts money plays, in badge mode it takes the caller's threshold, the other side never does, and each `not` exchanges the sides. |
| RuleMeaning.ComparisonHoldsIff | packages/rules/src/rule-expr-eval.ts:102-162 | A rule that is one comparison holds if and only if its two numbers, counted from the plays no later pick replaces, stand in the relation. |
| RuleMeaning.NotMeaning | packages/rules/src/rule-expr-eval.ts:129-130 | `not` holds if and only if its argument, judged with the sides exchanged, is false. |
| RuleMeaning.NotNumberMeaning | packages/rules/src/rule-expr-eval.ts:184-197 | `not` of a number holds if and only if the number is zero. |
| RuleMeaning.BareMeaning | packages/rules/src/rule-expr-eval.ts:163-182 | What each boolean call asks of the plays, and which plays count for it in which mode. |
| RuleMeaning.ReplacedPicksDoNotCount | packages/rules/src/rule-expr-eval.ts:102-116 | No rule's value depends on a user pick that a later one replaces. |
| RuleNumbers.NumberMeaning | packages/rules/src/rule-expr-eval.ts:274-310 | Every numeric call is the number it is named for: qualifying plays on a course, visited courses, distinct allowed values, the most frequent value, courses with a value, the largest part of a version attained, the most facilities credited, the longest run of calendar months. |
| Polarity.WithinMonotone | packages/rules/src/completion.ts:602-638 | Widening what qualifies keeps a version complete within the window. |
| Polarity.NumberMonotone | packages/rules/src/rule-expr-eval.ts:256-312 | Every numeric aggregate can only grow when more plays qualify. |
| Polarity.TruthMonotone | packages/rules/src/rule-expr-eval.ts:256-312 | Every boolean aggregate except `inOrder`, which money mode rejects, stays true when more plays qualify. |
| PolarityExamples.MoreQualifiesButOutOfOrder | packages/rules/src/rule-expr-check.ts:261-274 | A trail whose second stop was first played on a day that counts for the badge only: `inOrder`, the checker's only objection to the rule, is true on money plays and false on badge plays. |
| Polarity.MoneyImpliesBadge | packages/rules/src/rule-expr-eval.ts:82-312 | For every rule on which the money-mode check reports nothing, and every context with a programme start and any badge threshold: neither mode throws, and true in money mode implies true in badge mode. |
| Polarity.ValueInRange | packages/rules/src/rule-expr-check.ts:118-137 | The computed value of every aggregate lies in its static range, for any plays, options and roster. |
| Polarity.EmptyComparisonNeverHolds | packages/rules/src/rule-expr-check.ts:139-167 | A comparison whose ranges cannot meet is never true, in any context, either mode and any polarity. |
| Polarity.ReportedUnsatisfiableNeverHolds | packages/rules/src/rule-expr-check.ts:243-256 | Whatever the checker reports as unsatisfiable is a comparison at the reported path that never holds. |
| Receipts.ComparatorIsTotalOrder | packages/rules/src/score-play.ts:244-262 | "Comes first" is total and transitive, the comparator is antisymmetric, and it ties only on equal ids. |
| Receipts.VoidDuplicateFingerprints | packages/rules/src/score-play.ts:264-304 | The two passes give every row exactly its verdict: rows are voided by fingerprint group, nothing else changes. |
| Receipts.ReceiptStandsIff | packages/rules/src/score-play.ts:225-304 | With distinct ids, a receipt with a fingerprint is left as it was if and only if it was not void, no receipt with the fingerprint is void for any reason but a duplicate, and every other one that was not void is worse: pending against approved, then without a fix against with one, then captured later, then the larger id. It is void otherwise, and every other row is left as it was. |
| Receipts.JudgeKeepsExactlySurvivors | packages/rules/src/score-play.ts:264-304 | A receipt is left standing if and only if no `reviewer` or `fraud` void shares its fingerprint and no other standing receipt with it comes first. |
| Receipts.AtMostOneStands | packages/rules/src/score-play.ts:264-304 | With distinct ids at most one receipt per non-empty fingerprint is left non-void. |
| Receipts.OneStandsUnlessPoisoned | packages/rules/src/score-play.ts:264-304 | One is left standing if and only if there is a receipt that can stand and no `reviewer` or `fraud` void shares the fingerprint. |
| Receipts.OutcomeIgnoresOrderAndDuplicates | packages/rules/src/score-play.ts:244-304 | Two inputs with the same relevant receipts give every receipt the same outcome: rows already voided as duplicates do not matter. |
| Receipts.OutcomeIgnoresOrder | packages/rules/src/score-play.ts:264-304 | Every permutation of the input gives every receipt the same outcome. |
| Dsu.Dsu.constructor | packages/rules/src/score-play.ts:345-348 | A new forest joins nothing. |
| Dsu.Dsu.Find | packages/rules/src/score-play.ts:349-355 | Path halving terminates, returns the root, and changes no node's root. |
| Dsu.Dsu.Union | packages/rules/src/score-play.ts:356-360 | Joins exactly the two classes: two nodes share a root afterwards if and only if the recorded unions connect them. |
| Dsu.UnitedClasses | packages/rules/src/score-play.ts:344-361 | If the roots are exact for the united pairs, then merging two classes makes them exact for the pairs plus the new one. |
| EvidenceGroups.DeriveGroups | packages/rules/src/score-play.ts:382-481 | Two rows get the same group id if and only if a chain of links joins them: one class; one correlating fix (a scan's own, a dwell's first, a check-in's); one payment reference of bookings and green fees; recordings of rounds at one facility that start at most fifteen minutes apart; or a scan or booking without a fix and a row whose fix proves its presence. |
| EvidenceGroups.ClassesAreLinkClasses | packages/rules/src/score-play.ts:382-481 | Joining each bucket through its first row gives the same classes as joining every linked pair. |
| EvidenceGroups.GroupsIgnoreOrder | packages/rules/src/score-play.ts:382-481 | The partition is the same for every ordering of the evidence. |
| Ledger.ResolveMergedId | packages/catalog/src/ledger.ts:144-156 | The loop with its set of seen ids computes the specified resolution. |
| Ledger.ResolveReachesRoot | packages/catalog/src/ledger.ts:144-156 | On a chain that ends, the result is the unmerged id at its end. |
| Ledger.DetectMergeCycle | packages/catalog/src/ledger.ts:162-172 | True if and only if following the links never ends. |
| Ledger.MintSlug | packages/catalog/src/ledger.ts:191-208 | The suffix loop terminates, because each taken suffix is a different taken slug, and returns the specified slug. |
| Ledger.SlugIff | packages/catalog/src/ledger.ts:178-182 | A slug is well formed if and only if it is one or more words of lower-case letters and digits with single hyphens between them. |
| Ledger.SlugForIsFree | packages/catalog/src/ledger.ts:191-208 | A slug comes back if and only if the wish is well formed; it is free, well formed, and is the wish itself or the wish with the first free numeric suffix. |
| LedgerMeaning.PromoteToVerified | packages/catalog/src/ledger.ts:534-569 | The loop succeeds if and only if the ids are distinct and each is known, not tombstoned and without a verified event; then exactly those entries become verified and gain one event. Otherwise it reports the first id refused, a repeated one as already verified. |
| LedgerMeaning.PromotionExactly | packages/catalog/src/ledger.ts:534-569 | The same of the specified promotion: when it succeeds, what changes, and which id it names when it fails. |
| LedgerMeaning.SplitCourseLoop | packages/catalog/src/ledger.ts:581-624 | The loop fails only on an unknown course; otherwise exactly the fresh siblings are added, in order, verified and under the kept course's facility, the kept course gains one event listing them, and no other entry changes. |
| LedgerMeaning.SplitExactly | packages/catalog/src/ledger.ts:581-624 | The same of the specified split. |
| LedgerMeaning.ReseedMatchesIff | packages/catalog/src/ledger.ts:434-486 | A re-seed matches if and only if nobody carries the reference and exactly one nearby candidate has a matching name, both of whose ids are in the ledger; it names that candidate. |
| LedgerMeaning.UnknownReferenceOutcome | packages/catalog/src/ledger.ts:434-532 | For a reference nobody carries: minted if and only if no candidate lies within 150 m and the wished slug is well formed; ambiguous if and only if one does and not exactly one of those is 0.8 alike in name, and then exactly the nearby facilities are listed, in order; otherwise that one is matched, or an unknown id of it is reported. |
| LedgerRuns.NotFoundIff | packages/catalog/src/ledger.ts:359-418 | A look-up finds nothing if and only if the reference is well formed and no course or facility carries it. |
| LedgerRuns.FacilityIsFound | packages/catalog/src/ledger.ts:393-417 | A reference only a facility carries leads to that facility, followed through its merges, and its first live course, and fails if it has none. |
| LedgerOps.OsmRefIff | packages/catalog/src/ids.ts:122-127 | A reference is `node`, `way` or `relation`, a slash, and one or more digits. |
| LedgerMeaning.CommentHoldsIff | packages/catalog/src/ledger.ts:457-460 | With candidates the ledger knows, the outcome is as the comment describes (exactly one nearby candidate, and its name matches) if and only if no other nearby candidate stands beside the only one with a matching name. |
| LedgerMeaning.SecondNearbyStillMatches | packages/catalog/src/ledger.ts:449-486 | Two facilities at 10 and 20 metres, the first with a matching name: matched. |
| LedgerMeaning.CloseExactly | packages/catalog/src/ledger.ts:713-723 | Recording a closure fails if and only if the id is unknown, and otherwise adds one event to that entry and changes nothing else. |
| LedgerOps.ReparentLoop | packages/catalog/src/ledger.ts:670-700 | The inner loop moves exactly the courses of the merged facility to the survivor. |
| LedgerOps.MergeIntoSurvivor | packages/catalog/src/ledger.ts:632-707 | Both loops together compute the specified merge: refuse first, then fold one id after the other. |
| LedgerMerge.MergeFolds | packages/catalog/src/ledger.ts:632-707 | A merge fails exactly on an unknown survivor or a refused id; otherwise exactly the named ids are tombstoned and linked, exactly their courses move, and logs only gain merge events. |
| LedgerMerge.MergeForest | packages/catalog/src/ledger.ts:632-707 | From an acyclic graph an accepted merge leaves it acyclic if and only if no merged id lies on the survivor's chain, and then every id resolves as before or, if its chain met a merged id, to the survivor's root. |
| LedgerMerge.MergeOfUnmergedIds | packages/catalog/src/ledger.ts:632-707 | Merging ids without a link of their own keeps the graph acyclic; exactly the ids that resolved to a merged one now resolve to the survivor's root. |
| LedgerExamples.AcceptedMergeCanCycle | packages/catalog/src/ledger.ts:660-668 | Three minted facilities s, a, r, with a merged into r and s into a: merging a into s is accepted and closes a loop. |
| LedgerMerge.MergeKeepsCoursesLive | packages/catalog/src/ledger.ts:670-700 | Courses stay under live facilities if and only if the survivor is live or no course had to move. |
| LedgerExamples.AcceptedMergeCanStrandCourses | packages/catalog/src/ledger.ts:632-707 | Three minted facilities s, a, r, with a merged into r: merging s into a is accepted and leaves the course of s under a tombstone. |
| LedgerRuns.RunSound | packages/catalog/src/ledger.ts:191-723 | Over every run of operations: no id disappears, kind and slug never change, logs only grow, no status returns to stub, slugs stay distinct, and each id has at most one verified event. |
| LedgerForest.RunStaysForestIff | packages/catalog/src/ledger.ts:632-711 | Over every run from a sound, acyclic ledger whose courses are under live facilities, the ledger stays so after every operation if and only if no accepted merge has a merged id on its survivor's chain, or courses to move and a survivor that is not live. |
| LedgerForest.PlainRunStaysForest | packages/catalog/src/ledger.ts:632-711 | In particular if every merge folds ids without a link of their own into a survivor that was not merged away. |
| LedgerRuns.MintAnchoredIff | packages/catalog/src/ledger.ts:245-300 | A direct mint keeps each reference with one course and one facility if and only if nobody carries its reference yet. |
| LedgerRuns.RunAnchored | packages/catalog/src/ledger.ts:359-504 | Over every run of re-seeding, promotion, split, merge and close, each OSM reference is carried by at most one course and at most one facility, and links stay within the ledger and within their kind. |
| LedgerRuns.HandledIsFound | packages/catalog/src/ledger.ts:359-410 | A course that carries the reference is found through its merges, with its facility, whatever else the ledger holds. |
| LedgerRuns.HandledForever | packages/catalog/src/ledger.ts:434-504 | Once handled, a reference stays handled in every later state. |
| LedgerRuns.HandledIsKnown | packages/catalog/src/ledger.ts:434-504 | Re-seeding a handled reference yields already-known for any candidate list. |
| LedgerRuns.NeverASecondId | packages/catalog/src/ledger.ts:434-504 | A second re-seed of the same reference, later in any run, changes nothing and names no second id. |
| Polygon.PointInPolygonXY | packages/matching/src/geo.ts:106-117 | The toggling loop answers whether the ray from the point crosses an odd number of edges, the ones of the wrap-around included. |
| PolygonInside.CrossingLiesOnEdge | packages/matching/src/geo.ts:111-114 | Where the ray meets an edge that it straddles is a point of that edge. |
| PolygonInside.TriangleIff | packages/matching/src/geo.ts:106-117 | Off a triangle's edges, a point is inside if and only if it lies strictly on the same side of all three. |
| PolygonInside.InsideIffOddTriangles | packages/matching/src/geo.ts:106-117 | For every ring and every point to draw a fan of triangles from, a point off the edges and the fan's lines is inside if and only if an odd number of the fan's triangles hold it strictly. |
| Polygon.DistanceToRingBoundarySq | packages/matching/src/geo.ts:139-151 | The running minimum is the least squared distance to an edge, with no value on an empty ring. |
| Polygon.MinDistanceToAnyRingSq | packages/matching/src/polygon.ts:138-148 | Within any limit if and only if some edge of some ring is. |
| Polygon.PreparePolygonGeometry | packages/matching/src/polygon.ts:104-118 | Nothing for no polygon, no first ring or a first ring of fewer than three points; otherwise the geometry with the box of its outer rings, or the failure on a later polygon without one. |
| Polygon.IsInsidePreparedNoBuffer | packages/matching/src/polygon.ts:122-136 | Inside if and only if in some polygon's outer ring and none of its holes. |
| Polygon.IsInsidePreparedWithBuffer | packages/matching/src/polygon.ts:158-178 | True if and only if the box does not reject the point and the walk accepts it: inside, or, with a positive buffer, some edge whose distance rounds to no more than the buffer does. |
| Polygon.IsWithinDistanceOfPrepared | packages/matching/src/polygon.ts:194-208 | The same for the distance form, with its own reject test and no exception for zero. |
| Polygon.RoundTo2Meaning | packages/matching/src/geo.ts:97-101 | Rounding gives the whole number of hundredths within half a hundredth, the larger of two. |
| Polygon.RoundedComparison | packages/matching/src/geo.ts:97-100 | Comparing the squared distance with the squared cutoff is comparing distance and limit after rounding both to two decimals. |
| PolygonSound.OutsideBoxOutsideRing | packages/matching/src/geo.ts:106-117 | A point outside a ring's box is outside the ring by ray casting. |
| PolygonSound.BufferedRejectIsSoundIffHolesInBox | packages/matching/src/polygon.ts:158-178 | The box reject agrees with the unrounded full walk for every point and buffer if and only if the hole vertices lie in the box. |
| PolygonSound.DistanceRejectIsSoundIffHolesInBox | packages/matching/src/polygon.ts:194-208 | The distance reject agrees with the unrounded walk for every point and limit if and only if the hole vertices lie in the box. |
| PolygonSound.NearestIsNearest | packages/matching/src/geo.ts:119-137 | No point of a segment is nearer than the one the distance test measures to. |
| PolygonSound.BufferRejectAgreesIff | packages/matching/src/polygon.ts:158-178 | When the box rejects a point, the rounded walk rejects it for every geometry that fills the box if and only if the buffer is zero or the rounded distance to the box is larger than the rounded buffer. |
| PolygonSound.DistanceRejectAgreesIff | packages/matching/src/polygon.ts:180-208 | The same for the distance form: if and only if the rounded distance to the box is larger than the rounded threshold. |
| PolygonSound.EveryGeometryHasAMisjudgedPoint | packages/matching/src/polygon.ts:158-208 | Every prepared geometry and limit have a point whose box is beyond the limit and which the rounded walk accepts. |
| PolygonSound.BoxSettlesWalkIffHolesInBox | packages/matching/src/polygon.ts:158-208 | For any limit, a box that rounds out of reach means that the rounded walk rejects, for every point, if and only if the hole vertices lie in the box. |
| PolygonSound.RoundedWalkCanDisagree | packages/matching/src/polygon.ts:158-178 | A square and a point 10.001 away with buffer 10: the box rejects, the rounded walk would accept. |
| Simplify.ComputeImportances | packages/matching/src/simplify.ts:48-77 | The explicit stack terminates, fills every index with the importance of the recursive definition, and picks every interior index as a split exactly once. |
| Simplify.BestBeforeIsFirstMaximum | packages/matching/src/simplify.ts:60-72 | The split of a stretch is its first point of largest deviation. |
| Simplify.SimplifyToMaxPoints | packages/matching/src/simplify.ts:83-104 | At most the cap, both ends kept, original order, and no dropped point more important than a kept one; a degenerate route keeps its two ends. |
| Csv.ParseCsvRows | packages/import/src/csv-rows.ts:27-105 | The character loop computes the specified parse, for every text and cap. |
| Csv.CapIsPrefix | packages/import/src/csv-rows.ts:27-105 | Never more rows than the cap; a truncated result is a prefix of the uncapped rows before the clean-up; an untruncated one is the uncapped result. |
| Csv.RoundTrip | packages/import/src/csv-rows.ts:27-105 | Printing a table of non-empty rows (any field quoted or not where allowed, any of the three line ends, last line ended or not) and parsing it gives the table back if and only if its last row is not one empty field. |
| Csv.TruncatedIff | packages/import/src/csv-rows.ts:43-50 | Parsing a printed table with a cap is cut short if and only if text remains after that many lines, and then yields exactly that many first rows. |
| FitPrescan.PrescanFit | packages/import/src/fit-prescan.ts:154-323 | The walk over record headers returns the specified report, with both checksum verdicts, or the first error, for every input; a set abort signal stops it before the first record unless the interval is zero. |
| FitCrc.CalculateFitCrc | packages/import/src/fit-prescan.ts:117-127 | The nested loops compute the specified checksum of a stretch. |
| FitCrc.OneByteChangesCrc | packages/import/src/fit-prescan.ts:117-127 | Changing one byte changes the checksum of every stretch that contains it. |
| FitCrc.OneWrongByteIsNoticed | packages/import/src/fit-prescan.ts:182-196 | When the checksum declared at a given position is right, changing any one byte before it, or one of its own two, turns the verdict at that position to wrong, or to none if the two bytes then read zero. |
| FitDamage.DamageIsReported | packages/import/src/fit-prescan.ts:154-196 | Of an accepted file with a right file checksum, change one byte up to the checksum's end other than the header length and the data length: if the file is still accepted, its data ends at the same place, and its checksum is reported wrong, or unchecked if its two bytes read zero. |
| FitDamage.BothVerdictsNoticeIff | packages/import/src/fit-prescan.ts:154-196 | With header and file checksum both right, one wrong byte anywhere up to the file checksum's end is reported by one of them if and only if the file checksum does not then read zero or, when the byte is the header length, the two bytes now taken for the checksum do not fit what precedes them. |
| FitDamage.WrongLengthGoesUnnoticed | packages/import/src/fit-prescan.ts:154-323 | For any profile bytes there is a file with a twelve-byte header of which one wrong data-length byte loses a data record, while both the right and the damaged file are accepted with a right checksum. |
| FitPrescan.ScanDefinition | packages/import/src/fit-prescan.ts:215-290 | A definition record leaves its message number, its two body lengths and its number of fields, or fails at the first missing byte or misdeclared timestamp. |
| FitPrescan.SectionIff | packages/import/src/fit-prescan.ts:154-180 | The header is accepted if and only if it is complete, 12 or 14 bytes by its first byte, marked `.FIT`, and declares no more data than there is; otherwise the first fault is named. |
| FitFormat.NormalHeader | packages/import/src/fit-prescan.ts:209-216 | A header byte without its highest bit is a definition, has developer fields and names its local type by its own bits. |
| FitFormat.CompressedHeader | packages/import/src/fit-prescan.ts:209-212 | With it, the byte heads a data record and names its local type by two bits. |
| FitFormat.GlobalNumberReads | packages/import/src/fit-prescan.ts:220-224 | The message number is read back from its two bytes, low first exactly when the architecture is zero. |
| FitFormat.AllLieIff | packages/import/src/fit-prescan.ts:209-302 | Records lie at given positions if and only if the bytes there are their serialization. |
| FitMeaning.SummaryAgreesWithDecoder | packages/import/src/fit-prescan.ts:275-289 | The two lengths kept of a definition are the numbers of bytes a decoder reads under a normal and under a compressed header. |
| FitMeaning.TallyAfter | packages/import/src/fit-prescan.ts:198-310 | After any well-formed records the counters equal the number of records, the number of declared fields, and per message number the data records whose definition in force carries it. |
| FitMeaning.AcceptsExactlyWellFormed | packages/import/src/fit-prescan.ts:154-323 | With a valid header the prescan succeeds if and only if the data section is the serialization of a well-formed record list within the caps. |
| FitMeaning.ReportIsExact | packages/import/src/fit-prescan.ts:312-322 | Its report then ends at the section's end and counts every record, each data record under the definition then in force. |
| FitMeaning.SerializedRecordsAreAccepted | packages/import/src/fit-prescan.ts:154-323 | Every well-formed record list within the caps, written to a file, is accepted and reported exactly. |
| StructuralBounds.PushChildren | packages/rules/src/offer-eligibility.ts:75-85 | Pushing children adds exactly their sizes and depths to what is pending, and refuses only when the node bound must be exceeded. |
| StructuralBounds.WithinStructuralBounds | packages/rules/src/offer-eligibility.ts:68-87 | The early-exit stack walk accepts if and only if the depth is at most 64 and the number of values at most 5000. |
| SelfCheckGate.Gate.constructor | supabase/functions/_shared/edge-selfcheck-gate.ts:44-53 | A new gate trusts nothing; a missing or non-positive call budget means none. |
| SelfCheckGate.Gate.Ensure | supabase/functions/_shared/edge-selfcheck-gate.ts:62-90 | Joins the check in flight, or passes on fresh trust, or starts a check, and the whole new state. |
| SelfCheckGate.Gate.Complete | supabase/functions/_shared/edge-selfcheck-gate.ts:73-87 | A completion sets or clears trust only for its own generation and clears the in-flight slot only if it holds this check. |
| SelfCheckGate.Gate.Reset | supabase/functions/_shared/edge-selfcheck-gate.ts:91-97 | Starts a new generation that trusts nothing and waits for nothing. |
| SelfCheckGate.GateFollowsHistory | supabase/functions/_shared/edge-selfcheck-gate.ts:44-102 | In every interleaving the gate's fields agree with its history: which checks run, which belong to this generation, what the latest verdict is and how often it was used. |
| SelfCheckGate.EnsureMeansItsHistory | supabase/functions/_shared/edge-selfcheck-gate.ts:54-90 | A call passes without waiting if and only if no check of this generation runs and its latest completed check succeeded less than the interval ago with budget left; it joins exactly the running check. |
| SelfCheckGate.OneRunningCheck | supabase/functions/_shared/edge-selfcheck-gate.ts:62-90 | Each generation has at most one check in flight. |
| SelfCheckGate.StaleCheckGrantsNothing | supabase/functions/_shared/edge-selfcheck-gate.ts:73-97 | A check started before a reset changes nothing when it completes. |
| Signup.RunKeepsHashes | apps/signup-worker/src/db.ts:70-288 | In every run a stored hash belongs to one row only, and confirm tokens are never drawn twice. |
| SignupWorker.Worker.MaybeMigrateUnsubscribeHash | apps/signup-worker/src/index.ts:370-405 | Going by the row as read, a row still under the previous pepper moves to the current one and keeps its old link; any other row is left alone. |
| SignupWorker.Worker.RotateAndSendIfAllowed | apps/signup-worker/src/index.ts:407-443 | Nothing is written unless the mail was allowed and accepted. |
| SignupWorker.Worker.RunSignupSideEffects | apps/signup-worker/src/index.ts:451-537 | Cases A to D, decided by the row the request read earlier, and the lost insert race come to one function of that row and the table, which keeps every stored hash with one row. |
| Signup.UnchangedRowIsAtomic | apps/signup-worker/src/index.ts:451-537 | As long as nobody has written the row since it was read, the request acts as if it had read and written at once. |
| SignupWorker.Worker.RecordConfirmation | apps/signup-worker/src/db.ts:162-178 | Confirms the row whose id was read, if it is still there, whatever has become of it since: first confirmation kept, opened, its link of now spent. |
| SignupWorker.Worker.MarkUnsubscribed | apps/signup-worker/src/index.ts:731-735 | Marks the row whose id was read, if it is still there and was read as not unsubscribed. |
| SignupWorker.Worker.HandleConfirmSubmit | apps/signup-worker/src/index.ts:640-669 | Confirms exactly when the token's hash under the current pepper has an unexpired row; sets the whole new table. |
| SignupWorker.Worker.FindRowByRawUnsubscribeToken | apps/signup-worker/src/index.ts:702-716 | Looks under the current pepper first, then under the previous one when it is set. |
| SignupWorker.Worker.HandleUnsubscribeSubmit | apps/signup-worker/src/index.ts:718-737 | Marks the found row once and leaves every other row alone. |
| SignupWorker.Worker.RunRetentionCron | apps/signup-worker/src/index.ts:774-833 | Deletes exactly the stale unconfirmed rows, and the stale unsubscribed ones only with agreeing settings after the grace period; each number is how many rows its delete took. |
| SignupRetention.PurgedIff | apps/signup-worker/src/db.ts:239-288 | A retention run takes a row if and only if it was never confirmed, was made more than 30 days ago and has no confirm link still running, or the settings agree, 30 days have passed since the gate closed, and it was unsubscribed more than 30 days ago. |
| SignupRetention.GateClosesIff | apps/signup-worker/src/config.ts:183-277 | The settings agree if and only if both are dates, the gate not before 16 November 2026 and exactly 42 days after day 0; otherwise the first fault is named. |
| SignupLinks.ConfirmLinkLife | apps/signup-worker/src/index.ts:407-669 | The confirm link of a new row or of an accepted mail, in every later run: it confirms that address, and no other, if and only if the sign-up's write reached the row, its 48 hours are not over, the pepper is the same, and since then the row was not confirmed, no newer link replaced it, and retention did not take the row. |
| SignupLinks.FreshLinkWorksIff | apps/signup-worker/src/index.ts:407-537 | An accepted sign-up of an address in the table and not active leaves a working link if and only if the row it went by, if any, was read as not active and is still there. |
| SignupLinks.ConfirmLinkWorksOnce | apps/signup-worker/src/index.ts:640-669 | Once a submission of a confirm link has written, however long after its look-up and whatever happened in between, no later look-up finds the link, whatever happens next. |
| SignupExamples.LateWriteReopens | apps/signup-worker/src/index.ts:640-669 | A confirm link submitted twice, both look-ups before either write: the address unsubscribes between the writes, the link is not found any more, and the second write opens the address again. |
| SignupLinks.OpenMeansConfirmedLast | apps/signup-worker/src/db.ts:162-237 | In every run an address is open to mail if and only if the last link recorded for its row was a confirm link, and unsubscribed if and only if it was an unsubscribe link; sign-ups, resends, retention and rotations never change that. |
| SignupLinks.LiveLinkSurvivesCronIff | apps/signup-worker/src/db.ts:239-288 | A confirm link that works survives retention if and only if its row is not due as a long unsubscribed one. |
| SignupExamples.RetentionCanTakeALiveLink | apps/signup-worker/src/db.ts:268-288 | Sign up, confirm, unsubscribe, and sign up again after the grace period: the fresh link works, and retention takes it at once. |
| UnsubscribeLinks.EmailedLinksResolve | apps/signup-worker/src/index.ts:370-443 | Across one pepper rotation, every unsubscribe link ever emailed finds its address's row, and no other, if and only if there is one, it knows the link's pepper, and the previous pepper is set or the row is stored under the current one. |
| UnsubscribeLinks.ResendInWindowSavesLinks | apps/signup-worker/src/index.ts:370-443 | After an accepted resend inside the window, for as long as the row lives and also once the previous pepper is unset: the new link resolves, and a link emailed before resolves if and only if the row was not made anew under the new pepper. |
| UnsubscribeLinks.ReadRowsAreInTime | apps/signup-worker/src/index.ts:370-443 | What a request has read of a row is an earlier state of the row it finds: its unsubscribe hashes are the same or have since moved to the new pepper with the old link kept. |
| SignupExamples.RebuiltRowForgetsOldLink | apps/signup-worker/src/index.ts:451-537 | Sign up, let retention take the row, rotate, sign up again: with the previous pepper set and the row under the current one, the first mail's link does not resolve. |
| SignupExamples.LateResendMailsADeadLink | apps/signup-worker/src/index.ts:370-405 | Sign up, rotate, unset, sign up again: the new mail's unsubscribe link does not resolve. |
| SignupExamples.StaleReadSendsNothing | apps/signup-worker/src/index.ts:464-473 | A request that read its row as confirmed changes nothing, though the address has unsubscribed since. |
| SignupExamples.TakenRowMailsADeadLink | apps/signup-worker/src/index.ts:428-443 | A second request reads the row, retention takes it, and the request goes on: its mail is accepted and its confirm link never works. |
| SignupWorker.Worker.RotateTokenPepper | apps/signup-worker/README.md:103-111 | The old pepper becomes the previous one; the table stays. |
| SignupWorker.Worker.UnsetPreviousPepper | apps/signup-worker/README.md:150-158 | Only the previous pepper goes. |
| K2Count.ExcludedIff | apps/signup-worker/src/k2-count.ts:86-116 | An address is left out if and only if its trimmed, lower-cased form is that of a listed address and not blank. |
| K2Count.ComputeK2Counts | apps/signup-worker/src/k2-count.ts:74-162 | Every figure is the number of rows or of distinct non-excluded addresses it is named for; without a readable day 0 there is none. |
| K2Stability.TableTellsHistory | apps/signup-worker/src/db.ts:162-288 | With a non-decreasing clock and before anything may be purged, an address is confirmed before a cutoff in the table if and only if one of its confirm links was recorded before it. |
| K2Stability.GateCountIsHistory | apps/signup-worker/src/k2-count.ts:86-146 | The gate count of such a table's export counts exactly the addresses that confirmed in time, the excluded ones apart. |
| K2Stability.GateCountIsStable | apps/signup-worker/src/index.ts:774-833 | Two exports taken from gate close on and before gate close plus 30 days count the same addresses, whatever signups, links, resends, cron runs and rotations lie between. |
| K2Stability.DisagreeingSettingsKeepHistory | apps/signup-worker/src/index.ts:774-833 | With gate and day 0 settings that are invalid or do not agree, the gate count tells history at any time. |

## Left out

- Floating point: haversine distance, projection, square roots and binary rounding; distances are squared reals, and `roundTo` rounds them exactly.
- Text of dates: ISO strings arrive as day numbers or instants, and a K2 setting arrives as blank, malformed, no such date, or an instant.
- Schema parsing: rules, evidence and ledger files arrive as typed values.
- Evidence weights, pipelines, combination and review holds of `score-play.ts`: the class of a row is given; only the fix tests that grouping needs are modelled.
- Special-marker purchase entitlement and `normalizePolygon`: plain case distinctions.
- Similarity and distance of re-seed candidates: each candidate carries them as numbers.
- The order in which a JavaScript map is walked, where the result does not depend on it.
- Signup HTTP handling, rate counters, Turnstile, the mail service and the pages: two flags say whether a mail was allowed and accepted.
- Signup requests act at one instant on a row read at any earlier one; a failure between the accepted mail and the row update, and a row lost between a failed insert and its re-read, are not modelled. A submitted link likewise writes at one instant by the row its look-up read at any earlier one.
- Signup rotation: the two secrets change at one instant, where the operator sets them one after the other.
- SignupLinks.ConfirmLinkWorksOnce: fresh tokens are never drawn twice and hashing is injective, where the source relies on 256 random bits and SHA-256.
- LedgerRuns.RunAnchored: candidates name facilities and courses of the right kind, splits start from a course, and a direct mint, which does not look, brings a reference nobody carries.
- LedgerRuns.RunSound: every minted id is assumed new, as the id generator promises; splits are of ids new to the ledger.
- Simplify.SimplifyToMaxPoints: comparing two infinite importances gives NaN in the source, which its sort treats as a tie; the model's stable sort does the same.
