/** Evidence rows of one play, and when a captured fix proves presence (packages/rules/src/internal/classify.ts). */
module Evidence {
  import opened Calendar
  import opened Common

  type EpochMs = int

  const ACCURACY_METERS_MAX := 50.0
  const STAFF_HARD_WINDOW_MS: EpochMs := 10 * 60_000
  const ROUND_CORRELATION_WINDOW_MS: EpochMs := 15 * 60_000

  datatype Challenge = Live | Prefetched | NoChallenge
  datatype FixGrade = Attested | Unattestable | FailedGrade
  datatype Token = Present(grade: FixGrade) | Absent(hardwareSupportsAttestation: bool)

  datatype AppFix = AppFix(
    fixId: string, facilityId: string, fromApp: bool, simulated: bool, foreground: bool, challenge: Challenge,
    token: Token, playVerified: bool, polygonGeometry: bool, insideBuffer: bool, accuracyMeters: real,
    capturedAt: EpochMs, localDate: Date)

  datatype ReceiptStatus = Approved | Pending | Void
  datatype VoidReason = DuplicateVoid | ReviewerVoid | FraudVoid

  /** An absent fingerprint or payment reference is the empty string; both count as none. */
  datatype Receipt = Receipt(
    id: string, facilityId: string, localDate: Date, status: ReceiptStatus, coSignalFix: Option<AppFix>,
    paymentRef: string, fingerprint: string, voidReason: Option<VoidReason>)

  datatype Evidence =
    | StaffPresence(id: string, facilityId: string, localDate: Date, scanAt: EpochMs, coSignalFix: Option<AppFix>)
    | Booking(id: string, facilityId: string, localDate: Date, presenceFix: Option<AppFix>, paymentRef: string)
    | GreenFee(receipt: Receipt)
    | HealthRoute(id: string, facilityId: string, localDate: Date, startedAt: Option<EpochMs>)
    | FileImport(id: string, facilityId: string, localDate: Date, startedAt: Option<EpochMs>)
    | ForegroundDwell(id: string, facilityId: string, localDate: Date, checkinFix: AppFix, checkoutFix: AppFix)
    | ForegroundCheckin(id: string, facilityId: string, localDate: Date, fix: AppFix)
    | OtherSource(id: string, facilityId: string, localDate: Date)

  datatype PlayContext = PlayContext(playFacilityId: string, playLocalDate: Date)

  function ResolveFixGrade(t: Token): FixGrade {
    match t
    case Present(g) => g
    case Absent(supports) => if supports then FailedGrade else Unattestable
  }

  predicate IsQualityCoSignalFix(fix: AppFix, playFacilityId: string) {
    && fix.facilityId == playFacilityId && fix.fromApp && !fix.simulated && fix.foreground
    && (fix.challenge == Live || fix.challenge == Prefetched)
    && 0.0 <= fix.accuracyMeters <= ACCURACY_METERS_MAX
    && fix.polygonGeometry && fix.playVerified && fix.insideBuffer
    && ResolveFixGrade(fix.token) != FailedGrade
  }

  predicate WithinMs(a: EpochMs, b: EpochMs, ms: EpochMs) { -ms <= a - b <= ms }

  predicate BookingFixSatisfies(fix: AppFix, ctx: PlayContext) {
    IsQualityCoSignalFix(fix, ctx.playFacilityId) && fix.localDate == ctx.playLocalDate
  }

  predicate StaffFixSatisfies(fix: AppFix, scanAt: EpochMs, ctx: PlayContext) {
    BookingFixSatisfies(fix, ctx) && WithinMs(fix.capturedAt, scanAt, STAFF_HARD_WINDOW_MS)
  }

  function Single(fix: Option<AppFix>): seq<AppFix> {
    if fix.Some? then [fix.value] else []
  }

  function FixesOf(row: Evidence): seq<AppFix> {
    match row
    case StaffPresence(_, _, _, _, fix) => Single(fix)
    case Booking(_, _, _, fix, _) => Single(fix)
    case GreenFee(r) => Single(r.coSignalFix)
    case ForegroundDwell(_, _, _, checkin, checkout) => [checkin, checkout]
    case ForegroundCheckin(_, _, _, fix) => [fix]
    case _ => []
  }
}
