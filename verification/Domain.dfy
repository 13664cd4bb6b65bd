/** The entities shared by the packages (internal/domain/types.go). Instants are nanoseconds since
    Go's zero time, so 0 is the value IsZero() accepts. */
module Domain {
  datatype Option<+T> = None | Some(value: T)

  type Time = nat

  const MINUTE: nat := 60 * 1_000_000_000
  const HOUR: nat := 60 * MINUTE

  /** time.Duration is a signed 64-bit count of nanoseconds; Time.Sub saturates at its ends. */
  const MAX_DURATION: int := 0x7fff_ffff_ffff_ffff
  const MIN_DURATION: int := -0x8000_0000_0000_0000

  function Sub(t: Time, u: Time): int {
    if t - u > MAX_DURATION then MAX_DURATION
    else if t - u < MIN_DURATION then MIN_DURATION
    else t - u
  }

  /** Go's int and time.Duration are 64 bits wide and wrap. */
  function Wrap64(n: int): (w: int)
    ensures -0x8000_0000_0000_0000 <= w <= 0x7fff_ffff_ffff_ffff
  {
    (n + 0x8000_0000_0000_0000) % 0x1_0000_0000_0000_0000 - 0x8000_0000_0000_0000
  }

  datatype FreshnessState = ConfirmedCurrent | ConfirmedStale | Uncertain

  datatype LinkClass = LinkConfirmed | LinkHeuristic

  datatype Confidence = High | Medium | Low

  datatype Method = Feeds | ProbeOnly

  datatype InstrumentRef = InstrumentRef(
    kind: string, teil: int, year: int, number: string, sectionHint: string, raw: string)

  datatype VRefResolution = VRefResolution(
    ref: InstrumentRef, matchedGIISlug: string, matchMethod: string, childConfirmed: bool,
    resolved: bool, historical: bool, supersededBy: string)

  datatype Status = NoStatus | Past | Current | Future

  /** effectiveFrom is the parsed Inkrafttreten day, None when the field is empty or unparseable. */
  datatype LinkedInstrument = LinkedInstrument(
    parentLawID: string, kind: string, giiSlug: string, notes: string, effectiveFrom: Option<int>,
    sectionHint: string, status: Status, coverage: string, source: string, confidence: string,
    edgeType: string, lawID: string)

  /** A discovered parent-to-child edge as the store keeps it. */
  datatype DiscoveredEdge = DiscoveredEdge(
    parentLawID: string, giiSlug: string, sectionHint: string, notes: string, edgeType: string,
    confidence: string, effectiveFrom: Option<int>, childLawID: string)

  datatype Law = Law(id: string, title: string, abbreviation: string, giiPath: string)

  datatype StandCitation = StandCitation(
    raw: string, teil: int, year: int, number: string, page: string, date: Option<Time>,
    parseOK: bool)

  /** The zero value a failed store lookup leaves behind. */
  const NO_STAND := StandCitation("", 0, 0, "", "", None, false)

  datatype GazetteIssue = GazetteIssue(
    id: string, teil: int, year: int, number: string, publishedAt: Option<Time>, title: string)

  datatype FreshnessRecord = FreshnessRecord(
    lawID: string, state: FreshnessState, confidence: Confidence, evidence: Method,
    evaluatedAt: Time, newerIssueIDs: seq<string>, rationale: string)
}
