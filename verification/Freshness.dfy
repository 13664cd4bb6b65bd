/** The freshness verdict on one law (internal/freshness: evidence.go, eval.go, unresolved.go). */
module Freshness {
  import opened Domain
  import Citation
  import Text

  // ---------- evidence.go ----------

  const FUTURE_TOLERANCE: nat := 5 * MINUTE

  /** The configured maximum age; zero and negative values mean six hours. */
  function EffectiveMaxAge(maxAge: int): int {
    if maxAge <= 0 then 6 * HOUR else maxAge
  }

  predicate TimestampFresh(ts: Time, now: Time, maxAge: int) {
    ts != 0 && ts <= now + FUTURE_TOLERANCE && Sub(now, ts) <= maxAge
  }

  datatype Evidence = Evidence(at: Time, probeOnly: bool)

  /** BGBLEvidence. */
  function BGBLEvidence(bgbl: Time, eli: Time, now: Time, maxAge: int): Evidence {
    var age := EffectiveMaxAge(maxAge);
    if TimestampFresh(bgbl, now, age) then Evidence(bgbl, false)
    else if TimestampFresh(eli, now, age) && eli > bgbl then Evidence(eli, true)
    else Evidence(0, false)
  }

  /** EffectiveBGBlFeedTime. */
  function EffectiveBGBlFeedTime(feedSuccess: Time, degradedAt: Time): Time {
    if degradedAt == 0 then feedSuccess
    else if feedSuccess == 0 || degradedAt > feedSuccess then 0
    else feedSuccess
  }

  // ---------- eval.go: input and predicates ----------

  /** vrefResolutions is None on the legacy blunt path. */
  datatype Input = Input(
    lawID: string, stand: StandCitation, linkedIssues: seq<GazetteIssue>,
    linkClasses: map<string, LinkClass>, instrumentRefs: seq<InstrumentRef>,
    instrumentIssues: seq<GazetteIssue>, hasSeeded: bool,
    vrefResolutions: Option<seq<VRefResolution>>, linksReadFailed: bool, lastTOCSuccess: Time,
    lastGIIFeedSuccess: Time, lastBGBlSuccess: Time, bgblFromProbeOnly: bool, now: Time, maxAge: int)

  predicate SyncWithinMaxAge(inp: Input, now: Time) {
    var age := EffectiveMaxAge(inp.maxAge);
    && TimestampFresh(inp.lastTOCSuccess, now, age)
    && TimestampFresh(inp.lastGIIFeedSuccess, now, age)
    && TimestampFresh(inp.lastBGBlSuccess, now, age)
  }

  function AsStand(iss: GazetteIssue): StandCitation {
    StandCitation("", iss.teil, iss.year, iss.number, "", None, true)
  }

  predicate IssueNewerThanStand(iss: GazetteIssue, stand: StandCitation) {
    if !stand.parseOK then iss.year > 0 && iss.number != ""
    else
      var c := Citation.Compare(stand, AsStand(iss));
      if c.ok then c.cmp < 0
      else stand.date.Some? && iss.publishedAt.Some? && iss.publishedAt.value > stand.date.value
  }

  /** A parsed Stand that names an issue has that issue counted as newer exactly when the citation
      carries no comparable number and the issue was published after the date in the Stand. */
  lemma NamedIssueIsNewerIff(iss: GazetteIssue, stand: StandCitation)
    requires stand.parseOK
    requires stand.teil == iss.teil && stand.year == iss.year && stand.number == iss.number
    ensures IssueNewerThanStand(iss, stand) <==>
      && !Citation.Numbered(stand)
      && stand.date.Some? && iss.publishedAt.Some? && iss.publishedAt.value > stand.date.value
  {
  }

  /** What the sync jobs store: no job keeps an item without a year and a number, and a missing Teil
      becomes Teil 1. */
  predicate StoredIssue(iss: GazetteIssue) {
    && (iss.teil == 1 || iss.teil == 2) && iss.year > 0 && Citation.IsIssueNumber(iss.number)
    && iss.id == Citation.IssueID(iss.teil, iss.year, iss.number)
  }

  predicate DatedAfter(iss: GazetteIssue, stand: StandCitation) {
    stand.date.Some? && iss.publishedAt.Some? && iss.publishedAt.value > stand.date.value
  }

  /** A stored issue that a parsed Stand names counts as newer exactly when its number has no positive
      value and the issue is dated after the Stand. */
  lemma NamedStoredIssueIsNewerIff(iss: GazetteIssue, stand: StandCitation)
    requires StoredIssue(iss) && stand.parseOK
    requires stand.teil == iss.teil && stand.year == iss.year && stand.number == iss.number
    ensures IssueNewerThanStand(iss, stand) <==> Citation.IssueNum(iss.number).None? && DatedAfter(iss, stand)
  {
    NamedIssueIsNewerIff(iss, stand);
  }

  /** For numbers of at most 18 characters: exactly when all digits are zeros. */
  lemma NamedShortNumberIsNewerIff(iss: GazetteIssue, stand: StandCitation)
    requires StoredIssue(iss) && stand.parseOK && |iss.number| <= 18
    requires stand.teil == iss.teil && stand.year == iss.year && stand.number == iss.number
    ensures IssueNewerThanStand(iss, stand) <==> Citation.ZeroDigits(iss.number) && DatedAfter(iss, stand)
  {
    NamedStoredIssueIsNewerIff(iss, stand);
    Citation.NoValueIffZero(iss.number);
  }

  /** It happens: the Stand "BGBl. 2024 I Nr. 0 v. 2.1.2024" and the stored issue 1/2024/0, published
      the day after. */
  lemma NamedIssueCanBeNewer() returns (iss: GazetteIssue, stand: StandCitation)
    ensures StoredIssue(iss) && stand.parseOK
    ensures stand.teil == iss.teil && stand.year == iss.year && stand.number == iss.number
    ensures IssueNewerThanStand(iss, stand)
  {
    var day := 738886 * 24 * HOUR;
    stand := StandCitation("BGBl. 2024 I Nr. 0 v. 2.1.2024", 1, 2024, "0", "", Some(day), true);
    iss := GazetteIssue(Citation.IssueID(1, 2024, "0"), 1, 2024, "0", Some(day + 24 * HOUR), "");
    NamedShortNumberIsNewerIff(iss, stand);
  }

  /** A parsed Stand without a number, citing by page, never settles a stored issue of its own Teil and
      year by citation: the dates alone decide, whether or not the Stand means that issue. */
  lemma PageStandDecidesByDate(iss: GazetteIssue, stand: StandCitation)
    requires StoredIssue(iss) && stand.parseOK && stand.number == ""
    requires stand.teil == iss.teil && stand.year == iss.year
    ensures IssueNewerThanStand(iss, stand) <==> DatedAfter(iss, stand)
  {
  }

  predicate IsBareBekanntmachungIssue(iss: GazetteIssue) {
    var lower := Text.Lower(Text.TrimSpace(iss.title));
    Text.HasPrefix(lower, "bekanntmachung") || Text.HasPrefix(lower, "bek.") || Text.HasPrefix(lower, "bek ")
  }

  function KindOf(ref: InstrumentRef): string { Text.Upper(Text.TrimSpace(ref.kind)) }

  predicate HasHint(ref: InstrumentRef) { Text.TrimSpace(ref.sectionHint) != "" }

  predicate StandReflectsRef(stand: StandCitation, ref: InstrumentRef) {
    stand.parseOK && stand.year == ref.year && stand.teil == ref.teil && stand.number == ref.number
  }

  predicate IsOperativeRef(ref: InstrumentRef, hasSeeded: bool) {
    var kind := KindOf(ref);
    if kind == "G" then false
    else if kind == "V" then true
    else if kind == "BEK" then HasHint(ref)
    else hasSeeded && kind == ""
  }

  predicate IsStaleRelevantRef(ref: InstrumentRef) {
    var kind := KindOf(ref);
    kind == "G" || kind == "V" || (kind == "BEK" && HasHint(ref))
  }

  predicate IssueMatchesRef(iss: GazetteIssue, ref: InstrumentRef) {
    && iss.year == ref.year && iss.number == ref.number
    && (iss.teil == 0 || ref.teil == 0 || iss.teil == ref.teil)
  }

  predicate InstrumentIssueIsStaleRelevant(iss: GazetteIssue, refs: seq<InstrumentRef>) {
    exists i :: 0 <= i < |refs| && IssueMatchesRef(iss, refs[i]) && IsStaleRelevantRef(refs[i])
  }

  predicate RefIdentityEqual(a: InstrumentRef, b: InstrumentRef) {
    && a.year == b.year && a.number == b.number
    && (a.teil == 0 || b.teil == 0 || a.teil == b.teil)
    && KindOf(a) == KindOf(b)
    && Text.TrimSpace(a.sectionHint) == Text.TrimSpace(b.sectionHint)
  }

  /** The first resolution recorded for ref. */
  function FindVRefResolution(resolutions: seq<VRefResolution>, ref: InstrumentRef): Option<VRefResolution> {
    if resolutions == [] then None
    else if RefIdentityEqual(resolutions[0].ref, ref) then Some(resolutions[0])
    else FindVRefResolution(resolutions[1..], ref)
  }

  lemma {:induction false} FindVRefResolutionExact(resolutions: seq<VRefResolution>, ref: InstrumentRef)
    ensures var r := FindVRefResolution(resolutions, ref);
      && (r.None? <==> forall i :: 0 <= i < |resolutions| ==> !RefIdentityEqual(resolutions[i].ref, ref))
      && (r.Some? ==> exists i :: 0 <= i < |resolutions| && r.value == resolutions[i] && FirstFor(resolutions, ref, i))
  {
    if resolutions != [] {
      if RefIdentityEqual(resolutions[0].ref, ref) {
        assert FirstFor(resolutions, ref, 0);
      } else {
        FindVRefResolutionExact(resolutions[1..], ref);
        assert forall i :: 0 < i < |resolutions| ==> resolutions[i] == resolutions[1..][i - 1];
        if i :| 0 <= i < |resolutions[1..]| && FindVRefResolution(resolutions, ref) == Some(resolutions[1..][i]) &&
                FirstFor(resolutions[1..], ref, i) {
          assert FirstFor(resolutions, ref, i + 1);
        }
      }
    }
  }

  /** The i-th resolution names the instrument, and none before it does. */
  predicate FirstFor(resolutions: seq<VRefResolution>, ref: InstrumentRef, i: nat)
    requires i < |resolutions|
  {
    RefIdentityEqual(resolutions[i].ref, ref) && forall j :: 0 <= j < i ==> !RefIdentityEqual(resolutions[j].ref, ref)
  }

  // ---------- the specification of Evaluate ----------

  /** Refs that must be accounted for: a usable citation, not reflected by the Stand, operative. */
  predicate Considered(inp: Input, ref: InstrumentRef) {
    && !(ref.year == 0 || (ref.number == "" && ref.teil == 0))
    && !StandReflectsRef(inp.stand, ref)
    && IsOperativeRef(ref, inp.hasSeeded)
  }

  predicate Proven(res: VRefResolution) { res.historical || (res.resolved && res.childConfirmed) }

  predicate Unmatched(inp: Input, ref: InstrumentRef) {
    && Considered(inp, ref)
    && (inp.vrefResolutions.None? ||
        var r := FindVRefResolution(inp.vrefResolutions.value, ref);
        r.None? || (!Proven(r.value) && r.value.matchedGIISlug == ""))
  }

  predicate ChildNotConfirmed(inp: Input, ref: InstrumentRef) {
    && Considered(inp, ref)
    && inp.vrefResolutions.Some?
    && var r := FindVRefResolution(inp.vrefResolutions.value, ref);
       r.Some? && !Proven(r.value) && r.value.matchedGIISlug != ""
  }

  predicate AnyUnmatched(inp: Input) {
    exists i :: 0 <= i < |inp.instrumentRefs| && Unmatched(inp, inp.instrumentRefs[i])
  }

  predicate AnyChildNotConfirmed(inp: Input) {
    exists i :: 0 <= i < |inp.instrumentRefs| && ChildNotConfirmed(inp, inp.instrumentRefs[i])
  }

  predicate RefsBlock(inp: Input) { AnyUnmatched(inp) || AnyChildNotConfirmed(inp) }

  predicate LinkedCounts(inp: Input, iss: GazetteIssue) {
    !IsBareBekanntmachungIssue(iss) && IssueNewerThanStand(iss, inp.stand)
  }

  predicate InstrumentCounts(inp: Input, iss: GazetteIssue) {
    InstrumentIssueIsStaleRelevant(iss, inp.instrumentRefs) && IssueNewerThanStand(iss, inp.stand)
  }

  /** Ids of the issues satisfying p, in order. */
  function IdsWhere(issues: seq<GazetteIssue>, p: GazetteIssue -> bool): seq<string> {
    if issues == [] then []
    else
      var k := |issues| - 1;
      IdsWhere(issues[..k], p) + if p(issues[k]) then [issues[k].id] else []
  }

  /** uniqueStrings: first occurrences of the non-empty strings. */
  function UniqueStrings(s: seq<string>): seq<string> {
    if s == [] then []
    else
      var k := |s| - 1;
      var front := UniqueStrings(s[..k]);
      if s[k] == "" || s[k] in front then front else front + [s[k]]
  }

  function NewerIDs(inp: Input): seq<string> {
    UniqueStrings(IdsWhere(inp.linkedIssues, iss => LinkedCounts(inp, iss))
                  + IdsWhere(inp.instrumentIssues, iss => InstrumentCounts(inp, iss)))
  }

  /** A linked or cited issue that counts and is newer than the Stand. */
  predicate CountedNewer(inp: Input, iss: GazetteIssue) {
    && iss.id != ""
    && ((iss in inp.linkedIssues && LinkedCounts(inp, iss))
        || (iss in inp.instrumentIssues && InstrumentCounts(inp, iss)))
  }

  predicate HasClass(inp: Input, iss: GazetteIssue, c: LinkClass) {
    iss.id in inp.linkClasses && inp.linkClasses[iss.id] == c
  }

  predicate OnlyHeuristicLinks(inp: Input) {
    && (exists iss :: iss in inp.linkedIssues && HasClass(inp, iss, LinkHeuristic))
    && !(exists iss :: iss in inp.linkedIssues && HasClass(inp, iss, LinkConfirmed))
  }

  function LowerConfidence(c: Confidence): Confidence {
    if c.High? then Medium else Low
  }

  function UnresolvedRationale(inp: Input): string {
    if AnyUnmatched(inp) then "unresolved_linked_instrument_refs" else "linked_child_not_confirmed"
  }

  /** What Evaluate answers, condition by condition in order of precedence. */
  function Verdict(inp: Input, now: Time): FreshnessRecord {
    var evidence := if inp.bgblFromProbeOnly then ProbeOnly else Feeds;
    var uncertain := (c: Confidence, why: string) =>
      FreshnessRecord(inp.lawID, Uncertain, c, evidence, now, [], why);
    var linkConfidence := if OnlyHeuristicLinks(inp) then Medium else High;
    if !SyncWithinMaxAge(inp, now) then uncertain(Low, "sync data older than max age")
    else if inp.bgblFromProbeOnly then uncertain(Low, "bgbl_evidence_probe_only")
    else if inp.linksReadFailed then uncertain(Low, "links_read_failed")
    else if NewerIDs(inp) != [] then
      FreshnessRecord(inp.lawID, ConfirmedStale, linkConfidence, evidence, now, NewerIDs(inp),
                      "newer gazette issue linked than reflected Stand")
    else if !inp.stand.parseOK then uncertain(Low, "stand_unparsed_or_missing")
    else if RefsBlock(inp) then uncertain(Medium, UnresolvedRationale(inp))
    else
      FreshnessRecord(inp.lawID, ConfirmedCurrent, linkConfidence, evidence, now, [],
                      "no newer linked gazette issue beyond Stand")
  }

  // ---------- eval.go: the loops ----------

  method OnlyHeuristic(inp: Input) returns (r: bool)
    ensures r == OnlyHeuristicLinks(inp)
  {
    if |inp.linkedIssues| == 0 || |inp.linkClasses| == 0 { return false; }
    var hasConfirmed, hasHeuristic := false, false;
    for i := 0 to |inp.linkedIssues|
      invariant hasConfirmed <==> exists iss :: iss in inp.linkedIssues[..i] && HasClass(inp, iss, LinkConfirmed)
      invariant hasHeuristic <==> exists iss :: iss in inp.linkedIssues[..i] && HasClass(inp, iss, LinkHeuristic)
    {
      var issue := inp.linkedIssues[i];
      assert inp.linkedIssues[..i + 1] == inp.linkedIssues[..i] + [issue];
      assert forall iss :: iss in inp.linkedIssues[..i + 1] <==> iss in inp.linkedIssues[..i] || iss == issue;
      ghost var confirmed, heuristic := HasClass(inp, issue, LinkConfirmed), HasClass(inp, issue, LinkHeuristic);
      if issue.id in inp.linkClasses {
        match inp.linkClasses[issue.id]
        case LinkConfirmed => hasConfirmed := true;
        case LinkHeuristic => hasHeuristic := true;
      }
    }
    assert inp.linkedIssues[..|inp.linkedIssues|] == inp.linkedIssues;
    r := hasHeuristic && !hasConfirmed;
  }

  method Unique(s: seq<string>) returns (out: seq<string>)
    ensures out == UniqueStrings(s)
  {
    var seen: set<string> := {};
    out := [];
    for i := 0 to |s|
      invariant out == UniqueStrings(s[..i])
      invariant forall x :: x in seen <==> x in out
    {
      assert s[..i + 1][..i] == s[..i];
      if s[i] == "" || s[i] in seen { continue; }
      seen := seen + {s[i]};
      out := out + [s[i]];
    }
    assert s[..|s|] == s;
  }

  /** unresolvedInstrumentRefsBlunt. */
  method UnresolvedBlunt(inp: Input) returns (r: bool)
    requires inp.vrefResolutions.None?
    ensures r == AnyUnmatched(inp)
  {
    for i := 0 to |inp.instrumentRefs|
      invariant forall k :: 0 <= k < i ==> !Unmatched(inp, inp.instrumentRefs[k])
    {
      var ref := inp.instrumentRefs[i];
      if ref.year == 0 || (ref.number == "" && ref.teil == 0) { continue; }
      if StandReflectsRef(inp.stand, ref) { continue; }
      if IsOperativeRef(ref, inp.hasSeeded) { return true; }
    }
    r := false;
  }

  /** unresolvedInstrumentRefsProof. */
  method UnresolvedProof(inp: Input) returns (unresolved: bool, rationale: string)
    requires inp.vrefResolutions.Some?
    ensures unresolved == RefsBlock(inp)
    ensures rationale == if unresolved then UnresolvedRationale(inp) else ""
  {
    var hasUnmatched, hasUnconfirmedChild := false, false;
    for i := 0 to |inp.instrumentRefs|
      invariant hasUnmatched ==> AnyUnmatched(inp)
      invariant hasUnconfirmedChild ==> AnyChildNotConfirmed(inp)
      invariant !hasUnmatched ==> forall k :: 0 <= k < i ==> !Unmatched(inp, inp.instrumentRefs[k])
      invariant !hasUnconfirmedChild ==> forall k :: 0 <= k < i ==> !ChildNotConfirmed(inp, inp.instrumentRefs[k])
    {
      var ref := inp.instrumentRefs[i];
      if ref.year == 0 || (ref.number == "" && ref.teil == 0) { continue; }
      if StandReflectsRef(inp.stand, ref) { continue; }
      if !IsOperativeRef(ref, inp.hasSeeded) { continue; }
      var found := FindVRefResolution(inp.vrefResolutions.value, ref);
      if found.None? {
        assert Unmatched(inp, ref);
        hasUnmatched := true;
        continue;
      }
      var res := found.value;
      if res.historical { continue; }
      if res.resolved && res.childConfirmed { continue; }
      if res.matchedGIISlug != "" { hasUnconfirmedChild := true; } else { hasUnmatched := true; }
    }
    if !hasUnmatched && !hasUnconfirmedChild { return false, ""; }
    if hasUnmatched { return true, "unresolved_linked_instrument_refs"; }
    return true, "linked_child_not_confirmed";
  }

  /** unresolvedInstrumentRefs. */
  method UnresolvedInstrumentRefs(inp: Input) returns (unresolved: bool, rationale: string)
    ensures unresolved == RefsBlock(inp)
    ensures rationale == if unresolved then UnresolvedRationale(inp) else ""
  {
    if |inp.instrumentRefs| == 0 { return false, ""; }
    if inp.vrefResolutions.None? {
      unresolved := UnresolvedBlunt(inp);
      rationale := if unresolved then "unresolved_linked_instrument_refs" else "";
      return;
    }
    unresolved, rationale := UnresolvedProof(inp);
  }

  /** The loop of Evaluate over the linked issues. */
  method LinkedNewer(inp: Input) returns (newer: seq<string>)
    ensures newer == IdsWhere(inp.linkedIssues, iss => LinkedCounts(inp, iss))
  {
    newer := [];
    for i := 0 to |inp.linkedIssues|
      invariant newer == IdsWhere(inp.linkedIssues[..i], iss => LinkedCounts(inp, iss))
    {
      assert inp.linkedIssues[..i + 1][..i] == inp.linkedIssues[..i];
      if IsBareBekanntmachungIssue(inp.linkedIssues[i]) { continue; }
      if IssueNewerThanStand(inp.linkedIssues[i], inp.stand) { newer := newer + [inp.linkedIssues[i].id]; }
    }
    assert inp.linkedIssues[..|inp.linkedIssues|] == inp.linkedIssues;
  }

  /** The loop of Evaluate over the cited issues. */
  method CitedNewer(inp: Input) returns (newer: seq<string>)
    ensures newer == IdsWhere(inp.instrumentIssues, iss => InstrumentCounts(inp, iss))
  {
    newer := [];
    for i := 0 to |inp.instrumentIssues|
      invariant newer == IdsWhere(inp.instrumentIssues[..i], iss => InstrumentCounts(inp, iss))
    {
      assert inp.instrumentIssues[..i + 1][..i] == inp.instrumentIssues[..i];
      if !InstrumentIssueIsStaleRelevant(inp.instrumentIssues[i], inp.instrumentRefs) { continue; }
      if IssueNewerThanStand(inp.instrumentIssues[i], inp.stand) { newer := newer + [inp.instrumentIssues[i].id]; }
    }
    assert inp.instrumentIssues[..|inp.instrumentIssues|] == inp.instrumentIssues;
  }

  /** Evaluate; clock is what time.Now() would answer. */
  method Evaluate(inp: Input, clock: Time) returns (rec: FreshnessRecord)
    ensures rec == Verdict(inp, if inp.now == 0 then clock else inp.now)
  {
    var now := if inp.now == 0 then clock else inp.now;
    rec := FreshnessRecord(inp.lawID, Uncertain, High, Feeds, now, [], "");
    if inp.bgblFromProbeOnly {
      rec := rec.(evidence := ProbeOnly, confidence := Low);
    }
    if !SyncWithinMaxAge(inp, now) {
      return rec.(confidence := Low, rationale := "sync data older than max age");
    }
    if inp.bgblFromProbeOnly {
      return rec.(confidence := Low, rationale := "bgbl_evidence_probe_only");
    }
    if inp.linksReadFailed {
      return rec.(confidence := Low, rationale := "links_read_failed");
    }
    var linked := LinkedNewer(inp);
    var cited := CitedNewer(inp);
    var newer := Unique(linked + cited);
    var onlyHeuristic := OnlyHeuristic(inp);
    if |newer| > 0 {
      rec := rec.(state := ConfirmedStale, newerIssueIDs := newer,
                  rationale := "newer gazette issue linked than reflected Stand");
      if onlyHeuristic { rec := rec.(confidence := LowerConfidence(rec.confidence)); }
      return;
    }
    if !inp.stand.parseOK {
      return rec.(confidence := Low, rationale := "stand_unparsed_or_missing");
    }
    var unresolved, why := UnresolvedInstrumentRefs(inp);
    if unresolved {
      return rec.(confidence := LowerConfidence(rec.confidence), rationale := why);
    }
    rec := rec.(state := ConfirmedCurrent, rationale := "no newer linked gazette issue beyond Stand");
    if onlyHeuristic { rec := rec.(confidence := LowerConfidence(rec.confidence)); }
  }

  // ---------- what the verdict means ----------

  lemma {:induction false} IdsWhereMembers(issues: seq<GazetteIssue>, p: GazetteIssue -> bool, id: string)
    ensures id in IdsWhere(issues, p) <==> exists iss :: iss in issues && p(iss) && iss.id == id
  {
    if issues != [] {
      var k := |issues| - 1;
      IdsWhereMembers(issues[..k], p, id);
      assert issues == issues[..k] + [issues[k]];
    }
  }

  lemma {:induction false} UniqueStringsMembers(s: seq<string>)
    ensures forall x :: x in UniqueStrings(s) <==> x in s && x != ""
    ensures Text.Distinct(UniqueStrings(s))
  {
    if s != [] {
      var k := |s| - 1;
      UniqueStringsMembers(s[..k]);
      assert s == s[..k] + [s[k]];
    }
  }

  /** The ids reported with a stale verdict are those of the counted newer issues, each once. */
  lemma NewerIDsExact(inp: Input)
    ensures Text.Distinct(NewerIDs(inp))
    ensures forall id :: id in NewerIDs(inp) <==> exists iss :: CountedNewer(inp, iss) && iss.id == id
    ensures NewerIDs(inp) == [] <==> forall iss :: !CountedNewer(inp, iss)
  {
    var p := iss => LinkedCounts(inp, iss);
    var q := iss => InstrumentCounts(inp, iss);
    var a, b := IdsWhere(inp.linkedIssues, p), IdsWhere(inp.instrumentIssues, q);
    UniqueStringsMembers(a + b);
    forall id ensures id in NewerIDs(inp) <==> exists iss :: CountedNewer(inp, iss) && iss.id == id {
      IdsWhereMembers(inp.linkedIssues, p, id);
      IdsWhereMembers(inp.instrumentIssues, q, id);
      if id in NewerIDs(inp) {
        assert id in a || id in b;
        if id in a {
          var iss :| iss in inp.linkedIssues && p(iss) && iss.id == id;
          assert CountedNewer(inp, iss);
        } else {
          var iss :| iss in inp.instrumentIssues && q(iss) && iss.id == id;
          assert CountedNewer(inp, iss);
        }
      }
    }
    if NewerIDs(inp) == [] {
      forall iss ensures !CountedNewer(inp, iss) {
        assert iss.id !in NewerIDs(inp);
      }
    } else {
      assert NewerIDs(inp)[0] in NewerIDs(inp);
    }
  }

  predicate SyncUsable(inp: Input, now: Time) {
    SyncWithinMaxAge(inp, now) && !inp.bgblFromProbeOnly && !inp.linksReadFailed
  }

  /** Fail-closed, exactly: the three answers by the evidence that alone can produce them. */
  lemma VerdictExact(inp: Input, now: Time)
    ensures Verdict(inp, now).state == ConfirmedCurrent <==>
      && SyncUsable(inp, now) && inp.stand.parseOK
      && (forall iss :: !CountedNewer(inp, iss))
      && (forall ref :: ref in inp.instrumentRefs ==> !Unmatched(inp, ref) && !ChildNotConfirmed(inp, ref))
    ensures Verdict(inp, now).state == ConfirmedStale <==>
      SyncUsable(inp, now) && exists iss :: CountedNewer(inp, iss)
  {
    NewerIDsExact(inp);
    if RefsBlock(inp) {
      var i :| 0 <= i < |inp.instrumentRefs| &&
        (Unmatched(inp, inp.instrumentRefs[i]) || ChildNotConfirmed(inp, inp.instrumentRefs[i]));
      assert inp.instrumentRefs[i] in inp.instrumentRefs;
    }
  }

  // ---------- unresolved.go ----------

  datatype Classification =
    IgnoredBareBek | MissingSeed | NotMatched | SupersededOrPast | ChildNotCurrent

  datatype UnresolvedInstrumentRef = UnresolvedInstrumentRef(ref: InstrumentRef, classification: Classification)

  /** The diagnosis of one ref; None when it is left out of the report. */
  function Classify(inp: Input, ref: InstrumentRef): Option<Classification> {
    var kind := KindOf(ref);
    if ref.year == 0 || (ref.number == "" && ref.teil == 0) then None
    else if StandReflectsRef(inp.stand, ref) then None
    else if kind == "BEK" && !HasHint(ref) then Some(IgnoredBareBek)
    else if kind == "" && !inp.hasSeeded then Some(MissingSeed)
    else if !IsOperativeRef(ref, inp.hasSeeded) then None
    else if inp.vrefResolutions.None? then Some(NotMatched)
    else match FindVRefResolution(inp.vrefResolutions.value, ref)
      case None => Some(NotMatched)
      case Some(res) =>
        if res.historical then Some(SupersededOrPast)
        else if res.resolved && res.childConfirmed then None
        else if res.matchedGIISlug != "" then Some(ChildNotCurrent)
        else Some(NotMatched)
  }

  function ReportBy(of: InstrumentRef -> Option<Classification>, refs: seq<InstrumentRef>): seq<UnresolvedInstrumentRef> {
    if refs == [] then []
    else
      var k := |refs| - 1;
      ReportBy(of, refs[..k]) + EntryOf(of, refs[k])
  }

  function EntryOf(of: InstrumentRef -> Option<Classification>, ref: InstrumentRef): seq<UnresolvedInstrumentRef> {
    match of(ref)
    case None => []
    case Some(c) => [UnresolvedInstrumentRef(ref, c)]
  }

  function Classifier(inp: Input): InstrumentRef -> Option<Classification> {
    (ref: InstrumentRef) => Classify(inp, ref)
  }

  function Report(inp: Input, refs: seq<InstrumentRef>): seq<UnresolvedInstrumentRef> {
    ReportBy(Classifier(inp), refs)
  }

  /** CollectUnresolvedRefs. The two inner missing_seed branches are dead: an empty kind without
      linked instruments has been reported before either is reached. */
  method CollectUnresolvedRefs(inp: Input) returns (out: seq<UnresolvedInstrumentRef>)
    ensures out == Report(inp, inp.instrumentRefs)
  {
    out := [];
    if |inp.instrumentRefs| == 0 { return; }
    for i := 0 to |inp.instrumentRefs|
      invariant out == Report(inp, inp.instrumentRefs[..i])
    {
      assert inp.instrumentRefs[..i + 1][..i] == inp.instrumentRefs[..i];
      var ref := inp.instrumentRefs[i];
      if ref.year == 0 || (ref.number == "" && ref.teil == 0) { continue; }
      if StandReflectsRef(inp.stand, ref) { continue; }
      var kind := KindOf(ref);
      if kind == "BEK" && !HasHint(ref) {
        out := out + [UnresolvedInstrumentRef(ref, IgnoredBareBek)];
        continue;
      }
      if kind == "G" { continue; }
      if kind == "" && !inp.hasSeeded {
        out := out + [UnresolvedInstrumentRef(ref, MissingSeed)];
        continue;
      }
      if !IsOperativeRef(ref, inp.hasSeeded) { continue; }
      if inp.vrefResolutions.None? {
        out := out + [UnresolvedInstrumentRef(ref, NotMatched)];
        continue;
      }
      var found := FindVRefResolution(inp.vrefResolutions.value, ref);
      if found.None? {
        if kind == "" && !inp.hasSeeded {
          assert false;
        } else {
          out := out + [UnresolvedInstrumentRef(ref, NotMatched)];
        }
        continue;
      }
      var res := found.value;
      if res.historical {
        out := out + [UnresolvedInstrumentRef(ref, SupersededOrPast)];
        continue;
      }
      if res.resolved && res.childConfirmed { continue; }
      if res.matchedGIISlug != "" {
        out := out + [UnresolvedInstrumentRef(ref, ChildNotCurrent)];
        continue;
      }
      if kind == "" && !inp.hasSeeded {
        assert false;
      } else {
        out := out + [UnresolvedInstrumentRef(ref, NotMatched)];
      }
    }
    assert inp.instrumentRefs[..|inp.instrumentRefs|] == inp.instrumentRefs;
  }

  ghost predicate Reports(out: seq<UnresolvedInstrumentRef>, c: Classification) {
    exists i :: 0 <= i < |out| && out[i].classification == c
  }

  lemma ReportsAppend(a: seq<UnresolvedInstrumentRef>, b: seq<UnresolvedInstrumentRef>, c: Classification)
    ensures Reports(a + b, c) <==> Reports(a, c) || Reports(b, c)
  {
    var all := a + b;
    if i :| 0 <= i < |a| && a[i].classification == c { assert all[i].classification == c; }
    if i :| 0 <= i < |b| && b[i].classification == c { assert all[|a| + i].classification == c; }
    if i :| 0 <= i < |all| && all[i].classification == c { assert all[i] == if i < |a| then a[i] else b[i - |a|]; }
  }

  lemma {:induction false} ReportMembers(of: InstrumentRef -> Option<Classification>, refs: seq<InstrumentRef>, c: Classification)
    ensures Reports(ReportBy(of, refs), c) <==> exists k :: 0 <= k < |refs| && of(refs[k]) == Some(c)
  {
    if refs != [] {
      var k := |refs| - 1;
      ReportMembers(of, refs[..k], c);
      var entry := EntryOf(of, refs[k]);
      ReportsAppend(ReportBy(of, refs[..k]), entry, c);
      assert of(refs[k]) == Some(c) ==> entry[0].classification == c;
      assert forall j :: 0 <= j < k ==> refs[..k][j] == refs[j];
    }
  }

  /** Diagnostics agree with the verdict: refs block exactly when the report holds an unmatched or a
      child_not_current entry, and the rationale names which. */
  lemma DiagnosticsAgree(inp: Input)
    ensures var out := Report(inp, inp.instrumentRefs);
      && (AnyUnmatched(inp) <==> Reports(out, NotMatched))
      && (AnyChildNotConfirmed(inp) <==> Reports(out, ChildNotCurrent))
      && (RefsBlock(inp) <==> Reports(out, NotMatched) || Reports(out, ChildNotCurrent))
      && (RefsBlock(inp) ==>
          && (UnresolvedRationale(inp) == "unresolved_linked_instrument_refs" <==> Reports(out, NotMatched))
          && (UnresolvedRationale(inp) == "linked_child_not_confirmed" <==>
              !Reports(out, NotMatched) && Reports(out, ChildNotCurrent)))
  {
    ReportMembers(Classifier(inp), inp.instrumentRefs, NotMatched);
    ReportMembers(Classifier(inp), inp.instrumentRefs, ChildNotCurrent);
    forall k | 0 <= k < |inp.instrumentRefs|
      ensures Unmatched(inp, inp.instrumentRefs[k]) <==> Classify(inp, inp.instrumentRefs[k]) == Some(NotMatched)
      ensures ChildNotConfirmed(inp, inp.instrumentRefs[k]) <==> Classify(inp, inp.instrumentRefs[k]) == Some(ChildNotCurrent)
    {
    }
  }
}
