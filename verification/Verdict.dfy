/** The fail-closed verdict on a law with linked ordinances: evidence collection, resolution, child
    proof, supersession and evaluation composed (internal/instruments: evidence.go, vref_proof.go;
    internal/service/service.go and internal/sync/orchestrator.go, the evaluation part). */
module Verdict {
  import opened Domain
  import opened Freshness
  import opened VRefs
  import Chain
  import Citation
  import Text

  datatype IssueLawLink = IssueLawLink(issueID: string, class_: LinkClass)

  /** A read-only view of the store during one evaluation. */
  datatype Snapshot = Snapshot(
    stands: map<string, StandCitation>,
    issues: map<string, GazetteIssue>,
    links: map<string, seq<IssueLawLink>>,
    unreadableLinks: set<string>,
    editorial: map<string, string>)

  /** VRefProofContext; clock is what time.Now() would answer. */
  datatype Context = Context(
    now: Time, clock: Time, maxAge: int, lastTOCSuccess: Time, lastGIIFeedSuccess: Time,
    lastBGBlSuccess: Time, bgblFromProbeOnly: bool, linksReadFailed: bool)

  function StandOf(snap: Snapshot, id: string): StandCitation {
    if id in snap.stands then snap.stands[id] else NO_STAND
  }

  // ---------- CollectEvidence ----------

  function EditorialRefs(env: Env, snap: Snapshot, lawID: string): seq<InstrumentRef> {
    if lawID in snap.editorial && snap.editorial[lawID] != "" then env.parse(snap.editorial[lawID]) else []
  }

  function ChildID(env: Env, li: LinkedInstrument): string {
    if env.key(li.lawID) != "" then env.key(li.lawID) else env.key(li.giiSlug)
  }

  function ChildRefs(env: Env, snap: Snapshot, li: LinkedInstrument): seq<InstrumentRef> {
    env.parse(li.notes) +
    if ChildID(env, li) in snap.stands then env.parse(snap.stands[ChildID(env, li)].raw) else []
  }

  function LinkedRefs(env: Env, snap: Snapshot, linked: seq<LinkedInstrument>): seq<InstrumentRef> {
    if linked == [] then []
    else
      var k := |linked| - 1;
      LinkedRefs(env, snap, linked[..k]) + ChildRefs(env, snap, linked[k])
  }

  /** The key dedupeRefs compares: kind, Teil, year and number, printed. */
  function DedupeKey(r: InstrumentRef): string {
    r.kind + ['|'] + (Text.Itoa(r.teil) + ['|'] + (Text.Itoa(r.year) + ['|'] + r.number))
  }

  function DedupeRefs(refs: seq<InstrumentRef>): seq<InstrumentRef> {
    Text.FirstPerKey(refs, DedupeKey)
  }

  function EvidenceRefs(env: Env, snap: Snapshot, linked: seq<LinkedInstrument>, lawID: string, stand: StandCitation)
    : seq<InstrumentRef>
  {
    DedupeRefs(env.parse(stand.raw) + EditorialRefs(env, snap, lawID) + LinkedRefs(env, snap, linked))
  }

  /** The stored issue a ref cites under its canonical id. */
  function CitedBy(snap: Snapshot, ref: InstrumentRef): seq<GazetteIssue> {
    var id := Citation.IssueID(ref.teil, ref.year, ref.number);
    if ref.year == 0 || ref.number == "" || id !in snap.issues then [] else [snap.issues[id]]
  }

  function AllCited(snap: Snapshot, refs: seq<InstrumentRef>): seq<GazetteIssue> {
    if refs == [] then []
    else
      var k := |refs| - 1;
      AllCited(snap, refs[..k]) + CitedBy(snap, refs[k])
  }

  function IssueKey(iss: GazetteIssue): string { iss.id }

  /** Store issues cited by the refs, one per issue id. */
  function CitedIssues(snap: Snapshot, refs: seq<InstrumentRef>): seq<GazetteIssue> {
    Text.FirstPerKey(AllCited(snap, refs), IssueKey)
  }

  method CollectEvidence(env: Env, snap: Snapshot, linked: seq<LinkedInstrument>, lawID: string, stand: StandCitation)
    returns (refs: seq<InstrumentRef>, issues: seq<GazetteIssue>)
    ensures refs == EvidenceRefs(env, snap, linked, lawID, stand)
    ensures issues == CitedIssues(snap, refs)
  {
    refs := env.parse(stand.raw);
    if lawID in snap.editorial && snap.editorial[lawID] != "" {
      refs := refs + env.parse(snap.editorial[lawID]);
    }
    ghost var own := refs;
    assert own == env.parse(stand.raw) + EditorialRefs(env, snap, lawID);
    for i := 0 to |linked|
      invariant refs == own + LinkedRefs(env, snap, linked[..i])
    {
      assert linked[..i + 1][..i] == linked[..i];
      refs := refs + env.parse(linked[i].notes);
      var childID := env.key(linked[i].lawID);
      if childID == "" { childID := env.key(linked[i].giiSlug); }
      if childID in snap.stands { refs := refs + env.parse(snap.stands[childID].raw); }
    }
    assert linked[..|linked|] == linked;
    refs := Text.FirstOccurrences(refs, DedupeKey);
    issues := CollectIssues(snap, refs);
  }

  method LookUp(snap: Snapshot, ref: InstrumentRef) returns (iss: Option<GazetteIssue>)
    ensures CitedBy(snap, ref) == if iss.Some? then [iss.value] else []
  {
    if ref.year == 0 || ref.number == "" { return None; }
    var id := Citation.IssueID(ref.teil, ref.year, ref.number);
    iss := if id in snap.issues then Some(snap.issues[id]) else None;
  }

  lemma FirstPerIssueSnoc(all: seq<GazetteIssue>, iss: GazetteIssue)
    ensures Text.FirstPerKey(all + [iss], IssueKey) ==
            var front := Text.FirstPerKey(all, IssueKey);
            if Text.HasKey(front, IssueKey, iss.id) then front else front + [iss]
  {
    assert (all + [iss])[..|all|] == all;
  }

  /** The second half of CollectEvidence: store lookups by canonical issue id. */
  method CollectIssues(snap: Snapshot, refs: seq<InstrumentRef>) returns (issues: seq<GazetteIssue>)
    ensures issues == CitedIssues(snap, refs)
  {
    issues := [];
    ghost var all: seq<GazetteIssue> := [];
    var seen: set<string> := {};
    for i := 0 to |refs|
      invariant all == AllCited(snap, refs[..i]) && issues == Text.FirstPerKey(all, IssueKey)
      invariant forall k :: k in seen <==> Text.HasKey(issues, IssueKey, k)
    {
      assert refs[..i + 1][..i] == refs[..i];
      var iss := LookUp(snap, refs[i]);
      assert all + [] == all;
      if iss.None? { continue; }
      FirstPerIssueSnoc(all, iss.value);
      all := all + [iss.value];
      if iss.value.id in seen { continue; }
      forall x { Text.HasKeyAppend(issues, iss.value, IssueKey, x); }
      seen := seen + {iss.value.id};
      issues := issues + [iss.value];
    }
    assert refs[..|refs|] == refs;
  }

  // ---------- the evidence for one law ----------

  function LinksOf(snap: Snapshot, lawID: string): seq<IssueLawLink> {
    if lawID in snap.links && lawID !in snap.unreadableLinks then snap.links[lawID] else []
  }

  function IssuesOf(snap: Snapshot, links: seq<IssueLawLink>): seq<GazetteIssue> {
    if links == [] then []
    else
      var k := |links| - 1;
      IssuesOf(snap, links[..k]) + if links[k].issueID in snap.issues then [snap.issues[links[k].issueID]] else []
  }

  function ClassesOf(links: seq<IssueLawLink>): map<string, LinkClass> {
    if links == [] then map[]
    else
      var k := |links| - 1;
      ClassesOf(links[..k])[links[k].issueID := links[k].class_]
  }

  method GatherLinks(snap: Snapshot, lawID: string)
    returns (issues: seq<GazetteIssue>, classes: map<string, LinkClass>, failed: bool)
    ensures issues == IssuesOf(snap, LinksOf(snap, lawID)) && classes == ClassesOf(LinksOf(snap, lawID))
    ensures failed == (lawID in snap.unreadableLinks)
  {
    issues, classes, failed := [], map[], lawID in snap.unreadableLinks;
    var links := LinksOf(snap, lawID);
    for i := 0 to |links|
      invariant issues == IssuesOf(snap, links[..i]) && classes == ClassesOf(links[..i])
    {
      assert links[..i + 1][..i] == links[..i];
      classes := classes[links[i].issueID := links[i].class_];
      if links[i].issueID in snap.issues { issues := issues + [snap.issues[links[i].issueID]]; }
    }
    assert links[..|links|] == links;
  }

  /** The evaluation input for a law, given its operative linked children and their resolutions. */
  function InputFor(env: Env, snap: Snapshot, ctx: Context, lawID: string, linked: seq<LinkedInstrument>,
                    hasLinked: bool, resolutions: Option<seq<VRefResolution>>): Input {
    var stand := StandOf(snap, lawID);
    var refs := EvidenceRefs(env, snap, linked, lawID, stand);
    var links := LinksOf(snap, lawID);
    Input(lawID, stand, IssuesOf(snap, links), ClassesOf(links), refs, CitedIssues(snap, refs), hasLinked, resolutions,
          ctx.linksReadFailed || lawID in snap.unreadableLinks, ctx.lastTOCSuccess, ctx.lastGIIFeedSuccess,
          ctx.lastBGBlSuccess, ctx.bgblFromProbeOnly, ctx.now, ctx.maxAge)
  }

  function NowOf(ctx: Context): Time { if ctx.now == 0 then ctx.clock else ctx.now }

  /** A child evaluated as a leaf: no linked instruments of its own, the blunt path for its refs. */
  function LeafState(env: Env, snap: Snapshot, ctx: Context, slug: string): FreshnessState {
    var id := env.key(slug);
    if id == "" then Uncertain
    else Freshness.Verdict(InputFor(env, snap, ctx, id, [], false, None), NowOf(ctx)).state
  }

  method EvaluateLeafChildFreshness(env: Env, snap: Snapshot, ctx: Context, slug: string) returns (state: FreshnessState)
    ensures state == LeafState(env, snap, ctx, slug)
  {
    var id := env.key(slug);
    if id == "" { return Uncertain; }
    var stand := StandOf(snap, id);
    var issues, classes, linksErr := GatherLinks(snap, id);
    var refs, cited := CollectEvidence(env, snap, [], id, stand);
    var inp := Input(id, stand, issues, classes, refs, cited, false, None, ctx.linksReadFailed || linksErr,
                     ctx.lastTOCSuccess, ctx.lastGIIFeedSuccess, ctx.lastBGBlSuccess, ctx.bgblFromProbeOnly,
                     ctx.now, ctx.maxAge);
    var rec := Freshness.Evaluate(inp, ctx.clock);
    state := rec.state;
  }

  // ---------- ProveVRefResolutions ----------

  /** The first Stand found under the lookup keys of the children. */
  function StandsFor(env: Env, snap: Snapshot, keys: seq<string>): Stands {
    if keys == [] then map[]
    else
      var k := |keys| - 1;
      var front := StandsFor(env, snap, keys[..k]);
      if keys[k] in front || keys[k] !in snap.stands then front else front[keys[k] := snap.stands[keys[k]]]
  }

  function AllLookupKeys(env: Env, annotated: seq<LinkedInstrument>): seq<string> {
    if annotated == [] then []
    else
      var k := |annotated| - 1;
      AllLookupKeys(env, annotated[..k]) + ChildLookupKeys(env, annotated[k])
  }

  function ChildStands(env: Env, snap: Snapshot, annotated: seq<LinkedInstrument>): Stands {
    StandsFor(env, snap, AllLookupKeys(env, annotated))
  }

  /** The inner loop: the keys of one child. */
  method AddStands(env: Env, snap: Snapshot, ghost keys: seq<string>, own: seq<string>, before: Stands) returns (stands: Stands)
    requires before == StandsFor(env, snap, keys)
    ensures stands == StandsFor(env, snap, keys + own)
  {
    stands := before;
    assert keys + own[..0] == keys;
    for j := 0 to |own|
      invariant stands == StandsFor(env, snap, keys + own[..j])
    {
      assert (keys + own[..j + 1])[..|keys| + j] == keys + own[..j];
      if own[j] in stands { continue; }
      if own[j] in snap.stands { stands := stands[own[j] := snap.stands[own[j]]]; }
    }
    assert own[..|own|] == own;
  }

  lemma {:induction false} StandsForExact(env: Env, snap: Snapshot, keys: seq<string>)
    ensures forall k :: k in StandsFor(env, snap, keys) <==> k in keys && k in snap.stands
    ensures forall k :: k in StandsFor(env, snap, keys) ==> StandsFor(env, snap, keys)[k] == snap.stands[k]
  {
    if keys != [] {
      var n := |keys| - 1;
      StandsForExact(env, snap, keys[..n]);
      assert keys == keys[..n] + [keys[n]];
    }
  }

  lemma {:induction false} AllLookupKeysExact(env: Env, annotated: seq<LinkedInstrument>)
    ensures forall k :: k in AllLookupKeys(env, annotated) <==>
      exists i :: 0 <= i < |annotated| && k in ChildLookupKeys(env, annotated[i])
  {
    if annotated != [] {
      var n := |annotated| - 1;
      AllLookupKeysExact(env, annotated[..n]);
      assert forall i :: 0 <= i < n ==> annotated[..n][i] == annotated[i];
    }
  }

  /** The map holds exactly the stored Stands under the lookup keys of the children. */
  ghost predicate HoldsStandsOf(env: Env, snap: Snapshot, annotated: seq<LinkedInstrument>, stands: Stands) {
    && (forall k :: k in stands <==>
          k in snap.stands && exists i :: 0 <= i < |annotated| && k in ChildLookupKeys(env, annotated[i]))
    && (forall k :: k in stands ==> stands[k] == snap.stands[k])
  }

  lemma ChildStandsExact(env: Env, snap: Snapshot, annotated: seq<LinkedInstrument>)
    ensures HoldsStandsOf(env, snap, annotated, ChildStands(env, snap, annotated))
  {
    StandsForExact(env, snap, AllLookupKeys(env, annotated));
    AllLookupKeysExact(env, annotated);
  }

  method BuildChildStands(env: Env, snap: Snapshot, annotated: seq<LinkedInstrument>) returns (stands: Stands)
    ensures stands == ChildStands(env, snap, annotated)
    ensures HoldsStandsOf(env, snap, annotated, stands)
  {
    ChildStandsExact(env, snap, annotated);
    stands := map[];
    ghost var keys: seq<string> := [];
    for i := 0 to |annotated|
      invariant keys == AllLookupKeys(env, annotated[..i])
      invariant stands == StandsFor(env, snap, keys)
    {
      assert annotated[..i + 1][..i] == annotated[..i];
      var own := ChildLookupKeys(env, annotated[i]);
      stands := AddStands(env, snap, keys, own, stands);
      keys := keys + own;
    }
    assert annotated[..|annotated|] == annotated;
  }

  ghost function ProvenList(env: Env, annotated: seq<LinkedInstrument>, stands: Stands, raw: seq<VRefResolution>,
                            leaf: string -> FreshnessState): (out: seq<VRefResolution>)
    ensures |out| == |raw|
  {
    Marked(env, annotated, stands, seq(|raw|, i requires 0 <= i < |raw| => ApplyProof(leaf, raw[i])))
  }

  function LeafOracle(env: Env, snap: Snapshot, ctx: Context): string -> FreshnessState {
    slug => LeafState(env, snap, ctx, slug)
  }

  method ProveVRefResolutions(env: Env, snap: Snapshot, ctx: Context, refs: seq<InstrumentRef>,
                              annotated: seq<LinkedInstrument>, parentStand: StandCitation)
    returns (out: seq<VRefResolution>)
    ensures var stands := ChildStands(env, snap, annotated);
      out == ProvenList(env, annotated, stands, Resolutions(env, refs, annotated, stands, parentStand),
                        LeafOracle(env, snap, ctx))
  {
    var stands := BuildChildStands(env, snap, annotated);
    var raw := ResolveOperativeVRefs(env, refs, annotated, stands, parentStand);
    var leaf := LeafOracle(env, snap, ctx);
    var proven := ApplyChildFreshnessProof(raw, leaf);
    out := MarkSupersededPastKindV(env, proven, annotated, stands);
    assert proven == seq(|raw|, i requires 0 <= i < |raw| => ApplyProof(leaf, raw[i]));
  }

  // ---------- the parent ----------

  /** Everything a parent evaluation settles before Evaluate; leaf answers for children. */
  ghost function ParentInput(env: Env, snap: Snapshot, ctx: Context, lawID: string, linked: seq<LinkedInstrument>,
                             asOf: int, discoveryFailed: bool, leaf: string -> FreshnessState): Input {
    var stand := StandOf(snap, lawID);
    var refs := EvidenceRefs(env, snap, linked, lawID, stand);
    var annotated := Chain.Annotated(linked, asOf);
    var stands := ChildStands(env, snap, annotated);
    var proof := ProvenList(env, annotated, stands, Resolutions(env, refs, annotated, stands, stand), leaf);
    InputFor(env, snap, ctx.(linksReadFailed := ctx.linksReadFailed || discoveryFailed), lawID, linked,
             |linked| > 0 || discoveryFailed, Some(proof))
  }

  /** The context children are judged in: a failed read of the parent's links or edges reaches them. */
  function ProofContext(snap: Snapshot, ctx: Context, lawID: string, discoveryFailed: bool): Context {
    ctx.(linksReadFailed := lawID in snap.unreadableLinks || discoveryFailed)
  }

  /** The parent input with every child judged as a leaf. */
  ghost function ServedInput(env: Env, snap: Snapshot, ctx: Context, lawID: string, linked: seq<LinkedInstrument>,
                             asOf: int, discoveryFailed: bool): Input {
    ParentInput(env, snap, ctx, lawID, linked, asOf, discoveryFailed,
                LeafOracle(env, snap, ProofContext(snap, ctx, lawID, discoveryFailed)))
  }

  /** The evaluation part shared by freshnessFor and Reconcile: linked holds the operative linked
      instruments, ctx.linksReadFailed is false on entry, asOf is the day of now. */
  method EvaluateLaw(env: Env, snap: Snapshot, ctx: Context, lawID: string, linked: seq<LinkedInstrument>,
                     asOf: int, discoveryFailed: bool) returns (rec: FreshnessRecord)
    requires !ctx.linksReadFailed
    ensures rec == Freshness.Verdict(ServedInput(env, snap, ctx, lawID, linked, asOf, discoveryFailed), NowOf(ctx))
  {
    var stand := StandOf(snap, lawID);
    var issues, classes, linksErr := GatherLinks(snap, lawID);
    var refs, cited := CollectEvidence(env, snap, linked, lawID, stand);
    var hasLinked := |linked| > 0 || discoveryFailed;
    var annotated := Chain.AnnotateChain(linked, asOf);
    var proofCtx := ctx.(linksReadFailed := linksErr || discoveryFailed);
    var resolutions := ProveVRefResolutions(env, snap, proofCtx, refs, annotated, stand);
    var inp := Input(lawID, stand, issues, classes, refs, cited, hasLinked, Some(resolutions),
                     linksErr || discoveryFailed, ctx.lastTOCSuccess, ctx.lastGIIFeedSuccess, ctx.lastBGBlSuccess,
                     ctx.bgblFromProbeOnly, ctx.now, ctx.maxAge);
    rec := Freshness.Evaluate(inp, ctx.clock);
  }
}
