/** The verdict the program serves, on the stamps its sync jobs left: the soundness of the parent and of
    its children and the sync-run safety, put together. */
module EndToEnd {
  import opened Domain
  import opened Freshness
  import opened VRefs
  import opened Verdict
  import opened VerdictSoundness
  import opened StandOrder
  import Chain
  import SyncJobs

  /** The context freshnessFor and Reconcile build from the stored stamps. */
  ghost predicate ReadsStamps(ctx: Context, meta: SyncJobs.Meta) {
    var feed := EffectiveBGBlFeedTime(SyncJobs.At(meta, SyncJobs.BGBL), SyncJobs.At(meta, SyncJobs.DEGRADED));
    var e := BGBLEvidence(feed, SyncJobs.At(meta, SyncJobs.ELI), ctx.now, ctx.maxAge);
    && ctx.now != 0 && !ctx.linksReadFailed
    && ctx.lastTOCSuccess == SyncJobs.At(meta, SyncJobs.TOC) && ctx.lastGIIFeedSuccess == SyncJobs.At(meta, SyncJobs.GII)
    && ctx.lastBGBlSuccess == e.at && ctx.bgblFromProbeOnly == e.probeOnly
  }

  /** A child settles on its own: an id, readable links, a parsed Stand, no counted issue newer than it,
      and no operative ref it leaves open. */
  ghost predicate ChildSettled(env: Env, snap: Snapshot, ctx: Context, slug: string) {
    var inp := InputFor(env, snap, ctx, env.key(slug), [], false, None);
    && env.key(slug) != "" && !inp.linksReadFailed && inp.stand.parseOK
    && (forall iss :: !CountedNewer(inp, iss))
    && (forall ref :: ref in inp.instrumentRefs ==> !Considered(inp, ref))
  }

  /** The three ways, with every confirmed child spelled out. */
  ghost predicate AccountedFor(env: Env, snap: Snapshot, ctx: Context, s: Setting, ref: InstrumentRef) {
    || (exists c :: c in s.annotated && IsCurrentCandidate(c) && MatchedTo(env, ref, c, s.stands) &&
          ChildSettled(env, snap, ctx, c.giiSlug))
    || PastOnly(s, ref)
    || (&& IsKindV(ref)
        && (exists p :: p in s.annotated && IsPast(p) && ChildMatchesRef(env, ref, p, s.stands))
        && (exists c :: c in s.annotated && IsCurrentCandidate(c) && SuccessorSection(s, ref, Chain.GroupOf(c)) &&
              ChildSettled(env, snap, ctx, c.giiSlug)))
  }

  lemma LeafSettled(env: Env, snap: Snapshot, ctx: Context, slug: string)
    requires LeafOracle(env, snap, ctx)(slug) == ConfirmedCurrent
    ensures ChildSettled(env, snap, ctx, slug)
  {
    LeafConfirmedMeaning(env, snap, ctx, slug);
  }

  lemma AccountedByLeaves(env: Env, snap: Snapshot, ctx: Context, s: Setting, ref: InstrumentRef)
    requires s.env == env && s.leaf == LeafOracle(env, snap, ctx)
    requires ProvenByChild(s, ref) || PastOnly(s, ref) || SupersededBySibling(s, ref)
    ensures AccountedFor(env, snap, ctx, s, ref)
  {
    if ProvenByChild(s, ref) {
      var c :| c in s.annotated && IsCurrentCandidate(c) && MatchedTo(s.env, ref, c, s.stands) && s.leaf(c.giiSlug) == ConfirmedCurrent;
      LeafSettled(env, snap, ctx, c.giiSlug);
    } else if SupersededBySibling(s, ref) {
      var c :| c in s.annotated && IsCurrentCandidate(c) && SuccessorSection(s, ref, Chain.GroupOf(c)) && s.leaf(c.giiSlug) == ConfirmedCurrent;
      LeafSettled(env, snap, ctx, c.giiSlug);
    }
  }

  /** The served record, end to end. A law is confirmed current only if TOC, GII and BGBl runs did all
      their work within the maximum age, all links and edges were read, its Stand is parsed and no counted
      issue is newer, and every operative ref the Stand does not reflect is settled by a child's own
      Stand, by the past chain, or by a settled successor in its section. */
  lemma ServedConfirmedIsProven(env: Env, snap: Snapshot, ctx: Context, jobs: seq<SyncJobs.Job>, lawID: string,
                                linked: seq<LinkedInstrument>, asOf: int, discoveryFailed: bool)
    requires CanonicalParser(env.parse) && ReadsStamps(ctx, SyncJobs.Run(jobs))
    requires forall li :: li in linked ==> li.giiSlug != ""
    requires Freshness.Verdict(ServedInput(env, snap, ctx, lawID, linked, asOf, discoveryFailed), NowOf(ctx)).state
             == ConfirmedCurrent
    ensures forall key :: SyncJobs.IsRequired(key) ==>
      SyncJobs.HasFreshSuccess(jobs, key, ctx.now, EffectiveMaxAge(ctx.maxAge))
    ensures !discoveryFailed && lawID !in snap.unreadableLinks && StandOf(snap, lawID).parseOK
    ensures var inp := ServedInput(env, snap, ctx, lawID, linked, asOf, discoveryFailed);
      var s := SettingOf(env, snap, lawID, linked, asOf, LeafOracle(env, snap, ctx));
      && (forall iss :: !CountedNewer(inp, iss))
      && (forall ref :: ref in inp.instrumentRefs && Considered(inp, ref) ==> AccountedFor(env, snap, ctx, s, ref))
  {
    var proofCtx := ProofContext(snap, ctx, lawID, discoveryFailed);
    var leaf := LeafOracle(env, snap, proofCtx);
    var inp := ServedInput(env, snap, ctx, lawID, linked, asOf, discoveryFailed);
    SyncJobs.ConfirmedCurrentNeedsSuccesses(jobs, inp, ctx.now);
    ConfirmedCurrentIsProven(env, snap, ctx, lawID, linked, asOf, discoveryFailed, leaf);
    assert proofCtx == ctx;
    var s := SettingOf(env, snap, lawID, linked, asOf, leaf);
    forall ref | ref in inp.instrumentRefs && Considered(inp, ref) ensures AccountedFor(env, snap, ctx, s, ref) {
      AccountedByLeaves(env, snap, ctx, s, ref);
    }
  }

  /** Such a law rests on three runs that left nothing out: the whole table of contents, every item of the
      GII feed, and every item of every BGBl feed, each within the maximum age. */
  lemma ServedNeedsCompleteRuns(env: Env, snap: Snapshot, ctx: Context, jobs: seq<SyncJobs.Job>, lawID: string,
                                linked: seq<LinkedInstrument>, asOf: int, discoveryFailed: bool)
    requires ReadsStamps(ctx, SyncJobs.Run(jobs)) && ctx.maxAge <= MAX_DURATION
    requires Freshness.Verdict(ServedInput(env, snap, ctx, lawID, linked, asOf, discoveryFailed), NowOf(ctx)).state
             == ConfirmedCurrent
    ensures exists t :: SyncJobs.ReadAllLaws(jobs, t) && Recent(t, ctx.now, ctx.maxAge)
    ensures exists t :: SyncJobs.ReadGIIFeed(jobs, t) && Recent(t, ctx.now, ctx.maxAge)
    ensures exists t :: SyncJobs.ReadAllFeeds(jobs, t) && Recent(t, ctx.now, ctx.maxAge)
  {
    SyncJobs.ConfirmedCurrentNeedsCompleteRuns(jobs, ServedInput(env, snap, ctx, lawID, linked, asOf, discoveryFailed), ctx.now);
  }

  /** While a feed error stands, no law of any store is served as current. */
  lemma NothingServedWhileDegraded(env: Env, snap: Snapshot, ctx: Context, jobs: seq<SyncJobs.Job>, i: nat, lawID: string,
                                   linked: seq<LinkedInstrument>, asOf: int, discoveryFailed: bool)
    requires ReadsStamps(ctx, SyncJobs.Run(jobs))
    requires SyncJobs.StrictlyIncreasingClock(jobs) && i < |jobs| && SyncJobs.Marks(jobs[i])
    requires forall j :: i < j < |jobs| ==> !SyncJobs.FeedSuccess(jobs, j)
    requires SyncJobs.StandingError(jobs, i)
    ensures Freshness.Verdict(ServedInput(env, snap, ctx, lawID, linked, asOf, discoveryFailed), NowOf(ctx)).state
            != ConfirmedCurrent
  {
    SyncJobs.NoConfirmedUntilSuccess(jobs, i, ServedInput(env, snap, ctx, lawID, linked, asOf, discoveryFailed), ctx.now);
  }
}
