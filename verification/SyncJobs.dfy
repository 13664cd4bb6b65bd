/** The sync jobs as steps on the stored success stamps (internal/sync: orchestrator.go, meta.go),
    and what those stamps allow the freshness verdict to say. */
module SyncJobs {
  import opened Domain
  import opened Freshness
  import opened StandOrder

  // ---------- jobs and their outcomes ----------

  /** One BGBl feed: it could not be fetched and parsed, or its items were stored one by one. */
  datatype Feed = FeedFailed | FeedRead(stored: seq<bool>)

  datatype Probe = RequestFailed | NotFound | Found(stored: bool)

  /** One job run; at is the instant of its last time.Now(). The flags ending in Written say whether
      the store accepted that write. */
  datatype Job =
    | Toc(fetched: bool, lawsWritten: bool, at: Time, stampWritten: bool)
    | GiiFeed(fetched: bool, stored: seq<bool>, at: Time, stampWritten: bool)
    | BgblFeeds(feeds: seq<Feed>, at: Time, markWritten: bool, clearWritten: bool, stampWritten: bool)
    | EliProbe(probes: seq<Probe>, at: Time, stampWritten: bool)

  const TOC := "last_toc_success"
  const GII := "last_gii_feed_success"
  const BGBL := "last_bgbl_feed_success"
  const ELI := "last_eli_probe_success"
  const DEGRADED := "last_bgbl_feed_degraded"

  type Meta = map<string, Time>

  /** GetMetaTime with its flag ignored. */
  function At(meta: Meta, key: string): Time { if key in meta then meta[key] else 0 }

  // ---------- specification ----------

  /** stampSuccessMeta: stamps never move backwards. */
  function Stamped(meta: Meta, key: string, t: Time, written: bool): Meta {
    if (key in meta && meta[key] > t) || !written then meta else meta[key := t]
  }

  predicate AnyFeedFailed(job: Job) requires job.BgblFeeds? {
    exists i :: 0 <= i < |job.feeds| && job.feeds[i].FeedFailed?
  }

  predicate AnyItem(job: Job) requires job.BgblFeeds? {
    exists i :: 0 <= i < |job.feeds| && job.feeds[i].FeedRead? && job.feeds[i].stored != []
  }

  predicate AllItemsStored(job: Job) requires job.BgblFeeds? {
    forall i :: 0 <= i < |job.feeds| && job.feeds[i].FeedRead? ==> forall k :: 0 <= k < |job.feeds[i].stored| ==> job.feeds[i].stored[k]
  }

  /** The job did all its reading and storing; only its final writes are left. */
  predicate WorkDone(job: Job) {
    match job
    case Toc(fetched, lawsWritten, _, _) => fetched && lawsWritten
    case GiiFeed(fetched, stored, _, _) => fetched && forall k :: 0 <= k < |stored| ==> stored[k]
    case BgblFeeds(_, _, _, _, _) => !AnyFeedFailed(job) && AnyItem(job) && AllItemsStored(job)
    case EliProbe(probes, _, _) =>
      && (exists i :: 0 <= i < |probes| && !probes[i].RequestFailed?)
      && (forall i :: 0 <= i < |probes| && probes[i].Found? ==> probes[i].stored)
  }

  function StampKey(job: Job): string {
    match job
    case Toc(_, _, _, _) => TOC
    case GiiFeed(_, _, _, _) => GII
    case BgblFeeds(_, _, _, _, _) => BGBL
    case EliProbe(_, _, _) => ELI
  }

  /** The job reports success: all work done and the stamp written, or rightly left where it is. */
  predicate Succeeds(meta: Meta, job: Job) {
    var key := StampKey(job);
    WorkDone(job) && (job.stampWritten || (key in meta && meta[key] > job.at))
  }

  /** What a job run leaves in the store. */
  function Step(meta: Meta, job: Job): Meta {
    if WorkDone(job) then
      var cleared := if job.BgblFeeds? && job.clearWritten then meta[DEGRADED := 0] else meta;
      Stamped(cleared, StampKey(job), job.at, job.stampWritten)
    else if job.BgblFeeds? && AnyFeedFailed(job) && job.markWritten then meta[DEGRADED := job.at]
    else meta
  }

  /** The stamp under key is t when the write was accepted and no later one stood there, else what it was;
      everything under other keys, but for the key left out, is as before. */
  ghost predicate StampRaised(before: Meta, after: Meta, key: string, t: Time, written: bool, but: string) {
    && At(after, key) == (if written && At(before, key) <= t then t else At(before, key))
    && forall k :: k != key && k != but ==> At(after, k) == At(before, k)
  }

  function Run(jobs: seq<Job>): Meta {
    if jobs == [] then map[] else Step(Run(jobs[..|jobs| - 1]), jobs[|jobs| - 1])
  }

  /** The same, told by what the job met: nothing unread, nothing refused, and something to do. */
  ghost predicate Complete(job: Job) {
    match job
    case Toc(fetched, lawsWritten, _, _) => fetched && lawsWritten
    case GiiFeed(fetched, stored, _, _) => fetched && false !in stored
    case BgblFeeds(feeds, _, _, _, _) =>
      && FeedFailed !in feeds
      && (exists f :: f in feeds && f.FeedRead? && f.stored != [])
      && (forall f :: f in feeds && f.FeedRead? ==> false !in f.stored)
    case EliProbe(probes, _, _) => (exists p :: p in probes && p != RequestFailed) && Found(false) !in probes
  }

  lemma FeedsMeaning(job: Job)
    requires job.BgblFeeds?
    ensures AnyFeedFailed(job) <==> FeedFailed in job.feeds
    ensures AnyItem(job) <==> exists f :: f in job.feeds && f.FeedRead? && f.stored != []
    ensures AllItemsStored(job) <==> forall f :: f in job.feeds && f.FeedRead? ==> false !in f.stored
  {
    if f :| f in job.feeds && f.FeedRead? && f.stored != [] {
      var i :| 0 <= i < |job.feeds| && job.feeds[i] == f;
    }
    if AnyItem(job) {
      var i :| 0 <= i < |job.feeds| && job.feeds[i].FeedRead? && job.feeds[i].stored != [];
      assert job.feeds[i] in job.feeds;
    }
    if AllItemsStored(job) {
      forall f | f in job.feeds && f.FeedRead? ensures false !in f.stored {
        var i :| 0 <= i < |job.feeds| && job.feeds[i] == f;
      }
    }
    if forall f :: f in job.feeds && f.FeedRead? ==> false !in f.stored {
      forall i, k | 0 <= i < |job.feeds| && job.feeds[i].FeedRead? && 0 <= k < |job.feeds[i].stored| ensures job.feeds[i].stored[k] {
        assert job.feeds[i] in job.feeds && job.feeds[i].stored[k] in job.feeds[i].stored;
      }
    }
  }

  lemma CompleteIff(job: Job)
    ensures WorkDone(job) <==> Complete(job)
  {
    match job
    case Toc(_, _, _, _) =>
    case GiiFeed(_, stored, _, _) => assert (forall k :: 0 <= k < |stored| ==> stored[k]) <==> false !in stored;
    case BgblFeeds(_, _, _, _, _) => FeedsMeaning(job);
    case EliProbe(probes, _, _) =>
      if p :| p in probes && p != RequestFailed {
        var i :| 0 <= i < |probes| && probes[i] == p;
        assert !probes[i].RequestFailed?;
      }
      if i :| 0 <= i < |probes| && !probes[i].RequestFailed? { assert probes[i] in probes; }
      if i :| 0 <= i < |probes| && probes[i].Found? && !probes[i].stored { assert probes[i] in probes; }
  }

  // ---------- the jobs ----------

  class Orchestrator {
    var meta: Meta

    constructor ()
      ensures meta == map[]
    {
      meta := map[];
    }

    method StampSuccessMeta(key: string, t: Time, written: bool) returns (ok: bool)
      modifies this
      ensures meta == Stamped(old(meta), key, t, written)
      ensures ok == (written || (key in old(meta) && old(meta)[key] > t))
      ensures StampRaised(old(meta), meta, key, t, written, key)
    {
      if key in meta && meta[key] > t { return true; }
      if written { meta := meta[key := t]; }
      ok := written;
    }

    method RunTOC(job: Job) returns (ok: bool)
      requires job.Toc?
      modifies this
      ensures meta == Step(old(meta), job)
      ensures ok == Succeeds(old(meta), job)
      ensures if job.fetched && job.lawsWritten
              then StampRaised(old(meta), meta, TOC, job.at, job.stampWritten, TOC) && ok == (job.stampWritten || At(old(meta), TOC) > job.at)
              else !ok && meta == old(meta)
    {
      if !job.fetched { return false; }
      if !job.lawsWritten { return false; }
      ok := StampSuccessMeta(TOC, job.at, job.stampWritten);
    }

    /** kept is the number of items the store accepted: a refused item does not keep later ones out. */
    method RunGIIFeed(job: Job) returns (ok: bool, kept: nat)
      requires job.GiiFeed?
      modifies this
      ensures meta == Step(old(meta), job)
      ensures ok == Succeeds(old(meta), job)
      ensures kept == if job.fetched then multiset(job.stored)[true] else 0
      ensures if job.fetched && false !in job.stored
              then StampRaised(old(meta), meta, GII, job.at, job.stampWritten, GII) && ok == (job.stampWritten || At(old(meta), GII) > job.at)
              else !ok && meta == old(meta)
    {
      kept := 0;
      if !job.fetched { return false, kept; }
      var storeErr := false;
      for i := 0 to |job.stored|
        invariant storeErr <==> exists k :: 0 <= k < i && !job.stored[k]
        invariant kept == multiset(job.stored[..i])[true]
        invariant meta == old(meta)
      {
        assert job.stored[..i + 1] == job.stored[..i] + [job.stored[i]];
        if job.stored[i] { kept := kept + 1; } else { storeErr := true; }
      }
      assert job.stored[..|job.stored|] == job.stored;
      if storeErr { return false, kept; }
      ok := StampSuccessMeta(GII, job.at, job.stampWritten);
    }

    method RunBGBlFeeds(job: Job) returns (ok: bool)
      requires job.BgblFeeds?
      modifies this
      ensures meta == Step(old(meta), job)
      ensures ok == Succeeds(old(meta), job)
      ensures FeedFailed in job.feeds ==> !ok && meta == if job.markWritten then old(meta)[DEGRADED := job.at] else old(meta)
      ensures FeedFailed !in job.feeds && ((forall f :: f in job.feeds ==> f.stored == []) || exists f :: f in job.feeds && false in f.stored)
              ==> !ok && meta == old(meta)
      ensures FeedFailed !in job.feeds && (exists f :: f in job.feeds && f.stored != []) && (forall f :: f in job.feeds ==> false !in f.stored)
              ==> && StampRaised(old(meta), meta, BGBL, job.at, job.stampWritten, DEGRADED)
                  && At(meta, DEGRADED) == (if job.clearWritten then 0 else At(old(meta), DEGRADED))
                  && ok == (job.stampWritten || At(old(meta), BGBL) > job.at)
    {
      CompleteIff(job);
      FeedsMeaning(job);
      var count, storeErr, feedErr := 0, false, false;
      for i := 0 to |job.feeds|
        invariant feedErr <==> exists k :: 0 <= k < i && job.feeds[k].FeedFailed?
        invariant count > 0 <==> exists k :: 0 <= k < i && job.feeds[k].FeedRead? && job.feeds[k].stored != []
        invariant storeErr <==> exists k, l :: 0 <= k < i && job.feeds[k].FeedRead? && 0 <= l < |job.feeds[k].stored| && !job.feeds[k].stored[l]
        invariant count >= 0 && meta == old(meta)
      {
        match job.feeds[i]
        case FeedFailed => feedErr := true;
        case FeedRead(stored) =>
          var before, failedBefore := count, storeErr;
          for j := 0 to |stored|
            invariant count == before + j
            invariant storeErr <==> failedBefore || exists l :: 0 <= l < j && !stored[l]
            invariant meta == old(meta)
          {
            if !stored[j] { storeErr := true; }
            count := count + 1;
          }
          assert job.feeds[i].stored == stored;
      }
      if feedErr {
        if job.markWritten { meta := meta[DEGRADED := job.at]; }
        return false;
      }
      if count == 0 { return false; }
      if storeErr { return false; }
      if job.clearWritten { meta := meta[DEGRADED := 0]; }
      ok := StampSuccessMeta(BGBL, job.at, job.stampWritten);
    }

    method RunELIProbe(job: Job) returns (ok: bool)
      requires job.EliProbe?
      modifies this
      ensures meta == Step(old(meta), job)
      ensures ok == Succeeds(old(meta), job)
      ensures if (exists p :: p in job.probes && p != RequestFailed) && Found(false) !in job.probes
              then StampRaised(old(meta), meta, ELI, job.at, job.stampWritten, ELI) && ok == (job.stampWritten || At(old(meta), ELI) > job.at)
              else !ok && meta == old(meta)
    {
      CompleteIff(job);
      var anyHTTPSuccess, storeErr := false, false;
      for i := 0 to |job.probes|
        invariant anyHTTPSuccess <==> exists k :: 0 <= k < i && !job.probes[k].RequestFailed?
        invariant storeErr <==> exists k :: 0 <= k < i && job.probes[k].Found? && !job.probes[k].stored
        invariant meta == old(meta)
      {
        match job.probes[i]
        case RequestFailed => continue;
        case NotFound => anyHTTPSuccess := true;
        case Found(stored) =>
          anyHTTPSuccess := true;
          if !stored { storeErr := true; }
      }
      if !anyHTTPSuccess { return false; }
      if storeErr { return false; }
      ok := StampSuccessMeta(ELI, job.at, job.stampWritten);
    }
  }

  // ---------- stamps only rise ----------

  predicate IsStamp(key: string) { key == TOC || key == GII || key == BGBL || key == ELI }

  /** Over any runs, on any clock, success stamps never decrease. */
  lemma {:induction false} StampsNeverDecrease(jobs: seq<Job>, n: nat, key: string)
    requires n <= |jobs| && IsStamp(key)
    ensures At(Run(jobs[..n]), key) <= At(Run(jobs), key)
  {
    if n == |jobs| {
      assert jobs[..n] == jobs;
    } else {
      var front := jobs[..|jobs| - 1];
      StampsNeverDecrease(front, n, key);
      assert front[..n] == jobs[..n];
      assert At(Run(front), key) <= At(Step(Run(front), jobs[|jobs| - 1]), key);
    }
  }

  // ---------- every stamp is a success ----------

  /** A run of the right kind that did all its work at the instant t. */
  ghost predicate SucceededAt(jobs: seq<Job>, key: string, t: Time) {
    exists i :: 0 <= i < |jobs| && StampKey(jobs[i]) == key && WorkDone(jobs[i]) && jobs[i].stampWritten && jobs[i].at == t
  }

  lemma {:induction false} StampsAreSuccesses(jobs: seq<Job>, key: string)
    requires IsStamp(key)
    ensures At(Run(jobs), key) != 0 ==> SucceededAt(jobs, key, At(Run(jobs), key))
  {
    if jobs != [] {
      var k := |jobs| - 1;
      StampsAreSuccesses(jobs[..k], key);
      var t := At(Run(jobs), key);
      if t != 0 {
        if At(Run(jobs[..k]), key) == t {
          var i :| 0 <= i < k && StampKey(jobs[..k][i]) == key && WorkDone(jobs[..k][i]) && jobs[..k][i].stampWritten && jobs[..k][i].at == t;
          assert jobs[i] == jobs[..k][i];
        } else {
          assert StampKey(jobs[k]) == key && WorkDone(jobs[k]) && jobs[k].stampWritten && jobs[k].at == t;
        }
      }
    }
  }

  // ---------- the verdict on these stamps ----------

  /** The sync evidence of an evaluation at the instant now: as freshnessFor and Reconcile read it. */
  ghost predicate FedBy(inp: Input, meta: Meta, now: Time) {
    var e := BGBLEvidence(EffectiveBGBlFeedTime(At(meta, BGBL), At(meta, DEGRADED)), At(meta, ELI), now, inp.maxAge);
    && inp.now == now != 0
    && inp.lastTOCSuccess == At(meta, TOC) && inp.lastGIIFeedSuccess == At(meta, GII)
    && inp.lastBGBlSuccess == e.at && inp.bgblFromProbeOnly == e.probeOnly
  }

  predicate IsRequired(key: string) { key == TOC || key == GII || key == BGBL }

  ghost predicate HasFreshSuccess(jobs: seq<Job>, key: string, now: Time, age: int) {
    exists t :: SucceededAt(jobs, key, t) && TimestampFresh(t, now, age)
  }

  /** Any confirmed_current rests on a full TOC, GII and BGBl success within the maximum age, whatever
      the clock did. */
  lemma ConfirmedCurrentNeedsSuccesses(jobs: seq<Job>, inp: Input, now: Time)
    requires FedBy(inp, Run(jobs), now) && Verdict(inp, now).state == ConfirmedCurrent
    ensures forall key :: IsRequired(key) ==> HasFreshSuccess(jobs, key, now, EffectiveMaxAge(inp.maxAge))
  {
    var meta := Run(jobs);
    VerdictExact(inp, now);
    forall key | IsRequired(key)
      ensures SucceededAt(jobs, key, At(meta, key)) && TimestampFresh(At(meta, key), now, EffectiveMaxAge(inp.maxAge))
    {
      StampsAreSuccesses(jobs, key);
    }
  }

  /** Some run read the whole table of contents and wrote the catalog, and stamped at t. */
  ghost predicate ReadAllLaws(jobs: seq<Job>, t: Time) {
    exists job :: job in jobs && job.Toc? && job.fetched && job.lawsWritten && job.stampWritten && job.at == t
  }

  /** Some run read the GII feed and stored every item of it, and stamped at t. */
  ghost predicate ReadGIIFeed(jobs: seq<Job>, t: Time) {
    exists job :: job in jobs && job.GiiFeed? && job.fetched && false !in job.stored && job.stampWritten && job.at == t
  }

  /** Some run read every BGBl feed, found items and stored all of them, and stamped at t. */
  ghost predicate ReadAllFeeds(jobs: seq<Job>, t: Time) {
    exists job :: job in jobs && job.BgblFeeds? && FeedFailed !in job.feeds && job.stampWritten && job.at == t &&
      (exists f :: f in job.feeds && f.FeedRead? && f.stored != []) && (forall f :: f in job.feeds && f.FeedRead? ==> false !in f.stored)
  }

  /** Any confirmed_current rests on three runs that left nothing out, each within the maximum age. */
  lemma ConfirmedCurrentNeedsCompleteRuns(jobs: seq<Job>, inp: Input, now: Time)
    requires FedBy(inp, Run(jobs), now) && Verdict(inp, now).state == ConfirmedCurrent && inp.maxAge <= MAX_DURATION
    ensures exists t :: ReadAllLaws(jobs, t) && Recent(t, now, inp.maxAge)
    ensures exists t :: ReadGIIFeed(jobs, t) && Recent(t, now, inp.maxAge)
    ensures exists t :: ReadAllFeeds(jobs, t) && Recent(t, now, inp.maxAge)
  {
    var meta := Run(jobs);
    VerdictExact(inp, now);
    UsableMeaning(inp, now);
    FedIsStamped(inp, meta, now);
    var toc := RunBehind(jobs, TOC);
    assert ReadAllLaws(jobs, At(meta, TOC));
    var gii := RunBehind(jobs, GII);
    assert ReadGIIFeed(jobs, At(meta, GII));
    var bgbl := RunBehind(jobs, BGBL);
    assert ReadAllFeeds(jobs, At(meta, BGBL));
  }

  /** Evidence that is not the probe's is the feed stamp. */
  lemma FedIsStamped(inp: Input, meta: Meta, now: Time)
    requires FedBy(inp, meta, now) && AllRead(inp, now)
    ensures inp.lastBGBlSuccess == At(meta, BGBL)
  {
  }

  /** The run that left a stamp. */
  lemma RunBehind(jobs: seq<Job>, key: string) returns (job: Job)
    requires IsStamp(key) && At(Run(jobs), key) != 0
    ensures job in jobs && StampKey(job) == key && Complete(job) && job.stampWritten && job.at == At(Run(jobs), key)
  {
    StampsAreSuccesses(jobs, key);
    var i :| 0 <= i < |jobs| && StampKey(jobs[i]) == key && WorkDone(jobs[i]) && jobs[i].stampWritten && jobs[i].at == At(Run(jobs), key);
    job := jobs[i];
    CompleteIff(job);
  }

  ghost predicate StrictlyIncreasingClock(jobs: seq<Job>) {
    && (forall i :: 0 <= i < |jobs| ==> jobs[i].at > 0)
    && (forall i, j :: 0 <= i < j < |jobs| ==> jobs[i].at < jobs[j].at)
  }

  /** A feed error whose mark reached the store. */
  predicate Marks(job: Job) { job.BgblFeeds? && !WorkDone(job) && AnyFeedFailed(job) && job.markWritten }

  /** All feeds read and stored, and at least one of the two final writes accepted. */
  predicate Lifts(job: Job) { job.BgblFeeds? && WorkDone(job) && (job.clearWritten || job.stampWritten) }

  /** The last feed error has not been lifted since. */
  predicate Degraded(jobs: seq<Job>) {
    jobs != [] &&
    var last := jobs[|jobs| - 1];
    Marks(last) || (!Lifts(last) && Degraded(jobs[..|jobs| - 1]))
  }

  lemma {:induction false} StampsBelowClock(jobs: seq<Job>, t: Time)
    requires forall i :: 0 <= i < |jobs| ==> jobs[i].at < t
    requires t > 0
    ensures At(Run(jobs), BGBL) < t && At(Run(jobs), DEGRADED) < t
  {
    if jobs != [] { StampsBelowClock(jobs[..|jobs| - 1], t); }
  }

  predicate Void(meta: Meta) { EffectiveBGBlFeedTime(At(meta, BGBL), At(meta, DEGRADED)) == 0 }

  /** One run that is later than all stamps. */
  lemma EvidenceStep(meta: Meta, job: Job, degraded: bool)
    requires job.at > 0 && At(meta, BGBL) < job.at && At(meta, DEGRADED) < job.at
    requires Void(meta) <==> At(meta, BGBL) == 0 || degraded
    ensures Void(Step(meta, job)) <==> At(Step(meta, job), BGBL) == 0 || Marks(job) || (!Lifts(job) && degraded)
  {
  }

  /** On a strictly increasing clock the feed evidence is void exactly before the first stamped
      success and while the last feed error stands. */
  lemma {:induction false} EvidenceExact(jobs: seq<Job>)
    requires StrictlyIncreasingClock(jobs)
    ensures EffectiveBGBlFeedTime(At(Run(jobs), BGBL), At(Run(jobs), DEGRADED)) == 0 <==>
            At(Run(jobs), BGBL) == 0 || Degraded(jobs)
  {
    if jobs != [] {
      var k := |jobs| - 1;
      EvidenceExact(jobs[..k]);
      StampsBelowClock(jobs[..k], jobs[k].at);
      EvidenceStep(Run(jobs[..k]), jobs[k], Degraded(jobs[..k]));
    }
  }

  /** From a BGBl feed error until a complete feed run writes its clear or its stamp no law evaluates to
      confirmed_current. */
  lemma NoConfirmedWhileDegraded(jobs: seq<Job>, inp: Input, now: Time)
    requires StrictlyIncreasingClock(jobs) && Degraded(jobs) && FedBy(inp, Run(jobs), now)
    ensures Verdict(inp, now).state != ConfirmedCurrent
  {
    EvidenceExact(jobs);
    VerdictExact(inp, now);
  }

  /** The same, read off the history: an error at position i, nothing lifting it afterwards. */
  lemma {:induction false} ErrorDegradesUntilLifted(jobs: seq<Job>, i: nat)
    requires i < |jobs| && Marks(jobs[i])
    requires forall j :: i < j < |jobs| ==> !Lifts(jobs[j])
    ensures Degraded(jobs)
  {
    if i < |jobs| - 1 { ErrorDegradesUntilLifted(jobs[..|jobs| - 1], i); }
  }

  // ---------- until the next success ----------

  /** A complete feed run that cleared the mark but could not stamp: it is reported as failed. */
  predicate ClearsOnly(job: Job) { job.BgblFeeds? && WorkDone(job) && job.clearWritten && !job.stampWritten }

  /** Run j is a BGBl feed run that reports success. */
  ghost predicate FeedSuccess(jobs: seq<Job>, j: nat)
    requires j < |jobs|
  {
    jobs[j].BgblFeeds? && Succeeds(Run(jobs[..j]), jobs[j])
  }

  /** On a strictly increasing clock a run ends the block when it succeeds or clears without a stamp. */
  lemma LiftsIff(jobs: seq<Job>, j: nat)
    requires StrictlyIncreasingClock(jobs) && j < |jobs|
    ensures Lifts(jobs[j]) <==> FeedSuccess(jobs, j) || ClearsOnly(jobs[j])
  {
    StampsBelowClock(jobs[..j], jobs[j].at);
  }

  /** Some marked error from position i on is the last word, but for complete runs that wrote nothing. */
  ghost predicate StandingError(jobs: seq<Job>, i: nat) {
    exists m :: i <= m < |jobs| && Uncleared(jobs, m)
  }

  /** Run m marks an error that no later run clears without a stamp. */
  ghost predicate Uncleared(jobs: seq<Job>, m: nat)
    requires m < |jobs|
  {
    Marks(jobs[m]) && forall j :: m < j < |jobs| ==> !ClearsOnly(jobs[j])
  }

  /** Run m marks an error that no later run lifts. */
  ghost predicate Unlifted(jobs: seq<Job>, m: nat)
    requires m < |jobs|
  {
    Marks(jobs[m]) && forall j :: m < j < |jobs| ==> !Lifts(jobs[j])
  }

  lemma UnliftedSnoc(front: seq<Job>, last: Job, m: nat)
    requires m < |front|
    ensures Unlifted(front + [last], m) <==> Unlifted(front, m) && !Lifts(last)
  {
    var all := front + [last];
    assert all[|front|] == last && forall j :: 0 <= j < |front| ==> all[j] == front[j];
  }

  lemma {:induction false} DegradedIff(jobs: seq<Job>)
    ensures Degraded(jobs) <==> exists m :: 0 <= m < |jobs| && Unlifted(jobs, m)
  {
    if jobs != [] {
      var k := |jobs| - 1;
      var front := jobs[..k];
      DegradedIff(front);
      assert jobs == front + [jobs[k]];
      forall m | 0 <= m < k { UnliftedSnoc(front, jobs[k], m); }
      assert Unlifted(jobs, k) <==> Marks(jobs[k]);
    }
  }

  /** After a marked error and with no successful feed run since, the block stands exactly as long as no
      complete run has cleared the mark without a stamp after the last marked error. */
  lemma BlockUntilSuccess(jobs: seq<Job>, i: nat)
    requires StrictlyIncreasingClock(jobs) && i < |jobs| && Marks(jobs[i])
    requires forall j :: i < j < |jobs| ==> !FeedSuccess(jobs, j)
    ensures Degraded(jobs) <==> StandingError(jobs, i)
  {
    DegradedIff(jobs);
    forall m | i <= m < |jobs| { UnliftedIffUncleared(jobs, i, m); }
    if m :| 0 <= m < i && Unlifted(jobs, m) { assert Unlifted(jobs, i); }
  }

  lemma UnliftedIffUncleared(jobs: seq<Job>, i: nat, m: nat)
    requires StrictlyIncreasingClock(jobs) && i <= m < |jobs|
    requires forall j :: i < j < |jobs| ==> !FeedSuccess(jobs, j)
    ensures Unlifted(jobs, m) <==> Uncleared(jobs, m)
  {
    forall j | m < j < |jobs| ensures Lifts(jobs[j]) <==> ClearsOnly(jobs[j]) { LiftsIff(jobs, j); }
  }

  /** From a BGBl feed error until the next successful feed run no law evaluates to confirmed_current,
      unless a run has cleared the mark without a stamp; then the old success stamp is evidence again. */
  lemma NoConfirmedUntilSuccess(jobs: seq<Job>, i: nat, inp: Input, now: Time)
    requires StrictlyIncreasingClock(jobs) && i < |jobs| && Marks(jobs[i]) && FedBy(inp, Run(jobs), now)
    requires forall j :: i < j < |jobs| ==> !FeedSuccess(jobs, j)
    ensures StandingError(jobs, i) ==> Verdict(inp, now).state != ConfirmedCurrent
    ensures !StandingError(jobs, i) ==>
      EffectiveBGBlFeedTime(At(Run(jobs), BGBL), At(Run(jobs), DEGRADED)) == At(Run(jobs), BGBL)
  {
    BlockUntilSuccess(jobs, i);
    EvidenceExact(jobs);
    if StandingError(jobs, i) { NoConfirmedWhileDegraded(jobs, inp, now); }
  }

  /** It happens on a forward clock: success, marked error, and a complete run whose clear the store
      accepts and whose stamp it refuses. That run is reported as failed, and the old stamp counts again. */
  lemma ClearWithoutStampRevives() returns (jobs: seq<Job>)
    ensures |jobs| == 3 && StrictlyIncreasingClock(jobs)
    ensures FeedSuccess(jobs, 0) && Marks(jobs[1]) && ClearsOnly(jobs[2]) && !FeedSuccess(jobs, 2)
    ensures EffectiveBGBlFeedTime(At(Run(jobs), BGBL), At(Run(jobs), DEGRADED)) == jobs[0].at
  {
    var read := [FeedRead([true]), FeedRead([true])];
    var good := BgblFeeds(read, 10 * HOUR, true, true, true);
    var bad := BgblFeeds([FeedFailed, FeedRead([true])], 11 * HOUR, true, true, true);
    var half := BgblFeeds(read, 12 * HOUR, true, true, false);
    jobs := [good, bad, half];
    assert good.feeds[0].FeedRead? && half.feeds[0].FeedRead? && bad.feeds[0].FeedFailed?;
    assert WorkDone(good) && WorkDone(half) && !WorkDone(bad);
    assert jobs[..0] == [] && jobs[..1] == [good] && jobs[..2] == [good, bad] && jobs[..2][..1] == [good];
    assert [good][..0] == [] && [good, bad][..1] == [good];
    assert Run([good]) == Step(map[], good);
    assert Run([good, bad]) == Step(Run([good]), bad);
    assert Run(jobs) == Step(Run([good, bad]), half);
  }

  /** On an arbitrary clock the mark of a feed error voids the evidence exactly when it is later than
      the success stamp it meets. */
  lemma MarkEffectiveIff(jobs: seq<Job>, error: Job)
    requires Marks(error) && error.at > 0
    ensures EffectiveBGBlFeedTime(At(Run(jobs + [error]), BGBL), At(Run(jobs + [error]), DEGRADED)) == 0 <==>
            At(Run(jobs), BGBL) == 0 || error.at > At(Run(jobs), BGBL)
  {
    assert (jobs + [error])[..|jobs|] == jobs;
  }

  /** A clock set back between a success and a feed error leaves the old evidence standing. */
  lemma ClockJumpKeepsEvidence() returns (jobs: seq<Job>)
    ensures |jobs| == 2 && Marks(jobs[1]) && jobs[1].at < jobs[0].at && Degraded(jobs)
    ensures EffectiveBGBlFeedTime(At(Run(jobs), BGBL), At(Run(jobs), DEGRADED)) == jobs[0].at
  {
    var good := BgblFeeds([FeedRead([true]), FeedRead([true])], 10 * HOUR, true, true, true);
    var bad := BgblFeeds([FeedFailed, FeedRead([true])], 9 * HOUR, true, true, true);
    jobs := [good, bad];
    assert good.feeds[0].FeedRead? && bad.feeds[0].FeedFailed?;
    assert WorkDone(good);
    assert jobs[..1] == [good] && [good][..0] == [];
    assert Run([good]) == Step(map[], good);
    assert Run(jobs) == Step(Run([good]), bad);
  }

  /** An error whose mark the store refused is not seen: the guarantee needs the write. */
  lemma RefusedMarkKeepsEvidence(jobs: seq<Job>, error: Job)
    requires error.BgblFeeds? && AnyFeedFailed(error) && !error.markWritten
    ensures Run(jobs + [error]) == Run(jobs)
  {
    assert (jobs + [error])[..|jobs|] == jobs;
  }
}
