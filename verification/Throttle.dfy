/** The per-host request throttle (internal/httpx/client.go: waitHost and the last map). */
module Throttle {
  import opened Domain

  /** One pass of some caller through the locked section of waitHost: the clock is read once to
      decide and, on a grant, once more to record. The lock puts the passes of all callers in a row. */
  datatype Attempt = Attempt(host: string, decidedAt: Time, recordedAt: Time)

  type Last = map<string, Time>

  /** A time.Duration that is not negative. */
  type Gap = g: nat | g <= MAX_DURATION

  // ---------- specification ----------

  /** A host never granted before reads as the zero time. */
  function LastOf(last: Last, host: string): Time { if host in last then last[host] else 0 }

  function Wait(minGap: Gap, last: Last, a: Attempt): int {
    Wrap64(minGap - Sub(a.decidedAt, LastOf(last, a.host)))
  }

  predicate Grants(minGap: Gap, last: Last, a: Attempt) { Wait(minGap, last, a) <= 0 }

  function Step(minGap: Gap, last: Last, a: Attempt): Last {
    if Grants(minGap, last, a) then last[a.host := a.recordedAt] else last
  }

  function After(minGap: Gap, run: seq<Attempt>): Last {
    if run == [] then map[] else Step(minGap, After(minGap, run[..|run| - 1]), run[|run| - 1])
  }

  /** The i-th attempt of a run goes through. */
  predicate Granted(minGap: Gap, run: seq<Attempt>, i: nat)
    requires i < |run|
  {
    Grants(minGap, After(minGap, run[..i]), run[i])
  }

  /** The clock does not run backwards within or between the passes. */
  ghost predicate Monotone(run: seq<Attempt>) {
    && (forall i :: 0 <= i < |run| ==> run[i].decidedAt <= run[i].recordedAt)
    && (forall i, j :: 0 <= i < j < |run| ==> run[i].recordedAt <= run[j].decidedAt)
  }

  // ---------- the client ----------

  class Client {
    const minGap: Gap
    var last: Last

    constructor (gap: int)
      requires MIN_DURATION <= gap <= MAX_DURATION
      ensures last == map[] && minGap == if gap < 0 then 0 else gap
    {
      minGap := if gap < 0 then 0 else gap;
      last := map[];
    }

    /** The locked section of waitHost. When the host has to wait, last stays and the caller sleeps
        for the returned time before its next pass. */
    method TryHost(a: Attempt) returns (granted: bool, wait: int)
      modifies this
      ensures granted == Grants(minGap, old(last), a) && wait == Wait(minGap, old(last), a)
      ensures last == if granted then old(last)[a.host := a.recordedAt] else old(last)
    {
      var since := if a.host in last then Sub(a.decidedAt, last[a.host]) else Sub(a.decidedAt, 0);
      wait := Wrap64(minGap - since);
      if wait <= 0 {
        last := last[a.host := a.recordedAt];
        return true, wait;
      }
      granted := false;
    }

    /** All passes of all callers, in the order the lock admits them. */
    method Serve(run: seq<Attempt>) returns (granted: seq<bool>)
      requires last == map[]
      modifies this
      ensures last == After(minGap, run)
      ensures |granted| == |run| && forall i :: 0 <= i < |run| ==> granted[i] == Granted(minGap, run, i)
    {
      granted := [];
      for i := 0 to |run|
        invariant last == After(minGap, run[..i])
        invariant |granted| == i && forall k :: 0 <= k < i ==> granted[k] == Granted(minGap, run, k)
      {
        assert run[..i + 1][..i] == run[..i];
        var ok, _ := TryHost(run[i]);
        granted := granted + [ok];
      }
      assert run[..|run|] == run;
    }
  }

  // ---------- spacing ----------

  /** When the clock has not run back since the last grant, a host is granted exactly when the gap
      has passed. */
  lemma GrantsIff(minGap: Gap, last: Last, a: Attempt)
    requires LastOf(last, a.host) <= a.decidedAt
    ensures Grants(minGap, last, a) <==> a.decidedAt >= LastOf(last, a.host) + minGap
    ensures !Grants(minGap, last, a) ==> Wait(minGap, last, a) == LastOf(last, a.host) + minGap - a.decidedAt
  {
  }

  /** The recorded time never precedes a grant already made, and never lies ahead of the clock. */
  lemma {:induction false} LastIsLatest(minGap: Gap, run: seq<Attempt>, n: nat, host: string)
    requires Monotone(run) && n <= |run|
    ensures forall i :: 0 <= i < n && run[i].host == host && Granted(minGap, run, i) ==>
      run[i].recordedAt <= LastOf(After(minGap, run[..n]), host)
    ensures forall j :: n <= j < |run| ==> LastOf(After(minGap, run[..n]), host) <= run[j].decidedAt
  {
    if n > 0 {
      LastIsLatest(minGap, run, n - 1, host);
      assert run[..n][..n - 1] == run[..n - 1];
    }
  }

  /** Two grants for one host are at least minGap apart, whoever else is served in between. */
  lemma GrantsSpaced(minGap: Gap, run: seq<Attempt>, i: nat, j: nat)
    requires Monotone(run) && i < j < |run| && run[i].host == run[j].host
    requires Granted(minGap, run, i) && Granted(minGap, run, j)
    ensures run[j].decidedAt >= run[i].recordedAt + minGap
  {
    LastIsLatest(minGap, run, j, run[j].host);
    GrantsIff(minGap, After(minGap, run[..j]), run[j]);
  }

  /** Without a gap, as a client made with a negative one has it, nobody ever waits. */
  lemma NoGapNeverWaits(run: seq<Attempt>, i: nat)
    requires Monotone(run) && i < |run|
    ensures Granted(0, run, i)
  {
    LastIsLatest(0, run, i, run[i].host);
    GrantsIff(0, After(0, run[..i]), run[i]);
  }

  predicate InWindow(minGap: Gap, run: seq<Attempt>, host: string, lo: Time, hi: Time, i: nat)
    requires i < |run|
  {
    run[i].host == host && lo <= run[i].recordedAt <= hi && Granted(minGap, run, i)
  }

  /** The grants for a host recorded from lo to hi, among the first n attempts. */
  function GrantCount(minGap: Gap, run: seq<Attempt>, host: string, lo: Time, hi: Time, n: nat): nat
    requires n <= |run|
  {
    if n == 0 then 0
    else GrantCount(minGap, run, host, lo, hi, n - 1) + if InWindow(minGap, run, host, lo, hi, n - 1) then 1 else 0
  }

  lemma {:induction false} WindowFills(minGap: Gap, run: seq<Attempt>, host: string, lo: Time, hi: Time, n: nat)
    returns (latest: nat)
    requires Monotone(run) && n <= |run| && GrantCount(minGap, run, host, lo, hi, n) > 0
    ensures latest < n && InWindow(minGap, run, host, lo, hi, latest)
    ensures run[latest].recordedAt >= lo + (GrantCount(minGap, run, host, lo, hi, n) - 1) * minGap
  {
    var k := n - 1;
    var before := GrantCount(minGap, run, host, lo, hi, k);
    if before == 0 {
      latest := k;
    } else {
      latest := WindowFills(minGap, run, host, lo, hi, k);
      if InWindow(minGap, run, host, lo, hi, k) {
        GrantsSpaced(minGap, run, latest, k);
        OneMoreGap(before, minGap);
        latest := k;
      }
    }
  }

  lemma OneMoreGap(count: nat, gap: nat)
    ensures (count - 1) * gap + gap == count * gap
  {
  }

  lemma QuotientBound(c: int, g: nat, w: nat)
    requires g > 0 && c * g <= w
    ensures c <= w / g
  {
    var q := w / g;
    assert w < (q + 1) * g by { assert w == q * g + w % g; }
    if c >= q + 1 {
      ProductGrows(q + 1, c, g);
      assert false;
    }
  }

  lemma ProductGrows(a: nat, b: nat, g: nat)
    requires a <= b
    ensures a * g <= b * g
  {
  }

  lemma GapsFitWindow(minGap: Gap, run: seq<Attempt>, host: string, lo: Time, hi: Time)
    requires Monotone(run) && lo <= hi
    ensures (GrantCount(minGap, run, host, lo, hi, |run|) - 1) * minGap <= hi - lo
  {
    if GrantCount(minGap, run, host, lo, hi, |run|) > 0 {
      var latest := WindowFills(minGap, run, host, lo, hi, |run|);
    }
  }

  /** A window of length W holds at most W / minGap + 1 grants for a host. */
  lemma WindowBound(minGap: Gap, run: seq<Attempt>, host: string, lo: Time, hi: Time)
    requires Monotone(run) && minGap > 0 && lo <= hi
    ensures GrantCount(minGap, run, host, lo, hi, |run|) <= (hi - lo) / minGap + 1
  {
    GapsFitWindow(minGap, run, host, lo, hi);
    QuotientBound(GrantCount(minGap, run, host, lo, hi, |run|) - 1, minGap, hi - lo);
  }

  // ---------- independence and progress ----------

  /** The attempts for one host, in order. */
  function Only(run: seq<Attempt>, host: string): seq<Attempt> {
    if run == [] then []
    else
      var front := Only(run[..|run| - 1], host);
      if run[|run| - 1].host == host then front + [run[|run| - 1]] else front
  }

  lemma SameLastSameStep(minGap: Gap, l: Last, m: Last, a: Attempt)
    requires LastOf(l, a.host) == LastOf(m, a.host)
    ensures Grants(minGap, l, a) <==> Grants(minGap, m, a)
    ensures LastOf(Step(minGap, l, a), a.host) == LastOf(Step(minGap, m, a), a.host)
  {
  }

  lemma {:induction false} HostsIndependent(minGap: Gap, run: seq<Attempt>, host: string)
    ensures LastOf(After(minGap, run), host) == LastOf(After(minGap, Only(run, host)), host)
  {
    if run != [] {
      var k := |run| - 1;
      HostsIndependent(minGap, run[..k], host);
      if run[k].host == host {
        var own := Only(run, host);
        assert own[..|own| - 1] == Only(run[..k], host);
        SameLastSameStep(minGap, After(minGap, run[..k]), After(minGap, Only(run[..k], host)), run[k]);
      }
    }
  }

  /** Hosts do not delay each other: whether an attempt goes through depends on the earlier attempts
      for its own host alone, even when the clock jumps. */
  lemma GrantDependsOnOwnHost(minGap: Gap, run: seq<Attempt>, i: nat)
    requires i < |run|
    ensures Granted(minGap, run, i) <==> Grants(minGap, After(minGap, Only(run[..i], run[i].host)), run[i])
  {
    HostsIndependent(minGap, run[..i], run[i].host);
  }

  lemma {:induction false} LastKept(minGap: Gap, run: seq<Attempt>, i: nat, j: nat, host: string)
    requires i <= j <= |run|
    requires forall k :: i <= k < j && run[k].host == host ==> !Granted(minGap, run, k)
    ensures LastOf(After(minGap, run[..j]), host) == LastOf(After(minGap, run[..i]), host)
  {
    if i < j {
      LastKept(minGap, run, i, j - 1, host);
      assert run[..j][..j - 1] == run[..j - 1];
    }
  }

  /** A caller told to wait goes through once it has slept that long, unless the host was granted to
      another caller meanwhile. */
  lemma SleepSuffices(minGap: Gap, run: seq<Attempt>, i: nat, j: nat)
    requires i < j < |run| && run[i].host == run[j].host && !Granted(minGap, run, i)
    requires run[j].decidedAt >= run[i].decidedAt + Wait(minGap, After(minGap, run[..i]), run[i])
    requires forall k :: i < k < j && run[k].host == run[i].host ==> !Granted(minGap, run, k)
    ensures Granted(minGap, run, j)
  {
    LastKept(minGap, run, i, j, run[i].host);
    WaitIsExact(minGap, After(minGap, run[..i]), run[i], run[j].decidedAt);
  }

  lemma WaitIsExact(minGap: Gap, last: Last, a: Attempt, t: Time)
    requires !Grants(minGap, last, a) && t >= a.decidedAt + Wait(minGap, last, a)
    ensures Wrap64(minGap - Sub(t, LastOf(last, a.host))) <= 0
  {
  }
}
