/** Unique chunk ids for the vector index (internal/export/index_chunk.go: DedupeChunkIDs). */
module IndexChunks {
  import Text

  datatype IndexChunk = IndexChunk(
    chunkID: string, text: string, lawID: string, lawName: string, instrumentKind: string,
    sectionRef: string, sectionName: string, parentLawID: string, parentSectionHint: string)

  /** A base id with a numeric suffix. */
  function Candidate(base: string, n: nat): string { base + "-" + Text.Itoa(n) }

  lemma CandidateInjective(base: string, m: nat, n: nat)
    requires Candidate(base, m) == Candidate(base, n)
    ensures m == n
  {
    assert Text.Itoa(m) == Candidate(base, m)[|base| + 1..];
    assert Text.Itoa(n) == Candidate(base, n)[|base| + 1..];
    Text.ItoaInjective(m, n);
  }

  predicate HasID(chunks: seq<IndexChunk>, id: string) {
    exists i :: 0 <= i < |chunks| && chunks[i].chunkID == id
  }

  // ---------- specification ----------

  /** n is the least suffix from 2 on that is still free. */
  predicate LeastFreeSuffix(before: seq<IndexChunk>, base: string, n: nat) {
    n >= 2 && !HasID(before, Candidate(base, n)) && forall k :: 2 <= k < n ==> HasID(before, Candidate(base, k))
  }

  /** The chunk that follows the output so far: unchanged when its id is free, else with the least free
      suffix; no other field changes. */
  ghost predicate Follows(before: seq<IndexChunk>, c: IndexChunk, d: IndexChunk) {
    if !HasID(before, c.chunkID) then d == c
    else exists n :: LeastFreeSuffix(before, c.chunkID, n) && d == c.(chunkID := Candidate(c.chunkID, n))
  }

  ghost predicate Deduped(chunks: seq<IndexChunk>, out: seq<IndexChunk>) {
    |out| == |chunks| && forall i :: 0 <= i < |out| ==> Follows(out[..i], chunks[i], out[i])
  }

  // ---------- DedupeChunkIDs ----------

  /** The unbounded search. It ends because the candidates are pairwise different and only finitely
      many ids are taken. */
  method FreeCandidate(used: set<string>, base: string) returns (cand: string, n: nat)
    ensures n >= 2 && cand == Candidate(base, n) && cand !in used
    ensures forall k :: 2 <= k < n ==> Candidate(base, k) in used
  {
    n := 2;
    cand := Candidate(base, n);
    ghost var unseen := used;
    while cand in used
      invariant n >= 2 && cand == Candidate(base, n)
      invariant forall k :: 2 <= k < n ==> Candidate(base, k) in used
      invariant unseen <= used && forall k :: n <= k && Candidate(base, k) in used ==> Candidate(base, k) in unseen
      decreases unseen
    {
      forall k | n + 1 <= k && Candidate(base, k) in used ensures Candidate(base, k) in unseen - {cand} {
        if Candidate(base, k) == cand { CandidateInjective(base, k, n); }
      }
      unseen := unseen - {cand};
      n := n + 1;
      cand := Candidate(base, n);
    }
  }

  method DedupeChunkIDs(chunks: seq<IndexChunk>) returns (out: seq<IndexChunk>)
    ensures Deduped(chunks, out)
  {
    if |chunks| == 0 { return []; }
    out := [];
    var used: set<string> := {};
    for i := 0 to |chunks|
      invariant Deduped(chunks[..i], out)
      invariant forall id :: id in used <==> HasID(out, id)
    {
      var c := chunks[i];
      ghost var before := out;
      if c.chunkID !in used {
        used := used + {c.chunkID};
      } else {
        var cand, n := FreeCandidate(used, c.chunkID);
        assert LeastFreeSuffix(before, c.chunkID, n);
        c := c.(chunkID := cand);
        used := used + {cand};
      }
      out := out + [c];
      DedupedAppend(chunks[..i], before, chunks[i], c);
      assert chunks[..i + 1] == chunks[..i] + [chunks[i]];
      forall id ensures HasID(out, id) <==> HasID(before, id) || id == c.chunkID { HasIDAppend(before, c, id); }
    }
    assert chunks[..|chunks|] == chunks;
  }

  lemma HasIDAppend(s: seq<IndexChunk>, c: IndexChunk, id: string)
    ensures HasID(s + [c], id) <==> HasID(s, id) || c.chunkID == id
  {
    if i :| 0 <= i < |s| && s[i].chunkID == id { assert (s + [c])[i].chunkID == id; }
    if c.chunkID == id { assert (s + [c])[|s|].chunkID == id; }
  }

  lemma DedupedAppend(chunks: seq<IndexChunk>, out: seq<IndexChunk>, c: IndexChunk, d: IndexChunk)
    requires Deduped(chunks, out) && Follows(out, c, d)
    ensures Deduped(chunks + [c], out + [d])
  {
    var all := out + [d];
    forall i | 0 <= i < |all| ensures Follows(all[..i], (chunks + [c])[i], all[i]) {
      assert all[..i] == if i < |out| then out[..i] else out;
    }
  }

  // ---------- laws ----------

  lemma FollowsIsFresh(before: seq<IndexChunk>, c: IndexChunk, d: IndexChunk)
    requires Follows(before, c, d)
    ensures !HasID(before, d.chunkID) && d == c.(chunkID := d.chunkID)
  {
  }

  /** Ids come out pairwise distinct, and no other field changes. */
  lemma DedupedDistinct(chunks: seq<IndexChunk>, out: seq<IndexChunk>)
    requires Deduped(chunks, out)
    ensures forall i, j :: 0 <= i < j < |out| ==> out[i].chunkID != out[j].chunkID
    ensures forall i :: 0 <= i < |out| ==> out[i] == chunks[i].(chunkID := out[i].chunkID)
  {
    forall i, j | 0 <= i < j < |out| ensures out[i].chunkID != out[j].chunkID {
      FollowsIsFresh(out[..j], chunks[j], out[j]);
      assert out[..j][i].chunkID == out[i].chunkID;
    }
    forall i | 0 <= i < |out| ensures out[i] == chunks[i].(chunkID := out[i].chunkID) {
      FollowsIsFresh(out[..i], chunks[i], out[i]);
    }
  }

  /** A list with distinct ids is left alone; hence deduplicating twice is deduplicating once. */
  lemma {:induction false} DistinctUntouched(chunks: seq<IndexChunk>, out: seq<IndexChunk>, n: nat)
    requires forall i, j :: 0 <= i < j < |chunks| ==> chunks[i].chunkID != chunks[j].chunkID
    requires Deduped(chunks, out) && n <= |chunks|
    ensures out[..n] == chunks[..n]
  {
    if n > 0 {
      DistinctUntouched(chunks, out, n - 1);
      var k := n - 1;
      forall i | 0 <= i < k ensures out[..k][i].chunkID != chunks[k].chunkID {
        assert out[..k][i] == chunks[..k][i] == chunks[i];
      }
      assert Follows(out[..k], chunks[k], out[k]);
      assert out[..n] == out[..k] + [out[k]] && chunks[..n] == chunks[..k] + [chunks[k]];
    }
  }

  lemma DedupeIdempotent(chunks: seq<IndexChunk>, once: seq<IndexChunk>, twice: seq<IndexChunk>)
    requires Deduped(chunks, once) && Deduped(once, twice)
    ensures twice == once
  {
    DedupedDistinct(chunks, once);
    DistinctUntouched(once, twice, |once|);
    assert twice[..|once|] == twice && once[..|once|] == once;
  }

  lemma FollowsUnique(before: seq<IndexChunk>, c: IndexChunk, d: IndexChunk, e: IndexChunk)
    requires Follows(before, c, d) && Follows(before, c, e)
    ensures d == e
  {
    if HasID(before, c.chunkID) {
      var m :| LeastFreeSuffix(before, c.chunkID, m) && d == c.(chunkID := Candidate(c.chunkID, m));
      var n :| LeastFreeSuffix(before, c.chunkID, n) && e == c.(chunkID := Candidate(c.chunkID, n));
      assert m == n;
    }
  }

  lemma {:induction false} StepsDetermine(
    chunks: seq<IndexChunk>, a: seq<IndexChunk>, b: seq<IndexChunk>, n: nat,
    follows: (seq<IndexChunk>, IndexChunk, IndexChunk) -> bool)
    requires |a| == |b| == |chunks| && n <= |chunks|
    requires forall i :: 0 <= i < |a| ==> follows(a[..i], chunks[i], a[i])
    requires forall i :: 0 <= i < |b| ==> follows(b[..i], chunks[i], b[i])
    requires forall before, c, d, e :: follows(before, c, d) && follows(before, c, e) ==> d == e
    ensures a[..n] == b[..n]
  {
    if n > 0 {
      var k := n - 1;
      StepsDetermine(chunks, a, b, k, follows);
      assert a[k] == b[k];
      assert a[..n] == a[..k] + [a[k]] && b[..n] == b[..k] + [b[k]];
    }
  }

  /** The specification leaves no choice: the output is determined by the input. */
  lemma DedupedDetermined(chunks: seq<IndexChunk>, a: seq<IndexChunk>, b: seq<IndexChunk>)
    requires Deduped(chunks, a) && Deduped(chunks, b)
    ensures a == b
  {
    forall before, c, d, e | Follows(before, c, d) && Follows(before, c, e) ensures d == e {
      FollowsUnique(before, c, d, e);
    }
    StepsDetermine(chunks, a, b, |chunks|, Follows);
    assert a[..|chunks|] == a && b[..|chunks|] == b;
  }
}
