/** The in-process cache of law exports (internal/export/export.go: Cache). */
module IRCache {
  import opened Domain
  import Text

  datatype IR = IR(lawID: string, contentID: string, title: string, abbreviation: string, units: seq<string>, builtAt: Time)

  /** Law ids are normalized and so never hold the key separator. */
  type LawID = s: string | '|' !in s

  function CacheKey(lawID: string, contentID: string): string { lawID + ['|'] + contentID }

  /** A key names one law and one content. */
  lemma CacheKeyInjective(law: LawID, content: string, law': LawID, content': string)
    requires CacheKey(law, content) == CacheKey(law', content')
    ensures law == law' && content == content'
  {
    Text.CutUnique(law, content, law', content', '|');
  }

  /** Arbitrary ids can share a key exactly when one of them continues the other past a separator. */
  lemma KeysCollideIff(a: string, b: string)
    requires a != b
    ensures (exists c, d :: CacheKey(a, c) == CacheKey(b, d)) <==> a + ['|'] <= b || b + ['|'] <= a
  {
    if c, d :| CacheKey(a, c) == CacheKey(b, d) {
      var k := CacheKey(a, c);
      assert a + ['|'] == k[..|a| + 1] && b + ['|'] == k[..|b| + 1];
      assert a == k[..|a|] && b == k[..|b|];
      if |a| < |b| { assert k[..|a| + 1] == b[..|a| + 1]; } else if |b| < |a| { assert k[..|b| + 1] == a[..|b| + 1]; }
    }
    if a + ['|'] <= b { assert CacheKey(a, b[|a| + 1..] + "|") == CacheKey(b, ""); }
    if b + ['|'] <= a { assert CacheKey(a, "") == CacheKey(b, a[|b| + 1..] + "|"); }
  }

  // ---------- specification ----------

  datatype Op = Put(ir: IR) | Invalidate(law: string)

  /** The last Put for exactly this law and content since the law was last invalidated. */
  ghost function LastPut(history: seq<Op>, law: string, content: string): Option<IR> {
    if history == [] then None
    else
      var k := |history| - 1;
      match history[k]
      case Put(ir) => if ir.lawID == law && ir.contentID == content then Some(ir) else LastPut(history[..k], law, content)
      case Invalidate(l) => if l == law then None else LastPut(history[..k], law, content)
  }

  lemma LastPutStep(history: seq<Op>, op: Op, law: string, content: string)
    ensures LastPut(history + [op], law, content) ==
            match op
            case Put(ir) => if ir.lawID == law && ir.contentID == content then Some(ir) else LastPut(history, law, content)
            case Invalidate(l) => if l == law then None else LastPut(history, law, content)
  {
    assert (history + [op])[..|history|] == history;
  }

  /** The entry is filed under its own law and content and is the latest one for them. */
  ghost predicate Latest(history: seq<Op>, key: string, ir: IR) {
    '|' !in ir.lawID && key == CacheKey(ir.lawID, ir.contentID) && LastPut(history, ir.lawID, ir.contentID) == Some(ir)
  }

  predicate OfLaw(key: string, law: string) { law + ['|'] <= key }

  /** Keys of a law are recognised by their prefix. */
  lemma OfLawIff(ir: IR, law: LawID)
    requires '|' !in ir.lawID
    ensures OfLaw(CacheKey(ir.lawID, ir.contentID), law) <==> ir.lawID == law
  {
    var key := CacheKey(ir.lawID, ir.contentID);
    if OfLaw(key, law) {
      assert key == law + ['|'] + key[|law| + 1..];
      CacheKeyInjective(ir.lawID, ir.contentID, law, key[|law| + 1..]);
    }
    if ir.lawID == law { assert key[..|law| + 1] == law + ['|']; }
  }

  ghost predicate AllLatest(history: seq<Op>, entries: map<string, IR>) {
    forall k :: k in entries ==> Latest(history, k, entries[k])
  }

  lemma KeysOfLaw(history: seq<Op>, entries: map<string, IR>, law: LawID)
    requires AllLatest(history, entries)
    ensures forall k :: k in entries ==> (OfLaw(k, law) <==> entries[k].lawID == law)
  {
    forall k | k in entries ensures OfLaw(k, law) <==> entries[k].lawID == law {
      assert Latest(history, k, entries[k]);
      OfLawIff(entries[k], law);
    }
  }

  /** Invalidating a law leaves the entries of others the latest ones. */
  lemma RestStayLatest(history: seq<Op>, entries: map<string, IR>, law: LawID)
    requires AllLatest(history, entries)
    ensures forall k :: k in entries && entries[k].lawID != law ==> Latest(history + [Invalidate(law)], k, entries[k])
  {
    forall k | k in entries && entries[k].lawID != law ensures Latest(history + [Invalidate(law)], k, entries[k]) {
      assert Latest(history, k, entries[k]);
      LastPutStep(history, Invalidate(law), entries[k].lawID, entries[k].contentID);
    }
  }

  // ---------- the cache ----------

  class Cache {
    const max: nat
    var entries: map<string, IR>
    ghost var history: seq<Op>

    ghost predicate Valid()
      reads this
    {
      && max > 0 && |entries| <= max
      && AllLatest(history, entries)
    }

    constructor (limit: int)
      ensures Valid() && entries == map[] && history == [] && max == if limit <= 0 then 64 else limit
    {
      max := if limit <= 0 then 64 else limit;
      entries := map[];
      history := [];
    }

    /** Get answers with the last Put for exactly this law and content since its last invalidation,
        or misses. */
    method Get(law: LawID, content: string) returns (ir: Option<IR>)
      requires Valid()
      ensures ir == if CacheKey(law, content) in entries then Some(entries[CacheKey(law, content)]) else None
      ensures ir.Some? ==> LastPut(history, law, content) == ir && ir.value.lawID == law && ir.value.contentID == content
    {
      var key := CacheKey(law, content);
      if key !in entries { return None; }
      assert Latest(history, key, entries[key]);
      CacheKeyInjective(law, content, entries[key].lawID, entries[key].contentID);
      ir := Some(entries[key]);
    }

    /** Deletes entries in whatever order the map yields them, until half the capacity is free. */
    method Evict()
      requires max > 0 && |entries| >= max
      modifies `entries
      ensures forall k :: k in entries ==> k in old(entries) && entries[k] == old(entries)[k]
      ensures |entries| == old(|entries|) - if max == 1 then 1 else max / 2
    {
      var n := 0;
      while |entries| > 0
        invariant forall k :: k in entries ==> k in old(entries) && entries[k] == old(entries)[k]
        invariant |entries| == old(|entries|) - n && n <= max / 2 && (n < max / 2 || n == 0)
      {
        var k :| k in entries;
        entries := Without(entries, k);
        n := n + 1;
        if n >= max / 2 { break; }
      }
    }

    /** Whatever is evicted, the new entry is in, the rest are latest ones still, and the size stays
        within max; nothing is evicted while there is room. */
    method Put(ir: IR)
      requires Valid() && '|' !in ir.lawID
      modifies this
      ensures Valid() && history == old(history) + [Op.Put(ir)]
      ensures var key := CacheKey(ir.lawID, ir.contentID);
        && key in entries && entries[key] == ir
        && (forall k :: k in entries && k != key ==> k in old(entries) && entries[k] == old(entries)[k])
        && (old(|entries|) < max ==> entries == old(entries)[key := ir])
        && |entries| >= old(|entries|) - if max == 1 then 1 else max / 2
    {
      if |entries| >= max { Evict(); }
      var key := CacheKey(ir.lawID, ir.contentID);
      ghost var kept := entries;
      assert entries[key := ir].Keys == entries.Keys + {key};
      entries := entries[key := ir];
      history := history + [Op.Put(ir)];
      forall k | k in entries ensures Latest(history, k, entries[k]) {
        LastPutStep(old(history), Op.Put(ir), entries[k].lawID, entries[k].contentID);
        if k != key {
          assert Latest(old(history), k, kept[k]);
        }
      }
    }

    /** Exactly the entries of the law go. */
    method InvalidateLaw(law: LawID)
      requires Valid()
      modifies this
      ensures Valid() && history == old(history) + [Invalidate(law)]
      ensures entries == map k | k in old(entries) && old(entries)[k].lawID != law :: old(entries)[k]
    {
      entries := WithoutLaw(entries, law);
      KeysOfLaw(old(history), old(entries), law);
      RestStayLatest(old(history), old(entries), law);
      history := history + [Invalidate(law)];
    }

    method Apply(op: Op)
      requires Valid() && Plain(op)
      modifies this
      ensures Valid() && history == old(history) + [op]
      ensures op.Put? ==> CacheKey(op.ir.lawID, op.ir.contentID) in entries
    {
      match op
      case Put(ir) => Put(ir);
      case Invalidate(law) => InvalidateLaw(law);
    }
  }

  predicate Plain(op: Op) { match op case Put(ir) => '|' !in ir.lawID case Invalidate(law) => '|' !in law }

  /** delete(m, k). */
  function Without(m: map<string, IR>, k: string): (r: map<string, IR>)
    requires k in m
    ensures |r| == |m| - 1
  {
    assert (m - {k}).Keys == m.Keys - {k};
    m - {k}
  }

  /** The loop over the keys of the map while it deletes those of the law. */
  method WithoutLaw(entries: map<string, IR>, law: LawID) returns (kept: map<string, IR>)
    ensures kept == map k | k in entries && !OfLaw(k, law) :: entries[k]
    ensures |kept| <= |entries|
  {
    kept := entries;
    var todo := entries.Keys;
    while todo != {}
      invariant todo <= entries.Keys && |kept| <= |entries|
      invariant kept == map k | k in entries && (k in todo || !OfLaw(k, law)) :: entries[k]
      decreases |todo|
    {
      var k :| k in todo;
      todo := todo - {k};
      if OfLaw(k, law) { kept := Without(kept, k); }
    }
  }

  // ---------- whole runs ----------

  predicate Puts(op: Op, law: string, content: string) {
    op.Put? && op.ir.lawID == law && op.ir.contentID == content
  }

  /** Any sequence of operations on a fresh cache, with any evictions: a hit is the last Put for that
      law and content since its last invalidation, what was put last is still there, and the capacity
      is never exceeded. */
  method Replay(limit: int, ops: seq<Op>, law: LawID, content: string) returns (hit: Option<IR>, size: nat)
    requires forall i :: 0 <= i < |ops| ==> Plain(ops[i])
    ensures hit.Some? ==> hit == LastPut(ops, law, content)
    ensures |ops| > 0 && Puts(ops[|ops| - 1], law, content) ==> hit == Some(ops[|ops| - 1].ir)
    ensures size <= if limit <= 0 then 64 else limit
  {
    var cache := new Cache(limit);
    for i := 0 to |ops|
      invariant cache.Valid() && cache.history == ops[..i] && fresh(cache)
      invariant i > 0 && ops[i - 1].Put? ==> CacheKey(ops[i - 1].ir.lawID, ops[i - 1].ir.contentID) in cache.entries
    {
      cache.Apply(ops[i]);
      assert ops[..i + 1] == ops[..i] + [ops[i]];
    }
    assert ops[..|ops|] == ops;
    hit := cache.Get(law, content);
    size := |cache.entries|;
  }
}
