/** The law index and its resolver (internal/search/engine.go: build, Resolve). */
module SearchIndex {
  import opened Domain
  import SGB
  import Text

  /** What the resolver takes from elsewhere: the normalizer, the umlaut spellings of a key, the
      similarity score and the substring test. */
  datatype Env = Env(
    key: string -> string, spellings: string -> seq<string>,
    similarity: (string, string) -> real, contains: (string, string) -> bool)

  datatype LawVariant = LawVariant(variant: string, lawID: string)

  datatype Candidate = Candidate(law: Law, score: real)

  datatype Snapshot = Snapshot(
    laws: seq<Law>, byID: map<string, Law>, byAbbr: map<string, seq<Law>>, byTitle: map<string, seq<Law>>,
    variants: map<string, string>)

  /** What a missing map entry reads as. */
  const NO_LAW := Law("", "", "", "")

  function LawAt(byID: map<string, Law>, id: string): Law { if id in byID then byID[id] else NO_LAW }

  function ListAt(m: map<string, seq<Law>>, k: string): seq<Law> { if k in m then m[k] else [] }

  predicate HasID(laws: seq<Law>, id: string) { exists i :: 0 <= i < |laws| && laws[i].id == id }

  ghost predicate UniqueIDs(laws: seq<Law>) {
    forall i, j :: 0 <= i < j < |laws| ==> laws[i].id != laws[j].id
  }

  // ---------- build: specification ----------

  predicate FiledByAbbr(env: Env, l: Law, k: string) {
    env.key(l.abbreviation) == k || k in SGB.LawKeys(env.key, l.id, l.abbreviation)
  }

  predicate FiledByTitle(env: Env, l: Law, k: string) { env.key(l.title) == k }

  /** Some law with this id among the first n is filed under k. */
  ghost predicate Filed(laws: seq<Law>, n: nat, filed: (Law, string) -> bool, k: string, id: string)
    requires n <= |laws|
  {
    exists i :: 0 <= i < n && laws[i].id == id && filed(laws[i], k)
  }

  ghost predicate Files(laws: seq<Law>, n: nat, filed: (Law, string) -> bool, m: map<string, seq<Law>>)
    requires n <= |laws|
  {
    forall k, id :: HasID(ListAt(m, k), id) <==> Filed(laws, n, filed, k, id)
  }

  ghost function ByAbbr(env: Env): (Law, string) -> bool { (l: Law, k: string) => FiledByAbbr(env, l, k) }

  ghost function ByTitle(env: Env): (Law, string) -> bool { (l: Law, k: string) => FiledByTitle(env, l, k) }

  /** The last law of an id. */
  function LastOf(laws: seq<Law>, id: string): Option<Law> {
    if laws == [] then None
    else if laws[|laws| - 1].id == id then Some(laws[|laws| - 1])
    else LastOf(laws[..|laws| - 1], id)
  }

  function VariantAt(variants: map<string, string>, k: string): Option<string> {
    if k in variants then Some(variants[k]) else None
  }

  ghost predicate ByIDExact(laws: seq<Law>, byID: map<string, Law>) {
    forall id :: (if id in byID then Some(byID[id]) else None) == LastOf(laws, id)
  }

  /** The law id of the last variant with a key. */
  function LastVariant(env: Env, variants: seq<LawVariant>, k: string): Option<string> {
    if variants == [] then None
    else
      var last := variants[|variants| - 1];
      if env.key(last.variant) == k then Some(last.lawID) else LastVariant(env, variants[..|variants| - 1], k)
  }

  ghost predicate Built(env: Env, laws: seq<Law>, variants: seq<LawVariant>, s: Snapshot) {
    && s.laws == laws && ByIDExact(laws, s.byID)
    && (forall k :: VariantAt(s.variants, k) == LastVariant(env, variants, k))
    && Files(laws, |laws|, ByAbbr(env), s.byAbbr)
    && Files(laws, |laws|, ByTitle(env), s.byTitle)
  }

  // ---------- build ----------

  lemma HasIDSnoc(laws: seq<Law>, l: Law, id: string)
    ensures HasID(laws + [l], id) <==> HasID(laws, id) || l.id == id
  {
    if i :| 0 <= i < |laws| && laws[i].id == id { assert (laws + [l])[i].id == id; }
    assert (laws + [l])[|laws|] == l;
  }

  method AppendUniqueLaw(laws: seq<Law>, l: Law) returns (out: seq<Law>)
    ensures out == if HasID(laws, l.id) then laws else laws + [l]
  {
    for i := 0 to |laws|
      invariant forall k :: 0 <= k < i ==> laws[k].id != l.id
    {
      if laws[i].id == l.id { return laws; }
    }
    out := laws + [l];
  }

  method FileUnder(m: map<string, seq<Law>>, aliases: seq<string>, l: Law) returns (out: map<string, seq<Law>>)
    ensures forall k, id :: HasID(ListAt(out, k), id) <==> HasID(ListAt(m, k), id) || (id == l.id && k in aliases)
  {
    out := m;
    for i := 0 to |aliases|
      invariant forall k, id :: HasID(ListAt(out, k), id) <==> HasID(ListAt(m, k), id) || (id == l.id && k in aliases[..i])
    {
      var list := AppendUniqueLaw(ListAt(out, aliases[i]), l);
      forall id { HasIDSnoc(ListAt(out, aliases[i]), l, id); }
      assert aliases[..i + 1] == aliases[..i] + [aliases[i]];
      out := out[aliases[i] := list];
    }
    assert aliases[..|aliases|] == aliases;
  }

  /** The law files itself under its abbreviation and under every alias it is not yet filed under. */
  method FileByAbbr(env: Env, byAbbr: map<string, seq<Law>>, l: Law) returns (out: map<string, seq<Law>>)
    ensures forall k, id :: HasID(ListAt(out, k), id) <==> HasID(ListAt(byAbbr, k), id) || (id == l.id && FiledByAbbr(env, l, k))
  {
    var ak := env.key(l.abbreviation);
    var first := byAbbr[ak := ListAt(byAbbr, ak) + [l]];
    forall id { HasIDSnoc(ListAt(byAbbr, ak), l, id); }
    out := FileUnder(first, SGB.LawKeys(env.key, l.id, l.abbreviation), l);
  }

  method FileByTitle(env: Env, byTitle: map<string, seq<Law>>, l: Law) returns (out: map<string, seq<Law>>)
    ensures forall k, id :: HasID(ListAt(out, k), id) <==> HasID(ListAt(byTitle, k), id) || (id == l.id && FiledByTitle(env, l, k))
  {
    var tk := env.key(l.title);
    forall id { HasIDSnoc(ListAt(byTitle, tk), l, id); }
    out := byTitle[tk := ListAt(byTitle, tk) + [l]];
  }

  lemma FilesSnoc(laws: seq<Law>, n: nat, filed: (Law, string) -> bool, before: map<string, seq<Law>>, after: map<string, seq<Law>>)
    requires n < |laws| && Files(laws, n, filed, before)
    requires forall k, id :: HasID(ListAt(after, k), id) <==> HasID(ListAt(before, k), id) || (id == laws[n].id && filed(laws[n], k))
    ensures Files(laws, n + 1, filed, after)
  {
    forall k, id ensures HasID(ListAt(after, k), id) <==> Filed(laws, n + 1, filed, k, id) {
      assert HasID(ListAt(before, k), id) <==> Filed(laws, n, filed, k, id);
    }
  }

  method Build(env: Env, laws: seq<Law>, variants: seq<LawVariant>) returns (s: Snapshot)
    ensures Built(env, laws, variants, s)
  {
    var byID: map<string, Law>, byAbbr: map<string, seq<Law>>, byTitle: map<string, seq<Law>> := map[], map[], map[];
    for i := 0 to |laws|
      invariant ByIDExact(laws[..i], byID)
      invariant Files(laws, i, ByAbbr(env), byAbbr) && Files(laws, i, ByTitle(env), byTitle)
    {
      var l := laws[i];
      assert laws[..i + 1][..i] == laws[..i];
      byID := byID[l.id := l];
      var abbr := FileByAbbr(env, byAbbr, l);
      FilesSnoc(laws, i, ByAbbr(env), byAbbr, abbr);
      var title := FileByTitle(env, byTitle, l);
      FilesSnoc(laws, i, ByTitle(env), byTitle, title);
      byAbbr, byTitle := abbr, title;
    }
    assert laws[..|laws|] == laws;
    var byVariant: map<string, string> := map[];
    for i := 0 to |variants|
      invariant forall k :: VariantAt(byVariant, k) == LastVariant(env, variants[..i], k)
    {
      assert variants[..i + 1][..i] == variants[..i];
      byVariant := byVariant[env.key(variants[i].variant) := variants[i].lawID];
    }
    assert variants[..|variants|] == variants;
    s := Snapshot(laws, byID, byAbbr, byTitle, byVariant);
  }

  // ---------- scores: specification ----------

  type Scores = map<string, real>

  function Get(scores: Scores, id: string): real { if id in scores then scores[id] else 0.0 }

  function Max(a: real, b: real): real { if a > b then a else b }

  predicate KeyedByID(env: Env, laws: seq<Law>, qk: string, id: string) {
    exists i :: 0 <= i < |laws| && laws[i].id == id && env.key(id) == qk
  }

  /** What one key of the query gives a law id without fuzzy matching. */
  function ExactScore(env: Env, s: Snapshot, qk: string, id: string): real {
    if HasID(ListAt(s.byAbbr, qk), id) || (qk in s.byID && s.byID[qk].id == id) || KeyedByID(env, s.laws, qk, id) then 1.0
    else if HasID(ListAt(s.byTitle, qk), id) then 0.98
    else if VariantAt(s.variants, qk) == Some(id) then 0.95
    else 0.0
  }

  function ExactOver(env: Env, s: Snapshot, qkeys: seq<string>, id: string): real {
    if qkeys == [] then 0.0
    else Max(ExactOver(env, s, qkeys[..|qkeys| - 1], id), ExactScore(env, s, qkeys[|qkeys| - 1], id))
  }

  const MIN_ABBR_SUBSTRING_LEN := 3

  /** len of a Go string: its UTF-8 bytes. */
  function ByteLen(t: string): nat {
    if t == "" then 0
    else
      var c := t[0] as int;
      ByteLen(t[1..]) + if c < 0x80 then 1 else if c < 0x800 then 2 else if c < 0x10000 then 3 else 4
  }

  /** stringsContainsFold. */
  predicate Contains(env: Env, hay: string, needle: string) {
    needle != "" && (hay == needle || (ByteLen(hay) >= ByteLen(needle) && env.contains(hay, needle)))
  }

  predicate PartOf(env: Env, l: Law, qk: string) {
    || (ByteLen(env.key(l.abbreviation)) >= MIN_ABBR_SUBSTRING_LEN && Contains(env, qk, env.key(l.abbreviation)))
    || Contains(env, env.key(l.title), qk)
  }

  function FuzzyScore(env: Env, l: Law, qk: string): real {
    var similar := Max(env.similarity(qk, env.key(l.abbreviation)) * 0.92, env.similarity(qk, env.key(l.title)) * 0.85);
    if PartOf(env, l, qk) then Max(similar, 0.8) else similar
  }

  function FuzzyOver(env: Env, l: Law, qkeys: seq<string>, start: real): real {
    if qkeys == [] then start
    else Max(FuzzyOver(env, l, qkeys[..|qkeys| - 1], start), FuzzyScore(env, l, qkeys[|qkeys| - 1]))
  }

  function ScoreUpTo(env: Env, s: Snapshot, qkeys: seq<string>, n: nat, id: string): real
    requires n <= |s.laws|
  {
    if n == 0 then ExactOver(env, s, qkeys, id)
    else
      var front := ScoreUpTo(env, s, qkeys, n - 1, id);
      if s.laws[n - 1].id == id then FuzzyOver(env, s.laws[n - 1], qkeys, front) else front
  }

  /** The score of a law id: the best any key of the query gives it. */
  function Score(env: Env, s: Snapshot, qkeys: seq<string>, id: string): real {
    ScoreUpTo(env, s, qkeys, |s.laws|, id)
  }

  // ---------- scores: the loops ----------

  method RaiseAll(scores: Scores, laws: seq<Law>, v: real) returns (out: Scores)
    ensures forall id :: Get(out, id) == if HasID(laws, id) then Max(Get(scores, id), v) else Get(scores, id)
  {
    out := scores;
    for i := 0 to |laws|
      invariant forall id :: Get(out, id) == if HasID(laws[..i], id) then Max(Get(scores, id), v) else Get(scores, id)
    {
      forall id { HasIDSnoc(laws[..i], laws[i], id); }
      assert laws[..i + 1] == laws[..i] + [laws[i]];
      out := out[laws[i].id := Max(Get(out, laws[i].id), v)];
    }
    assert laws[..|laws|] == laws;
  }

  method RaiseKeyed(env: Env, scores: Scores, laws: seq<Law>, qk: string) returns (out: Scores)
    ensures forall id :: Get(out, id) == if KeyedByID(env, laws, qk, id) then Max(Get(scores, id), 1.0) else Get(scores, id)
  {
    out := scores;
    for i := 0 to |laws|
      invariant forall id :: Get(out, id) == if KeyedByID(env, laws[..i], qk, id) then Max(Get(scores, id), 1.0) else Get(scores, id)
    {
      forall id ensures KeyedByID(env, laws[..i + 1], qk, id) <==>
        KeyedByID(env, laws[..i], qk, id) || (laws[i].id == id && env.key(id) == qk) {
        KeyedSnoc(env, laws[..i], laws[i], qk, id);
        assert laws[..i + 1] == laws[..i] + [laws[i]];
      }
      if env.key(laws[i].id) == qk { out := out[laws[i].id := Max(Get(out, laws[i].id), 1.0)]; }
    }
    assert laws[..|laws|] == laws;
  }

  lemma KeyedSnoc(env: Env, laws: seq<Law>, l: Law, qk: string, id: string)
    ensures KeyedByID(env, laws + [l], qk, id) <==> KeyedByID(env, laws, qk, id) || (l.id == id && env.key(id) == qk)
  {
    if i :| 0 <= i < |laws| && laws[i].id == id && env.key(id) == qk { assert (laws + [l])[i].id == id; }
    assert (laws + [l])[|laws|] == l;
  }

  method RaiseOne(scores: Scores, id: string, v: real) returns (out: Scores)
    ensures forall x :: Get(out, x) == if x == id then Max(Get(scores, x), v) else Get(scores, x)
  {
    out := scores[id := Max(Get(scores, id), v)];
  }

  predicate IDHit(env: Env, s: Snapshot, qk: string, id: string) {
    (qk in s.byID && s.byID[qk].id == id) || KeyedByID(env, s.laws, qk, id)
  }

  /** One key of the query against the ids. */
  method ScoreIDs(env: Env, s: Snapshot, qk: string, scores: Scores) returns (out: Scores)
    ensures forall id :: Get(out, id) == if IDHit(env, s, qk, id) then Max(Get(scores, id), 1.0) else Get(scores, id)
  {
    out := scores;
    if qk in s.byID { out := RaiseOne(out, s.byID[qk].id, 1.0); }
    out := RaiseKeyed(env, out, s.laws, qk);
  }

  /** The score the three name maps give an id. */
  function NameScore(s: Snapshot, qk: string, id: string): real {
    if HasID(ListAt(s.byAbbr, qk), id) then 1.0
    else if HasID(ListAt(s.byTitle, qk), id) then 0.98
    else if VariantAt(s.variants, qk) == Some(id) then 0.95
    else 0.0
  }

  /** One key of the query against the names. */
  method ScoreNames(s: Snapshot, qk: string, scores: Scores) returns (out: Scores)
    requires forall id :: Get(scores, id) >= 0.0
    ensures forall id :: Get(out, id) == Max(Get(scores, id), NameScore(s, qk, id))
  {
    out := scores;
    if qk in s.byAbbr { out := RaiseAll(out, s.byAbbr[qk], 1.0); }
    if qk in s.byTitle { out := RaiseAll(out, s.byTitle[qk], 0.98); }
    if qk in s.variants { out := RaiseOne(out, s.variants[qk], 0.95); }
  }

  /** One key of the query against the maps. */
  method ScoreKey(env: Env, s: Snapshot, qk: string, scores: Scores) returns (out: Scores)
    requires forall id :: Get(scores, id) >= 0.0
    ensures forall id :: Get(out, id) == Max(Get(scores, id), ExactScore(env, s, qk, id))
  {
    var named := ScoreNames(s, qk, scores);
    out := ScoreIDs(env, s, qk, named);
    forall id ensures Get(out, id) == Max(Get(scores, id), ExactScore(env, s, qk, id)) {
      assert Get(named, id) == Max(Get(scores, id), NameScore(s, qk, id));
      assert ExactScore(env, s, qk, id) == if IDHit(env, s, qk, id) then 1.0 else NameScore(s, qk, id);
    }
  }

  method ExactScores(env: Env, s: Snapshot, qkeys: seq<string>) returns (scores: Scores)
    ensures forall id :: Get(scores, id) == ExactOver(env, s, qkeys, id)
  {
    scores := map[];
    for i := 0 to |qkeys|
      invariant forall id :: Get(scores, id) == ExactOver(env, s, qkeys[..i], id)
    {
      forall id { ExactNonNegative(env, s, qkeys[..i], id); }
      assert qkeys[..i + 1][..i] == qkeys[..i];
      scores := ScoreKey(env, s, qkeys[i], scores);
    }
    assert qkeys[..|qkeys|] == qkeys;
  }

  lemma {:induction false} ExactNonNegative(env: Env, s: Snapshot, qkeys: seq<string>, id: string)
    ensures ExactOver(env, s, qkeys, id) >= 0.0
  {
    if qkeys != [] { ExactNonNegative(env, s, qkeys[..|qkeys| - 1], id); }
  }

  /** One law against every key of the query. */
  method ScoreLaw(env: Env, l: Law, qkeys: seq<string>, start: real) returns (score: real)
    ensures score == FuzzyOver(env, l, qkeys, start)
  {
    score := start;
    for i := 0 to |qkeys|
      invariant score == FuzzyOver(env, l, qkeys[..i], start)
    {
      assert qkeys[..i + 1][..i] == qkeys[..i];
      var qk, ab, ti := qkeys[i], env.key(l.abbreviation), env.key(l.title);
      score := Max(score, env.similarity(qk, ab) * 0.92);
      score := Max(score, env.similarity(qk, ti) * 0.85);
      if ByteLen(ab) >= MIN_ABBR_SUBSTRING_LEN && Contains(env, qk, ab) { score := Max(score, 0.8); }
      if Contains(env, ti, qk) { score := Max(score, 0.8); }
    }
    assert qkeys[..|qkeys|] == qkeys;
  }

  method ComputeScores(env: Env, s: Snapshot, qkeys: seq<string>) returns (scores: Scores)
    ensures forall id :: Get(scores, id) == Score(env, s, qkeys, id)
  {
    scores := ExactScores(env, s, qkeys);
    for i := 0 to |s.laws|
      invariant forall id :: Get(scores, id) == ScoreUpTo(env, s, qkeys, i, id)
    {
      var l := s.laws[i];
      var score := ScoreLaw(env, l, qkeys, Get(scores, l.id));
      scores := scores[l.id := score];
    }
  }

  // ---------- candidates ----------

  /** The i-th candidate is the law of the i-th id with its score; no id occurs twice. */
  ghost predicate Listing(byID: map<string, Law>, score: string -> real, all: seq<Candidate>, ids: seq<string>) {
    && |all| == |ids| && Text.Distinct(ids)
    && forall i :: 0 <= i < |all| ==> all[i] == Candidate(LawAt(byID, ids[i]), score(ids[i]))
  }

  method Candidates(byID: map<string, Law>, scores: Scores, ghost score: string -> real)
    returns (all: seq<Candidate>, ghost ids: seq<string>)
    requires forall id :: Get(scores, id) == score(id)
    ensures Listing(byID, score, all, ids) && forall id :: id in ids <==> score(id) > 0.0
  {
    var todo := scores.Keys;
    all, ids := [], [];
    while todo != {}
      invariant todo <= scores.Keys && Listing(byID, score, all, ids)
      invariant forall id :: id in ids <==> id in scores && id !in todo && scores[id] > 0.0
      decreases |todo|
    {
      var id :| id in todo;
      todo := todo - {id};
      assert Get(scores, id) == scores[id];
      if scores[id] <= 0.0 { continue; }
      all := all + [Candidate(LawAt(byID, id), scores[id])];
      ids := ids + [id];
    }
    forall id ensures id in ids <==> score(id) > 0.0 { assert Get(scores, id) == score(id); }
  }

  /** The sort order: higher scores first, equal scores by abbreviation. */
  predicate Before(a: Candidate, b: Candidate) {
    if a.score == b.score then Text.Less(a.law.abbreviation, b.law.abbreviation) else a.score > b.score
  }

  ghost predicate Ranked(all: seq<Candidate>) {
    forall i, j :: 0 <= i < j < |all| ==> !Before(all[j], all[i])
  }

  lemma BeforeOrder(a: Candidate, b: Candidate, c: Candidate)
    ensures !(Before(a, b) && Before(b, a))
    ensures !Before(b, a) && !Before(c, b) ==> !Before(c, a)
    ensures !Before(b, a) ==> a.score >= b.score
  {
    var x, y, z := a.law.abbreviation, b.law.abbreviation, c.law.abbreviation;
    Text.LessTotal(x, y);
    Text.LessTotal(y, z);
    if Text.Less(x, y) && Text.Less(y, z) { Text.LessTransitive(x, y, z); Text.LessTotal(x, z); }
  }

  /** sort.Slice: ties may come out in any order. */
  method Rank(byID: map<string, Law>, ghost score: string -> real, all: seq<Candidate>, ghost ids: seq<string>)
    returns (out: seq<Candidate>, ghost outIDs: seq<string>)
    requires Listing(byID, score, all, ids)
    ensures Listing(byID, score, out, outIDs) && Ranked(out)
    ensures forall id :: id in outIDs <==> id in ids
    ensures forall i, j :: 0 <= i < j < |out| ==>
      && out[i].score >= out[j].score
      && (out[i].score == out[j].score ==> !Text.Less(out[j].law.abbreviation, out[i].law.abbreviation))
  {
    out, outIDs := [], [];
    for i := 0 to |all|
      invariant Listing(byID, score, out, outIDs) && Ranked(out)
      invariant forall id :: id in outIDs <==> id in ids[..i]
    {
      var p := |out|;
      while p > 0 && Before(all[i], out[p - 1])
        invariant 0 <= p <= |out|
        invariant forall k :: p <= k < |out| ==> Before(all[i], out[k])
      {
        p := p - 1;
      }
      assert ids[..i + 1] == ids[..i] + [ids[i]];
      assert ids[i] !in outIDs;
      InsertedMembers(outIDs, ids[i], p);
      InsertedDistinct(outIDs, ids[i], p);
      InsertedRanked(out, all[i], p);
      out, outIDs := Inserted(out, all[i], p), Inserted(outIDs, ids[i], p);
    }
    assert ids[..|all|] == ids;
  }

  function Inserted<T>(s: seq<T>, x: T, p: nat): (t: seq<T>)
    requires p <= |s|
    ensures |t| == |s| + 1
    ensures forall k :: 0 <= k < |t| ==> t[k] == if k < p then s[k] else if k == p then x else s[k - 1]
  {
    s[..p] + [x] + s[p..]
  }

  lemma InsertedMembers(ids: seq<string>, id: string, p: nat)
    requires p <= |ids|
    ensures forall x :: x in Inserted(ids, id, p) <==> x in ids || x == id
  {
    assert ids == ids[..p] + ids[p..];
  }

  lemma InsertedDistinct(ids: seq<string>, id: string, p: nat)
    requires p <= |ids| && Text.Distinct(ids) && id !in ids
    ensures Text.Distinct(Inserted(ids, id, p))
  {
    assert forall k :: 0 <= k < |ids| ==> ids[k] in ids;
  }

  lemma InsertedRanked(all: seq<Candidate>, c: Candidate, p: nat)
    requires p <= |all| && Ranked(all)
    requires forall k :: p <= k < |all| ==> Before(c, all[k])
    requires p > 0 ==> !Before(c, all[p - 1])
    ensures Ranked(Inserted(all, c, p))
  {
    forall k | 0 <= k < p ensures !Before(c, all[k]) {
      if k < p - 1 { BeforeOrder(all[k], all[p - 1], c); }
    }
    forall k | p <= k < |all| ensures !Before(all[k], c) { BeforeOrder(c, all[k], c); }
    InsertedPairs(all, c, p);
  }

  /** Two elements of the new list are two old ones in order, or one of them is the new one. */
  lemma InsertedPairs(all: seq<Candidate>, c: Candidate, p: nat)
    requires p <= |all| && Ranked(all)
    requires forall k :: 0 <= k < p ==> !Before(c, all[k])
    requires forall k :: p <= k < |all| ==> !Before(all[k], c)
    ensures Ranked(Inserted(all, c, p))
  {
    var t := Inserted(all, c, p);
    forall i, j | 0 <= i < j < |t| ensures !Before(t[j], t[i]) {
      var j' := if j < p then j else j - 1;
      if i != p && j != p { assert !Before(all[j'], all[if i < p then i else i - 1]); }
    }
  }

  /** The candidates whose law passes, in order. */
  function Passing(all: seq<Candidate>, keep: Law -> bool): seq<Candidate> {
    if all == [] then []
    else
      var k := |all| - 1;
      Passing(all[..k], keep) + if keep(all[k].law) then [all[k]] else []
  }

  method FilterSGB(byID: map<string, Law>, ghost score: string -> real, all: seq<Candidate>, ghost ids: seq<string>, book: int)
    returns (hits: seq<Candidate>, ghost hitIDs: seq<string>)
    requires Listing(byID, score, all, ids)
    ensures Listing(byID, score, hits, hitIDs)
    ensures forall id :: id in hitIDs <==> id in ids && SGB.BookNumber(LawAt(byID, id)) == book
    ensures forall c :: c in hits <==> c in all && SGB.BookNumber(c.law) == book
    ensures hits == Passing(all, OfBook(book))
  {
    hits, hitIDs := FilterBy(byID, score, all, ids, OfBook(book));
  }

  function OfBook(book: int): Law -> bool { (l: Law) => SGB.BookNumber(l) == book }

  function OtherThan(id: string): Law -> bool { (l: Law) => l.id != id }

  method FilterBy(byID: map<string, Law>, ghost score: string -> real, all: seq<Candidate>, ghost ids: seq<string>, keep: Law -> bool)
    returns (hits: seq<Candidate>, ghost hitIDs: seq<string>)
    requires Listing(byID, score, all, ids)
    ensures Listing(byID, score, hits, hitIDs)
    ensures forall id :: id in hitIDs <==> id in ids && keep(LawAt(byID, id))
    ensures forall c :: c in hits <==> c in all && keep(c.law)
    ensures hits == Passing(all, keep)
  {
    hits, hitIDs := [], [];
    for i := 0 to |all|
      invariant Listing(byID, score, hits, hitIDs) && hits == Passing(all[..i], keep)
      invariant forall c :: c in hits <==> c in all[..i] && keep(c.law)
      invariant forall id :: id in hitIDs <==> id in ids[..i] && keep(LawAt(byID, id))
    {
      assert ids[..i + 1] == ids[..i] + [ids[i]];
      assert ids[i] !in ids[..i] && all[..i + 1] == all[..i] + [all[i]];
      assert all[..i + 1][..i] == all[..i];
      if keep(all[i].law) {
        hits := hits + [all[i]];
        hitIDs := hitIDs + [ids[i]];
      }
    }
    assert ids[..|all|] == ids && all[..|all|] == all;
  }

  // ---------- a book's law always scores ----------

  function Same(k: string): string { k }

  /** AlternateKeys: the key, its umlaut spellings and, for a book, the book's keys. */
  function QueryKeys(env: Env, query: string): seq<string> {
    var k := env.key(query);
    Text.FirstPerKey([k] + env.spellings(k) + SGB.AlternateKeys(env.key, query), Same)
  }

  /** Normalizing does not wipe out the name of a book. */
  ghost predicate KeepsBookNames(env: Env) {
    forall n: int :: n > 0 ==> SGB.BookKey(env.key, n) != ""
  }

  lemma QueryKeysHasBook(env: Env, query: string)
    requires SGB.ParseBook(query).Some? && KeepsBookNames(env)
    ensures SGB.BookKey(env.key, SGB.ParseBook(query).value) in QueryKeys(env, query)
  {
    var bk := SGB.BookKey(env.key, SGB.ParseBook(query).value);
    var all := [env.key(query)] + env.spellings(env.key(query)) + SGB.AlternateKeys(env.key, query);
    SGB.QueryHasBookKey(env.key, query);
    assert bk in all;
    var i :| 0 <= i < |all| && all[i] == bk;
    assert Same(all[i]) == bk;
    assert Text.HasKey(all, Same, bk);
    Text.FirstPerKeyExact(all, Same);
    var j :| 0 <= j < |QueryKeys(env, query)| && Same(QueryKeys(env, query)[j]) == bk;
  }

  lemma {:induction false} ExactOverAtLeast(env: Env, s: Snapshot, qkeys: seq<string>, qk: string, id: string)
    requires qk in qkeys
    ensures ExactOver(env, s, qkeys, id) >= ExactScore(env, s, qk, id)
  {
    var k := |qkeys| - 1;
    if qkeys[k] != qk {
      assert qk in qkeys[..k];
      ExactOverAtLeast(env, s, qkeys[..k], qk, id);
    }
  }

  lemma {:induction false} FuzzyOverGrows(env: Env, l: Law, qkeys: seq<string>, start: real)
    ensures FuzzyOver(env, l, qkeys, start) >= start
  {
    if qkeys != [] { FuzzyOverGrows(env, l, qkeys[..|qkeys| - 1], start); }
  }

  lemma {:induction false} ScoreGrows(env: Env, s: Snapshot, qkeys: seq<string>, n: nat, id: string)
    requires n <= |s.laws|
    ensures ScoreUpTo(env, s, qkeys, n, id) >= ExactOver(env, s, qkeys, id)
  {
    if n > 0 {
      ScoreGrows(env, s, qkeys, n - 1, id);
      FuzzyOverGrows(env, s.laws[n - 1], qkeys, ScoreUpTo(env, s, qkeys, n - 1, id));
    }
  }

  /** Whatever the similarity says, the law of the book asked for gets a full score. */
  lemma BookLawScores(env: Env, laws: seq<Law>, variants: seq<LawVariant>, s: Snapshot, query: string, i: nat)
    requires Built(env, laws, variants, s) && KeepsBookNames(env) && i < |laws|
    requires SGB.ParseBook(query) == Some(SGB.BookNumber(laws[i]))
    ensures Score(env, s, QueryKeys(env, query), laws[i].id) >= 1.0
  {
    var l, bk := laws[i], SGB.BookKey(env.key, SGB.BookNumber(laws[i]));
    QueryKeysHasBook(env, query);
    SGB.LawHasBookKey(env.key, l);
    assert FiledByAbbr(env, l, bk);
    assert Filed(laws, |laws|, ByAbbr(env), bk, l.id) by { assert ByAbbr(env)(l, bk); }
    assert HasID(ListAt(s.byAbbr, bk), l.id);
    ExactOverAtLeast(env, s, QueryKeys(env, query), bk, l.id);
    ScoreGrows(env, s, QueryKeys(env, query), |laws|, l.id);
  }

  // ---------- hits are the laws of the book ----------

  lemma {:induction false} LastOfExact(laws: seq<Law>, id: string)
    ensures LastOf(laws, id).Some? ==> exists i :: 0 <= i < |laws| && laws[i] == LastOf(laws, id).value && laws[i].id == id
    ensures LastOf(laws, id).None? ==> forall i :: 0 <= i < |laws| ==> laws[i].id != id
  {
    if laws != [] {
      var k := |laws| - 1;
      LastOfExact(laws[..k], id);
      assert forall i :: 0 <= i < k ==> laws[..k][i] == laws[i];
    }
  }

  lemma NoLawNoBook()
    ensures SGB.BookNumber(NO_LAW) == 0
  {
    assert Text.TrimSpace("") == "";
    assert SGB.ParseBook("").None?;
    assert Text.Lower("") == "";
  }

  ghost predicate BookIs(laws: seq<Law>, i: nat, n: int)
    requires i < |laws|
  {
    SGB.BookNumber(laws[i]) == n
  }

  /** Exactly one law of the catalog has the book number. */
  ghost predicate OnlyBook(laws: seq<Law>, n: int) {
    exists i :: 0 <= i < |laws| && BookIs(laws, i, n) && forall j :: 0 <= j < |laws| && BookIs(laws, j, n) ==> j == i
  }

  /** With unique ids the id map gives every law back, and nothing else. */
  lemma LawAtExact(laws: seq<Law>, byID: map<string, Law>, id: string)
    requires ByIDExact(laws, byID) && UniqueIDs(laws)
    ensures forall i :: 0 <= i < |laws| && laws[i].id == id ==> LawAt(byID, id) == laws[i]
    ensures LawAt(byID, id) == NO_LAW || exists i :: 0 <= i < |laws| && laws[i].id == id && LawAt(byID, id) == laws[i]
  {
    assert (if id in byID then Some(byID[id]) else None) == LastOf(laws, id);
    LastOfExact(laws, id);
  }

  lemma HitIsLaw(env: Env, laws: seq<Law>, variants: seq<LawVariant>, s: Snapshot, query: string, n: int, id: string)
    requires Built(env, laws, variants, s) && KeepsBookNames(env) && UniqueIDs(laws)
    requires SGB.ParseBook(query) == Some(n)
    ensures (Score(env, s, QueryKeys(env, query), id) > 0.0 && SGB.BookNumber(LawAt(s.byID, id)) == n) <==>
            exists i :: 0 <= i < |laws| && laws[i].id == id && BookIs(laws, i, n)
    ensures forall i :: 0 <= i < |laws| && laws[i].id == id ==> LawAt(s.byID, id) == laws[i]
  {
    LawAtExact(laws, s.byID, id);
    NoLawNoBook();
    if i :| 0 <= i < |laws| && laws[i].id == id && BookIs(laws, i, n) {
      BookLawScores(env, laws, variants, s, query, i);
    }
    if i :| 0 <= i < |laws| && laws[i].id == id && LawAt(s.byID, id) == laws[i] {
      assert BookIs(laws, i, n) <==> SGB.BookNumber(LawAt(s.byID, id)) == n;
    }
  }

  lemma OneHitIffOnlyBook(laws: seq<Law>, hitIDs: seq<string>, n: int)
    requires UniqueIDs(laws) && Text.Distinct(hitIDs)
    requires forall id :: id in hitIDs <==> exists i :: 0 <= i < |laws| && laws[i].id == id && BookIs(laws, i, n)
    ensures |hitIDs| == 1 <==> OnlyBook(laws, n)
  {
    assert forall i :: 0 <= i < |laws| && BookIs(laws, i, n) ==> laws[i].id in hitIDs;
    if |hitIDs| == 1 {
      assert hitIDs[0] in hitIDs;
      var i :| 0 <= i < |laws| && laws[i].id == hitIDs[0] && BookIs(laws, i, n);
      forall j | 0 <= j < |laws| && BookIs(laws, j, n) ensures j == i { assert laws[j].id in hitIDs; }
    } else if |hitIDs| >= 2 {
      assert hitIDs[0] in hitIDs && hitIDs[1] in hitIDs;
      var i :| 0 <= i < |laws| && laws[i].id == hitIDs[0] && BookIs(laws, i, n);
      var j :| 0 <= j < |laws| && laws[j].id == hitIDs[1] && BookIs(laws, j, n);
      assert i != j;
    }
  }

  // ---------- Resolve ----------

  const MAX_SUGGESTIONS := 10

  function FirstTen(all: seq<Candidate>): seq<Candidate> {
    if |all| > MAX_SUGGESTIONS then all[..MAX_SUGGESTIONS] else all
  }

  function ScoreOf(env: Env, s: Snapshot, query: string): string -> real {
    (id: string) => Score(env, s, QueryKeys(env, query), id)
  }

  ghost predicate IsCandidate(env: Env, s: Snapshot, query: string, c: Candidate) {
    exists id :: ScoreOf(env, s, query)(id) > 0.0 && c == Candidate(LawAt(s.byID, id), ScoreOf(env, s, query)(id))
  }

  method CollectKeys(env: Env, query: string) returns (qkeys: seq<string>)
    ensures qkeys == QueryKeys(env, query)
  {
    var k := env.key(query);
    qkeys := Text.FirstOccurrences([k] + env.spellings(k) + SGB.AlternateKeys(env.key, query), Same);
  }

  method OthersThan(id: string, all: seq<Candidate>) returns (out: seq<Candidate>)
    ensures forall c :: c in out <==> c in all && c.law.id != id
    ensures out == Passing(all, OtherThan(id))
  {
    out := [];
    for i := 0 to |all|
      invariant forall c :: c in out <==> c in all[..i] && c.law.id != id
      invariant out == Passing(all[..i], OtherThan(id))
    {
      assert all[..i + 1] == all[..i] + [all[i]];
      assert all[..i + 1][..i] == all[..i];
      if all[i].law.id != id { out := out + [all[i]]; }
    }
    assert all[..|all|] == all;
  }

  ghost predicate HitsOf(env: Env, s: Snapshot, query: string, n: int, hitIDs: seq<string>) {
    && Text.Distinct(hitIDs)
    && forall id :: id in hitIDs <==> ScoreOf(env, s, query)(id) > 0.0 && SGB.BookNumber(LawAt(s.byID, id)) == n
  }

  /** One hit is the one law of the book. */
  lemma HitsAreTheBook(env: Env, laws: seq<Law>, variants: seq<LawVariant>, s: Snapshot, query: string, n: int, hitIDs: seq<string>)
    requires Built(env, laws, variants, s) && KeepsBookNames(env) && UniqueIDs(laws)
    requires SGB.ParseBook(query) == Some(n) && HitsOf(env, s, query, n, hitIDs)
    ensures |hitIDs| == 1 <==> OnlyBook(laws, n)
    ensures |hitIDs| == 1 ==> LawAt(s.byID, hitIDs[0]) in laws && SGB.BookNumber(LawAt(s.byID, hitIDs[0])) == n
  {
    forall id { HitIsLaw(env, laws, variants, s, query, n, id); }
    forall id ensures id in hitIDs <==> exists i :: 0 <= i < |laws| && laws[i].id == id && BookIs(laws, i, n) {
      assert ScoreOf(env, s, query)(id) == Score(env, s, QueryKeys(env, query), id);
    }
    OneHitIffOnlyBook(laws, hitIDs, n);
    if |hitIDs| == 1 { assert hitIDs[0] in hitIDs; }
  }

  /** The answer to a query for a book: the one hit, or nothing with everything or the hits listed. */
  method PickBook(env: Env, s: Snapshot, query: string, book: int, all: seq<Candidate>, ghost ids: seq<string>)
    returns (best: Option<Candidate>, suggestions: seq<Candidate>, ghost hitIDs: seq<string>)
    requires Listing(s.byID, ScoreOf(env, s, query), all, ids)
    requires forall id :: id in ids <==> ScoreOf(env, s, query)(id) > 0.0
    ensures HitsOf(env, s, query, book, hitIDs)
    ensures best.Some? <==> |hitIDs| == 1
    ensures best.Some? ==> best.value.law == LawAt(s.byID, hitIDs[0]) && best.value in all
    ensures |suggestions| <= MAX_SUGGESTIONS && forall c :: c in suggestions ==> c in all
    ensures suggestions == FirstTen(
      if best.Some? then Passing(all, OtherThan(best.value.law.id))
      else if Passing(all, OfBook(book)) == [] then all
      else Passing(all, OfBook(book)))
  {
    var hits;
    hits, hitIDs := FilterSGB(s.byID, ScoreOf(env, s, query), all, ids, book);
    if |hits| == 1 {
      assert hits[0] in hits;
      var others := OthersThan(hits[0].law.id, all);
      return Some(hits[0]), FirstTen(others), hitIDs;
    }
    if |hits| == 0 {
      return None, FirstTen(all), hitIDs;
    }
    best, suggestions := None, FirstTen(hits);
  }

  /** The candidates of a query, each once, best first. */
  ghost predicate Ranking(env: Env, s: Snapshot, query: string, all: seq<Candidate>) {
    Ranked(all) && exists ids :: RankedUnder(env, s, query, all, ids)
  }

  ghost predicate RankedUnder(env: Env, s: Snapshot, query: string, all: seq<Candidate>, ids: seq<string>) {
    && Listing(s.byID, ScoreOf(env, s, query), all, ids)
    && forall id :: id in ids <==> ScoreOf(env, s, query)(id) > 0.0
  }

  method RankAll(env: Env, s: Snapshot, query: string) returns (all: seq<Candidate>, ghost ids: seq<string>)
    ensures Ranked(all) && RankedUnder(env, s, query, all, ids)
    ensures forall c :: c in all ==> IsCandidate(env, s, query, c)
  {
    var qkeys := CollectKeys(env, query);
    var scores := ComputeScores(env, s, qkeys);
    ghost var score := ScoreOf(env, s, query);
    var unranked, listed := Candidates(s.byID, scores, score);
    all, ids := Rank(s.byID, score, unranked, listed);
    forall i | 0 <= i < |all| ensures IsCandidate(env, s, query, all[i]) { assert ids[i] in ids; }
  }

  /** The answer to any other query: the front of the ranking if it reaches the threshold, and the next ten. */
  method PickTop(env: Env, s: Snapshot, query: string, threshold: real, all: seq<Candidate>, ghost ids: seq<string>)
    returns (best: Option<Candidate>, suggestions: seq<Candidate>)
    requires all != [] && Ranked(all) && RankedUnder(env, s, query, all, ids)
    ensures best == if all[0].score >= threshold then Some(all[0]) else None
    ensures suggestions == FirstTen(if best.Some? then all[1..] else all)
    ensures |suggestions| <= MAX_SUGGESTIONS && forall c :: c in suggestions ==> c in all
    ensures forall id :: ScoreOf(env, s, query)(id) <= all[0].score
  {
    TopIsBest(s.byID, ScoreOf(env, s, query), all, ids);
    if all[0].score >= threshold { return Some(all[0]), FirstTen(all[1..]); }
    best, suggestions := None, FirstTen(all);
  }

  /** Resolve. A query for a book of the Sozialgesetzbuch gets the law exactly when the catalog has one
      law of that book, and no best match otherwise, whatever variants, threshold and similarity say;
      any other query gets a candidate of the highest score exactly when that reaches the threshold. The
      suggestions are the next ten of the ranking, or of the laws of the book when it has several. */
  method Resolve(env: Env, s: Snapshot, query: string, threshold: real, ghost laws: seq<Law>, ghost variants: seq<LawVariant>)
    returns (best: Option<Candidate>, suggestions: seq<Candidate>, ambiguous: bool, ghost ranked: seq<Candidate>)
    requires Built(env, laws, variants, s)
    ensures SGB.ParseBook(query).Some? && UniqueIDs(laws) && KeepsBookNames(env) ==>
      && (best.Some? <==> OnlyBook(laws, SGB.ParseBook(query).value))
      && (best.Some? ==> best.value.law in laws && SGB.BookNumber(best.value.law) == SGB.ParseBook(query).value)
    ensures SGB.ParseBook(query).None? && best.Some? ==>
      best.value.score >= threshold && forall id :: ScoreOf(env, s, query)(id) <= best.value.score
    ensures SGB.ParseBook(query).None? && best.None? && query != "" ==>
      forall id :: ScoreOf(env, s, query)(id) > 0.0 ==> ScoreOf(env, s, query)(id) < threshold
    ensures best.Some? ==> query != "" && IsCandidate(env, s, query, best.value) && !ambiguous
    ensures |suggestions| <= MAX_SUGGESTIONS && forall c :: c in suggestions ==> IsCandidate(env, s, query, c)
    ensures ambiguous <==> query != "" && best.None? && SGB.ParseBook(query).Some? && exists id :: ScoreOf(env, s, query)(id) > 0.0
    ensures if query == "" then ranked == [] else Ranking(env, s, query, ranked)
    ensures best.Some? ==> best.value in ranked
    ensures SGB.ParseBook(query).None? ==> suggestions == FirstTen(if best.Some? then ranked[1..] else ranked)
    ensures SGB.ParseBook(query).Some? ==> suggestions == FirstTen(
      if best.Some? then Passing(ranked, OtherThan(best.value.law.id))
      else if Passing(ranked, OfBook(SGB.ParseBook(query).value)) == [] then ranked
      else Passing(ranked, OfBook(SGB.ParseBook(query).value)))
  {
    best, suggestions, ambiguous, ranked := None, [], false, [];
    assert Text.TrimSpace("") == "";
    if query == "" { return; }
    var all;
    ghost var ids;
    all, ids := RankAll(env, s, query);
    ranked := all;
    ghost var named := SGB.ParseBook(query);
    if |all| == 0 {
      if named.Some? && UniqueIDs(laws) && KeepsBookNames(env) {
        HitsAreTheBook(env, laws, variants, s, query, named.value, []);
      }
      return;
    }
    assert ids[0] in ids;
    var book, sgbQuery := SGB.ParseSGBBookQuery(query);
    if sgbQuery {
      ghost var hitIDs;
      best, suggestions, hitIDs := PickBook(env, s, query, book, all, ids);
      ambiguous := best.None?;
      if UniqueIDs(laws) && KeepsBookNames(env) { HitsAreTheBook(env, laws, variants, s, query, book, hitIDs); }
      return;
    }
    best, suggestions := PickTop(env, s, query, threshold, all, ids);
  }

  lemma TopIsBest(byID: map<string, Law>, score: string -> real, all: seq<Candidate>, ids: seq<string>)
    requires Listing(byID, score, all, ids) && Ranked(all) && all != []
    requires forall id :: id in ids <==> score(id) > 0.0
    ensures forall id :: score(id) <= all[0].score
  {
    forall id ensures score(id) <= all[0].score {
      assert score(ids[0]) > 0.0;
      if score(id) > 0.0 {
        var i :| 0 <= i < |ids| && ids[i] == id;
        if i > 0 { BeforeOrder(all[0], all[i], all[i]); }
      }
    }
  }

  // ---------- the levels of a score ----------

  /** A key that is the abbreviation, an alias or the id of a law gives it 1, its title 0.98, a variant 0.95:
      an exact title outranks a variant, and both outrank any substring. */
  lemma ScoreLevels(env: Env, laws: seq<Law>, variants: seq<LawVariant>, s: Snapshot, qkeys: seq<string>, qk: string, i: nat)
    requires Built(env, laws, variants, s) && qk in qkeys && i < |laws|
    ensures env.key(laws[i].abbreviation) == qk || env.key(laws[i].id) == qk ==> Score(env, s, qkeys, laws[i].id) >= 1.0
    ensures env.key(laws[i].title) == qk ==> Score(env, s, qkeys, laws[i].id) >= 0.98
    ensures LastVariant(env, variants, qk) == Some(laws[i].id) ==> Score(env, s, qkeys, laws[i].id) >= 0.95
  {
    var l := laws[i];
    ExactOverAtLeast(env, s, qkeys, qk, l.id);
    ScoreGrows(env, s, qkeys, |laws|, l.id);
    if env.key(l.abbreviation) == qk {
      assert Filed(laws, |laws|, ByAbbr(env), qk, l.id) by { assert ByAbbr(env)(l, qk); }
      assert HasID(ListAt(s.byAbbr, qk), l.id);
    }
    if env.key(l.title) == qk {
      assert Filed(laws, |laws|, ByTitle(env), qk, l.id) by { assert ByTitle(env)(l, qk); }
      assert HasID(ListAt(s.byTitle, qk), l.id);
    }
    assert VariantAt(s.variants, qk) == LastVariant(env, variants, qk);
  }

  lemma {:induction false} FuzzyOverAtLeast(env: Env, l: Law, qkeys: seq<string>, start: real, qk: string)
    requires qk in qkeys
    ensures FuzzyOver(env, l, qkeys, start) >= FuzzyScore(env, l, qk)
  {
    var k := |qkeys| - 1;
    if qkeys[k] != qk {
      assert qk in qkeys[..k];
      FuzzyOverAtLeast(env, l, qkeys[..k], start, qk);
    }
  }

  lemma {:induction false} ScoreUpToAtLeast(env: Env, s: Snapshot, qkeys: seq<string>, n: nat, i: nat, qk: string)
    requires i < n <= |s.laws| && qk in qkeys
    ensures ScoreUpTo(env, s, qkeys, n, s.laws[i].id) >= FuzzyScore(env, s.laws[i], qk)
  {
    var l := s.laws[n - 1];
    if i == n - 1 {
      FuzzyOverAtLeast(env, l, qkeys, ScoreUpTo(env, s, qkeys, n - 1, l.id), qk);
    } else {
      ScoreUpToAtLeast(env, s, qkeys, n - 1, i, qk);
      FuzzyOverGrows(env, l, qkeys, ScoreUpTo(env, s, qkeys, n - 1, s.laws[i].id));
    }
  }

  /** Similarity to an abbreviation counts by 0.92, to a title by 0.85, and an abbreviation of three bytes or
      more inside the key, or the key inside a title, by 0.8. */
  lemma FuzzyLevels(env: Env, laws: seq<Law>, variants: seq<LawVariant>, s: Snapshot, qkeys: seq<string>, qk: string, i: nat)
    requires Built(env, laws, variants, s) && qk in qkeys && i < |laws|
    ensures Score(env, s, qkeys, laws[i].id) >= env.similarity(qk, env.key(laws[i].abbreviation)) * 0.92
    ensures Score(env, s, qkeys, laws[i].id) >= env.similarity(qk, env.key(laws[i].title)) * 0.85
    ensures ByteLen(env.key(laws[i].abbreviation)) >= 3 && Contains(env, qk, env.key(laws[i].abbreviation)) ==>
      Score(env, s, qkeys, laws[i].id) >= 0.8
    ensures Contains(env, env.key(laws[i].title), qk) ==> Score(env, s, qkeys, laws[i].id) >= 0.8
  {
    ScoreUpToAtLeast(env, s, qkeys, |laws|, i, qk);
  }

  /** Nothing else scores: a score above one of these levels has a key and a law that give it. */
  ghost predicate Earned(env: Env, s: Snapshot, qkeys: seq<string>, id: string, score: real) {
    || score == 0.0
    || (exists qk :: qk in qkeys && score == ExactScore(env, s, qk, id))
    || (exists qk, l :: qk in qkeys && l in s.laws && l.id == id && score == FuzzyScore(env, l, qk))
  }

  lemma {:induction false} ExactEarned(env: Env, s: Snapshot, qkeys: seq<string>, id: string)
    ensures ExactOver(env, s, qkeys, id) == 0.0 || exists qk :: qk in qkeys && ExactOver(env, s, qkeys, id) == ExactScore(env, s, qk, id)
  {
    if qkeys != [] {
      ExactEarned(env, s, qkeys[..|qkeys| - 1], id);
      assert qkeys == qkeys[..|qkeys| - 1] + [qkeys[|qkeys| - 1]];
    }
  }

  lemma {:induction false} FuzzyEarned(env: Env, l: Law, qkeys: seq<string>, start: real)
    ensures FuzzyOver(env, l, qkeys, start) == start || exists qk :: qk in qkeys && FuzzyOver(env, l, qkeys, start) == FuzzyScore(env, l, qk)
  {
    if qkeys != [] {
      FuzzyEarned(env, l, qkeys[..|qkeys| - 1], start);
      assert qkeys == qkeys[..|qkeys| - 1] + [qkeys[|qkeys| - 1]];
    }
  }

  /** The score of a law is the best any key of the query earns it. */
  lemma {:induction false} ScoreEarned(env: Env, s: Snapshot, qkeys: seq<string>, n: nat, id: string)
    requires n <= |s.laws|
    ensures Earned(env, s, qkeys, id, ScoreUpTo(env, s, qkeys, n, id))
  {
    if n == 0 {
      ExactEarned(env, s, qkeys, id);
    } else {
      ScoreEarned(env, s, qkeys, n - 1, id);
      var front, l := ScoreUpTo(env, s, qkeys, n - 1, id), s.laws[n - 1];
      if l.id == id {
        FuzzyEarned(env, l, qkeys, front);
        assert l in s.laws;
      }
    }
  }

  /** No key is an abbreviation, an alias, an id or a title of the law. */
  ghost predicate NotNamed(env: Env, laws: seq<Law>, qkeys: seq<string>, id: string) {
    forall qk, l :: qk in qkeys && l in laws && l.id == id ==> Unnamed(env, l, qk)
  }

  predicate Unnamed(env: Env, l: Law, qk: string) {
    !FiledByAbbr(env, l, qk) && env.key(l.title) != qk && env.key(l.id) != qk && l.id != qk
  }

  lemma UnnamedScore(env: Env, laws: seq<Law>, variants: seq<LawVariant>, s: Snapshot, qkeys: seq<string>, qk: string, id: string)
    requires Built(env, laws, variants, s) && NotNamed(env, laws, qkeys, id) && qk in qkeys
    ensures ExactScore(env, s, qk, id) == if LastVariant(env, variants, qk) == Some(id) then 0.95 else 0.0
  {
    assert VariantAt(s.variants, qk) == LastVariant(env, variants, qk);
    forall i | 0 <= i < |laws| && laws[i].id == id ensures Unnamed(env, laws[i], qk) { assert laws[i] in laws; }
    assert !Filed(laws, |laws|, ByAbbr(env), qk, id);
    assert !Filed(laws, |laws|, ByTitle(env), qk, id);
    LastOfExact(laws, qk);
    assert (if qk in s.byID then Some(s.byID[qk]) else None) == LastOf(laws, qk);
    assert !(qk in s.byID && s.byID[qk].id == id);
    assert !KeyedByID(env, laws, qk, id);
  }

  lemma FuzzyAtMost(env: Env, l: Law, qk: string)
    requires forall a, b :: env.similarity(a, b) <= 1.0
    ensures FuzzyScore(env, l, qk) <= 0.92
  {
    assert env.similarity(qk, env.key(l.abbreviation)) <= 1.0 && env.similarity(qk, env.key(l.title)) <= 1.0;
  }

  /** A law that no key of the query names scores at most 0.95, and without a variant at most 0.92: never as
      high as an exact title. */
  lemma UnnamedAtMost(env: Env, laws: seq<Law>, variants: seq<LawVariant>, s: Snapshot, qkeys: seq<string>, id: string)
    requires Built(env, laws, variants, s) && NotNamed(env, laws, qkeys, id)
    requires forall a, b :: env.similarity(a, b) <= 1.0
    ensures Score(env, s, qkeys, id) <= 0.95
    ensures (forall qk :: qk in qkeys ==> LastVariant(env, variants, qk) != Some(id)) ==> Score(env, s, qkeys, id) <= 0.92
  {
    var score := Score(env, s, qkeys, id);
    ScoreEarned(env, s, qkeys, |laws|, id);
    forall qk | qk in qkeys
      ensures ExactScore(env, s, qk, id) == if LastVariant(env, variants, qk) == Some(id) then 0.95 else 0.0
    {
      UnnamedScore(env, laws, variants, s, qkeys, qk, id);
    }
    if qk, l :| qk in qkeys && l in s.laws && l.id == id && score == FuzzyScore(env, l, qk) { FuzzyAtMost(env, l, qk); }
  }
}
