/** What ingesting one law's XML does to the stored edges (internal/discovery/ingest.go:
    IngestLawXML, from the parsed references on; parent_resolve.go: the unique-parent rules). */
module Ingest {
  import opened Domain
  import opened Store
  import Citation
  import Linked
  import Text

  // ---------- inputs ----------

  /** One authorising clause: the parents its exact names and its title phrase may mean, and the
      section it cites ("" when none). */
  datatype Ref = Ref(
    precise: seq<string>, byTitle: seq<string>, lawTitlePhrase: string, jurabk: string, sectionHint: string, raw: string)

  datatype Fundstelle = Fundstelle(teil: int, year: int, number: string)

  /** titleCandidates are the parents each phrase of the law's own title may mean, in order. */
  datatype Document = Document(safe: bool, fundstelle: Option<Fundstelle>, refs: seq<Ref>, titleCandidates: seq<seq<string>>)

  /** Which store writes go through; upserts is the number of edge writes before the first failure. */
  datatype Writes = Writes(index: bool, delete: bool, upserts: Option<nat>)

  // ---------- unique parents ----------

  function UniqueIDs(key: string -> string, ids: seq<string>): seq<string> {
    if ids == [] then []
    else
      var front := UniqueIDs(key, ids[..|ids| - 1]);
      var id := key(ids[|ids| - 1]);
      if id == "" || id in front then front else front + [id]
  }

  function SoleID(key: string -> string, ids: seq<string>): Option<string> {
    var unique := UniqueIDs(key, ids);
    if |unique| == 1 then Some(unique[0]) else None
  }

  method UniqueFrom(key: string -> string, ids: seq<string>) returns (sole: Option<string>)
    ensures sole == SoleID(key, ids)
  {
    var seen: set<string> := {};
    var out: seq<string> := [];
    for i := 0 to |ids|
      invariant out == UniqueIDs(key, ids[..i])
      invariant forall id :: id in seen <==> id in out
    {
      assert ids[..i + 1][..i] == ids[..i];
      var id := key(ids[i]);
      if id == "" || id in seen { continue; }
      seen := seen + {id};
      out := out + [id];
    }
    assert ids[..|ids|] == ids;
    sole := if |out| == 1 then Some(out[0]) else None;
  }

  lemma {:induction false} UniqueIDsExact(key: string -> string, ids: seq<string>)
    ensures forall id :: id in UniqueIDs(key, ids) <==> id != "" && exists i :: 0 <= i < |ids| && key(ids[i]) == id
    ensures Text.Distinct(UniqueIDs(key, ids))
  {
    if ids != [] {
      var n := |ids| - 1;
      UniqueIDsExact(key, ids[..n]);
      assert forall i :: 0 <= i < n ==> ids[..n][i] == ids[i];
    }
  }

  /** A parent is unique when every candidate that normalizes to something normalizes to it. */
  lemma SoleIDExact(key: string -> string, ids: seq<string>, p: string)
    ensures SoleID(key, ids) == Some(p) <==>
            && p != "" && (exists i :: 0 <= i < |ids| && key(ids[i]) == p)
            && (forall i :: 0 <= i < |ids| ==> key(ids[i]) == "" || key(ids[i]) == p)
  {
    UniqueIDsExact(key, ids);
    var unique := UniqueIDs(key, ids);
    assert forall i :: 0 <= i < |ids| && key(ids[i]) != "" ==> key(ids[i]) in unique;
    assert p in unique <==> p != "" && exists i :: 0 <= i < |ids| && key(ids[i]) == p;
    if |unique| >= 2 {
      assert unique[0] in unique && unique[1] in unique;
    } else if |unique| == 1 {
      assert unique == [unique[0]];
    }
  }

  /** ResolveParent: exact names before title phrases. */
  function OwnParent(key: string -> string, r: Ref): Option<string> {
    if SoleID(key, r.precise).Some? then SoleID(key, r.precise) else SoleID(key, r.byTitle)
  }

  /** ResolveParentFromChildTitle: the first phrase that means one parent. */
  function TitleParent(key: string -> string, lists: seq<seq<string>>): Option<string> {
    if lists == [] then None
    else if SoleID(key, lists[0]).Some? then SoleID(key, lists[0])
    else TitleParent(key, lists[1..])
  }

  predicate Explicit(r: Ref) { Text.TrimSpace(r.lawTitlePhrase) != "" || Text.TrimSpace(r.jurabk) != "" }

  /** The parent of a reference; the law's own title speaks only for references that name none. */
  function ParentOf(key: string -> string, lists: seq<seq<string>>): Ref -> Option<string> {
    (r: Ref) =>
      if OwnParent(key, r).Some? then OwnParent(key, r)
      else if Explicit(r) then None
      else TitleParent(key, lists)
  }

  method ResolveParentFromChildTitle(key: string -> string, lists: seq<seq<string>>) returns (parent: Option<string>)
    ensures parent == TitleParent(key, lists)
  {
    for i := 0 to |lists|
      invariant TitleParent(key, lists[i..]) == TitleParent(key, lists)
    {
      assert lists[i..][1..] == lists[i + 1..];
      var sole := UniqueFrom(key, lists[i]);
      if sole.Some? { return sole; }
    }
    parent := None;
  }

  method ResolveRef(key: string -> string, lists: seq<seq<string>>, r: Ref) returns (parent: Option<string>)
    ensures parent == ParentOf(key, lists)(r)
  {
    parent := UniqueFrom(key, r.precise);
    if parent.None? { parent := UniqueFrom(key, r.byTitle); }
    if parent.None? && !Explicit(r) { parent := ResolveParentFromChildTitle(key, lists); }
  }

  // ---------- aggregation ----------

  datatype Agg = Agg(hints: seq<string>, raw: string)

  /** The distinct sections cited for a parent, in first-seen order. */
  function HintsOf(of: Ref -> Option<string>, refs: seq<Ref>, p: string): seq<string> {
    if refs == [] then []
    else
      var front := HintsOf(of, refs[..|refs| - 1], p);
      var r := refs[|refs| - 1];
      if of(r) == Some(p) && r.sectionHint != "" && r.sectionHint !in front then front + [r.sectionHint] else front
  }

  /** The text of the first reference to a parent. */
  function RawOf(of: Ref -> Option<string>, refs: seq<Ref>, p: string): Option<string> {
    if refs == [] then None
    else
      var front := RawOf(of, refs[..|refs| - 1], p);
      var r := refs[|refs| - 1];
      if front.None? && of(r) == Some(p) then Some(r.raw) else front
  }

  function AggOf(of: Ref -> Option<string>, refs: seq<Ref>, p: string): Option<Agg> {
    if RawOf(of, refs, p).Some? then Some(Agg(HintsOf(of, refs, p), RawOf(of, refs, p).value)) else None
  }

  function Lookup<T>(m: map<string, T>, k: string): Option<T> { if k in m then Some(m[k]) else None }

  ghost predicate Aggregated(of: Ref -> Option<string>, refs: seq<Ref>, byParent: map<string, Agg>) {
    forall p :: Lookup(byParent, p) == AggOf(of, refs, p)
  }

  lemma {:induction false} HintsNeedRef(of: Ref -> Option<string>, refs: seq<Ref>, p: string)
    ensures RawOf(of, refs, p).None? ==> HintsOf(of, refs, p) == [] && forall i :: 0 <= i < |refs| ==> of(refs[i]) != Some(p)
  {
    if refs != [] {
      var n := |refs| - 1;
      HintsNeedRef(of, refs[..n], p);
      assert forall i :: 0 <= i < n ==> refs[..n][i] == refs[i];
    }
  }

  /** Distinct sections, exactly those cited for the parent. */
  lemma {:induction false} HintsExact(of: Ref -> Option<string>, refs: seq<Ref>, p: string)
    ensures Text.Distinct(HintsOf(of, refs, p))
    ensures forall h :: h in HintsOf(of, refs, p) <==>
      h != "" && exists i :: 0 <= i < |refs| && of(refs[i]) == Some(p) && refs[i].sectionHint == h
  {
    if refs != [] {
      var k := |refs| - 1;
      HintsExact(of, refs[..k], p);
      assert forall i :: 0 <= i < k ==> refs[..k][i] == refs[i];
    }
  }

  /** First-seen order: reading on only adds sections at the end. */
  lemma {:induction false} HintsInOrder(of: Ref -> Option<string>, refs: seq<Ref>, p: string, n: nat)
    requires n <= |refs|
    ensures HintsOf(of, refs[..n], p) <= HintsOf(of, refs, p)
  {
    if n == |refs| {
      assert refs[..n] == refs;
    } else {
      var k := |refs| - 1;
      HintsInOrder(of, refs[..k], p, n);
      assert refs[..k][..n] == refs[..n];
    }
  }

  function Added(agg: Option<Agg>, hint: string, raw: string): Agg {
    var base := if agg.Some? then agg.value else Agg([], raw);
    if hint != "" && hint !in base.hints then base.(hints := base.hints + [hint]) else base
  }

  lemma AggSnoc(of: Ref -> Option<string>, front: seq<Ref>, r: Ref, p: string)
    ensures AggOf(of, front + [r], p) ==
            if of(r) == Some(p) then Some(Added(AggOf(of, front, p), r.sectionHint, r.raw)) else AggOf(of, front, p)
  {
    assert (front + [r])[..|front|] == front;
    HintsNeedRef(of, front, p);
  }

  ghost predicate SeenMatches(byParent: map<string, Agg>, hintSeen: map<string, set<string>>) {
    forall p :: p in byParent ==> p in hintSeen && forall h :: h in hintSeen[p] <==> h in byParent[p].hints
  }

  /** The body of the aggregation loop for a resolved parent. */
  method AddRef(byParent: map<string, Agg>, hintSeen: map<string, set<string>>, p: string, hint: string, raw: string)
    returns (byParent': map<string, Agg>, hintSeen': map<string, set<string>>)
    requires SeenMatches(byParent, hintSeen)
    ensures SeenMatches(byParent', hintSeen')
    ensures byParent' == byParent[p := Added(Lookup(byParent, p), hint, raw)]
  {
    byParent', hintSeen' := byParent, hintSeen;
    if p !in byParent' {
      byParent' := byParent'[p := Agg([], raw)];
      hintSeen' := hintSeen'[p := {}];
    }
    var agg := byParent'[p];
    if hint != "" && hint !in hintSeen'[p] {
      hintSeen' := hintSeen'[p := hintSeen'[p] + {hint}];
      byParent' := byParent'[p := agg.(hints := agg.hints + [hint])];
    }
  }

  method Aggregate(key: string -> string, lists: seq<seq<string>>, refs: seq<Ref>) returns (byParent: map<string, Agg>)
    ensures Aggregated(ParentOf(key, lists), refs, byParent)
  {
    ghost var of := ParentOf(key, lists);
    byParent := map[];
    var hintSeen: map<string, set<string>> := map[];
    for i := 0 to |refs|
      invariant Aggregated(of, refs[..i], byParent)
      invariant SeenMatches(byParent, hintSeen)
    {
      var r := refs[i];
      forall p { AggSnoc(of, refs[..i], r, p); }
      assert refs[..i + 1] == refs[..i] + [r];
      var parent := ResolveRef(key, lists, r);
      if parent.None? { continue; }
      byParent, hintSeen := AddRef(byParent, hintSeen, parent.value, r.sectionHint, r.raw);
    }
    assert refs[..|refs|] == refs;
  }

  // ---------- the edges to keep ----------

  /** ScoreConfidence. */
  function ScoreConfidence(parentUnique: bool, sectionHint: string, fundstelleOK: bool, editorialAgrees: bool): string {
    if !parentUnique then (if sectionHint != "" || fundstelleOK then "medium" else "low")
    else
      var score := if sectionHint != "" && fundstelleOK then "high" else if sectionHint != "" || fundstelleOK then "medium" else "low";
      if editorialAgrees && sectionHint != "" && fundstelleOK && score == "medium" then "high" else score
  }

  /** An editorial hint never decides. */
  lemma HighIff(parentUnique: bool, sectionHint: string, fundstelleOK: bool, editorialAgrees: bool)
    ensures ScoreConfidence(parentUnique, sectionHint, fundstelleOK, editorialAgrees) == "high" <==>
            parentUnique && sectionHint != "" && fundstelleOK
  {
  }

  /** strings.Join(hints, "; "). */
  function JoinHints(hints: seq<string>): string {
    if hints == [] then "" else if |hints| == 1 then hints[0] else hints[0] + "; " + JoinHints(hints[1..])
  }

  function FundNotes(f: Fundstelle): string {
    if f.teil == 0 || f.year == 0 || f.number == "" then ""
    else "BGBl. " + Text.Itoa(f.year) + (if f.teil == 2 then " II" else " I") + " Nr. " + f.number
  }

  function NotesOf(fund: Option<Fundstelle>, agg: Agg): string {
    if fund.Some? && FundNotes(fund.value) != "" then FundNotes(fund.value) else agg.raw
  }

  function EdgeOf(law: Law, fund: Option<Fundstelle>, p: string, agg: Agg): DiscoveredEdge {
    DiscoveredEdge(p, law.giiPath, JoinHints(agg.hints), NotesOf(fund, agg), "ermaechtigung", "high", None, law.id)
  }

  /** The one edge a uniquely resolved parent gets: when the law's own Fundstelle is known and some
      section is cited for the parent. */
  function Wanted(of: Ref -> Option<string>, refs: seq<Ref>, law: Law, fund: Option<Fundstelle>): string -> Option<DiscoveredEdge> {
    (p: string) =>
      if fund.Some? && HintsOf(of, refs, p) != [] && RawOf(of, refs, p).Some?
      then Some(EdgeOf(law, fund, p, Agg(HintsOf(of, refs, p), RawOf(of, refs, p).value)))
      else None
  }

  predicate HintsFilled(byParent: map<string, Agg>) {
    forall p :: p in byParent ==> forall h :: h in byParent[p].hints ==> h != ""
  }

  method HighEdges(law: Law, fund: Option<Fundstelle>, byParent: map<string, Agg>)
    returns (toPersist: seq<DiscoveredEdge>, ghost order: seq<string>)
    requires HintsFilled(byParent)
    ensures |toPersist| == |order| && Text.Distinct(order)
    ensures forall p :: p in order <==> p in byParent && fund.Some? && byParent[p].hints != []
    ensures forall i :: 0 <= i < |order| ==> toPersist[i] == EdgeOf(law, fund, order[i], byParent[order[i]])
  {
    toPersist, order := [], [];
    var todo := byParent.Keys;
    while todo != {}
      invariant todo <= byParent.Keys && |toPersist| == |order| && Text.Distinct(order)
      invariant forall p :: p in order <==> p in byParent && p !in todo && fund.Some? && byParent[p].hints != []
      invariant forall i :: 0 <= i < |order| ==> toPersist[i] == EdgeOf(law, fund, order[i], byParent[order[i]])
      decreases |todo|
    {
      var p :| p in todo;
      todo := todo - {p};
      var agg := byParent[p];
      var sectionHint := JoinHints(agg.hints);
      assert sectionHint == "" <==> agg.hints == [] by {
        if agg.hints != [] { assert agg.hints[0] in agg.hints; }
      }
      var confidence := ScoreConfidence(true, sectionHint, fund.Some?, false);
      if confidence != "high" { continue; }
      toPersist := toPersist + [EdgeOf(law, fund, p, agg)];
      order := order + [p];
    }
  }

  // ---------- the store afterwards ----------

  ghost predicate Names(key: string -> string, slug: string, wanted: string -> Option<DiscoveredEdge>, k: string, p: string) {
    wanted(p).Some? && k == Linked.LinkKey(key, p, slug)
  }

  /** The edges of the slug are exactly the wanted ones; all others stay. */
  ghost predicate Replaced(key: string -> string, before: Edges, after: Edges, slug: string, wanted: string -> Option<DiscoveredEdge>) {
    && (forall p :: wanted(p).Some? ==> Lookup(after, Linked.LinkKey(key, p, slug)) == wanted(p))
    && (forall k :: Lookup(after, k) == Lookup(Without(before, slug), k) || exists p :: Names(key, slug, wanted, k, p))
  }

  /** Nothing wanted, nothing touched. */
  ghost predicate Ingested(key: string -> string, before: Edges, after: Edges, slug: string, wanted: string -> Option<DiscoveredEdge>) {
    if exists p :: wanted(p).Some? then Replaced(key, before, after, slug, wanted) else after == before
  }

  ghost predicate Normalizing(key: string -> string) {
    forall s :: key(key(s)) == key(s) && '|' !in key(s)
  }

  /** Every wanted edge is for a normalized parent and the slug. */
  ghost predicate Proper(key: string -> string, slug: string, wanted: string -> Option<DiscoveredEdge>) {
    forall p :: wanted(p).Some? ==> key(p) == p && wanted(p).value.parentLawID == p && wanted(p).value.giiSlug == slug
  }

  ghost predicate OthersKept(before: Edges, after: Edges, slug: string) {
    && (forall k :: k in before && before[k].giiSlug != slug ==> k in after && after[k] == before[k])
    && (forall k :: k in after && after[k].giiSlug != slug ==> k in before && after[k] == before[k])
  }

  /** The first n edges written over a store that holds none of the slug. */
  ghost predicate Written(key: string -> string, base: Edges, now: Edges, slug: string, toPersist: seq<DiscoveredEdge>, order: seq<string>, n: nat)
    requires n <= |toPersist| == |order|
  {
    && (forall i :: 0 <= i < n ==> Lookup(now, Linked.LinkKey(key, order[i], slug)) == Some(toPersist[i]))
    && (forall k :: Lookup(now, k) == Lookup(base, k) || exists i :: 0 <= i < n && k == Linked.LinkKey(key, order[i], slug))
  }

  lemma WrittenSnoc(key: string -> string, base: Edges, now: Edges, slug: string, toPersist: seq<DiscoveredEdge>, order: seq<string>, n: nat)
    requires n < |toPersist| == |order| && Written(key, base, now, slug, toPersist, order, n)
    requires Normalizing(key) && Text.Distinct(order) && forall i :: 0 <= i < |order| ==> key(order[i]) == order[i]
    ensures Written(key, base, now[Linked.LinkKey(key, order[n], slug) := toPersist[n]], slug, toPersist, order, n + 1)
  {
    var k := Linked.LinkKey(key, order[n], slug);
    forall i | 0 <= i < n ensures Linked.LinkKey(key, order[i], slug) != k {
      if Linked.LinkKey(key, order[i], slug) == k {
        assert '|' !in key(order[i]) && '|' !in key(order[n]);
        Linked.LinkKeyInjective(key, order[i], slug, order[n], slug);
        assert false;
      }
    }
    var after := now[k := toPersist[n]];
    forall j ensures Lookup(after, j) == Lookup(base, j) || exists i :: 0 <= i < n + 1 && j == Linked.LinkKey(key, order[i], slug) {
      if j != k && Lookup(now, j) != Lookup(base, j) {
        var i :| 0 <= i < n && j == Linked.LinkKey(key, order[i], slug);
        assert i < n + 1;
      }
    }
  }

  lemma NamedElsewhere(key: string -> string, before: Edges, k: string, slug: string, p: string)
    requires Normalizing(key) && Filed(key, before) && k in before && before[k].giiSlug != slug
    ensures k != Linked.LinkKey(key, p, slug)
  {
    if k == Linked.LinkKey(key, p, slug) {
      Linked.LinkKeyInjective(key, before[k].parentLawID, before[k].giiSlug, p, slug);
      assert false;
    }
  }

  /** However far the writing got, edges of other slugs are as before. */
  lemma WrittenKeepsOthers(key: string -> string, before: Edges, now: Edges, slug: string,
                           toPersist: seq<DiscoveredEdge>, order: seq<string>, n: nat)
    requires n <= |toPersist| == |order| && Written(key, Without(before, slug), now, slug, toPersist, order, n)
    requires Normalizing(key) && Filed(key, before)
    requires forall i :: 0 <= i < |order| ==> toPersist[i].giiSlug == slug
    ensures OthersKept(before, now, slug)
  {
    var base := Without(before, slug);
    forall k | k in before && before[k].giiSlug != slug ensures k in now && now[k] == before[k] {
      forall i | 0 <= i < n ensures k != Linked.LinkKey(key, order[i], slug) { NamedElsewhere(key, before, k, slug, order[i]); }
      assert Lookup(now, k) == Lookup(base, k);
    }
    forall k | k in now && now[k].giiSlug != slug ensures k in before && now[k] == before[k] {
      assert Lookup(now, k) == Lookup(base, k);
    }
  }

  lemma WrittenAll(key: string -> string, before: Edges, now: Edges, slug: string, wanted: string -> Option<DiscoveredEdge>,
                   toPersist: seq<DiscoveredEdge>, order: seq<string>)
    requires |toPersist| == |order| && Written(key, Without(before, slug), now, slug, toPersist, order, |order|)
    requires forall p :: p in order <==> wanted(p).Some?
    requires forall i :: 0 <= i < |order| ==> wanted(order[i]) == Some(toPersist[i])
    ensures Replaced(key, before, now, slug, wanted)
  {
    forall p | wanted(p).Some? ensures Lookup(now, Linked.LinkKey(key, p, slug)) == wanted(p) {
      var i :| 0 <= i < |order| && order[i] == p;
    }
    forall k ensures Lookup(now, k) == Lookup(Without(before, slug), k) || exists p :: Names(key, slug, wanted, k, p) {
      if i :| 0 <= i < |order| && k == Linked.LinkKey(key, order[i], slug) {
        assert order[i] in order;
        assert Names(key, slug, wanted, k, order[i]);
      }
    }
  }

  // ---------- IngestLawXML ----------

  const MAX_SLUG_LEN := 128

  predicate SlugStart(c: char) { 'a' <= c <= 'z' || 'A' <= c <= 'Z' || Text.IsDigit(c) || c == '_' }

  /** giiurl.ValidSlug. */
  predicate ValidSlug(slug: string) {
    && 0 < |slug| <= MAX_SLUG_LEN && SlugStart(slug[0])
    && (forall i :: 0 <= i < |slug| ==> SlugStart(slug[i]) || slug[i] == '.' || slug[i] == '-')
    && (forall i :: 0 <= i < |slug| - 1 ==> !(slug[i] == '.' && slug[i + 1] == '.'))
  }

  lemma ValidSlugIsTrimmed(slug: string)
    requires ValidSlug(slug)
    ensures Text.TrimSpace(slug) == slug != ""
  {
    assert !Text.IsSpace(slug[0]) && !Text.IsSpace(slug[|slug| - 1]);
  }

  /** The title of the law is asked once more when no reference found a parent and none named one; by
      then there is no reference left to take a section from. */
  lemma TitleFallbackIdle(key: string -> string, lists: seq<seq<string>>, refs: seq<Ref>, byParent: map<string, Agg>)
    requires Aggregated(ParentOf(key, lists), refs, byParent) && byParent == map[]
    requires (forall i :: 0 <= i < |refs| ==> !Explicit(refs[i])) && TitleParent(key, lists).Some?
    ensures refs == []
  {
    if refs != [] {
      var p := ParentOf(key, lists)(refs[0]);
      assert p.Some?;
      assert Lookup(byParent, p.value) == AggOf(ParentOf(key, lists), refs, p.value);
      HintsNeedRef(ParentOf(key, lists), refs, p.value);
      assert false;
    }
  }

  ghost function Anyone(): Ref -> Option<string> { (r: Ref) => Some("") }

  /** The distinct sections of all references. */
  method SectionsOf(refs: seq<Ref>) returns (hints: seq<string>)
    ensures hints == HintsOf(Anyone(), refs, "")
  {
    var hintSeen: set<string> := {};
    hints := [];
    for i := 0 to |refs|
      invariant hints == HintsOf(Anyone(), refs[..i], "")
      invariant forall h :: h in hintSeen <==> h in hints
    {
      assert refs[..i + 1][..i] == refs[..i];
      var h := refs[i].sectionHint;
      if h != "" && h !in hintSeen { hintSeen, hints := hintSeen + {h}, hints + [h]; }
    }
    assert refs[..|refs|] == refs;
  }

  method FallBackOnTitle(key: string -> string, lists: seq<seq<string>>, refs: seq<Ref>, byParent: map<string, Agg>)
    returns (out: map<string, Agg>)
    requires Aggregated(ParentOf(key, lists), refs, byParent)
    ensures out == byParent || (byParent == map[] && refs == [] && exists p :: out == map[p := Agg([], "")])
  {
    out := byParent;
    if |byParent| > 0 { return; }
    var hadExplicitPhrase := false;
    for i := 0 to |refs|
      invariant hadExplicitPhrase <==> exists k :: 0 <= k < i && Explicit(refs[k])
    {
      if Explicit(refs[i]) { hadExplicitPhrase := true; }
    }
    if hadExplicitPhrase { return; }
    var parent := ResolveParentFromChildTitle(key, lists);
    if parent.None? { return; }
    TitleFallbackIdle(key, lists, refs, byParent);
    var hints := SectionsOf(refs);
    out := map[parent.value := Agg(hints, "")];
  }

  /** The edges worth keeping are the wanted ones. */
  method EdgesToPersist(key: string -> string, law: Law, doc: Document)
    returns (toPersist: seq<DiscoveredEdge>, ghost order: seq<string>)
    ensures |toPersist| == |order| && Text.Distinct(order)
    ensures forall p :: p in order <==> WantedBy(key, law, doc)(p).Some?
    ensures forall i :: 0 <= i < |order| ==> WantedBy(key, law, doc)(order[i]) == Some(toPersist[i])
  {
    var byParent := Aggregate(key, doc.titleCandidates, doc.refs);
    ghost var of := ParentOf(key, doc.titleCandidates);
    AggregatedHintsFilled(of, doc.refs, byParent);
    var all := FallBackOnTitle(key, doc.titleCandidates, doc.refs, byParent);
    toPersist, order := HighEdges(law, doc.fundstelle, all);
    forall p { PersistedAreWanted(of, doc.refs, law, doc.fundstelle, byParent, all, p); }
    assert forall i :: 0 <= i < |order| ==> order[i] in order;
  }

  lemma AggregatedHintsFilled(of: Ref -> Option<string>, refs: seq<Ref>, byParent: map<string, Agg>)
    requires Aggregated(of, refs, byParent)
    ensures HintsFilled(byParent)
  {
    forall p | p in byParent ensures forall h :: h in byParent[p].hints ==> h != "" {
      assert Lookup(byParent, p) == AggOf(of, refs, p);
      HintsExact(of, refs, p);
    }
  }

  lemma PersistedAreWanted(of: Ref -> Option<string>, refs: seq<Ref>, law: Law, fund: Option<Fundstelle>,
                           byParent: map<string, Agg>, all: map<string, Agg>, p: string)
    requires Aggregated(of, refs, byParent)
    requires all == byParent || (refs == [] && exists q :: all == map[q := Agg([], "")])
    ensures (p in all && fund.Some? && all[p].hints != []) <==> Wanted(of, refs, law, fund)(p).Some?
    ensures Wanted(of, refs, law, fund)(p).Some? ==> Wanted(of, refs, law, fund)(p) == Some(EdgeOf(law, fund, p, all[p]))
  {
    assert Lookup(byParent, p) == AggOf(of, refs, p);
  }

  ghost function WantedBy(key: string -> string, law: Law, doc: Document): string -> Option<DiscoveredEdge> {
    Wanted(ParentOf(key, doc.titleCandidates), doc.refs, law, doc.fundstelle)
  }

  lemma SoleIDNormal(key: string -> string, ids: seq<string>)
    requires Normalizing(key) && SoleID(key, ids).Some?
    ensures key(SoleID(key, ids).value) == SoleID(key, ids).value
  {
    SoleIDExact(key, ids, SoleID(key, ids).value);
  }

  lemma {:induction false} TitleParentNormal(key: string -> string, lists: seq<seq<string>>)
    requires Normalizing(key) && TitleParent(key, lists).Some?
    ensures key(TitleParent(key, lists).value) == TitleParent(key, lists).value
  {
    if SoleID(key, lists[0]).Some? { SoleIDNormal(key, lists[0]); } else { TitleParentNormal(key, lists[1..]); }
  }

  lemma WantedProper(key: string -> string, law: Law, doc: Document)
    requires Normalizing(key)
    ensures Proper(key, law.giiPath, WantedBy(key, law, doc))
  {
    var of := ParentOf(key, doc.titleCandidates);
    forall p | WantedBy(key, law, doc)(p).Some? ensures key(p) == p {
      HintsExact(of, doc.refs, p);
      assert HintsOf(of, doc.refs, p)[0] in HintsOf(of, doc.refs, p);
      var i :| 0 <= i < |doc.refs| && of(doc.refs[i]) == Some(p);
      var r := doc.refs[i];
      if SoleID(key, r.precise).Some? { SoleIDNormal(key, r.precise); }
      else if SoleID(key, r.byTitle).Some? { SoleIDNormal(key, r.byTitle); }
      else { TitleParentNormal(key, doc.titleCandidates); }
    }
  }

  /** IngestLawXML. On success the edges of the slug are untouched or replaced by exactly the wanted
      ones; whatever fails, edges of other slugs stay. */
  method IngestLawXML(st: Store, law: Law, doc: Document, writes: Writes)
    returns (n: nat, ok: bool, ghost parents: seq<string>)
    requires st.Valid() && Normalizing(st.key)
    modifies st
    ensures st.Valid()
    ensures ok ==> Ingested(st.key, old(st.edges), st.edges, law.giiPath, WantedBy(st.key, law, doc))
    ensures ok ==> n == |parents| && Text.Distinct(parents) && forall p :: p in parents <==> WantedBy(st.key, law, doc)(p).Some?
    ensures OthersKept(old(st.edges), st.edges, law.giiPath)
    ensures ValidSlug(law.giiPath) && doc.safe && writes.index && writes.delete && writes.upserts.None? ==> ok
    ensures !ValidSlug(law.giiPath) || !doc.safe || (doc.fundstelle.Some? && !writes.index) ==> !ok && st.edges == old(st.edges)
    ensures !writes.delete ==> st.edges == old(st.edges)
    ensures ok || st.edges != old(st.edges) || n > 0 ==> ValidSlug(law.giiPath) && doc.safe
    ensures st.index == if ValidSlug(law.giiPath) && doc.safe && doc.fundstelle.Some? && writes.index
      then old(st.index)[IndexKey(doc.fundstelle.value) := IndexEntryFor(law, doc.fundstelle.value)] else old(st.index)
  {
    n, ok, parents := 0, false, [];
    if !ValidSlug(law.giiPath) { return; }
    if !doc.safe { return; }
    if doc.fundstelle.Some? {
      if !writes.index { return; }
      st.UpsertBGBlIndex(IndexEntryFor(law, doc.fundstelle.value));
    }
    var toPersist, order := EdgesToPersist(st.key, law, doc);
    parents := order;
    WantedProper(st.key, law, doc);
    assert forall i :: 0 <= i < |order| ==> order[i] in order;
    if |toPersist| > 0 {
      if !writes.delete { return; }
      ValidSlugIsTrimmed(law.giiPath);
      st.DeleteDiscoveredBySlug(law.giiPath);
      n, ok := UpsertAll(st, law.giiPath, toPersist, order, writes.upserts);
      WrittenKeepsOthers(st.key, old(st.edges), st.edges, law.giiPath, toPersist, order, n);
      if ok {
        WrittenAll(st.key, old(st.edges), st.edges, law.giiPath, WantedBy(st.key, law, doc), toPersist, order);
        assert WantedBy(st.key, law, doc)(order[0]).Some?;
      }
    } else {
      ok := true;
    }
  }

  function IndexKey(f: Fundstelle): string { Citation.IssueID(f.teil, f.year, f.number) }

  function IndexEntryFor(law: Law, f: Fundstelle): BGBlIndexEntry {
    BGBlIndexEntry(f.teil, f.year, f.number, law.giiPath, law.id)
  }

  method UpsertAll(st: Store, slug: string, toPersist: seq<DiscoveredEdge>, ghost order: seq<string>, upserts: Option<nat>)
    returns (n: nat, ok: bool)
    requires st.Valid() && Normalizing(st.key) && |toPersist| == |order| && Text.Distinct(order)
    requires forall i :: 0 <= i < |order| ==>
      st.key(order[i]) == order[i] && toPersist[i].parentLawID == order[i] && toPersist[i].giiSlug == slug
    modifies st`edges
    ensures st.Valid() && n <= |toPersist|
    ensures Written(st.key, old(st.edges), st.edges, slug, toPersist, order, n)
    ensures n == if upserts.Some? && upserts.value < |toPersist| then upserts.value else |toPersist|
    ensures ok == (n == |toPersist|)
  {
    n := 0;
    while n < |toPersist|
      invariant n <= |toPersist| && st.Valid()
      invariant Written(st.key, old(st.edges), st.edges, slug, toPersist, order, n)
      invariant upserts.Some? && n > 0 ==> n - 1 < upserts.value
    {
      if upserts == Some(n) { return n, false; }
      WrittenSnoc(st.key, old(st.edges), st.edges, slug, toPersist, order, n);
      st.UpsertDiscoveredLink(toPersist[n]);
      n := n + 1;
    }
    ok := true;
  }

  // ---------- laws ----------

  ghost predicate CitedWithSection(of: Ref -> Option<string>, refs: seq<Ref>, p: string) {
    exists i :: 0 <= i < |refs| && of(refs[i]) == Some(p) && refs[i].sectionHint != ""
  }

  /** A parent gets an edge exactly when the law's own Fundstelle is known and some reference that
      resolves to this parent alone cites a section. */
  lemma WantedMeaning(key: string -> string, law: Law, doc: Document, p: string)
    ensures WantedBy(key, law, doc)(p).Some? <==>
            doc.fundstelle.Some? && CitedWithSection(ParentOf(key, doc.titleCandidates), doc.refs, p)
  {
    var of := ParentOf(key, doc.titleCandidates);
    var hints := HintsOf(of, doc.refs, p);
    HintsNeedRef(of, doc.refs, p);
    HintsExact(of, doc.refs, p);
    if hints != [] { assert hints[0] in hints; }
    if i :| 0 <= i < |doc.refs| && of(doc.refs[i]) == Some(p) && doc.refs[i].sectionHint != "" {
      assert doc.refs[i].sectionHint in hints;
    }
  }

  lemma WantedKeyUnique(key: string -> string, slug: string, wanted: string -> Option<DiscoveredEdge>, k: string, p: string, q: string)
    requires Normalizing(key) && Proper(key, slug, wanted)
    requires Names(key, slug, wanted, k, p) && Names(key, slug, wanted, k, q)
    ensures p == q
  {
    Linked.LinkKeyInjective(key, p, slug, q, slug);
  }

  /** After an ingest that wants anything, the slug has exactly one edge for each wanted parent. */
  lemma EdgesOfSlug(key: string -> string, before: Edges, after: Edges, slug: string, wanted: string -> Option<DiscoveredEdge>, k: string)
    requires Replaced(key, before, after, slug, wanted) && Proper(key, slug, wanted)
    ensures k in after && after[k].giiSlug == slug <==> exists p :: Names(key, slug, wanted, k, p)
    ensures forall p :: Names(key, slug, wanted, k, p) ==> Lookup(after, k) == wanted(p)
  {
    if k in after && after[k].giiSlug == slug {
      assert k !in Without(before, slug) || Without(before, slug)[k].giiSlug != slug;
      assert Lookup(after, k) != Lookup(Without(before, slug), k);
    }
    if p :| Names(key, slug, wanted, k, p) {
      assert Lookup(after, k) == wanted(p);
    }
  }

  /** The walk over the parent map leaves no trace: the outcome is determined. */
  lemma IngestDetermined(key: string -> string, before: Edges, a: Edges, b: Edges, slug: string, wanted: string -> Option<DiscoveredEdge>)
    requires Ingested(key, before, a, slug, wanted) && Ingested(key, before, b, slug, wanted)
    ensures a == b
  {
    if exists p :: wanted(p).Some? {
      forall k ensures Lookup(a, k) == Lookup(b, k) {
        if p :| Names(key, slug, wanted, k, p) {
          assert Lookup(a, k) == wanted(p) == Lookup(b, k);
        }
      }
      SameLookups(a, b);
    }
  }

  lemma SameLookups<T>(a: map<string, T>, b: map<string, T>)
    requires forall k :: Lookup(a, k) == Lookup(b, k)
    ensures a == b
  {
    forall k ensures k in a <==> k in b { assert Lookup(a, k) == Lookup(b, k); }
    forall k | k in a ensures a[k] == b[k] { assert Lookup(a, k) == Lookup(b, k); }
  }

  /** Ingesting the same document again changes nothing. */
  lemma IngestIdempotent(key: string -> string, before: Edges, once: Edges, twice: Edges, slug: string, wanted: string -> Option<DiscoveredEdge>)
    requires Proper(key, slug, wanted)
    requires Ingested(key, before, once, slug, wanted) && Ingested(key, once, twice, slug, wanted)
    ensures twice == once
  {
    if exists p :: wanted(p).Some? {
      forall k ensures Lookup(twice, k) == Lookup(once, k) {
        EdgesOfSlug(key, before, once, slug, wanted, k);
        EdgesOfSlug(key, once, twice, slug, wanted, k);
        if p :| Names(key, slug, wanted, k, p) {
          assert Lookup(once, k) == wanted(p) == Lookup(twice, k);
        } else {
          assert Lookup(twice, k) == Lookup(Without(once, slug), k);
        }
      }
      SameLookups(twice, once);
    }
  }

  /** All candidates that normalize to anything normalize to p. */
  ghost predicate AllMean(key: string -> string, ids: seq<string>, p: string) {
    && p != "" && (exists id :: id in ids && key(id) == p)
    && forall id :: id in ids ==> key(id) == "" || key(id) == p
  }

  lemma AllMeanIff(key: string -> string, ids: seq<string>, p: string)
    ensures SoleID(key, ids) == Some(p) <==> AllMean(key, ids, p)
  {
    SoleIDExact(key, ids, p);
    if id :| id in ids && key(id) == p { var i :| 0 <= i < |ids| && ids[i] == id; }
  }

  ghost predicate MeansOne(key: string -> string, ids: seq<string>) { exists p :: AllMean(key, ids, p) }

  lemma MeansOneIff(key: string -> string, ids: seq<string>)
    ensures SoleID(key, ids).Some? <==> MeansOne(key, ids)
  {
    if SoleID(key, ids).Some? { AllMeanIff(key, ids, SoleID(key, ids).value); }
    if p :| AllMean(key, ids, p) { AllMeanIff(key, ids, p); }
  }

  /** Phrase n of the title is the first that means one parent, and means p. */
  ghost predicate TitleMeansAt(key: string -> string, lists: seq<seq<string>>, p: string, n: nat) {
    n < |lists| && AllMean(key, lists[n], p) && forall m :: 0 <= m < n ==> !MeansOne(key, lists[m])
  }

  lemma {:induction false} TitleMeansIff(key: string -> string, lists: seq<seq<string>>, p: string)
    ensures TitleParent(key, lists) == Some(p) <==> exists n :: TitleMeansAt(key, lists, p, n)
  {
    if lists != [] {
      AllMeanIff(key, lists[0], p);
      MeansOneIff(key, lists[0]);
      TitleMeansIff(key, lists[1..], p);
      assert forall m :: 0 < m < |lists| ==> lists[m] == lists[1..][m - 1];
      if MeansOne(key, lists[0]) {
        if AllMean(key, lists[0], p) { assert TitleMeansAt(key, lists, p, 0); }
        if n: nat :| TitleMeansAt(key, lists, p, n) { assert n == 0; }
      } else {
        if n: nat :| TitleMeansAt(key, lists[1..], p, n) { assert TitleMeansAt(key, lists, p, n + 1); }
        if n: nat :| TitleMeansAt(key, lists, p, n) {
          assert n > 0;
          assert TitleMeansAt(key, lists[1..], p, n - 1);
        }
      }
    }
  }

  /** The parent of a reference: the one its exact names mean; if they mean none or several, the one its
      title phrase means; failing that, and only if the reference names nothing itself, the one the first
      telling phrase of the title of the law means. */
  lemma ParentMeaning(key: string -> string, lists: seq<seq<string>>, r: Ref, p: string)
    ensures ParentOf(key, lists)(r) == Some(p) <==>
      || AllMean(key, r.precise, p)
      || (!MeansOne(key, r.precise) && AllMean(key, r.byTitle, p))
      || (&& !MeansOne(key, r.precise) && !MeansOne(key, r.byTitle)
          && Text.TrimSpace(r.lawTitlePhrase) == "" && Text.TrimSpace(r.jurabk) == ""
          && exists n :: TitleMeansAt(key, lists, p, n))
  {
    AllMeanIff(key, r.precise, p);
    AllMeanIff(key, r.byTitle, p);
    MeansOneIff(key, r.precise);
    MeansOneIff(key, r.byTitle);
    TitleMeansIff(key, lists, p);
  }

  /** Reference i is the first that resolves to p. */
  ghost predicate FirstRefAt(of: Ref -> Option<string>, refs: seq<Ref>, p: string, i: nat) {
    i < |refs| && of(refs[i]) == Some(p) && forall j :: 0 <= j < i ==> of(refs[j]) != Some(p)
  }

  /** A text is kept only of a reference to p, and there is a first such reference. */
  lemma {:induction false} FirstRef(of: Ref -> Option<string>, refs: seq<Ref>, p: string) returns (i: nat)
    requires RawOf(of, refs, p).Some?
    ensures FirstRefAt(of, refs, p, i)
  {
    var k := |refs| - 1;
    assert forall j :: 0 <= j < k ==> refs[..k][j] == refs[j];
    if RawOf(of, refs[..k], p).Some? {
      i := FirstRef(of, refs[..k], p);
    } else {
      HintsNeedRef(of, refs[..k], p);
      i := k;
    }
  }

  lemma {:induction false} RawOfFirst(of: Ref -> Option<string>, refs: seq<Ref>, p: string, i: nat)
    requires FirstRefAt(of, refs, p, i)
    ensures RawOf(of, refs, p) == Some(refs[i].raw)
  {
    var k := |refs| - 1;
    assert forall j :: 0 <= j < k ==> refs[..k][j] == refs[j];
    if i < k {
      RawOfFirst(of, refs[..k], p, i);
    } else if RawOf(of, refs[..k], p).Some? {
      var j := FirstRef(of, refs[..k], p);
      assert false;
    }
  }

  /** What an edge says: parent and child, high confidence, and in its notes the law's own place in the
      gazette, or else the words of the first reference to the parent. */
  lemma EdgeSays(key: string -> string, law: Law, doc: Document, p: string)
    requires WantedBy(key, law, doc)(p).Some?
    ensures var e := WantedBy(key, law, doc)(p).value;
      && e.parentLawID == p && e.giiSlug == law.giiPath && e.childLawID == law.id && e.confidence == "high"
      && (doc.fundstelle.value.teil != 0 && doc.fundstelle.value.year != 0 && doc.fundstelle.value.number != "" ==>
           e.notes == "BGBl. " + Text.Itoa(doc.fundstelle.value.year) + (if doc.fundstelle.value.teil == 2 then " II" else " I")
                      + " Nr. " + doc.fundstelle.value.number)
      && (doc.fundstelle.value.teil == 0 || doc.fundstelle.value.year == 0 || doc.fundstelle.value.number == "" ==>
           exists i: nat :: FirstRefAt(ParentOf(key, doc.titleCandidates), doc.refs, p, i) && e.notes == doc.refs[i].raw)
  {
    var i := FirstRef(ParentOf(key, doc.titleCandidates), doc.refs, p);
    RawOfFirst(ParentOf(key, doc.titleCandidates), doc.refs, p, i);
    assert "BGBl. "[0] == 'B';
  }
}
