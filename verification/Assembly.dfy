/** The linked instruments of a law, put together twice in the program: for a request
    (internal/service/service.go: linkedInstrumentsFor) and in every reconcile pass
    (internal/sync/orchestrator.go: Reconcile). */
module Assembly {
  import opened Domain
  import opened Families
  import Chain
  import Linked

  /** The loaded catalogs; seeds and families are filed under normalized parent keys. */
  datatype Catalogs = Catalogs(
    key: string -> string, validSlug: string -> bool,
    seeds: map<string, seq<LinkedInstrument>>, families: Option<map<string, seq<FamilyRow>>>)

  /** What a store read of the discovered edges of a parent returned; after an error the edges read so
      far come with it. */
  datatype EdgeRead = EdgeRead(edges: seq<DiscoveredEdge>, ok: bool)

  function SeedsOf(cat: Catalogs, lawID: string): seq<LinkedInstrument> {
    if cat.key(lawID) in cat.seeds then cat.seeds[cat.key(lawID)] else []
  }

  function FamiliesOf(cat: Catalogs, lawID: string): seq<FamilyRow> {
    if cat.families.Some? && cat.key(lawID) in cat.families.value then cat.families.value[cat.key(lawID)] else []
  }

  /** EdgeToLinked. */
  function EdgeToLinked(e: DiscoveredEdge): LinkedInstrument {
    LinkedInstrument(e.parentLawID, "verordnung", e.giiSlug, e.notes, e.effectiveFrom, e.sectionHint, NoStatus, "",
      Linked.DISCOVERED, e.confidence, e.edgeType, e.childLawID)
  }

  // ---------- specification ----------

  function Rows(edges: seq<DiscoveredEdge>): seq<LinkedInstrument> {
    seq(|edges|, i requires 0 <= i < |edges| => EdgeToLinked(edges[i]))
  }

  function Prefixes(rows: seq<FamilyRow>): seq<string> {
    seq(|rows|, i requires 0 <= i < |rows| => rows[i].slugPrefix)
  }

  function SlugsOf(rows: seq<LinkedInstrument>): set<string> { set i | 0 <= i < |rows| :: rows[i].giiSlug }

  function ExpandedOf(cat: Catalogs, lawID: string, laws: seq<Law>): seq<LinkedInstrument> {
    Expanded(cat.key(lawID), FamiliesOf(cat, lawID), laws, cat.validSlug)
  }

  ghost function SurvivingOf(cat: Catalogs, lawID: string, laws: seq<Law>, edges: seq<DiscoveredEdge>): seq<LinkedInstrument> {
    Surviving(Rows(edges), Prefixes(FamiliesOf(cat, lawID)), SlugsOf(ExpandedOf(cat, lawID, laws)))
  }

  /** The merge of the seeds and the newest family editions with the edges no family covers. */
  ghost predicate Assembled(cat: Catalogs, lawID: string, laws: seq<Law>, edges: seq<DiscoveredEdge>, out: seq<LinkedInstrument>) {
    Linked.IsMerge(cat.key, SeedsOf(cat, lawID) + ExpandedOf(cat, lawID, laws), SurvivingOf(cat, lawID, laws, edges), out)
  }

  // ---------- the two copies ----------

  /** The shared tail of both copies: edges to rows, the family filter, the merge. */
  method SurvivingRows(cat: Catalogs, lawID: string, laws: seq<Law>, expanded: seq<LinkedInstrument>, edges: seq<DiscoveredEdge>)
    returns (discovered: seq<LinkedInstrument>)
    requires expanded == ExpandedOf(cat, lawID, laws)
    ensures discovered == SurvivingOf(cat, lawID, laws, edges)
  {
    discovered := [];
    for i := 0 to |edges|
      invariant discovered == Rows(edges)[..i]
    {
      discovered := discovered + [EdgeToLinked(edges[i])];
    }
    assert discovered == Rows(edges);
    var rows := FamiliesOf(cat, lawID);
    if |rows| > 0 {
      var prefixes: seq<string> := [];
      for i := 0 to |rows|
        invariant prefixes == Prefixes(rows)[..i]
      {
        prefixes := prefixes + [rows[i].slugPrefix];
      }
      assert prefixes == Prefixes(rows);
      var keepSlugs: set<string> := {};
      for i := 0 to |expanded|
        invariant keepSlugs == SlugsOf(expanded[..i])
      {
        assert expanded[..i + 1] == expanded[..i] + [expanded[i]];
        SlugsSnoc(expanded[..i], expanded[i]);
        keepSlugs := keepSlugs + {expanded[i].giiSlug};
      }
      assert expanded[..|expanded|] == expanded;
      discovered := FilterDiscoveredByFamilyPrefixes(discovered, prefixes, keepSlugs);
    } else {
      Chain.KeepAll(discovered, Survives([], SlugsOf(expanded)));
      assert Prefixes(rows) == [];
    }
  }

  lemma SlugsSnoc(rows: seq<LinkedInstrument>, row: LinkedInstrument)
    ensures SlugsOf(rows + [row]) == SlugsOf(rows) + {row.giiSlug}
  {
    forall s ensures s in SlugsOf(rows + [row]) <==> s in SlugsOf(rows) || s == row.giiSlug {
      if s in SlugsOf(rows) {
        var i :| 0 <= i < |rows| && rows[i].giiSlug == s;
        assert (rows + [row])[i].giiSlug == s;
      }
      assert (rows + [row])[|rows|] == row;
    }
  }

  /** linkedInstrumentsFor: after a failed read the seeds read so far, and the failure. */
  method LinkedInstrumentsFor(cat: Catalogs, hasStore: bool, lawID: string, lawsRead: Option<seq<Law>>, edgesRead: EdgeRead)
    returns (out: seq<LinkedInstrument>, failed: bool)
    ensures failed <==> hasStore && ((cat.families.Some? && lawsRead.None?) || !edgesRead.ok)
    ensures !failed && hasStore ==>
      Assembled(cat, lawID, if lawsRead.Some? then lawsRead.value else [], edgesRead.edges, out)
    ensures !hasStore || (failed && lawsRead.None?) ==> Linked.IsMerge(cat.key, SeedsOf(cat, lawID), [], out)
    ensures failed && lawsRead.Some? ==>
      Linked.IsMerge(cat.key, SeedsOf(cat, lawID) + ExpandedOf(cat, lawID, lawsRead.value), [], out)
  {
    var seeded := SeedsOf(cat, lawID);
    var expanded: seq<LinkedInstrument> := [];
    var laws: seq<Law> := [];
    if cat.families.Some? && hasStore {
      if lawsRead.None? {
        out := Linked.Merge(cat.key, seeded, []);
        return out, true;
      }
      laws := lawsRead.value;
      expanded := ExpandForParent(cat.key(lawID), FamiliesOf(cat, lawID), laws, cat.validSlug);
      seeded := seeded + expanded;
    }
    if !hasStore {
      var none := FilterDiscoveredByFamilyPrefixes([], Prefixes(FamiliesOf(cat, lawID)), SlugsOf(expanded));
      out := Linked.Merge(cat.key, seeded, none);
      return out, false;
    }
    assert cat.families.None? ==> seeded == SeedsOf(cat, lawID) + ExpandedOf(cat, lawID, laws);
    if !edgesRead.ok {
      out := Linked.Merge(cat.key, seeded, []);
      return out, true;
    }
    var discovered := SurvivingRows(cat, lawID, if lawsRead.Some? then lawsRead.value else [], expanded, edgesRead.edges);
    out := Linked.Merge(cat.key, seeded, discovered);
    failed := false;
  }

  /** The assembly inside Reconcile, which goes on with whatever a failed edge read returned. */
  method ReconcileLinked(cat: Catalogs, lawID: string, laws: seq<Law>, edgesRead: EdgeRead) returns (out: seq<LinkedInstrument>)
    ensures Assembled(cat, lawID, laws, edgesRead.edges, out)
  {
    var seeded := SeedsOf(cat, lawID);
    var expanded: seq<LinkedInstrument> := [];
    if cat.families.Some? {
      expanded := ExpandForParent(cat.key(lawID), FamiliesOf(cat, lawID), laws, cat.validSlug);
      seeded := seeded + expanded;
    }
    assert seeded == SeedsOf(cat, lawID) + ExpandedOf(cat, lawID, laws);
    var discovered := SurvivingRows(cat, lawID, laws, expanded, edgesRead.edges);
    out := Linked.Merge(cat.key, seeded, discovered);
  }

  // ---------- laws ----------

  /** What a request assembles from a store is what the last reconcile pass assembled from it. */
  lemma CopiesAgree(cat: Catalogs, lawID: string, laws: seq<Law>, edges: seq<DiscoveredEdge>,
                    service: seq<LinkedInstrument>, reconcile: seq<LinkedInstrument>)
    requires Assembled(cat, lawID, laws, edges, service) && Assembled(cat, lawID, laws, edges, reconcile)
    ensures service == reconcile
  {
    Linked.MergeUnique(cat.key, SeedsOf(cat, lawID) + ExpandedOf(cat, lawID, laws), SurvivingOf(cat, lawID, laws, edges), service, reconcile);
  }

  ghost predicate Normalizing(cat: Catalogs) {
    forall s :: cat.key(cat.key(s)) == cat.key(s)
  }

  ghost predicate EdgesOfParent(cat: Catalogs, lawID: string, edges: seq<DiscoveredEdge>) {
    forall i :: 0 <= i < |edges| ==> cat.key(edges[i].parentLawID) == cat.key(lawID)
  }

  /** A family edition shadows the discovered edge with its slug. */
  lemma EditionIsSeed(cat: Catalogs, lawID: string, laws: seq<Law>, d: LinkedInstrument)
    requires Normalizing(cat) && cat.key(d.parentLawID) == cat.key(lawID)
    requires d.giiSlug in SlugsOf(ExpandedOf(cat, lawID, laws))
    ensures Linked.SeededWithKey(cat.key, SeedsOf(cat, lawID) + ExpandedOf(cat, lawID, laws), Linked.KeyOf(cat.key, d))
  {
    var expanded := ExpandedOf(cat, lawID, laws);
    var i :| 0 <= i < |expanded| && expanded[i].giiSlug == d.giiSlug;
    ExpandedFromFamilies(cat.key(lawID), FamiliesOf(cat, lawID), laws, cat.validSlug);
    assert expanded[i] in expanded;
    var all := SeedsOf(cat, lawID) + expanded;
    assert Linked.KeyOf(cat.key, all[|SeedsOf(cat, lawID)| + i]) == Linked.KeyOf(cat.key, d);
  }

  /** No row of source "discovered" lies under a family of the parent: of every family only the newest
      edition is left, and it counts as a seed. */
  lemma NoDiscoveredUnderFamily(cat: Catalogs, lawID: string, laws: seq<Law>, edges: seq<DiscoveredEdge>,
                                out: seq<LinkedInstrument>, i: nat)
    requires Assembled(cat, lawID, laws, edges, out) && i < |out| && out[i].source == Linked.DISCOVERED
    requires Normalizing(cat) && EdgesOfParent(cat, lawID, edges)
    ensures !UnderFamily(out[i].giiSlug, Prefixes(FamiliesOf(cat, lawID)))
    ensures out[i].confidence == Linked.HIGH && exists e :: e in edges && out[i] == EdgeToLinked(e)
  {
    var seeded := SeedsOf(cat, lawID) + ExpandedOf(cat, lawID, laws);
    var surviving := SurvivingOf(cat, lawID, laws, edges);
    Linked.SeedsWin(cat.key, seeded, surviving, out, i);
    assert !Linked.FromSeed(seeded, out[i]);
    var j :| 0 <= j < |surviving| && surviving[j].confidence == Linked.HIGH && out[i] == Linked.WithSource(surviving[j]);
    var d := surviving[j];
    Chain.KeepContents(Rows(edges), Survives(Prefixes(FamiliesOf(cat, lawID)), SlugsOf(ExpandedOf(cat, lawID, laws))));
    assert d in surviving;
    var n :| 0 <= n < |edges| && Rows(edges)[n] == d;
    assert edges[n] in edges;
    if d.giiSlug in SlugsOf(ExpandedOf(cat, lawID, laws)) {
      EditionIsSeed(cat, lawID, laws, d);
    }
  }

  /** Every family with a usable newest edition is represented by it. */
  lemma {:induction false} NewestEditionPresent(cat: Catalogs, lawID: string, laws: seq<Law>, edges: seq<DiscoveredEdge>,
                                                out: seq<LinkedInstrument>, r: nat)
    requires Assembled(cat, lawID, laws, edges, out) && Normalizing(cat) && forall s :: '|' !in cat.key(s)
    requires r < |FamiliesOf(cat, lawID)|
    requires LatestSlug(laws, FamiliesOf(cat, lawID)[r].slugPrefix).Some?
    requires cat.validSlug(LatestSlug(laws, FamiliesOf(cat, lawID)[r].slugPrefix).value)
    ensures Linked.Holds(cat.key, out, cat.key(lawID), LatestSlug(laws, FamiliesOf(cat, lawID)[r].slugPrefix).value)
  {
    var seeded := SeedsOf(cat, lawID) + ExpandedOf(cat, lawID, laws);
    var rows := FamiliesOf(cat, lawID);
    var row := RowFor(cat.key(lawID), rows[r], LatestSlug(laws, rows[r].slugPrefix).value);
    ExpandedHasEdition(cat.key(lawID), rows, laws, cat.validSlug, r, row);
    Linked.NothingLost(cat.key, seeded, SurvivingOf(cat, lawID, laws, edges), out);
    assert row in seeded;
    var i :| 0 <= i < |seeded| && seeded[i] == row;
    assert Linked.Holds(cat.key, out, cat.key(seeded[i].parentLawID), seeded[i].giiSlug);
  }

  /** Nothing else is dropped: every seed of the parent, and every stored edge of high confidence whose slug
      lies under no family prefix, is represented. */
  lemma OthersPresent(cat: Catalogs, lawID: string, laws: seq<Law>, edges: seq<DiscoveredEdge>, out: seq<LinkedInstrument>)
    requires Assembled(cat, lawID, laws, edges, out) && forall s :: '|' !in cat.key(s)
    ensures forall li :: li in SeedsOf(cat, lawID) ==> Linked.Holds(cat.key, out, cat.key(li.parentLawID), li.giiSlug)
    ensures forall e :: e in edges && e.confidence == "high" && !UnderFamily(e.giiSlug, Prefixes(FamiliesOf(cat, lawID))) ==>
      Linked.Holds(cat.key, out, cat.key(e.parentLawID), e.giiSlug)
  {
    var seeded := SeedsOf(cat, lawID) + ExpandedOf(cat, lawID, laws);
    var surviving := SurvivingOf(cat, lawID, laws, edges);
    Linked.NothingLost(cat.key, seeded, surviving, out);
    forall li | li in SeedsOf(cat, lawID) ensures Linked.Holds(cat.key, out, cat.key(li.parentLawID), li.giiSlug) {
      assert li in seeded;
      var i :| 0 <= i < |seeded| && seeded[i] == li;
    }
    forall e | e in edges && e.confidence == "high" && !UnderFamily(e.giiSlug, Prefixes(FamiliesOf(cat, lawID)))
      ensures Linked.Holds(cat.key, out, cat.key(e.parentLawID), e.giiSlug)
    {
      EdgeSurvives(cat, lawID, laws, edges, e);
      var i :| 0 <= i < |surviving| && surviving[i] == EdgeToLinked(e);
    }
  }

  lemma EdgeSurvives(cat: Catalogs, lawID: string, laws: seq<Law>, edges: seq<DiscoveredEdge>, e: DiscoveredEdge)
    requires e in edges && !UnderFamily(e.giiSlug, Prefixes(FamiliesOf(cat, lawID)))
    ensures EdgeToLinked(e) in SurvivingOf(cat, lawID, laws, edges)
  {
    var n :| 0 <= n < |edges| && edges[n] == e;
    assert Rows(edges)[n] == EdgeToLinked(e);
    Chain.KeepContents(Rows(edges), Survives(Prefixes(FamiliesOf(cat, lawID)), SlugsOf(ExpandedOf(cat, lawID, laws))));
  }
}
