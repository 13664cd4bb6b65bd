/** Which citations and issues an evaluation looks at, told on the store: every text is read, nothing
    else is, and deduplication loses no citation. */
module EvidenceExact {
  import opened Domain
  import opened VRefs
  import opened Verdict
  import opened VerdictSoundness
  import Citation
  import Text

  // ---------- citations ----------

  predicate ReadFrom(env: Env, text: string, ref: InstrumentRef) { ref in env.parse(text) }

  /** In the notes of a linked row, or in the Stand stored for it. */
  predicate RowMentions(env: Env, snap: Snapshot, row: LinkedInstrument, ref: InstrumentRef) {
    var key := if env.key(row.lawID) != "" then env.key(row.lawID) else env.key(row.giiSlug);
    ReadFrom(env, row.notes, ref) || (key in snap.stands && ReadFrom(env, snap.stands[key].raw, ref))
  }

  /** In the Stand of the law, in its editorial notes, or in a linked row. */
  ghost predicate Mentioned(env: Env, snap: Snapshot, linked: seq<LinkedInstrument>, lawID: string, stand: StandCitation,
                            ref: InstrumentRef) {
    || ReadFrom(env, stand.raw, ref)
    || (lawID in snap.editorial && snap.editorial[lawID] != "" && ReadFrom(env, snap.editorial[lawID], ref))
    || exists row :: row in linked && RowMentions(env, snap, row, ref)
  }

  predicate SameCitation(a: InstrumentRef, b: InstrumentRef) {
    a.kind == b.kind && a.teil == b.teil && a.year == b.year && a.number == b.number
  }

  lemma {:induction false} LinkedRefsExact(env: Env, snap: Snapshot, linked: seq<LinkedInstrument>, ref: InstrumentRef)
    ensures ref in LinkedRefs(env, snap, linked) <==> exists row :: row in linked && RowMentions(env, snap, row, ref)
  {
    if linked != [] {
      var k := |linked| - 1;
      LinkedRefsExact(env, snap, linked[..k], ref);
      assert linked == linked[..k] + [linked[k]];
      assert ref in ChildRefs(env, snap, linked[k]) <==> RowMentions(env, snap, linked[k], ref);
    }
  }

  function AllRefs(env: Env, snap: Snapshot, linked: seq<LinkedInstrument>, lawID: string, stand: StandCitation): seq<InstrumentRef> {
    env.parse(stand.raw) + EditorialRefs(env, snap, lawID) + LinkedRefs(env, snap, linked)
  }

  lemma AllRefsExact(env: Env, snap: Snapshot, linked: seq<LinkedInstrument>, lawID: string, stand: StandCitation, ref: InstrumentRef)
    ensures ref in AllRefs(env, snap, linked, lawID, stand) <==> Mentioned(env, snap, linked, lawID, stand, ref)
  {
    LinkedRefsExact(env, snap, linked, ref);
    var own := env.parse(stand.raw) + EditorialRefs(env, snap, lawID);
    assert ref in own <==> ref in env.parse(stand.raw) || ref in EditorialRefs(env, snap, lawID);
  }

  lemma AllAreCanonical(env: Env, snap: Snapshot, linked: seq<LinkedInstrument>, lawID: string, stand: StandCitation)
    requires CanonicalParser(env.parse)
    ensures forall r :: r in AllRefs(env, snap, linked, lawID, stand) ==> Canonical(r)
  {
    LinkedRefsCanonical(env, snap, linked);
  }

  /** Deduplication keeps one of each citation. */
  lemma Represented(all: seq<InstrumentRef>, ref: InstrumentRef) returns (r: InstrumentRef)
    requires ref in all && forall x :: x in all ==> Canonical(x)
    ensures r in DedupeRefs(all) && SameCitation(r, ref)
  {
    var refs := DedupeRefs(all);
    Text.FirstPerKeyExact(all, DedupeKey);
    var i :| 0 <= i < |all| && all[i] == ref;
    assert Text.HasKey(all, DedupeKey, DedupeKey(ref));
    var j :| 0 <= j < |refs| && DedupeKey(refs[j]) == DedupeKey(ref);
    r := refs[j];
    assert r in all;
    CanonicalKind(r);
    CanonicalKind(ref);
    DedupeKeyInjective(r, ref);
  }

  /** The citations taken into account are mentioned somewhere, and every citation mentioned is among
      them or repeats one that is. */
  lemma RefsExact(env: Env, snap: Snapshot, linked: seq<LinkedInstrument>, lawID: string, stand: StandCitation, ref: InstrumentRef)
    requires CanonicalParser(env.parse)
    ensures var refs := EvidenceRefs(env, snap, linked, lawID, stand);
      && (ref in refs ==> Mentioned(env, snap, linked, lawID, stand, ref))
      && (Mentioned(env, snap, linked, lawID, stand, ref) ==> exists r :: r in refs && SameCitation(r, ref))
  {
    var all := AllRefs(env, snap, linked, lawID, stand);
    AllRefsExact(env, snap, linked, lawID, stand, ref);
    AllAreCanonical(env, snap, linked, lawID, stand);
    if ref in all { var r := Represented(all, ref); }
    if ref in DedupeRefs(all) { Text.FirstPerKeyExact(all, DedupeKey); }
  }

  // ---------- issues ----------

  /** The store files every issue under its own id. */
  ghost predicate FiledByID(snap: Snapshot) { forall id :: id in snap.issues ==> snap.issues[id].id == id }

  ghost predicate CitedIn(snap: Snapshot, refs: seq<InstrumentRef>, iss: GazetteIssue) {
    exists ref :: ref in refs && ref.year != 0 && ref.number != "" && Stored(snap, ref, iss)
  }

  predicate Stored(snap: Snapshot, ref: InstrumentRef, iss: GazetteIssue) {
    var id := Citation.IssueID(ref.teil, ref.year, ref.number);
    id in snap.issues && snap.issues[id] == iss
  }

  lemma {:induction false} AllCitedExact(snap: Snapshot, refs: seq<InstrumentRef>, iss: GazetteIssue)
    ensures iss in AllCited(snap, refs) <==> CitedIn(snap, refs, iss)
  {
    if refs != [] {
      var k := |refs| - 1;
      AllCitedExact(snap, refs[..k], iss);
      assert refs == refs[..k] + [refs[k]];
      assert iss in CitedBy(snap, refs[k]) <==> refs[k].year != 0 && refs[k].number != "" && Stored(snap, refs[k], iss);
      if iss in CitedBy(snap, refs[k]) { assert CitedIn(snap, refs, iss); }
    }
  }

  /** The cited issues are exactly the stored ones under the ids the citations spell. */
  lemma CitedExact(snap: Snapshot, refs: seq<InstrumentRef>, iss: GazetteIssue)
    requires FiledByID(snap)
    ensures iss in CitedIssues(snap, refs) <==> CitedIn(snap, refs, iss)
  {
    var all, once := AllCited(snap, refs), CitedIssues(snap, refs);
    AllCitedExact(snap, refs, iss);
    Text.FirstPerKeyExact(all, IssueKey);
    if iss in all {
      var i :| 0 <= i < |all| && all[i] == iss;
      assert Text.HasKey(all, IssueKey, iss.id);
      var j :| 0 <= j < |once| && once[j].id == iss.id;
      assert once[j] in all;
      AllCitedExact(snap, refs, once[j]);
    }
  }

  /** The linked issues are exactly the stored ones behind the links. */
  lemma {:induction false} LinkedExact(snap: Snapshot, links: seq<IssueLawLink>, iss: GazetteIssue)
    ensures iss in IssuesOf(snap, links) <==>
      exists l :: l in links && l.issueID in snap.issues && snap.issues[l.issueID] == iss
  {
    if links != [] {
      var k := |links| - 1;
      LinkedExact(snap, links[..k], iss);
      assert links == links[..k] + [links[k]];
    }
  }
}
