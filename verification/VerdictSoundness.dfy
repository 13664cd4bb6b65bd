/** What a confirmed_current verdict on a parent law proves, and how it reacts to new child proofs. */
module VerdictSoundness {
  import opened Domain
  import opened Freshness
  import opened VRefs
  import opened Verdict
  import Chain
  import StandOrder
  import Text

  // ---------- refs are told apart ----------

  /** What the citation parser produces: Teil 1 or 2 and a canonical kind. */
  predicate Canonical(r: InstrumentRef) {
    (r.teil == 1 || r.teil == 2) && StandOrder.IsPlainKind(r.kind)
  }

  ghost predicate CanonicalParser(parse: string -> seq<InstrumentRef>) {
    forall text, i :: 0 <= i < |parse(text)| ==> Canonical(parse(text)[i])
  }

  ghost predicate AllCanonical(refs: seq<InstrumentRef>) {
    forall i :: 0 <= i < |refs| ==> Canonical(refs[i])
  }

  lemma CanonicalKind(r: InstrumentRef)
    requires Canonical(r)
    ensures KindOf(r) == r.kind && '|' !in r.kind
  {
    StandOrder.PlainKind(r);
  }

  /** The printed key separates refs whose kind contains no bar. */
  lemma DedupeKeyInjective(a: InstrumentRef, b: InstrumentRef)
    requires '|' !in a.kind && '|' !in b.kind && DedupeKey(a) == DedupeKey(b)
    ensures a.kind == b.kind && a.teil == b.teil && a.year == b.year && a.number == b.number
  {
    var a1, b1 := Text.Itoa(a.year) + ['|'] + a.number, Text.Itoa(b.year) + ['|'] + b.number;
    var a2, b2 := Text.Itoa(a.teil) + ['|'] + a1, Text.Itoa(b.teil) + ['|'] + b1;
    Text.CutUnique(a.kind, a2, b.kind, b2, '|');
    Text.ItoaFreeOf(a.teil, '|'); Text.ItoaFreeOf(b.teil, '|');
    Text.CutUnique(Text.Itoa(a.teil), a1, Text.Itoa(b.teil), b1, '|');
    Text.ItoaFreeOf(a.year, '|'); Text.ItoaFreeOf(b.year, '|');
    Text.CutUnique(Text.Itoa(a.year), a.number, Text.Itoa(b.year), b.number, '|');
    Text.ItoaInjective(a.teil, b.teil);
    Text.ItoaInjective(a.year, b.year);
  }

  lemma {:induction false} LinkedRefsCanonical(env: Env, snap: Snapshot, linked: seq<LinkedInstrument>)
    requires CanonicalParser(env.parse)
    ensures AllCanonical(LinkedRefs(env, snap, linked))
  {
    if linked != [] { LinkedRefsCanonical(env, snap, linked[..|linked| - 1]); }
  }

  lemma SameIdentitySameKey(a: InstrumentRef, b: InstrumentRef)
    requires Canonical(a) && Canonical(b) && RefIdentityEqual(a, b)
    ensures DedupeKey(a) == DedupeKey(b)
  {
    CanonicalKind(a); CanonicalKind(b);
  }

  lemma DistinctKeysDistinctRefs(refs: seq<InstrumentRef>, a: InstrumentRef, b: InstrumentRef)
    requires Text.KeysDistinct(refs, DedupeKey) && a in refs && b in refs && DedupeKey(a) == DedupeKey(b)
    ensures a == b
  {
    var i :| 0 <= i < |refs| && refs[i] == a;
    var j :| 0 <= j < |refs| && refs[j] == b;
    assert i == j;
  }

  /** Evidence refs are canonical, and no two name the same instrument. */
  lemma EvidenceRefsDistinct(env: Env, snap: Snapshot, linked: seq<LinkedInstrument>, lawID: string, stand: StandCitation)
    requires CanonicalParser(env.parse)
    ensures var refs := EvidenceRefs(env, snap, linked, lawID, stand);
      AllCanonical(refs) && forall a, b :: a in refs && b in refs && RefIdentityEqual(a, b) ==> a == b
  {
    LinkedRefsCanonical(env, snap, linked);
    var all := env.parse(stand.raw) + EditorialRefs(env, snap, lawID) + LinkedRefs(env, snap, linked);
    var refs := EvidenceRefs(env, snap, linked, lawID, stand);
    assert AllCanonical(all);
    Text.FirstPerKeyExact(all, DedupeKey);
    forall i | 0 <= i < |refs| ensures Canonical(refs[i]) {
      assert refs[i] in all;
    }
    forall a, b | a in refs && b in refs && RefIdentityEqual(a, b) ensures a == b {
      SameIdentitySameKey(a, b);
      DistinctKeysDistinctRefs(refs, a, b);
    }
  }

  // ---------- each ref finds its own resolution ----------

  lemma {:induction false} ResolutionsMembers(env: Env, refs: seq<InstrumentRef>, annotated: seq<LinkedInstrument>,
                                              stands: Stands, parentStand: StandCitation)
    ensures forall res :: res in Resolutions(env, refs, annotated, stands, parentStand) <==>
      exists ref :: ref in refs && ToResolve(ref, parentStand, |annotated| > 0) && res == ResolveRef(env, ref, annotated, stands)
  {
    if refs != [] {
      var k := |refs| - 1;
      ResolutionsMembers(env, refs[..k], annotated, stands, parentStand);
      assert refs == refs[..k] + [refs[k]];
      assert forall ref :: ref in refs <==> ref in refs[..k] || ref == refs[k];
    }
  }

  /** The proof list of a parent, and what it settles. */
  datatype Setting = Setting(env: Env, annotated: seq<LinkedInstrument>, stands: Stands, refs: seq<InstrumentRef>,
                             parentStand: StandCitation, leaf: string -> FreshnessState)

  ghost function Applied(s: Setting): seq<VRefResolution> {
    var raw := Resolutions(s.env, s.refs, s.annotated, s.stands, s.parentStand);
    seq(|raw|, i requires 0 <= i < |raw| => ApplyProof(s.leaf, raw[i]))
  }

  ghost function ProofOf(s: Setting): seq<VRefResolution> {
    ProvenList(s.env, s.annotated, s.stands, Resolutions(s.env, s.refs, s.annotated, s.stands, s.parentStand), s.leaf)
  }

  /** What becomes of one ref, from resolution to supersession. */
  ghost function Outcome(s: Setting, ref: InstrumentRef): VRefResolution {
    Superseded(s.env, s.annotated, s.stands, ConfirmedSlugs(Applied(s)),
               ApplyProof(s.leaf, ResolveRef(s.env, ref, s.annotated, s.stands)))
  }

  lemma ProofMembers(s: Setting, res: VRefResolution)
    ensures res in ProofOf(s) <==>
      exists ref :: ref in s.refs && ToResolve(ref, s.parentStand, |s.annotated| > 0) && res == Outcome(s, ref)
  {
    ResolutionsMembers(s.env, s.refs, s.annotated, s.stands, s.parentStand);
    var raw := Resolutions(s.env, s.refs, s.annotated, s.stands, s.parentStand);
    var proof := ProofOf(s);
    if res in proof {
      var i :| 0 <= i < |proof| && proof[i] == res;
      assert raw[i] in raw;
      var ref :| ref in s.refs && ToResolve(ref, s.parentStand, |s.annotated| > 0) &&
                 raw[i] == ResolveRef(s.env, ref, s.annotated, s.stands);
      assert res == Outcome(s, ref);
    }
    if ref :| ref in s.refs && ToResolve(ref, s.parentStand, |s.annotated| > 0) && res == Outcome(s, ref) {
      assert ResolveRef(s.env, ref, s.annotated, s.stands) in raw;
      var i :| 0 <= i < |raw| && raw[i] == ResolveRef(s.env, ref, s.annotated, s.stands);
      assert proof[i] == res;
    }
  }

  lemma OutcomeKeepsRef(s: Setting, ref: InstrumentRef)
    ensures Outcome(s, ref).ref == ref
  {
  }

  lemma FoundIsOutcome(s: Setting, ref: InstrumentRef, found: VRefResolution)
    requires forall a, b :: a in s.refs && b in s.refs && RefIdentityEqual(a, b) ==> a == b
    requires ref in s.refs && found in ProofOf(s) && RefIdentityEqual(found.ref, ref)
    ensures found == Outcome(s, ref)
  {
    ProofMembers(s, found);
    var r :| r in s.refs && ToResolve(r, s.parentStand, |s.annotated| > 0) && found == Outcome(s, r);
    OutcomeKeepsRef(s, r);
  }

  /** Every operative ref not reflected by the Stand finds the resolution made for it. */
  lemma OwnResolution(s: Setting, ref: InstrumentRef)
    requires forall a, b :: a in s.refs && b in s.refs && RefIdentityEqual(a, b) ==> a == b
    requires ref in s.refs && ToResolve(ref, s.parentStand, |s.annotated| > 0)
    ensures FindVRefResolution(ProofOf(s), ref) == Some(Outcome(s, ref)) && Outcome(s, ref).ref == ref
  {
    var proof, own := ProofOf(s), Outcome(s, ref);
    ProofMembers(s, own);
    OutcomeKeepsRef(s, ref);
    FindVRefResolutionExact(proof, ref);
    var i :| 0 <= i < |proof| && proof[i] == own;
    assert RefIdentityEqual(proof[i].ref, ref);
    FoundIsOutcome(s, ref, FindVRefResolution(proof, ref).value);
  }

  // ---------- what a proven ref rests on ----------

  /** The child was matched by its notes, its Stand or the BGBl index. */
  predicate MatchedTo(env: Env, ref: InstrumentRef, child: LinkedInstrument, stands: Stands) {
    || ChildMatchesRef(env, ref, child, stands)
    || (env.index.Some? && env.index.value(ref.teil, ref.year, ref.number).Some? &&
        HasSlugOrLawID(env, child, env.index.value(ref.teil, ref.year, ref.number).value))
  }

  /** (a) matched to a current or undated child that is itself confirmed current. */
  ghost predicate ProvenByChild(s: Setting, ref: InstrumentRef) {
    exists c :: c in s.annotated && IsCurrentCandidate(c) && MatchedTo(s.env, ref, c, s.stands) &&
      s.leaf(c.giiSlug) == ConfirmedCurrent
  }

  /** (b) not a Verordnung, cited by a past child and by no current child. */
  ghost predicate PastOnly(s: Setting, ref: InstrumentRef) {
    && !IsKindV(ref)
    && (exists p :: p in s.annotated && IsPast(p) && ChildMatchesRef(s.env, ref, p, s.stands))
    && (forall c :: c in s.annotated && IsCurrentCandidate(c) ==> !ChildMatchesRef(s.env, ref, c, s.stands))
  }

  /** The section in which a successor must stand. */
  ghost predicate SuccessorSection(s: Setting, ref: InstrumentRef, section: string) {
    && section != "*"
    && var own := Chain.NormalizeSectionHint(ref.sectionHint);
       if own != "*" then section == own
       else forall p :: p in s.annotated && IsPast(p) && ChildMatchesRef(s.env, ref, p, s.stands) ==> Chain.GroupOf(p) == section
  }

  /** (c) a Verordnung cited by a past child, with a confirmed current sibling in its section. */
  ghost predicate SupersededBySibling(s: Setting, ref: InstrumentRef) {
    && IsKindV(ref)
    && (exists p :: p in s.annotated && IsPast(p) && ChildMatchesRef(s.env, ref, p, s.stands))
    && (exists c :: c in s.annotated && IsCurrentCandidate(c) && SuccessorSection(s, ref, Chain.GroupOf(c)) &&
          s.leaf(c.giiSlug) == ConfirmedCurrent)
  }

  lemma CurrentOfContents(annotated: seq<LinkedInstrument>)
    ensures forall c :: c in CurrentOf(annotated) <==> c in annotated && IsCurrentCandidate(c)
    ensures forall c :: c in PastOf(annotated) <==> c in annotated && IsPast(c)
  {
    Chain.KeepContents(annotated, li => IsCurrentCandidate(li));
    Chain.KeepContents(annotated, li => IsPast(li));
  }

  lemma CurrentMatchMeaning(env: Env, ref: InstrumentRef, current: seq<LinkedInstrument>, stands: Stands)
    ensures var m := CurrentMatch(env, ref, current, stands);
      && (m.Unique? ==> m.child in current && ChildMatchesRef(env, ref, m.child, stands))
      && (m.NoMatch? ==> forall c :: c in current ==> !ChildMatchesRef(env, ref, c, stands))
  {
    MatchChildrenMembers(env, ref, current, stands);
    var matches := MatchChildren(env, ref, current, stands);
    InSectionMembers(matches, Chain.NormalizeSectionHint(ref.sectionHint));
    var filtered := FilterBySectionHint(matches, ref.sectionHint);
    if |matches| == 1 { assert matches[0] in matches; }
    if |filtered| == 1 { assert filtered[0] in filtered; }
    if |matches| == 0 {
      forall c | c in current ensures !ChildMatchesRef(env, ref, c, stands) { assert c !in matches; }
    }
  }

  /** Where a resolution has its match from, and when it counts as history. */
  lemma ResolveCases(env: Env, ref: InstrumentRef, annotated: seq<LinkedInstrument>, stands: Stands)
    ensures var res := ResolveRef(env, ref, annotated, stands);
      var m, i := CurrentMatch(env, ref, CurrentOf(annotated), stands), IndexedMatch(env, ref, CurrentOf(annotated));
      && res.ref == ref && !res.resolved && !res.childConfirmed
      && (res.matchedGIISlug != "" ==>
           (m.Unique? && res.matchedGIISlug == m.child.giiSlug) || (i.Some? && res.matchedGIISlug == i.value.giiSlug))
      && (res.historical ==>
           && !IsKindV(ref) && MatchChildren(env, ref, PastOf(annotated), stands) != []
           && (m.NoMatch? || (m.Unique? && m.child.giiSlug == "")))
  {
  }

  /** The two ways a resolution can be on the way to acceptance. */
  lemma ResolveRefMeaning(env: Env, ref: InstrumentRef, annotated: seq<LinkedInstrument>, stands: Stands)
    requires forall c :: c in annotated ==> c.giiSlug != ""
    ensures var res := ResolveRef(env, ref, annotated, stands);
      && res.ref == ref && !res.resolved && !res.childConfirmed
      && (res.matchedGIISlug != "" ==>
           (exists c :: c in annotated && IsCurrentCandidate(c) && MatchedTo(env, ref, c, stands) && c.giiSlug == res.matchedGIISlug))
      && (res.historical ==>
           && !IsKindV(ref)
           && (exists p :: p in annotated && IsPast(p) && ChildMatchesRef(env, ref, p, stands))
           && (forall c :: c in annotated && IsCurrentCandidate(c) ==> !ChildMatchesRef(env, ref, c, stands)))
  {
    CurrentOfContents(annotated);
    var current, past := CurrentOf(annotated), PastOf(annotated);
    CurrentMatchMeaning(env, ref, current, stands);
    MatchChildrenMembers(env, ref, past, stands);
    ResolveCases(env, ref, annotated, stands);
    var m := CurrentMatch(env, ref, current, stands);
    var i := IndexedMatch(env, ref, current);
    var pastMatches := MatchChildren(env, ref, past, stands);
    if m.Unique? { assert m.child in annotated && MatchedTo(env, ref, m.child, stands); }
    if i.Some? { assert i.value in annotated && MatchedTo(env, ref, i.value, stands); }
    if pastMatches != [] { assert pastMatches[0] in pastMatches && pastMatches[0] in annotated; }
  }

  lemma ConfirmedSlugsAreConfirmed(s: Setting, slug: string)
    requires forall c :: c in s.annotated ==> c.giiSlug != ""
    requires slug in ConfirmedSlugs(Applied(s))
    ensures s.leaf(slug) == ConfirmedCurrent
  {
    var applied := Applied(s);
    var raw := Resolutions(s.env, s.refs, s.annotated, s.stands, s.parentStand);
    var i :| 0 <= i < |applied| && Confirms(applied[i]) && applied[i].matchedGIISlug == slug;
    ResolutionsMembers(s.env, s.refs, s.annotated, s.stands, s.parentStand);
    assert raw[i] in raw;
    var ref :| ref in s.refs && raw[i] == ResolveRef(s.env, ref, s.annotated, s.stands);
    ResolveRefMeaning(s.env, ref, s.annotated, s.stands);
  }

  /** A ref counts as accounted for only in one of the three ways. */
  lemma ProvenMeaning(s: Setting, ref: InstrumentRef)
    requires forall c :: c in s.annotated ==> c.giiSlug != ""
    requires Proven(Outcome(s, ref))
    ensures ProvenByChild(s, ref) || PastOnly(s, ref) || SupersededBySibling(s, ref)
  {
    ResolveRefMeaning(s.env, ref, s.annotated, s.stands);
    var res := ResolveRef(s.env, ref, s.annotated, s.stands);
    var applied := ApplyProof(s.leaf, res);
    var confirmed := ConfirmedSlugs(Applied(s));
    if res.historical {
      assert PastOnly(s, ref);
    } else if applied.resolved && applied.childConfirmed {
      assert ProvenByChild(s, ref);
    } else {
      CurrentOfContents(s.annotated);
      MatchChildrenMembers(s.env, ref, PastOf(s.annotated), s.stands);
      var pastMatches := MatchChildren(s.env, ref, PastOf(s.annotated), s.stands);
      var section := SupersededSection(ref, pastMatches);
      var sibling := ConfirmedSibling(CurrentOf(s.annotated), section, confirmed).value;
      ConfirmedSlugsAreConfirmed(s, sibling.giiSlug);
      assert pastMatches[0] in pastMatches;
      forall p | p in s.annotated && IsPast(p) && ChildMatchesRef(s.env, ref, p, s.stands)
        ensures Chain.NormalizeSectionHint(ref.sectionHint) == "*" ==> Chain.GroupOf(p) == section
      {
        assert p in pastMatches;
      }
      assert SuccessorSection(s, ref, Chain.GroupOf(sibling));
    }
  }

  // ---------- the theorem ----------

  ghost function SettingOf(env: Env, snap: Snapshot, lawID: string, linked: seq<LinkedInstrument>, asOf: int,
                           leaf: string -> FreshnessState): Setting {
    var stand := StandOf(snap, lawID);
    var annotated := Chain.Annotated(linked, asOf);
    Setting(env, annotated, ChildStands(env, snap, annotated), EvidenceRefs(env, snap, linked, lawID, stand), stand, leaf)
  }

  /** Fail-closed: a parent is confirmed current only on fresh, non-probe sync and a parsed Stand,
      with no counted issue newer than the Stand, and with every operative ref the Stand does not
      reflect resolved under its own name and accounted for in way (a), (b) or (c). Every linked row
      carries a slug: the loaders and the ingest refuse rows without one. */
  lemma ConfirmedCurrentIsProven(env: Env, snap: Snapshot, ctx: Context, lawID: string, linked: seq<LinkedInstrument>,
                                 asOf: int, discoveryFailed: bool, leaf: string -> FreshnessState)
    requires CanonicalParser(env.parse)
    requires forall li :: li in linked ==> li.giiSlug != ""
    requires Freshness.Verdict(ParentInput(env, snap, ctx, lawID, linked, asOf, discoveryFailed, leaf), NowOf(ctx)).state
             == ConfirmedCurrent
    ensures var inp := ParentInput(env, snap, ctx, lawID, linked, asOf, discoveryFailed, leaf);
      var s := SettingOf(env, snap, lawID, linked, asOf, leaf);
      && SyncUsable(inp, NowOf(ctx)) && !discoveryFailed && lawID !in snap.unreadableLinks
      && inp.stand.parseOK && (forall iss :: !CountedNewer(inp, iss))
      && (forall ref :: ref in inp.instrumentRefs && Considered(inp, ref) ==>
           && FindVRefResolution(inp.vrefResolutions.value, ref) == Some(Outcome(s, ref)) && Outcome(s, ref).ref == ref
           && (ProvenByChild(s, ref) || PastOnly(s, ref) || SupersededBySibling(s, ref)))
  {
    var inp := ParentInput(env, snap, ctx, lawID, linked, asOf, discoveryFailed, leaf);
    var s := SettingOf(env, snap, lawID, linked, asOf, leaf);
    VerdictExact(inp, NowOf(ctx));
    EvidenceRefsDistinct(env, snap, linked, lawID, s.parentStand);
    forall c | c in s.annotated ensures c.giiSlug != "" {
      var i :| 0 <= i < |s.annotated| && s.annotated[i] == c;
      assert linked[i] in linked;
    }
    assert inp.vrefResolutions.value == ProofOf(s);
    forall ref | ref in inp.instrumentRefs && Considered(inp, ref)
      ensures FindVRefResolution(inp.vrefResolutions.value, ref) == Some(Outcome(s, ref)) && Outcome(s, ref).ref == ref
      ensures ProvenByChild(s, ref) || PastOnly(s, ref) || SupersededBySibling(s, ref)
    {
      OwnResolution(s, ref);
      assert !Unmatched(inp, ref) && !ChildNotConfirmed(inp, ref);
      ProvenMeaning(s, ref);
    }
  }

  /** A child counts as confirmed only on the same sync evidence, with a parsed Stand of its own, no
      counted newer issue, and no operative ref its Stand leaves open. */
  lemma LeafConfirmedMeaning(env: Env, snap: Snapshot, ctx: Context, slug: string)
    requires LeafState(env, snap, ctx, slug) == ConfirmedCurrent
    ensures env.key(slug) != ""
    ensures var inp := InputFor(env, snap, ctx, env.key(slug), [], false, None);
      && SyncUsable(inp, NowOf(ctx)) && inp.stand.parseOK
      && (forall iss :: !CountedNewer(inp, iss))
      && (forall ref :: ref in inp.instrumentRefs ==> !Considered(inp, ref))
  {
    VerdictExact(InputFor(env, snap, ctx, env.key(slug), [], false, None), NowOf(ctx));
  }

  // ---------- monotone in the child proofs ----------

  ghost predicate AtLeast(more: string -> FreshnessState, less: string -> FreshnessState) {
    forall slug :: less(slug) == ConfirmedCurrent ==> more(slug) == ConfirmedCurrent
  }

  /** Position by position, nothing proven is lost and matches are the same. */
  ghost predicate Refines(more: seq<VRefResolution>, less: seq<VRefResolution>) {
    && |more| == |less|
    && forall i :: 0 <= i < |less| ==>
         && more[i].ref == less[i].ref && more[i].matchedGIISlug == less[i].matchedGIISlug
         && (Proven(less[i]) ==> Proven(more[i]))
  }

  lemma {:induction false} FindRefines(more: seq<VRefResolution>, less: seq<VRefResolution>, ref: InstrumentRef)
    requires Refines(more, less)
    ensures var a, b := FindVRefResolution(more, ref), FindVRefResolution(less, ref);
      && a.Some? == b.Some?
      && (b.Some? ==> a.value.matchedGIISlug == b.value.matchedGIISlug && (Proven(b.value) ==> Proven(a.value)))
  {
    if less != [] && !RefIdentityEqual(less[0].ref, ref) {
      assert Refines(more[1..], less[1..]);
      FindRefines(more[1..], less[1..], ref);
    }
  }

  lemma SupersededMonotone(env: Env, annotated: seq<LinkedInstrument>, stands: Stands, big: set<string>, small: set<string>,
                           x: VRefResolution, y: VRefResolution)
    requires small <= big && x.ref == y.ref && x.matchedGIISlug == y.matchedGIISlug && x.historical == y.historical
    requires y.resolved && y.childConfirmed ==> x.resolved && x.childConfirmed
    ensures var a, b := Superseded(env, annotated, stands, big, x), Superseded(env, annotated, stands, small, y);
      a.ref == b.ref && a.matchedGIISlug == b.matchedGIISlug && (Proven(b) ==> Proven(a))
  {
  }

  lemma ProofMonotone(s: Setting, more: string -> FreshnessState)
    requires AtLeast(more, s.leaf)
    ensures Refines(ProofOf(s.(leaf := more)), ProofOf(s))
  {
    var t := s.(leaf := more);
    var big, small := ConfirmedSlugs(Applied(t)), ConfirmedSlugs(Applied(s));
    forall slug | slug in small ensures slug in big {
      var i :| 0 <= i < |Applied(s)| && Confirms(Applied(s)[i]) && Applied(s)[i].matchedGIISlug == slug;
      assert Applied(t)[i] in Applied(t) && Confirms(Applied(t)[i]);
    }
    forall i | 0 <= i < |ProofOf(s)|
      ensures ProofOf(t)[i].ref == ProofOf(s)[i].ref && ProofOf(t)[i].matchedGIISlug == ProofOf(s)[i].matchedGIISlug
      ensures Proven(ProofOf(s)[i]) ==> Proven(ProofOf(t)[i])
    {
      SupersededMonotone(s.env, s.annotated, s.stands, big, small, Applied(t)[i], Applied(s)[i]);
    }
  }

  /** When more children evaluate confirmed_current, with all else fixed, no ref becomes blocking and
      the parent never drops from confirmed_current. */
  lemma MoreConfirmedChildren(env: Env, snap: Snapshot, ctx: Context, lawID: string, linked: seq<LinkedInstrument>, asOf: int,
                              discoveryFailed: bool, less: string -> FreshnessState, more: string -> FreshnessState)
    requires AtLeast(more, less)
    ensures var a := ParentInput(env, snap, ctx, lawID, linked, asOf, discoveryFailed, less);
      var b := ParentInput(env, snap, ctx, lawID, linked, asOf, discoveryFailed, more);
      && (forall ref :: Unmatched(b, ref) || ChildNotConfirmed(b, ref) ==> Unmatched(a, ref) || ChildNotConfirmed(a, ref))
      && (Freshness.Verdict(a, NowOf(ctx)).state == ConfirmedCurrent ==>
          Freshness.Verdict(b, NowOf(ctx)).state == ConfirmedCurrent)
  {
    var a := ParentInput(env, snap, ctx, lawID, linked, asOf, discoveryFailed, less);
    var b := ParentInput(env, snap, ctx, lawID, linked, asOf, discoveryFailed, more);
    var s := SettingOf(env, snap, lawID, linked, asOf, less);
    assert a.vrefResolutions.value == ProofOf(s) && b.vrefResolutions.value == ProofOf(s.(leaf := more));
    assert b == a.(vrefResolutions := b.vrefResolutions);
    ProofMonotone(s, more);
    forall ref ensures Unmatched(b, ref) || ChildNotConfirmed(b, ref) ==> Unmatched(a, ref) || ChildNotConfirmed(a, ref) {
      FindRefines(b.vrefResolutions.value, a.vrefResolutions.value, ref);
    }
    VerdictExact(a, NowOf(ctx));
    VerdictExact(b, NowOf(ctx));
    assert forall iss :: CountedNewer(b, iss) <==> CountedNewer(a, iss);
  }
}
