/** Matching cited ordinances to linked children and proving them current
    (internal/instruments: vref_resolve.go, vref_proof.go, evidence.go). */
module VRefs {
  import opened Domain
  import Chain
  import Freshness

  datatype IndexEntry = IndexEntry(slug: string, lawID: string)

  /** What the packages below this one provide: the citation parser, normalize.Key, and the BGBl
      index when there is one. */
  datatype Env = Env(
    parse: string -> seq<InstrumentRef>,
    key: string -> string,
    index: Option<(int, int, string) -> Option<IndexEntry>>)

  type Stands = map<string, StandCitation>

  // ---------- identity of a cited instrument ----------

  predicate IsKindV(ref: InstrumentRef) { Freshness.KindOf(ref) == "V" }

  /** refIdentityMatches. */
  predicate SameIssue(ref: InstrumentRef, other: InstrumentRef) {
    && ref.year == other.year && ref.number == other.number
    && (ref.teil == 0 || other.teil == 0 || ref.teil == other.teil)
  }

  function ChildLookupKeys(env: Env, child: LinkedInstrument): seq<string> {
    (if env.key(child.lawID) != "" then [env.key(child.lawID)] else [])
    + (if env.key(child.giiSlug) != "" then [env.key(child.giiSlug)] else [])
  }

  predicate CitesIn(env: Env, text: string, ref: InstrumentRef) {
    exists i :: 0 <= i < |env.parse(text)| && SameIssue(ref, env.parse(text)[i])
  }

  predicate StandNames(env: Env, stand: StandCitation, ref: InstrumentRef) {
    || (stand.year > 0 && stand.number != "" &&
        SameIssue(ref, InstrumentRef("", stand.teil, stand.year, stand.number, "", "")))
    || CitesIn(env, stand.raw, ref)
  }

  /** childMatchesRef: the child's notes or its own Stand name the cited issue. */
  predicate ChildMatchesRef(env: Env, ref: InstrumentRef, child: LinkedInstrument, stands: Stands) {
    var keys := ChildLookupKeys(env, child);
    || CitesIn(env, child.notes, ref)
    || exists i :: 0 <= i < |keys| && keys[i] in stands && StandNames(env, stands[keys[i]], ref)
  }

  /** matchChildrenByIdentity. */
  function MatchChildren(env: Env, ref: InstrumentRef, children: seq<LinkedInstrument>, stands: Stands)
    : seq<LinkedInstrument>
  {
    if children == [] then []
    else
      (if ChildMatchesRef(env, ref, children[0], stands) then [children[0]] else [])
      + MatchChildren(env, ref, children[1..], stands)
  }

  lemma {:induction false} MatchChildrenMembers(env: Env, ref: InstrumentRef, children: seq<LinkedInstrument>, stands: Stands)
    ensures forall c :: c in MatchChildren(env, ref, children, stands) <==>
      c in children && ChildMatchesRef(env, ref, c, stands)
  {
    if children != [] { MatchChildrenMembers(env, ref, children[1..], stands); }
  }

  function InSection(children: seq<LinkedInstrument>, section: string): seq<LinkedInstrument> {
    if children == [] then []
    else
      (if Chain.GroupOf(children[0]) == section then [children[0]] else []) + InSection(children[1..], section)
  }

  lemma {:induction false} InSectionMembers(children: seq<LinkedInstrument>, section: string)
    ensures forall c :: c in InSection(children, section) <==> c in children && Chain.GroupOf(c) == section
  {
    if children != [] { InSectionMembers(children[1..], section); }
  }

  /** filterChildrenBySectionHint. */
  function FilterBySectionHint(children: seq<LinkedInstrument>, hint: string): seq<LinkedInstrument> {
    if Chain.NormalizeSectionHint(hint) == "*" then [] else InSection(children, Chain.NormalizeSectionHint(hint))
  }

  predicate HasSlugOrLawID(env: Env, child: LinkedInstrument, e: IndexEntry) {
    || (env.key(e.slug) != "" && env.key(child.giiSlug) == env.key(e.slug))
    || (env.key(e.lawID) != "" && env.key(child.lawID) == env.key(e.lawID))
  }

  /** findChildBySlugOrLawID: the first child the index entry points at. */
  function FindIndexed(env: Env, children: seq<LinkedInstrument>, e: IndexEntry): (r: Option<LinkedInstrument>)
    ensures r.Some? ==> r.value in children && HasSlugOrLawID(env, r.value, e)
  {
    if children == [] then None
    else if HasSlugOrLawID(env, children[0], e) then Some(children[0])
    else FindIndexed(env, children[1..], e)
  }

  /** The first child with the entry's slug or law id; none exactly when no child has it. */
  lemma {:induction false} FindIndexedExact(env: Env, children: seq<LinkedInstrument>, e: IndexEntry)
    ensures var r := FindIndexed(env, children, e);
      && (r.None? <==> forall i :: 0 <= i < |children| ==> !HasSlugOrLawID(env, children[i], e))
      && (r.Some? ==> exists i :: 0 <= i < |children| && r.value == children[i] && FirstIndexed(env, children, e, i))
  {
    if children != [] {
      if HasSlugOrLawID(env, children[0], e) {
        assert FirstIndexed(env, children, e, 0);
      } else {
        FindIndexedExact(env, children[1..], e);
        assert forall i :: 0 < i < |children| ==> children[i] == children[1..][i - 1];
        if i :| 0 <= i < |children[1..]| && FindIndexed(env, children, e) == Some(children[1..][i]) &&
                FirstIndexed(env, children[1..], e, i) {
          assert FirstIndexed(env, children, e, i + 1);
        }
      }
    }
  }

  predicate FirstIndexed(env: Env, children: seq<LinkedInstrument>, e: IndexEntry, i: nat)
    requires i < |children|
  {
    HasSlugOrLawID(env, children[i], e) && forall j :: 0 <= j < i ==> !HasSlugOrLawID(env, children[j], e)
  }

  predicate IsCurrentCandidate(li: LinkedInstrument) { li.status == Current || li.status == NoStatus }

  predicate IsPast(li: LinkedInstrument) { li.status == Past }

  function CurrentOf(annotated: seq<LinkedInstrument>): seq<LinkedInstrument> {
    Chain.Keep(annotated, li => IsCurrentCandidate(li))
  }

  function PastOf(annotated: seq<LinkedInstrument>): seq<LinkedInstrument> {
    Chain.Keep(annotated, li => IsPast(li))
  }

  method Partition(annotated: seq<LinkedInstrument>) returns (current: seq<LinkedInstrument>, past: seq<LinkedInstrument>)
    ensures current == CurrentOf(annotated) && past == PastOf(annotated)
  {
    current, past := [], [];
    for i := 0 to |annotated|
      invariant current == CurrentOf(annotated[..i]) && past == PastOf(annotated[..i])
    {
      assert annotated[..i + 1][..i] == annotated[..i];
      match annotated[i].status
      case Current => current := current + [annotated[i]];
      case Past => past := past + [annotated[i]];
      case NoStatus => current := current + [annotated[i]];
      case Future =>
    }
    assert annotated[..|annotated|] == annotated;
  }

  // ---------- ResolveOperativeVRefs ----------

  datatype Match = NoMatch | Unique(child: LinkedInstrument) | Ambiguous

  /** The current child a ref names by identity, narrowed by section when several do. */
  function CurrentMatch(env: Env, ref: InstrumentRef, current: seq<LinkedInstrument>, stands: Stands): Match {
    var matches := MatchChildren(env, ref, current, stands);
    if |matches| == 0 then NoMatch
    else if |matches| == 1 then Unique(matches[0])
    else
      var filtered := FilterBySectionHint(matches, ref.sectionHint);
      if |filtered| == 1 then Unique(filtered[0]) else Ambiguous
  }

  /** The current child the BGBl index names for the ref. */
  function IndexedMatch(env: Env, ref: InstrumentRef, current: seq<LinkedInstrument>): Option<LinkedInstrument> {
    if env.index.None? then None
    else match env.index.value(ref.teil, ref.year, ref.number)
      case None => None
      case Some(e) => FindIndexed(env, current, e)
  }

  function Unresolved(ref: InstrumentRef): VRefResolution {
    VRefResolution(ref, "", "", false, false, false, "")
  }

  /** The resolution of one ref: identity first, then the index, then the past chain. */
  function ResolveRef(env: Env, ref: InstrumentRef, annotated: seq<LinkedInstrument>, stands: Stands): VRefResolution {
    var current, past := CurrentOf(annotated), PastOf(annotated);
    var m := CurrentMatch(env, ref, current, stands);
    var r0 := if m.Unique? then Unresolved(ref).(matchedGIISlug := m.child.giiSlug, matchMethod := "notes_identity")
              else Unresolved(ref);
    var open0 := r0.matchedGIISlug == "" && !m.Ambiguous?;
    var i := IndexedMatch(env, ref, current);
    var r1 := if open0 && i.Some? then r0.(matchedGIISlug := i.value.giiSlug, matchMethod := "bgbl_index") else r0;
    var open1 := r1.matchedGIISlug == "" && !m.Ambiguous?;
    if open1 && !IsKindV(ref) && MatchChildren(env, ref, past, stands) != []
    then r1.(historical := true, matchMethod := "notes_identity")
    else r1
  }

  predicate ToResolve(ref: InstrumentRef, parentStand: StandCitation, hasLinked: bool) {
    && !(ref.year == 0 || (ref.number == "" && ref.teil == 0))
    && !Freshness.StandReflectsRef(parentStand, ref)
    && Freshness.IsOperativeRef(ref, hasLinked)
  }

  /** One resolution per ref to resolve, in order. */
  function Resolutions(env: Env, refs: seq<InstrumentRef>, annotated: seq<LinkedInstrument>, stands: Stands,
                       parentStand: StandCitation): seq<VRefResolution> {
    if refs == [] then []
    else
      var k := |refs| - 1;
      Resolutions(env, refs[..k], annotated, stands, parentStand)
      + if ToResolve(refs[k], parentStand, |annotated| > 0) then [ResolveRef(env, refs[k], annotated, stands)] else []
  }

  /** The body of the resolving loop. */
  method ResolveOne(env: Env, ref: InstrumentRef, ghost annotated: seq<LinkedInstrument>, stands: Stands,
                    current: seq<LinkedInstrument>, past: seq<LinkedInstrument>) returns (res: VRefResolution)
    requires current == CurrentOf(annotated) && past == PastOf(annotated)
    ensures res == ResolveRef(env, ref, annotated, stands)
  {
    res := Unresolved(ref);
    var matches := MatchChildren(env, ref, current, stands);
    var ambiguousCurrent := false;
    if |matches| == 1 {
      res := res.(matchedGIISlug := matches[0].giiSlug, matchMethod := "notes_identity");
    } else if |matches| > 1 {
      var filtered := FilterBySectionHint(matches, ref.sectionHint);
      if |filtered| == 1 {
        res := res.(matchedGIISlug := filtered[0].giiSlug, matchMethod := "notes_identity");
      } else {
        ambiguousCurrent := true;
      }
    }
    if res.matchedGIISlug == "" && !ambiguousCurrent && env.index.Some? {
      var found := env.index.value(ref.teil, ref.year, ref.number);
      if found.Some? {
        var child := FindIndexed(env, current, found.value);
        if child.Some? {
          res := res.(matchedGIISlug := child.value.giiSlug, matchMethod := "bgbl_index");
        }
      }
    }
    if res.matchedGIISlug == "" && !ambiguousCurrent && !IsKindV(ref) {
      var pastMatches := MatchChildren(env, ref, past, stands);
      if |pastMatches| > 0 {
        res := res.(historical := true, matchMethod := "notes_identity");
      }
    }
  }

  method ResolveOperativeVRefs(env: Env, refs: seq<InstrumentRef>, annotated: seq<LinkedInstrument>, stands: Stands,
                               parentStand: StandCitation) returns (out: seq<VRefResolution>)
    ensures out == Resolutions(env, refs, annotated, stands, parentStand)
  {
    var hasLinked := |annotated| > 0;
    var current, past := Partition(annotated);
    out := [];
    for n := 0 to |refs|
      invariant out == Resolutions(env, refs[..n], annotated, stands, parentStand)
    {
      assert refs[..n + 1][..n] == refs[..n];
      var ref := refs[n];
      if ref.year == 0 || (ref.number == "" && ref.teil == 0) { continue; }
      if Freshness.StandReflectsRef(parentStand, ref) { continue; }
      if !Freshness.IsOperativeRef(ref, hasLinked) { continue; }
      var res := ResolveOne(env, ref, annotated, stands, current, past);
      out := out + [res];
    }
    assert refs[..|refs|] == refs;
  }

  // ---------- ApplyChildFreshnessProof ----------

  function ApplyProof(leaf: string -> FreshnessState, res: VRefResolution): VRefResolution {
    if res.historical || res.matchedGIISlug == "" then res
    else if leaf(res.matchedGIISlug) == ConfirmedCurrent then res.(childConfirmed := true, resolved := true)
    else res
  }

  method ApplyChildFreshnessProof(resolutions: seq<VRefResolution>, leaf: string -> FreshnessState)
    returns (out: seq<VRefResolution>)
    ensures |out| == |resolutions|
    ensures forall i :: 0 <= i < |out| ==> out[i] == ApplyProof(leaf, resolutions[i])
  {
    out := resolutions;
    for i := 0 to |resolutions|
      invariant |out| == |resolutions|
      invariant forall k :: 0 <= k < i ==> out[k] == ApplyProof(leaf, resolutions[k])
      invariant forall k :: i <= k < |out| ==> out[k] == resolutions[k]
    {
      if out[i].historical || out[i].matchedGIISlug == "" { continue; }
      var state := leaf(out[i].matchedGIISlug);
      if state == ConfirmedCurrent {
        out := out[i := out[i].(childConfirmed := true)];
        out := out[i := out[i].(resolved := true)];
      }
    }
  }

  // ---------- MarkSupersededPastKindV ----------

  predicate Confirms(res: VRefResolution) { res.resolved && res.childConfirmed && res.matchedGIISlug != "" }

  /** The children proven current by some entry of the list. */
  ghost function ConfirmedSlugs(resolutions: seq<VRefResolution>): set<string> {
    set res | res in resolutions && Confirms(res) :: res.matchedGIISlug
  }

  /** The section a past Kind V citation belongs to: its own hint, or the one all its past matches
      share; "*" when that is undetermined. */
  function SupersededSection(ref: InstrumentRef, pastMatches: seq<LinkedInstrument>): string
    requires pastMatches != []
  {
    var own := Chain.NormalizeSectionHint(ref.sectionHint);
    if own != "*" then own
    else if forall i :: 0 <= i < |pastMatches| ==> Chain.GroupOf(pastMatches[i]) == Chain.GroupOf(pastMatches[0])
    then Chain.GroupOf(pastMatches[0])
    else "*"
  }

  /** The first current child of the section that has been proven current. */
  ghost function ConfirmedSibling(current: seq<LinkedInstrument>, section: string, confirmed: set<string>)
    : (r: Option<LinkedInstrument>)
    ensures r.Some? <==> exists c :: c in current && Chain.GroupOf(c) == section && c.giiSlug in confirmed
    ensures r.Some? ==> r.value in current && Chain.GroupOf(r.value) == section && r.value.giiSlug in confirmed
  {
    if current == [] then None
    else if Chain.GroupOf(current[0]) == section && current[0].giiSlug in confirmed then Some(current[0])
    else ConfirmedSibling(current[1..], section, confirmed)
  }

  predicate MaySupersede(res: VRefResolution) {
    !res.historical && !(res.resolved && res.childConfirmed) && res.matchedGIISlug == "" && IsKindV(res.ref)
  }

  /** What becomes of one entry, given the set of children proven current. */
  ghost function Superseded(env: Env, annotated: seq<LinkedInstrument>, stands: Stands, confirmed: set<string>,
                            res: VRefResolution): VRefResolution {
    var pastMatches := MatchChildren(env, res.ref, PastOf(annotated), stands);
    if !MaySupersede(res) || pastMatches == [] then res
    else
      var section := SupersededSection(res.ref, pastMatches);
      var sibling := ConfirmedSibling(CurrentOf(annotated), section, confirmed);
      if section == "*" || sibling.None? then res
      else res.(historical := true, matchMethod := "superseded_past_v", supersededBy := sibling.value.giiSlug)
  }

  ghost function Marked(env: Env, annotated: seq<LinkedInstrument>, stands: Stands, resolutions: seq<VRefResolution>)
    : (out: seq<VRefResolution>)
    ensures |out| == |resolutions|
  {
    seq(|resolutions|, i requires 0 <= i < |resolutions| =>
      Superseded(env, annotated, stands, ConfirmedSlugs(resolutions), resolutions[i]))
  }

  method SectionOfMatches(ref: InstrumentRef, pastMatches: seq<LinkedInstrument>) returns (section: string)
    requires pastMatches != []
    ensures section == SupersededSection(ref, pastMatches)
  {
    section := Chain.NormalizeSectionHint(ref.sectionHint);
    if section == "*" {
      var pastSection := Chain.GroupOf(pastMatches[0]);
      for i := 1 to |pastMatches|
        invariant forall k :: 0 <= k < i ==> Chain.GroupOf(pastMatches[k]) == Chain.GroupOf(pastMatches[0])
        invariant pastSection == Chain.GroupOf(pastMatches[0])
      {
        if Chain.GroupOf(pastMatches[i]) != pastSection { return "*"; }
      }
      section := pastSection;
    }
  }

  method MarkSupersededPastKindV(env: Env, resolutions: seq<VRefResolution>, annotated: seq<LinkedInstrument>,
                                 stands: Stands) returns (out: seq<VRefResolution>)
    ensures out == Marked(env, annotated, stands, resolutions)
  {
    out := resolutions;
    var confirmed: set<string> := {};
    for i := 0 to |resolutions|
      invariant confirmed == ConfirmedSlugs(resolutions[..i])
    {
      assert resolutions[..i + 1] == resolutions[..i] + [resolutions[i]];
      if Confirms(resolutions[i]) { confirmed := confirmed + {resolutions[i].matchedGIISlug}; }
    }
    assert resolutions[..|resolutions|] == resolutions;
    var current, past := Partition(annotated);
    for i := 0 to |resolutions|
      invariant |out| == |resolutions|
      invariant forall k :: 0 <= k < i ==> out[k] == Superseded(env, annotated, stands, confirmed, resolutions[k])
      invariant forall k :: i <= k < |out| ==> out[k] == resolutions[k]
    {
      var marked := MarkOne(env, annotated, stands, confirmed, current, past, out[i]);
      out := out[i := marked];
    }
  }

  /** The body of the marking loop. */
  method MarkOne(env: Env, ghost annotated: seq<LinkedInstrument>, stands: Stands, confirmed: set<string>,
                 current: seq<LinkedInstrument>, past: seq<LinkedInstrument>, before: VRefResolution)
    returns (res: VRefResolution)
    requires current == CurrentOf(annotated) && past == PastOf(annotated)
    ensures res == Superseded(env, annotated, stands, confirmed, before)
  {
    res := before;
    if res.historical { return; }
    if res.resolved && res.childConfirmed { return; }
    if res.matchedGIISlug != "" { return; }
    if !IsKindV(res.ref) { return; }
    var pastMatches := MatchChildren(env, res.ref, past, stands);
    if |pastMatches| == 0 { return; }
    var section := SectionOfMatches(res.ref, pastMatches);
    if section == "*" { return; }
    var sibling := FirstConfirmed(current, section, confirmed);
    if sibling.Some? {
      res := res.(historical := true, matchMethod := "superseded_past_v", supersededBy := sibling.value.giiSlug);
    }
  }

  method FirstConfirmed(current: seq<LinkedInstrument>, section: string, confirmed: set<string>)
    returns (r: Option<LinkedInstrument>)
    ensures r == ConfirmedSibling(current, section, confirmed)
  {
    for i := 0 to |current|
      invariant ConfirmedSibling(current, section, confirmed) == ConfirmedSibling(current[i..], section, confirmed)
    {
      if Chain.GroupOf(current[i]) != section { continue; }
      if current[i].giiSlug !in confirmed { continue; }
      return Some(current[i]);
    }
    r := None;
  }

  // ---------- laws of MarkSupersededPastKindV ----------

  lemma MarkedKeepsConfirmed(env: Env, annotated: seq<LinkedInstrument>, stands: Stands, resolutions: seq<VRefResolution>)
    ensures ConfirmedSlugs(Marked(env, annotated, stands, resolutions)) == ConfirmedSlugs(resolutions)
  {
    var out := Marked(env, annotated, stands, resolutions);
    forall slug ensures slug in ConfirmedSlugs(out) <==> slug in ConfirmedSlugs(resolutions) {
      if slug in ConfirmedSlugs(out) {
        var i :| 0 <= i < |out| && Confirms(out[i]) && out[i].matchedGIISlug == slug;
        assert resolutions[i] in resolutions && Confirms(resolutions[i]);
      }
      if slug in ConfirmedSlugs(resolutions) {
        var i :| 0 <= i < |resolutions| && Confirms(resolutions[i]) && resolutions[i].matchedGIISlug == slug;
        assert out[i] in out && Confirms(out[i]);
      }
    }
  }

  /** Marking twice is marking once. */
  lemma MarkedIdempotent(env: Env, annotated: seq<LinkedInstrument>, stands: Stands, resolutions: seq<VRefResolution>)
    ensures var once := Marked(env, annotated, stands, resolutions);
      Marked(env, annotated, stands, once) == once
  {
    MarkedKeepsConfirmed(env, annotated, stands, resolutions);
    var once := Marked(env, annotated, stands, resolutions);
    var twice := Marked(env, annotated, stands, once);
    forall i | 0 <= i < |once| ensures twice[i] == once[i] {
      assert once[i] == Superseded(env, annotated, stands, ConfirmedSlugs(resolutions), resolutions[i]);
      assert twice[i] == Superseded(env, annotated, stands, ConfirmedSlugs(resolutions), once[i]);
    }
  }

  /** An entry's mark does not depend on the order, or the multiplicity, of the other entries. */
  lemma MarkedOrderIndependent(env: Env, annotated: seq<LinkedInstrument>, stands: Stands,
                               a: seq<VRefResolution>, b: seq<VRefResolution>, i: nat, j: nat)
    requires forall r :: r in a <==> r in b
    requires i < |a| && j < |b| && a[i] == b[j]
    ensures Marked(env, annotated, stands, a)[i] == Marked(env, annotated, stands, b)[j]
  {
    assert ConfirmedSlugs(a) == ConfirmedSlugs(b);
  }
}
