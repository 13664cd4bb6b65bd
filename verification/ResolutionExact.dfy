/** When a parent law is confirmed current, told on the rows and the store alone: a reference definition
    of "this citation is settled" that shares nothing with the resolving, proving and superseding passes,
    and the theorem that the composed evaluation answers exactly by it. */
module ResolutionExact {
  import opened Domain
  import opened Freshness
  import opened VRefs
  import opened Verdict
  import opened VerdictSoundness
  import opened StandOrder
  import Chain
  import Text

  // ---------- which row a citation names ----------

  /** The same issue, told by year, number and, where both have one, Teil. */
  predicate SameNumber(ref: InstrumentRef, teil: int, year: int, number: string) {
    year == ref.year && number == ref.number && (teil == ref.teil || teil == 0 || ref.teil == 0)
  }

  predicate TextNames(env: Env, text: string, ref: InstrumentRef) {
    exists e :: e in env.parse(text) && SameNumber(ref, e.teil, e.year, e.number)
  }

  /** The Stand stored under the key is, or mentions, the cited issue. */
  predicate StoredNames(env: Env, snap: Snapshot, key: string, ref: InstrumentRef) {
    key != "" && key in snap.stands &&
    var stand := snap.stands[key];
    || (stand.year > 0 && stand.number != "" && SameNumber(ref, stand.teil, stand.year, stand.number))
    || TextNames(env, stand.raw, ref)
  }

  /** A row names the cited issue in its notes or through its stored Stand. */
  predicate Names(env: Env, snap: Snapshot, ref: InstrumentRef, row: LinkedInstrument) {
    || TextNames(env, row.notes, ref)
    || StoredNames(env, snap, env.key(row.lawID), ref) || StoredNames(env, snap, env.key(row.giiSlug), ref)
  }

  /** In force, or without dates. */
  predicate InForce(row: LinkedInstrument) { row.status == Current || row.status == NoStatus }

  /** A parent's rows, and what they are read against. */
  datatype Rows = Rows(env: Env, snap: Snapshot, rows: seq<LinkedInstrument>)

  ghost predicate NamedAt(r: Rows, ref: InstrumentRef, i: nat) {
    i < |r.rows| && InForce(r.rows[i]) && Names(r.env, r.snap, ref, r.rows[i])
  }

  ghost predicate PastNamedAt(r: Rows, ref: InstrumentRef, i: nat) {
    i < |r.rows| && r.rows[i].status == Past && Names(r.env, r.snap, ref, r.rows[i])
  }

  function Section(hint: string): string { Text.TrimSpace(hint) }

  /** Blank and "*" name no section. */
  predicate IsSection(hint: string) { Section(hint) != "" && Section(hint) != "*" }

  ghost predicate InSectionAt(r: Rows, ref: InstrumentRef, i: nat) {
    NamedAt(r, ref, i) && IsSection(ref.sectionHint) && Section(r.rows[i].sectionHint) == Section(ref.sectionHint)
  }

  /** Row i is the one the citation means: the only one it names, or the only one in its section. */
  ghost predicate PickedAt(r: Rows, ref: InstrumentRef, i: nat) {
    || (NamedAt(r, ref, i) && forall j :: NamedAt(r, ref, j) ==> j == i)
    || (InSectionAt(r, ref, i) && forall j :: InSectionAt(r, ref, j) ==> j == i)
  }

  ghost predicate SomeNamed(r: Rows, ref: InstrumentRef) { exists i :: NamedAt(r, ref, i) }

  ghost predicate SomePastNamed(r: Rows, ref: InstrumentRef) { exists i :: PastNamedAt(r, ref, i) }

  /** The BGBl index points the citation to row i. */
  ghost predicate PointedAt(r: Rows, ref: InstrumentRef, i: nat) {
    && i < |r.rows| && InForce(r.rows[i]) && r.env.index.Some?
    && var e := r.env.index.value(ref.teil, ref.year, ref.number);
       e.Some? &&
       (|| (r.env.key(e.value.slug) != "" && r.env.key(r.rows[i].giiSlug) == r.env.key(e.value.slug))
        || (r.env.key(e.value.lawID) != "" && r.env.key(r.rows[i].lawID) == r.env.key(e.value.lawID)))
  }

  /** Row i is what the citation is matched to; the index is asked only when no row is named. */
  ghost predicate TargetAt(r: Rows, ref: InstrumentRef, i: nat) {
    || PickedAt(r, ref, i)
    || (!SomeNamed(r, ref) && PointedAt(r, ref, i) && forall j :: 0 <= j < i ==> !PointedAt(r, ref, j))
  }

  ghost predicate SomeTarget(r: Rows, ref: InstrumentRef) { exists i :: TargetAt(r, ref, i) }

  // ---------- filtering rows ----------

  lemma {:induction false} KeepCons(x: LinkedInstrument, rest: seq<LinkedInstrument>, p: LinkedInstrument -> bool)
    ensures Chain.Keep([x] + rest, p) == (if p(x) then [x] else []) + Chain.Keep(rest, p)
  {
    var all := [x] + rest;
    if rest == [] {
      assert all[..0] == [];
    } else {
      var k := |rest| - 1;
      KeepCons(x, rest[..k], p);
      assert all[..k + 1] == [x] + rest[..k];
    }
  }

  lemma {:induction false} KeepKeep(rows: seq<LinkedInstrument>, p: LinkedInstrument -> bool, q: LinkedInstrument -> bool,
                                    both: LinkedInstrument -> bool)
    requires forall x :: both(x) == (p(x) && q(x))
    ensures Chain.Keep(Chain.Keep(rows, p), q) == Chain.Keep(rows, both)
  {
    if rows != [] {
      var k := |rows| - 1;
      KeepKeep(rows[..k], p, q, both);
      var front := Chain.Keep(rows[..k], p);
      assert (front + [rows[k]])[..|front|] == front;
      assert front + [] == front;
    }
  }

  ghost predicate FirstAt(rows: seq<LinkedInstrument>, p: LinkedInstrument -> bool, i: nat) {
    i < |rows| && p(rows[i]) && forall j :: 0 <= j < i ==> !p(rows[j])
  }

  ghost predicate OnlyAt(rows: seq<LinkedInstrument>, p: LinkedInstrument -> bool, i: nat) {
    i < |rows| && p(rows[i]) && forall j :: 0 <= j < |rows| && p(rows[j]) ==> j == i
  }

  /** What a filter leaves, told by positions: nothing, or something headed by the first. */
  lemma {:induction false} KeepHead(rows: seq<LinkedInstrument>, p: LinkedInstrument -> bool)
    ensures Chain.Keep(rows, p) == [] <==> forall i :: 0 <= i < |rows| ==> !p(rows[i])
    ensures Chain.Keep(rows, p) != [] ==> exists i: nat :: FirstAt(rows, p, i) && Chain.Keep(rows, p)[0] == rows[i]
  {
    if rows != [] {
      var k := |rows| - 1;
      var front := rows[..k];
      KeepHead(front, p);
      assert forall i :: 0 <= i < k ==> front[i] == rows[i];
      if i: nat :| FirstAt(front, p, i) && Chain.Keep(front, p) != [] && Chain.Keep(front, p)[0] == front[i] {
        assert FirstAt(rows, p, i);
      } else {
        assert p(rows[k]) ==> FirstAt(rows, p, k);
      }
    }
  }

  /** One row is left exactly when one position passes. */
  lemma {:induction false} KeepSingle(rows: seq<LinkedInstrument>, p: LinkedInstrument -> bool)
    ensures |Chain.Keep(rows, p)| == 1 <==> exists i: nat :: OnlyAt(rows, p, i)
  {
    if rows != [] {
      var k := |rows| - 1;
      var front := rows[..k];
      KeepSingle(front, p);
      KeepHead(front, p);
      assert forall i :: 0 <= i < k ==> front[i] == rows[i];
      if i: nat :| OnlyAt(rows, p, i) {
        assert i < k ==> OnlyAt(front, p, i);
      }
      if i: nat :| OnlyAt(front, p, i) {
        assert !p(rows[k]) ==> OnlyAt(rows, p, i);
      }
      if Chain.Keep(front, p) == [] && p(rows[k]) { assert OnlyAt(rows, p, k); }
    }
  }

  lemma {:induction false} MatchChildrenKeeps(env: Env, ref: InstrumentRef, children: seq<LinkedInstrument>, stands: Stands,
                                              p: LinkedInstrument -> bool)
    requires forall x :: p(x) == ChildMatchesRef(env, ref, x, stands)
    ensures MatchChildren(env, ref, children, stands) == Chain.Keep(children, p)
  {
    if children != [] {
      MatchChildrenKeeps(env, ref, children[1..], stands, p);
      KeepCons(children[0], children[1..], p);
      assert children == [children[0]] + children[1..];
    }
  }

  lemma {:induction false} InSectionKeeps(children: seq<LinkedInstrument>, section: string, p: LinkedInstrument -> bool)
    requires forall x :: p(x) == (Chain.GroupOf(x) == section)
    ensures InSection(children, section) == Chain.Keep(children, p)
  {
    if children != [] {
      InSectionKeeps(children[1..], section, p);
      KeepCons(children[0], children[1..], p);
      assert children == [children[0]] + children[1..];
    }
  }

  lemma {:induction false} FindIndexedKeeps(env: Env, children: seq<LinkedInstrument>, e: IndexEntry, p: LinkedInstrument -> bool)
    requires forall x :: p(x) == HasSlugOrLawID(env, x, e)
    ensures var kept := Chain.Keep(children, p);
      FindIndexed(env, children, e) == if kept == [] then None else Some(kept[0])
  {
    if children != [] {
      FindIndexedKeeps(env, children[1..], e, p);
      KeepCons(children[0], children[1..], p);
      assert children == [children[0]] + children[1..];
    }
  }

  // ---------- resolving is picking ----------

  function StandsOf(r: Rows): Stands { ChildStands(r.env, r.snap, r.rows) }

  lemma KeyedStands(r: Rows, i: nat, key: string)
    requires i < |r.rows| && key in ChildLookupKeys(r.env, r.rows[i])
    ensures key in StandsOf(r) <==> key in r.snap.stands
    ensures key in StandsOf(r) ==> StandsOf(r)[key] == r.snap.stands[key]
  {
    ChildStandsExact(r.env, r.snap, r.rows);
  }

  lemma TextNamesMeaning(env: Env, text: string, ref: InstrumentRef)
    ensures CitesIn(env, text, ref) <==> TextNames(env, text, ref)
  {
    if e :| e in env.parse(text) && SameNumber(ref, e.teil, e.year, e.number) {
      var i :| 0 <= i < |env.parse(text)| && env.parse(text)[i] == e;
      assert SameIssue(ref, env.parse(text)[i]);
    }
    if i :| 0 <= i < |env.parse(text)| && SameIssue(ref, env.parse(text)[i]) {
      assert env.parse(text)[i] in env.parse(text);
    }
  }

  lemma NamesMeaning(r: Rows, ref: InstrumentRef, i: nat)
    requires i < |r.rows|
    ensures ChildMatchesRef(r.env, ref, r.rows[i], StandsOf(r)) <==> Names(r.env, r.snap, ref, r.rows[i])
  {
    var row := r.rows[i];
    var keys := ChildLookupKeys(r.env, row);
    TextNamesMeaning(r.env, row.notes, ref);
    forall k | 0 <= k < |keys| ensures keys[k] in StandsOf(r) && StandNames(r.env, StandsOf(r)[keys[k]], ref) <==> StoredNames(r.env, r.snap, keys[k], ref) {
      KeyedStands(r, i, keys[k]);
      if keys[k] in r.snap.stands { TextNamesMeaning(r.env, r.snap.stands[keys[k]].raw, ref); }
    }
    var a, b := r.env.key(row.lawID), r.env.key(row.giiSlug);
    assert a != "" ==> keys[0] == a;
    assert b != "" ==> keys[|keys| - 1] == b;
  }

  ghost function Naming(r: Rows, ref: InstrumentRef): LinkedInstrument -> bool {
    (x: LinkedInstrument) => ChildMatchesRef(r.env, ref, x, StandsOf(r))
  }

  ghost function NamingInForce(r: Rows, ref: InstrumentRef): LinkedInstrument -> bool {
    (x: LinkedInstrument) => IsCurrentCandidate(x) && ChildMatchesRef(r.env, ref, x, StandsOf(r))
  }

  ghost function Grouped(section: string): LinkedInstrument -> bool {
    (x: LinkedInstrument) => Chain.GroupOf(x) == section
  }

  ghost function NamingGrouped(r: Rows, ref: InstrumentRef, section: string): LinkedInstrument -> bool {
    (x: LinkedInstrument) => IsCurrentCandidate(x) && ChildMatchesRef(r.env, ref, x, StandsOf(r)) && Chain.GroupOf(x) == section
  }

  lemma MatchesAreNamed(r: Rows, ref: InstrumentRef)
    ensures MatchChildren(r.env, ref, CurrentOf(r.rows), StandsOf(r)) == Chain.Keep(r.rows, NamingInForce(r, ref))
  {
    MatchChildrenKeeps(r.env, ref, CurrentOf(r.rows), StandsOf(r), Naming(r, ref));
    KeepKeep(r.rows, li => IsCurrentCandidate(li), Naming(r, ref), NamingInForce(r, ref));
  }

  lemma FilteredAreInSection(r: Rows, ref: InstrumentRef, section: string)
    ensures InSection(MatchChildren(r.env, ref, CurrentOf(r.rows), StandsOf(r)), section)
            == Chain.Keep(r.rows, NamingGrouped(r, ref, section))
  {
    MatchesAreNamed(r, ref);
    InSectionKeeps(Chain.Keep(r.rows, NamingInForce(r, ref)), section, Grouped(section));
    KeepKeep(r.rows, NamingInForce(r, ref), Grouped(section), NamingGrouped(r, ref, section));
  }

  lemma NamedAtMeaning(r: Rows, ref: InstrumentRef, i: nat)
    ensures NamedAt(r, ref, i) <==> i < |r.rows| && NamingInForce(r, ref)(r.rows[i])
  {
    if i < |r.rows| { NamesMeaning(r, ref, i); }
  }

  lemma InSectionAtMeaning(r: Rows, ref: InstrumentRef, i: nat)
    requires IsSection(ref.sectionHint)
    ensures InSectionAt(r, ref, i) <==>
            i < |r.rows| && NamingGrouped(r, ref, Chain.NormalizeSectionHint(ref.sectionHint))(r.rows[i])
  {
    NamedAtMeaning(r, ref, i);
  }

  /** A filter that leaves one row leaves the one at the only position that passes. */
  lemma SingleIs(rows: seq<LinkedInstrument>, p: LinkedInstrument -> bool, i: nat)
    requires OnlyAt(rows, p, i)
    ensures Chain.Keep(rows, p) == [rows[i]]
  {
    KeepSingle(rows, p);
    KeepHead(rows, p);
  }

  lemma OnlyNamedMeaning(r: Rows, ref: InstrumentRef, i: nat)
    ensures OnlyAt(r.rows, NamingInForce(r, ref), i) <==> NamedAt(r, ref, i) && forall j :: NamedAt(r, ref, j) ==> j == i
  {
    forall j: nat { NamedAtMeaning(r, ref, j); }
  }

  lemma OnlyInSectionMeaning(r: Rows, ref: InstrumentRef, i: nat)
    requires IsSection(ref.sectionHint)
    ensures OnlyAt(r.rows, NamingGrouped(r, ref, Chain.NormalizeSectionHint(ref.sectionHint)), i) <==>
            InSectionAt(r, ref, i) && forall j :: InSectionAt(r, ref, j) ==> j == i
  {
    forall j: nat { InSectionAtMeaning(r, ref, j); }
  }

  function MatchOf(r: Rows, ref: InstrumentRef): Match { CurrentMatch(r.env, ref, CurrentOf(r.rows), StandsOf(r)) }

  lemma NoneNamedIff(r: Rows, ref: InstrumentRef)
    ensures MatchChildren(r.env, ref, CurrentOf(r.rows), StandsOf(r)) == [] <==> !SomeNamed(r, ref)
  {
    MatchesAreNamed(r, ref);
    KeepHead(r.rows, NamingInForce(r, ref));
    forall i: nat { NamedAtMeaning(r, ref, i); }
  }

  lemma OnlyNamedIsMatched(r: Rows, ref: InstrumentRef, i: nat)
    requires OnlyAt(r.rows, NamingInForce(r, ref), i)
    ensures MatchOf(r, ref) == Unique(r.rows[i])
  {
    MatchesAreNamed(r, ref);
    SingleIs(r.rows, NamingInForce(r, ref), i);
  }

  lemma OnlyInSectionIsMatched(r: Rows, ref: InstrumentRef, i: nat)
    requires IsSection(ref.sectionHint)
    requires OnlyAt(r.rows, NamingGrouped(r, ref, Chain.NormalizeSectionHint(ref.sectionHint)), i)
    ensures MatchOf(r, ref) == Unique(r.rows[i])
  {
    var section := Chain.NormalizeSectionHint(ref.sectionHint);
    MatchesAreNamed(r, ref);
    FilteredAreInSection(r, ref, section);
    SingleIs(r.rows, NamingGrouped(r, ref, section), i);
    KeepHead(r.rows, NamingInForce(r, ref));
    KeepSingle(r.rows, NamingInForce(r, ref));
    if k: nat :| OnlyAt(r.rows, NamingInForce(r, ref), k) { SingleIs(r.rows, NamingInForce(r, ref), k); }
  }

  lemma UniqueIsPicked(r: Rows, ref: InstrumentRef) returns (i: nat)
    requires MatchOf(r, ref).Unique?
    ensures PickedAt(r, ref, i)
  {
    var section := Chain.NormalizeSectionHint(ref.sectionHint);
    MatchesAreNamed(r, ref);
    KeepSingle(r.rows, NamingInForce(r, ref));
    if k: nat :| OnlyAt(r.rows, NamingInForce(r, ref), k) {
      OnlyNamedMeaning(r, ref, k);
      i := k;
    } else {
      FilteredAreInSection(r, ref, section);
      KeepSingle(r.rows, NamingGrouped(r, ref, section));
      var k: nat :| OnlyAt(r.rows, NamingGrouped(r, ref, section), k);
      OnlyInSectionMeaning(r, ref, k);
      i := k;
    }
  }

  /** What matching by identity answers: the picked row, nothing when no row is named, else ambiguous. */
  lemma PickExact(r: Rows, ref: InstrumentRef)
    ensures MatchOf(r, ref).NoMatch? <==> !SomeNamed(r, ref)
    ensures forall i: nat :: PickedAt(r, ref, i) ==> MatchOf(r, ref) == Unique(r.rows[i])
    ensures MatchOf(r, ref).Unique? <==> exists i :: PickedAt(r, ref, i)
  {
    NoneNamedIff(r, ref);
    forall i: nat | PickedAt(r, ref, i) ensures MatchOf(r, ref) == Unique(r.rows[i]) {
      OnlyNamedMeaning(r, ref, i);
      if OnlyAt(r.rows, NamingInForce(r, ref), i) {
        OnlyNamedIsMatched(r, ref, i);
      } else {
        OnlyInSectionMeaning(r, ref, i);
        OnlyInSectionIsMatched(r, ref, i);
      }
    }
    if MatchOf(r, ref).Unique? { var i := UniqueIsPicked(r, ref); }
  }

  // ---------- the index, and the past ----------

  ghost function Pointed(r: Rows, e: IndexEntry): LinkedInstrument -> bool {
    (x: LinkedInstrument) => HasSlugOrLawID(r.env, x, e)
  }

  ghost function PointedInForce(r: Rows, e: IndexEntry): LinkedInstrument -> bool {
    (x: LinkedInstrument) => IsCurrentCandidate(x) && HasSlugOrLawID(r.env, x, e)
  }

  ghost predicate FirstPointedAt(r: Rows, ref: InstrumentRef, i: nat) {
    PointedAt(r, ref, i) && forall j :: 0 <= j < i ==> !PointedAt(r, ref, j)
  }

  predicate HasEntry(env: Env, ref: InstrumentRef) {
    env.index.Some? && env.index.value(ref.teil, ref.year, ref.number).Some?
  }

  function EntryOf(env: Env, ref: InstrumentRef): IndexEntry
    requires HasEntry(env, ref)
  {
    env.index.value(ref.teil, ref.year, ref.number).value
  }

  lemma IndexedIsHead(r: Rows, ref: InstrumentRef)
    requires HasEntry(r.env, ref)
    ensures var kept := Chain.Keep(r.rows, PointedInForce(r, EntryOf(r.env, ref)));
      IndexedMatch(r.env, ref, CurrentOf(r.rows)) == if kept == [] then None else Some(kept[0])
  {
    var e := EntryOf(r.env, ref);
    FindIndexedKeeps(r.env, CurrentOf(r.rows), e, Pointed(r, e));
    KeepKeep(r.rows, li => IsCurrentCandidate(li), Pointed(r, e), PointedInForce(r, e));
  }

  lemma FirstPointedMeaning(r: Rows, ref: InstrumentRef, i: nat)
    requires HasEntry(r.env, ref)
    ensures FirstPointedAt(r, ref, i) <==> FirstAt(r.rows, PointedInForce(r, EntryOf(r.env, ref)), i)
  {
    var p := PointedInForce(r, EntryOf(r.env, ref));
    forall j: nat ensures PointedAt(r, ref, j) <==> j < |r.rows| && p(r.rows[j]) {}
  }

  /** The index leads to the first row in force it points to. */
  lemma IndexExact(r: Rows, ref: InstrumentRef)
    ensures var m := IndexedMatch(r.env, ref, CurrentOf(r.rows));
      && (m.Some? <==> exists i :: FirstPointedAt(r, ref, i))
      && (forall i: nat :: FirstPointedAt(r, ref, i) ==> m == Some(r.rows[i]))
  {
    if HasEntry(r.env, ref) {
      IndexedIsHead(r, ref);
      KeepHead(r.rows, PointedInForce(r, EntryOf(r.env, ref)));
      forall i: nat { FirstPointedMeaning(r, ref, i); }
    }
  }

  lemma PastExact(r: Rows, ref: InstrumentRef)
    ensures MatchChildren(r.env, ref, PastOf(r.rows), StandsOf(r)) != [] <==> SomePastNamed(r, ref)
    ensures forall c :: c in MatchChildren(r.env, ref, PastOf(r.rows), StandsOf(r)) <==>
      exists i: nat :: PastNamedAt(r, ref, i) && r.rows[i] == c
  {
    var past := MatchChildren(r.env, ref, PastOf(r.rows), StandsOf(r));
    MatchChildrenMembers(r.env, ref, PastOf(r.rows), StandsOf(r));
    CurrentOfContents(r.rows);
    forall c ensures c in past <==> exists i: nat :: PastNamedAt(r, ref, i) && r.rows[i] == c {
      if c in past {
        var i :| 0 <= i < |r.rows| && r.rows[i] == c;
        NamesMeaning(r, ref, i);
        assert PastNamedAt(r, ref, i);
      }
      if i: nat :| PastNamedAt(r, ref, i) && r.rows[i] == c { NamesMeaning(r, ref, i); }
    }
    if past != [] { assert past[0] in past; }
    if i: nat :| PastNamedAt(r, ref, i) { assert r.rows[i] in past; }
  }

  ghost predicate AllSlugged(r: Rows) { forall i :: 0 <= i < |r.rows| ==> r.rows[i].giiSlug != "" }

  function ResolutionOf(r: Rows, ref: InstrumentRef): VRefResolution { ResolveRef(r.env, ref, r.rows, StandsOf(r)) }

  /** A citation is resolved to the row it means, to none when several could be meant, and counts as
      history only when it is no ordinance, no row in force is named or pointed to and a past one is named. */
  lemma ResolveExact(r: Rows, ref: InstrumentRef)
    requires AllSlugged(r)
    ensures var res := ResolutionOf(r, ref);
      && res.ref == ref && !res.resolved && !res.childConfirmed
      && (forall i: nat :: TargetAt(r, ref, i) ==> res.matchedGIISlug == r.rows[i].giiSlug)
      && (res.matchedGIISlug == "" <==> !SomeTarget(r, ref))
      && (res.historical <==> !IsKindV(ref) && !SomeNamed(r, ref) && !SomeTarget(r, ref) && SomePastNamed(r, ref))
  {
    PickExact(r, ref);
    IndexExact(r, ref);
    PastExact(r, ref);
    forall i: nat | PickedAt(r, ref, i) ensures i < |r.rows| && NamedAt(r, ref, i) {}
    if i: nat :| PickedAt(r, ref, i) { assert TargetAt(r, ref, i); }
    if i: nat :| FirstPointedAt(r, ref, i) { assert !SomeNamed(r, ref) ==> TargetAt(r, ref, i); }
    assert forall i: nat :: TargetAt(r, ref, i) ==> PickedAt(r, ref, i) || (!SomeNamed(r, ref) && FirstPointedAt(r, ref, i));
  }

  /** Of several rows named, with not exactly one in the section of the citation, none is taken. */
  lemma AmbiguousIsUnmatched(r: Rows, ref: InstrumentRef, i: nat, j: nat)
    requires AllSlugged(r) && NamedAt(r, ref, i) && NamedAt(r, ref, j) && i != j
    requires !exists k :: InSectionAt(r, ref, k) && forall l :: InSectionAt(r, ref, l) ==> l == k
    ensures ResolutionOf(r, ref).matchedGIISlug == "" && !ResolutionOf(r, ref).historical
  {
    ResolveExact(r, ref);
    forall k ensures !TargetAt(r, ref, k) { }
  }

  /** The only row named, or the only one of them in the section of the citation, is taken. */
  lemma SoleRowIsMatched(r: Rows, ref: InstrumentRef, i: nat)
    requires AllSlugged(r) && NamedAt(r, ref, i)
    requires (forall j :: NamedAt(r, ref, j) ==> j == i) || (InSectionAt(r, ref, i) && forall j :: InSectionAt(r, ref, j) ==> j == i)
    ensures ResolutionOf(r, ref).matchedGIISlug == r.rows[i].giiSlug
  {
    ResolveExact(r, ref);
    assert PickedAt(r, ref, i) && TargetAt(r, ref, i);
  }

  lemma MethodCases(r: Rows, ref: InstrumentRef)
    requires MatchOf(r, ref).Unique? ==> MatchOf(r, ref).child.giiSlug != ""
    requires IndexedMatch(r.env, ref, CurrentOf(r.rows)).Some? ==> IndexedMatch(r.env, ref, CurrentOf(r.rows)).value.giiSlug != ""
    ensures var res := ResolutionOf(r, ref);
      && res.supersededBy == ""
      && res.matchMethod ==
         if MatchOf(r, ref).Unique? || res.historical then "notes_identity"
         else if MatchOf(r, ref).NoMatch? && IndexedMatch(r.env, ref, CurrentOf(r.rows)).Some? then "bgbl_index"
         else ""
  {
  }

  /** How a match was found is recorded: by what the row says, or through the index. */
  lemma MethodTells(r: Rows, ref: InstrumentRef)
    requires AllSlugged(r)
    ensures var res := ResolutionOf(r, ref);
      && (res.matchMethod == "notes_identity" <==> res.historical || exists i :: PickedAt(r, ref, i))
      && (res.matchMethod == "bgbl_index" <==> !SomeNamed(r, ref) && exists i :: FirstPointedAt(r, ref, i))
      && res.supersededBy == ""
  {
    PickExact(r, ref);
    IndexExact(r, ref);
    ResolveExact(r, ref);
    if i: nat :| FirstPointedAt(r, ref, i) { assert !SomeNamed(r, ref) ==> TargetAt(r, ref, i); }
    if i: nat :| PickedAt(r, ref, i) { assert NamedAt(r, ref, i); }
    MethodCases(r, ref);
    assert "notes_identity"[0] != "bgbl_index"[0];
  }

  // ---------- settled citations ----------

  /** A parent under evaluation: its rows, the citations to account for, its Stand, and the verdicts on
      its children. */
  datatype Parent = Parent(r: Rows, refs: seq<InstrumentRef>, stand: StandCitation, leaf: string -> FreshnessState)

  /** The citation means row i, and that child is confirmed current. */
  ghost predicate ProvenAt(p: Parent, ref: InstrumentRef, i: nat) {
    TargetAt(p.r, ref, i) && p.leaf(p.r.rows[i].giiSlug) == ConfirmedCurrent
  }

  /** Some open citation of the parent proves a child of this slug. */
  ghost predicate ProvenSlug(p: Parent, slug: string) {
    exists ref, i: nat :: ref in p.refs && Open(ref, p.stand, |p.r.rows| > 0) && ProvenAt(p, ref, i) && p.r.rows[i].giiSlug == slug
  }

  /** Not an ordinance, and only history names it. */
  ghost predicate OnlyHistory(p: Parent, ref: InstrumentRef) {
    ref.kind != "V" && !SomeNamed(p.r, ref) && !SomeTarget(p.r, ref) && SomePastNamed(p.r, ref)
  }

  /** Row i stands in the section of the citation, or else in the one section of all past rows it names. */
  ghost predicate InPlaceOf(p: Parent, ref: InstrumentRef, i: nat)
    requires i < |p.r.rows|
  {
    && IsSection(p.r.rows[i].sectionHint)
    && if IsSection(ref.sectionHint) then Section(p.r.rows[i].sectionHint) == Section(ref.sectionHint)
       else forall k: nat :: PastNamedAt(p.r, ref, k) ==> Section(p.r.rows[k].sectionHint) == Section(p.r.rows[i].sectionHint)
  }

  ghost predicate SuccessorAt(p: Parent, ref: InstrumentRef, i: nat) {
    i < |p.r.rows| && InForce(p.r.rows[i]) && InPlaceOf(p, ref, i) && ProvenSlug(p, p.r.rows[i].giiSlug)
  }

  /** An ordinance that names a past row and no row in force one could settle on, with a proven row in
      its place. */
  ghost predicate Succeeded(p: Parent, ref: InstrumentRef) {
    ref.kind == "V" && !SomeTarget(p.r, ref) && SomePastNamed(p.r, ref) && exists i :: SuccessorAt(p, ref, i)
  }

  ghost predicate Settled(p: Parent, ref: InstrumentRef) {
    (exists i :: ProvenAt(p, ref, i)) || OnlyHistory(p, ref) || Succeeded(p, ref)
  }

  function SettingFor(p: Parent): Setting {
    Setting(p.r.env, p.r.rows, StandsOf(p.r), p.refs, p.stand, p.leaf)
  }

  lemma PlainV(ref: InstrumentRef)
    requires IsPlainKind(ref.kind)
    ensures IsKindV(ref) <==> ref.kind == "V"
  {
    PlainKind(ref);
  }

  lemma ToResolveMeaning(ref: InstrumentRef, stand: StandCitation, linked: bool)
    requires IsPlainKind(ref.kind)
    ensures ToResolve(ref, stand, linked) <==> Open(ref, stand, linked)
  {
    PlainKind(ref);
  }

  function AppliedTo(p: Parent, ref: InstrumentRef): VRefResolution { ApplyProof(p.leaf, ResolutionOf(p.r, ref)) }

  lemma AppliedExact(p: Parent, ref: InstrumentRef)
    requires AllSlugged(p.r)
    ensures var res := AppliedTo(p, ref);
      && res.ref == ref && res.historical == ResolutionOf(p.r, ref).historical
      && res.matchedGIISlug == ResolutionOf(p.r, ref).matchedGIISlug
      && (res.resolved && res.childConfirmed <==> exists i :: ProvenAt(p, ref, i))
      && (Confirms(res) ==> exists i: nat :: ProvenAt(p, ref, i) && p.r.rows[i].giiSlug == res.matchedGIISlug)
      && (forall i: nat :: ProvenAt(p, ref, i) ==> Confirms(res) && res.matchedGIISlug == p.r.rows[i].giiSlug)
  {
    ResolveExact(p.r, ref);
    if i: nat :| TargetAt(p.r, ref, i) { assert p.r.rows[i].giiSlug == ResolutionOf(p.r, ref).matchedGIISlug != ""; }
    var res := AppliedTo(p, ref);
    if res.resolved && res.childConfirmed {
      var i: nat :| TargetAt(p.r, ref, i);
      assert ProvenAt(p, ref, i);
    }
  }

  lemma ConfirmedExact(p: Parent, slug: string)
    requires AllSlugged(p.r) && forall ref :: ref in p.refs ==> IsPlainKind(ref.kind)
    ensures slug in ConfirmedSlugs(Applied(SettingFor(p))) <==> ProvenSlug(p, slug)
  {
    var s := SettingFor(p);
    var applied := Applied(s);
    var raw := Resolutions(s.env, s.refs, s.annotated, s.stands, s.parentStand);
    ResolutionsMembers(s.env, s.refs, s.annotated, s.stands, s.parentStand);
    if slug in ConfirmedSlugs(applied) {
      var n :| 0 <= n < |applied| && Confirms(applied[n]) && applied[n].matchedGIISlug == slug;
      assert raw[n] in raw;
      var ref :| ref in p.refs && ToResolve(ref, p.stand, |p.r.rows| > 0) && raw[n] == ResolutionOf(p.r, ref);
      ToResolveMeaning(ref, p.stand, |p.r.rows| > 0);
      AppliedExact(p, ref);
    }
    if ref, i: nat :| ref in p.refs && Open(ref, p.stand, |p.r.rows| > 0) && ProvenAt(p, ref, i) && p.r.rows[i].giiSlug == slug {
      ToResolveMeaning(ref, p.stand, |p.r.rows| > 0);
      AppliedExact(p, ref);
      assert ResolutionOf(p.r, ref) in raw;
      var n :| 0 <= n < |raw| && raw[n] == ResolutionOf(p.r, ref);
      assert applied[n] == AppliedTo(p, ref) && applied[n] in applied;
    }
  }

  /** The section in which a successor is looked for. */
  lemma PlaceExact(p: Parent, ref: InstrumentRef, past: seq<LinkedInstrument>, i: nat)
    requires i < |p.r.rows| && past != []
    requires forall c :: c in past <==> exists k: nat :: PastNamedAt(p.r, ref, k) && p.r.rows[k] == c
    ensures var section := SupersededSection(ref, past);
      section != "*" && Chain.GroupOf(p.r.rows[i]) == section <==> InPlaceOf(p, ref, i)
  {
    var section := SupersededSection(ref, past);
    forall k: nat | PastNamedAt(p.r, ref, k) ensures p.r.rows[k] in past {}
    if !IsSection(ref.sectionHint) {
      assert past[0] in past;
      if InPlaceOf(p, ref, i) {
        forall n | 0 <= n < |past| ensures Chain.GroupOf(past[n]) == Chain.GroupOf(p.r.rows[i]) {
          assert past[n] in past;
          var k: nat :| PastNamedAt(p.r, ref, k) && p.r.rows[k] == past[n];
        }
      }
      if section != "*" && Chain.GroupOf(p.r.rows[i]) == section {
        forall k: nat | PastNamedAt(p.r, ref, k) ensures Section(p.r.rows[k].sectionHint) == Section(p.r.rows[i].sectionHint) {
          var n :| 0 <= n < |past| && past[n] == p.r.rows[k];
          assert Chain.GroupOf(past[n]) == section;
        }
      }
    }
  }

  lemma SuccessorExact(p: Parent, ref: InstrumentRef, past: seq<LinkedInstrument>)
    requires AllSlugged(p.r) && forall r :: r in p.refs ==> IsPlainKind(r.kind)
    requires past == MatchChildren(p.r.env, ref, PastOf(p.r.rows), StandsOf(p.r)) != []
    ensures var section := SupersededSection(ref, past);
      var confirmed := ConfirmedSlugs(Applied(SettingFor(p)));
      section != "*" && ConfirmedSibling(CurrentOf(p.r.rows), section, confirmed).Some? <==> exists i :: SuccessorAt(p, ref, i)
  {
    var section := SupersededSection(ref, past);
    var confirmed := ConfirmedSlugs(Applied(SettingFor(p)));
    PastExact(p.r, ref);
    CurrentOfContents(p.r.rows);
    forall i: nat | i < |p.r.rows|
      ensures SuccessorAt(p, ref, i) <==>
        IsCurrentCandidate(p.r.rows[i]) && section != "*" && Chain.GroupOf(p.r.rows[i]) == section && p.r.rows[i].giiSlug in confirmed
    {
      PlaceExact(p, ref, past, i);
      ConfirmedExact(p, p.r.rows[i].giiSlug);
    }
    if section != "*" && ConfirmedSibling(CurrentOf(p.r.rows), section, confirmed).Some? {
      var c :| c in CurrentOf(p.r.rows) && Chain.GroupOf(c) == section && c.giiSlug in confirmed;
      var i: nat :| i < |p.r.rows| && p.r.rows[i] == c;
      assert SuccessorAt(p, ref, i);
    }
    if i: nat :| SuccessorAt(p, ref, i) { assert p.r.rows[i] in CurrentOf(p.r.rows); }
  }

  /** What supersession adds to the proven entries. */
  lemma SupersededProven(env: Env, annotated: seq<LinkedInstrument>, stands: Stands, confirmed: set<string>, res: VRefResolution)
    ensures var past := MatchChildren(env, res.ref, PastOf(annotated), stands);
      Proven(Superseded(env, annotated, stands, confirmed, res)) <==>
        || Proven(res)
        || (&& res.matchedGIISlug == "" && IsKindV(res.ref) && past != []
            && SupersededSection(res.ref, past) != "*"
            && ConfirmedSibling(CurrentOf(annotated), SupersededSection(res.ref, past), confirmed).Some?)
  {
  }

  /** Resolving, proving and superseding together accept exactly the settled citations. */
  lemma OutcomeExact(p: Parent, ref: InstrumentRef)
    requires AllSlugged(p.r) && IsPlainKind(ref.kind) && forall r :: r in p.refs ==> IsPlainKind(r.kind)
    ensures Proven(Outcome(SettingFor(p), ref)) <==> Settled(p, ref)
  {
    var res, confirmed := AppliedTo(p, ref), ConfirmedSlugs(Applied(SettingFor(p)));
    assert Outcome(SettingFor(p), ref) == Superseded(p.r.env, p.r.rows, StandsOf(p.r), confirmed, res);
    SupersededProven(p.r.env, p.r.rows, StandsOf(p.r), confirmed, res);
    AcceptedBefore(p, ref);
    PastExact(p.r, ref);
    ResolveExact(p.r, ref);
    PlainV(ref);
    var past := MatchChildren(p.r.env, ref, PastOf(p.r.rows), StandsOf(p.r));
    if past != [] { SuccessorExact(p, ref, past); }
  }

  /** What is accepted before supersession. */
  lemma AcceptedBefore(p: Parent, ref: InstrumentRef)
    requires AllSlugged(p.r) && IsPlainKind(ref.kind)
    ensures Proven(AppliedTo(p, ref)) <==> (exists i :: ProvenAt(p, ref, i)) || OnlyHistory(p, ref)
    ensures AppliedTo(p, ref).ref == ref && (AppliedTo(p, ref).matchedGIISlug == "" <==> !SomeTarget(p.r, ref))
  {
    ResolveExact(p.r, ref);
    AppliedExact(p, ref);
    PlainV(ref);
  }

  // ---------- the verdict on a parent ----------

  ghost function ParentOf(env: Env, snap: Snapshot, lawID: string, linked: seq<LinkedInstrument>, asOf: int,
                          leaf: string -> FreshnessState): Parent {
    var stand := StandOf(snap, lawID);
    Parent(Rows(env, snap, Chain.Annotated(linked, asOf)), EvidenceRefs(env, snap, linked, lawID, stand), stand, leaf)
  }

  lemma CanonicalIsPlain(refs: seq<InstrumentRef>)
    requires AllCanonical(refs)
    ensures forall ref :: ref in refs ==> IsPlainKind(ref.kind)
  {
  }

  lemma ParentFacts(env: Env, snap: Snapshot, lawID: string, linked: seq<LinkedInstrument>, asOf: int,
                    leaf: string -> FreshnessState)
    requires CanonicalParser(env.parse) && forall li :: li in linked ==> li.giiSlug != ""
    ensures var p := ParentOf(env, snap, lawID, linked, asOf, leaf);
      && AllSlugged(p.r) && (forall ref :: ref in p.refs ==> IsPlainKind(ref.kind))
      && (forall a, b :: a in p.refs && b in p.refs && RefIdentityEqual(a, b) ==> a == b)
      && SettingFor(p) == SettingOf(env, snap, lawID, linked, asOf, leaf)
  {
    var p := ParentOf(env, snap, lawID, linked, asOf, leaf);
    EvidenceRefsDistinct(env, snap, linked, lawID, p.stand);
    CanonicalIsPlain(p.refs);
    forall i | 0 <= i < |p.r.rows| ensures p.r.rows[i].giiSlug != "" { assert linked[i] in linked; }
  }

  lemma FoundDecides(inp: Input, ref: InstrumentRef, found: VRefResolution)
    requires inp.vrefResolutions.Some? && FindVRefResolution(inp.vrefResolutions.value, ref) == Some(found)
    ensures Unmatched(inp, ref) || ChildNotConfirmed(inp, ref) <==> Considered(inp, ref) && !Proven(found)
  {
  }

  lemma NotOpenDoesNotBlock(inp: Input, ref: InstrumentRef)
    requires IsPlainKind(ref.kind) && !Open(ref, inp.stand, inp.hasSeeded)
    ensures !Unmatched(inp, ref) && !ChildNotConfirmed(inp, ref)
  {
    ConsideredMeaning(inp, ref);
  }

  /** An open citation finds its own outcome. */
  lemma OpenFinds(p: Parent, ref: InstrumentRef)
    requires AllSlugged(p.r) && forall r :: r in p.refs ==> IsPlainKind(r.kind)
    requires forall a, b :: a in p.refs && b in p.refs && RefIdentityEqual(a, b) ==> a == b
    requires ref in p.refs && Open(ref, p.stand, |p.r.rows| > 0)
    ensures FindVRefResolution(ProofOf(SettingFor(p)), ref) == Some(Outcome(SettingFor(p), ref))
    ensures Proven(Outcome(SettingFor(p), ref)) <==> Settled(p, ref)
  {
    ToResolveMeaning(ref, p.stand, |p.r.rows| > 0);
    OwnResolution(SettingFor(p), ref);
    OutcomeExact(p, ref);
  }

  /** A citation blocks the parent exactly when it is open and not settled. */
  lemma BlocksIff(inp: Input, p: Parent, ref: InstrumentRef)
    requires AllSlugged(p.r) && forall r :: r in p.refs ==> IsPlainKind(r.kind)
    requires forall a, b :: a in p.refs && b in p.refs && RefIdentityEqual(a, b) ==> a == b
    requires inp.stand == p.stand && inp.hasSeeded == (|p.r.rows| > 0) && ref in p.refs
    requires inp.vrefResolutions == Some(ProofOf(SettingFor(p)))
    ensures Unmatched(inp, ref) || ChildNotConfirmed(inp, ref) <==> Open(ref, p.stand, |p.r.rows| > 0) && !Settled(p, ref)
  {
    if Open(ref, p.stand, |p.r.rows| > 0) {
      OpenFinds(p, ref);
      ConsideredMeaning(inp, ref);
      FoundDecides(inp, ref, Outcome(SettingFor(p), ref));
    } else {
      NotOpenDoesNotBlock(inp, ref);
    }
  }

  /** For every store, catalog rows and verdicts on the children: a parent is confirmed current if and
      only if all edges and links were read, sync is fresh and complete, its Stand is parsed, no issue
      looked at is newer, and every open citation is settled. */
  lemma ParentCurrentIff(env: Env, snap: Snapshot, ctx: Context, lawID: string, linked: seq<LinkedInstrument>, asOf: int,
                         discoveryFailed: bool, leaf: string -> FreshnessState)
    requires CanonicalParser(env.parse) && ctx.maxAge <= MAX_DURATION
    requires forall li :: li in linked ==> li.giiSlug != ""
    ensures var inp := ParentInput(env, snap, ctx, lawID, linked, asOf, discoveryFailed, leaf);
      var p := ParentOf(env, snap, lawID, linked, asOf, leaf);
      Freshness.Verdict(inp, NowOf(ctx)).state == ConfirmedCurrent <==>
        && !discoveryFailed && AllRead(inp, NowOf(ctx)) && p.stand.parseOK
        && (forall iss :: LookedAt(inp, iss) ==> !Newer(iss, p.stand))
        && (forall ref :: ref in p.refs && Open(ref, p.stand, |linked| > 0) ==> Settled(p, ref))
  {
    var inp := ParentInput(env, snap, ctx, lawID, linked, asOf, discoveryFailed, leaf);
    var p := ParentOf(env, snap, lawID, linked, asOf, leaf);
    VerdictExact(inp, NowOf(ctx));
    UsableMeaning(inp, NowOf(ctx));
    forall iss { CountedMeaning(inp, iss); }
    if !discoveryFailed {
      ParentFacts(env, snap, lawID, linked, asOf, leaf);
      assert inp.vrefResolutions == Some(ProofOf(SettingFor(p)));
      forall ref | ref in p.refs
        ensures Unmatched(inp, ref) || ChildNotConfirmed(inp, ref) <==> Open(ref, p.stand, |linked| > 0) && !Settled(p, ref)
      {
        BlocksIff(inp, p, ref);
      }
    }
  }

  /** Several rows in force are named, and not exactly one of them stands in the section of the citation. */
  ghost predicate Undecided(r: Rows, ref: InstrumentRef) {
    && (exists i, j :: i != j && NamedAt(r, ref, i) && NamedAt(r, ref, j))
    && !(exists k :: InSectionAt(r, ref, k) && forall l :: InSectionAt(r, ref, l) ==> l == k)
  }

  lemma UndecidedIsUnsettled(p: Parent, ref: InstrumentRef)
    requires Undecided(p.r, ref) && (ref.kind != "V" || !Succeeded(p, ref))
    ensures !Settled(p, ref)
  {
    var i, j :| i != j && NamedAt(p.r, ref, i) && NamedAt(p.r, ref, j);
    forall k ensures !TargetAt(p.r, ref, k) {
      assert !(NamedAt(p.r, ref, k) && forall l :: NamedAt(p.r, ref, l) ==> l == k);
    }
  }

  /** Ambiguity fails closed: an open citation that could mean several rows keeps the parent from being
      current, whatever the children are worth, unless it is an ordinance that has been succeeded. */
  lemma UndecidedBlocks(env: Env, snap: Snapshot, ctx: Context, lawID: string, linked: seq<LinkedInstrument>, asOf: int,
                        discoveryFailed: bool, leaf: string -> FreshnessState, ref: InstrumentRef)
    requires CanonicalParser(env.parse) && ctx.maxAge <= MAX_DURATION
    requires forall li :: li in linked ==> li.giiSlug != ""
    requires ref in EvidenceRefs(env, snap, linked, lawID, StandOf(snap, lawID))
    requires Open(ref, StandOf(snap, lawID), |linked| > 0)
    requires Undecided(ParentOf(env, snap, lawID, linked, asOf, leaf).r, ref)
    requires ref.kind != "V" || !Succeeded(ParentOf(env, snap, lawID, linked, asOf, leaf), ref)
    ensures Freshness.Verdict(ParentInput(env, snap, ctx, lawID, linked, asOf, discoveryFailed, leaf), NowOf(ctx)).state
            != ConfirmedCurrent
  {
    var p := ParentOf(env, snap, lawID, linked, asOf, leaf);
    ParentCurrentIff(env, snap, ctx, lawID, linked, asOf, discoveryFailed, leaf);
    UndecidedIsUnsettled(p, ref);
  }

  /** A child is confirmed current exactly on a law id of its own, fresh and complete sync, a parsed
      Stand, no newer issue, and nothing left open by its Stand. */
  lemma LeafCurrentIff(env: Env, snap: Snapshot, ctx: Context, slug: string)
    requires CanonicalParser(env.parse) && ctx.maxAge <= MAX_DURATION
    ensures LeafState(env, snap, ctx, slug) == ConfirmedCurrent <==>
      && env.key(slug) != ""
      && var inp := InputFor(env, snap, ctx, env.key(slug), [], false, None);
         && AllRead(inp, NowOf(ctx)) && inp.stand.parseOK
         && (forall iss :: LookedAt(inp, iss) ==> !Newer(iss, inp.stand))
         && (forall ref :: ref in inp.instrumentRefs ==> !Open(ref, inp.stand, false))
  {
    var id := env.key(slug);
    EvidenceRefsDistinct(env, snap, [], id, StandOf(snap, id));
    CanonicalIsPlain(EvidenceRefs(env, snap, [], id, StandOf(snap, id)));
    AloneCurrentIff(InputFor(env, snap, ctx, id, [], false, None), NowOf(ctx));
  }

  /** An entry that may be superseded, by the sibling found. */
  lemma SupersededBy(env: Env, annotated: seq<LinkedInstrument>, stands: Stands, confirmed: set<string>, res: VRefResolution,
                     child: LinkedInstrument)
    requires MaySupersede(res) && MatchChildren(env, res.ref, PastOf(annotated), stands) != []
    requires var section := SupersededSection(res.ref, MatchChildren(env, res.ref, PastOf(annotated), stands));
      section != "*" && ConfirmedSibling(CurrentOf(annotated), section, confirmed) == Some(child)
    ensures var out := Superseded(env, annotated, stands, confirmed, res);
      out.supersededBy == child.giiSlug && out.matchMethod == "superseded_past_v"
  {
  }

  lemma FirstSuccessor(p: Parent, ref: InstrumentRef, past: seq<LinkedInstrument>, i: nat)
    requires AllSlugged(p.r) && forall r :: r in p.refs ==> IsPlainKind(r.kind)
    requires past == MatchChildren(p.r.env, ref, PastOf(p.r.rows), StandsOf(p.r)) != []
    requires SuccessorAt(p, ref, i) && forall j :: 0 <= j < i ==> !SuccessorAt(p, ref, j)
    ensures var section := SupersededSection(ref, past);
      section != "*" && ConfirmedSibling(CurrentOf(p.r.rows), section, ConfirmedSlugs(Applied(SettingFor(p)))) == Some(p.r.rows[i])
  {
    var confirmed := ConfirmedSlugs(Applied(SettingFor(p)));
    var section := SupersededSection(ref, past);
    PastExact(p.r, ref);
    PlaceExact(p, ref, past, i);
    forall j: nat | j < |p.r.rows|
      ensures SuccessorAt(p, ref, j) <==> SiblingInForce(section, confirmed)(p.r.rows[j])
    {
      PlaceExact(p, ref, past, j);
      ConfirmedExact(p, p.r.rows[j].giiSlug);
    }
    SiblingIsFirst(p.r.rows, section, confirmed, i);
  }

  lemma OpenToSuccession(p: Parent, ref: InstrumentRef)
    requires AllSlugged(p.r) && IsPlainKind(ref.kind) && Succeeded(p, ref)
    ensures MaySupersede(AppliedTo(p, ref)) && AppliedTo(p, ref).ref == ref
  {
    AcceptedBefore(p, ref);
    PlainV(ref);
    if i: nat :| ProvenAt(p, ref, i) { assert TargetAt(p.r, ref, i); }
  }

  /** The row named as successor of an ordinance is the first that may succeed it. */
  lemma SuccessorNamed(p: Parent, ref: InstrumentRef, i: nat)
    requires AllSlugged(p.r) && IsPlainKind(ref.kind) && forall r :: r in p.refs ==> IsPlainKind(r.kind)
    requires Succeeded(p, ref) && SuccessorAt(p, ref, i) && forall j :: 0 <= j < i ==> !SuccessorAt(p, ref, j)
    ensures Outcome(SettingFor(p), ref).supersededBy == p.r.rows[i].giiSlug
    ensures Outcome(SettingFor(p), ref).matchMethod == "superseded_past_v"
  {
    PastExact(p.r, ref);
    OpenToSuccession(p, ref);
    FirstSuccessor(p, ref, MatchChildren(p.r.env, ref, PastOf(p.r.rows), StandsOf(p.r)), i);
    SupersededBy(p.r.env, p.r.rows, StandsOf(p.r), ConfirmedSlugs(Applied(SettingFor(p))), AppliedTo(p, ref), p.r.rows[i]);
  }

  ghost function SiblingInForce(section: string, confirmed: set<string>): LinkedInstrument -> bool {
    (x: LinkedInstrument) => IsCurrentCandidate(x) && Chain.GroupOf(x) == section && x.giiSlug in confirmed
  }

  ghost function Sibling(section: string, confirmed: set<string>): LinkedInstrument -> bool {
    (x: LinkedInstrument) => Chain.GroupOf(x) == section && x.giiSlug in confirmed
  }

  lemma {:induction false} SiblingKeeps(children: seq<LinkedInstrument>, section: string, confirmed: set<string>)
    ensures var kept := Chain.Keep(children, Sibling(section, confirmed));
      ConfirmedSibling(children, section, confirmed) == if kept == [] then None else Some(kept[0])
  {
    if children != [] {
      SiblingKeeps(children[1..], section, confirmed);
      KeepCons(children[0], children[1..], Sibling(section, confirmed));
      assert children == [children[0]] + children[1..];
    }
  }

  lemma SiblingIsFirst(rows: seq<LinkedInstrument>, section: string, confirmed: set<string>, i: nat)
    requires FirstAt(rows, SiblingInForce(section, confirmed), i)
    ensures ConfirmedSibling(CurrentOf(rows), section, confirmed) == Some(rows[i])
  {
    SiblingKeeps(CurrentOf(rows), section, confirmed);
    KeepKeep(rows, li => IsCurrentCandidate(li), Sibling(section, confirmed), SiblingInForce(section, confirmed));
    KeepHead(rows, SiblingInForce(section, confirmed));
  }
}
