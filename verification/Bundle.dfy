/** The freshness of an export bundle from that of its members (internal/service/bundle.go:
    aggregateBundleFreshness). */
module Bundle {
  import opened Domain

  datatype Role = Parent | Operative

  /** A member's evaluation, None when it could not be evaluated. */
  datatype Member = Member(lawID: string, sectionHint: string, freshness: Option<FreshnessState>)

  datatype MemberFreshness = MemberFreshness(role: Role, lawID: string, state: FreshnessState, sectionHint: string)

  datatype Rationale = NoRationale | MemberConfirmedStale | ParentUncertain | MemberUncertain

  datatype Meta = Meta(members: seq<MemberFreshness>, state: FreshnessState, safeToServe: bool, rationale: Rationale)

  function StateOf(m: Member): FreshnessState { if m.freshness.Some? then m.freshness.value else Uncertain }

  function Entry(role: Role, m: Member): MemberFreshness {
    MemberFreshness(role, m.lawID, StateOf(m), if role.Parent? then "" else m.sectionHint)
  }

  /** The parent first, then the operative members in order. */
  function Entries(parent: Option<Member>, ops: seq<Member>): seq<MemberFreshness> {
    (if parent.Some? then [Entry(Parent, parent.value)] else []) +
    seq(|ops|, i requires 0 <= i < |ops| => Entry(Operative, ops[i]))
  }

  ghost predicate AnyIs(members: seq<MemberFreshness>, state: FreshnessState) {
    exists i :: 0 <= i < |members| && members[i].state == state
  }

  ghost predicate ParentIs(members: seq<MemberFreshness>, state: FreshnessState) {
    exists i :: 0 <= i < |members| && members[i].role.Parent? && members[i].state == state
  }

  /** Stale outweighs uncertain, uncertain outweighs current. */
  ghost predicate WorstOf(members: seq<MemberFreshness>, state: FreshnessState) {
    match state
    case ConfirmedStale => AnyIs(members, ConfirmedStale)
    case Uncertain => !AnyIs(members, ConfirmedStale) && AnyIs(members, Uncertain)
    case ConfirmedCurrent => !AnyIs(members, ConfirmedStale) && !AnyIs(members, Uncertain)
  }

  /** The variables the add closure updates. */
  datatype Tally = Tally(members: seq<MemberFreshness>, worst: FreshnessState, parentUncertain: bool, anyStale: bool, anyUncertain: bool)

  ghost predicate Counts(t: Tally) {
    && WorstOf(t.members, t.worst)
    && (t.anyStale <==> AnyIs(t.members, ConfirmedStale))
    && (t.anyUncertain <==> AnyIs(t.members, Uncertain))
    && (t.parentUncertain <==> ParentIs(t.members, Uncertain))
  }

  method Add(t: Tally, e: MemberFreshness) returns (out: Tally)
    requires Counts(t)
    ensures Counts(out) && out.members == t.members + [e]
  {
    out := t.(members := t.members + [e]);
    match e.state {
      case ConfirmedStale =>
        out := out.(anyStale := true, worst := ConfirmedStale);
      case Uncertain =>
        out := out.(anyUncertain := true);
        if e.role.Parent? { out := out.(parentUncertain := true); }
        if out.worst != ConfirmedStale { out := out.(worst := Uncertain); }
      case ConfirmedCurrent =>
    }
    forall s ensures AnyIs(out.members, s) <==> AnyIs(t.members, s) || e.state == s { SomeSnoc(t.members, e, s); }
    assert forall i :: 0 <= i < |t.members| ==> out.members[i] == t.members[i];
    assert out.members[|t.members|] == e;
  }

  lemma SomeSnoc(members: seq<MemberFreshness>, e: MemberFreshness, s: FreshnessState)
    ensures AnyIs(members + [e], s) <==> AnyIs(members, s) || e.state == s
  {
    if i :| 0 <= i < |members| && members[i].state == s { assert (members + [e])[i].state == s; }
    assert (members + [e])[|members|] == e;
  }

  method TallyAll(parent: Option<Member>, ops: seq<Member>) returns (t: Tally)
    ensures Counts(t) && t.members == Entries(parent, ops)
  {
    t := Tally([], ConfirmedCurrent, false, false, false);
    if parent.Some? { t := Add(t, Entry(Parent, parent.value)); }
    for i := 0 to |ops|
      invariant Counts(t) && t.members == Entries(parent, ops[..i])
    {
      assert ops[..i + 1] == ops[..i] + [ops[i]];
      assert Entries(parent, ops[..i + 1]) == Entries(parent, ops[..i]) + [Entry(Operative, ops[i])];
      t := Add(t, Entry(Operative, ops[i]));
    }
    assert ops[..|ops|] == ops;
  }

  predicate AllConfirmed(parent: Option<Member>, ops: seq<Member>) {
    && (parent.Some? ==> parent.value.freshness == Some(ConfirmedCurrent))
    && (forall i :: 0 <= i < |ops| ==> ops[i].freshness == Some(ConfirmedCurrent))
  }

  lemma CurrentIffAllConfirmed(parent: Option<Member>, ops: seq<Member>)
    ensures WorstOf(Entries(parent, ops), ConfirmedCurrent) <==> AllConfirmed(parent, ops)
  {
    EntriesMeaning(parent, ops, ConfirmedStale);
    EntriesMeaning(parent, ops, Uncertain);
    assert forall i :: 0 <= i < |ops| ==> (StateOf(ops[i]) == ConfirmedCurrent <==> ops[i].freshness == Some(ConfirmedCurrent));
  }

  /** A bundle may be served exactly when no member present is stale, uncertain or unevaluated; a bundle
      without members may. */
  method AggregateBundleFreshness(parent: Option<Member>, ops: seq<Member>) returns (meta: Meta)
    ensures meta.members == Entries(parent, ops)
    ensures WorstOf(meta.members, meta.state)
    ensures meta.safeToServe <==> AllConfirmed(parent, ops)
    ensures meta.rationale ==
            if meta.state == ConfirmedStale then MemberConfirmedStale
            else if parent.Some? && StateOf(parent.value) == Uncertain then ParentUncertain
            else if meta.state == Uncertain then MemberUncertain
            else NoRationale
  {
    var t := TallyAll(parent, ops);
    ParentEntry(parent, ops);
    CurrentIffAllConfirmed(parent, ops);
    var rationale := if t.anyStale then MemberConfirmedStale
                     else if t.parentUncertain then ParentUncertain
                     else if t.anyUncertain then MemberUncertain
                     else NoRationale;
    meta := Meta(t.members, t.worst, t.worst == ConfirmedCurrent, rationale);
  }

  lemma EntriesMeaning(parent: Option<Member>, ops: seq<Member>, s: FreshnessState)
    ensures AnyIs(Entries(parent, ops), s) <==>
            (parent.Some? && StateOf(parent.value) == s) || exists i :: 0 <= i < |ops| && StateOf(ops[i]) == s
  {
    var all, n := Entries(parent, ops), if parent.Some? then 1 else 0;
    if i :| 0 <= i < |ops| && StateOf(ops[i]) == s { assert all[n + i] == Entry(Operative, ops[i]); }
    if parent.Some? && StateOf(parent.value) == s { assert all[0] == Entry(Parent, parent.value); }
    if j :| 0 <= j < |all| && all[j].state == s { assert j >= n ==> all[j] == Entry(Operative, ops[j - n]); }
  }

  lemma ParentEntry(parent: Option<Member>, ops: seq<Member>)
    ensures ParentIs(Entries(parent, ops), Uncertain) <==> parent.Some? && StateOf(parent.value) == Uncertain
  {
    var all, n := Entries(parent, ops), if parent.Some? then 1 else 0;
    assert forall j :: n <= j < |all| ==> all[j] == Entry(Operative, ops[j - n]);
    assert parent.Some? ==> all[0] == Entry(Parent, parent.value);
  }
}
