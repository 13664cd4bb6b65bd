/** Placing ordinance callouts inside a parent law's text (internal/export/compose_operative.go). */
module Compose {
  import opened Layout
  import Text
  import Words

  /** A linked ordinance to embed; block is its finished callout text. */
  datatype Member = Member(hint: string, block: string)

  // ---------- headers and hints ----------

  function NormalizeSectionToken(s: string): string { Text.Join(Words.Fields(Text.TrimSpace(s), ""), ' ') }

  function TrimPrefix(s: string, p: string): string { if p <= s then s[|p|..] else s }

  predicate IsHeader(line: string) { Text.HasPrefix(Text.TrimSpace(line), "## ") }

  predicate SectionHintMatchesHeader(header: string, hint: string) {
    var h := NormalizeSectionToken(hint);
    var l := NormalizeSectionToken(TrimPrefix(Text.TrimSpace(header), "##"));
    h != "" && (l == h || Text.HasPrefix(l, h + " "))
  }

  /** How the loops below read a text: which lines are section headers, and which hints a header covers. */
  datatype Reading = Reading(isHeader: string -> bool, covers: (string, string) -> bool)

  function Markdown(): Reading { Reading(IsHeader, SectionHintMatchesHeader) }

  // ---------- specification ----------

  /** What the placement depends on: which lines are headers, and which headers each member matches. */
  datatype Outline = Outline(headers: seq<bool>, matches: seq<seq<bool>>)

  predicate Proper(o: Outline) { forall k :: 0 <= k < |o.matches| ==> |o.matches[k]| == |o.headers| }

  function OutlineOf(rd: Reading, lines: seq<string>, members: seq<Member>): (o: Outline)
    ensures Proper(o) && |o.headers| == |lines| && |o.matches| == |members|
  {
    Outline(seq(|lines|, i requires 0 <= i < |lines| => rd.isHeader(lines[i])),
            seq(|members|, k requires 0 <= k < |members| => MatchesOf(rd, lines, members[k].hint)))
  }

  /** Which lines are headers the hint names. */
  function MatchesOf(rd: Reading, lines: seq<string>, hint: string): (r: seq<bool>)
    ensures |r| == |lines|
  {
    seq(|lines|, i requires 0 <= i < |lines| => rd.isHeader(lines[i]) && rd.covers(lines[i], hint))
  }

  /** The first true position; the length when there is none. */
  function First(b: seq<bool>): (i: nat)
    ensures i <= |b| && (i < |b| ==> b[i]) && forall k :: 0 <= k < i ==> !b[k]
  {
    if b == [] || b[0] then 0 else 1 + First(b[1..])
  }

  /** The end of the section body that starts after line i: the next header, or the end of the text. */
  function BodyEnd(headers: seq<bool>, i: nat): (e: nat)
    requires i < |headers|
    ensures i < e <= |headers| && (e < |headers| ==> headers[e]) && forall k :: i < k < e ==> !headers[k]
  {
    i + 1 + First(headers[i + 1..])
  }

  /** The slot of a member: after the body of the first section it matches, else at the end. */
  function SlotOf(headers: seq<bool>, matches: seq<bool>): Slot
    requires |matches| == |headers|
  {
    if First(matches) < |headers| then AfterBody(BodyEnd(headers, First(matches))) else AtEnd
  }

  function Slots(o: Outline): (r: seq<Slot>)
    requires Proper(o)
    ensures |r| == |o.matches|
  {
    seq(|o.matches|, k requires 0 <= k < |o.matches| => SlotOf(o.headers, o.matches[k]))
  }

  function BlockText(block: string): string { "\n" + block + "\n\n" }

  function PieceText(lines: seq<string>, members: seq<Member>, p: Piece): string {
    match p
    case ParentLine(l) => if l < |lines| then lines[l] + "\n" else ""
    case Callout(k) => if k < |members| then BlockText(members[k].block) else ""
  }

  function Render(lines: seq<string>, members: seq<Member>, pieces: seq<Piece>): string {
    if pieces == [] then ""
    else
      var n := |pieces| - 1;
      Render(lines, members, pieces[..n]) + PieceText(lines, members, pieces[n])
  }

  /** strings.TrimRight of newlines. */
  function TrimNewlines(s: string): string {
    if s != [] && s[|s| - 1] == '\n' then TrimNewlines(s[..|s| - 1]) else s
  }

  /** The composed text: the arrangement rendered, with one final newline. */
  function Composed(rd: Reading, lines: seq<string>, members: seq<Member>): string {
    TrimNewlines(Render(lines, members, Arranged(Slots(OutlineOf(rd, lines, members)), |lines|))) + "\n"
  }

  // ---------- the composition conserves content ----------

  /** Every parent line once in order; every callout exactly once; a callout right after the body of
      the first section its hint matches, else after all lines; member order within a place. */
  lemma CompositionConserves(rd: Reading, lines: seq<string>, members: seq<Member>)
    ensures var slots := Slots(OutlineOf(rd, lines, members));
      var pieces := Arranged(slots, |lines|);
      && ParentLines(pieces) == UpTo(|lines|)
      && (forall k :: 0 <= k < |members| ==> Occurrences(pieces, k) == 1)
      && (forall i :: 0 <= i < |pieces| && pieces[i].Callout? ==> MayFollow(slots, |lines|, pieces[..i], pieces[i].member))
  {
    var slots := Slots(OutlineOf(rd, lines, members));
    assert SlotsWithin(slots, |lines|);
    KeepsLines(slots, |lines|);
    forall k | 0 <= k < |members| ensures Occurrences(Arranged(slots, |lines|), k) == 1 {
      KeepsMembers(slots, |lines|, k);
    }
    PlacesCallouts(slots, |lines|);
    var pieces := Arranged(slots, |lines|);
    forall i | 0 <= i < |pieces| && pieces[i].Callout? ensures MayFollow(slots, |lines|, pieces[..i], pieces[i].member) {
      WellPlacedAt(slots, |lines|, pieces, i);
    }
  }

  // ---------- PlacementForHint ----------

  datatype Placement = AfterParentSection | DocumentEnd

  ghost predicate IgnoresBlankHints(rd: Reading) {
    forall header, hint :: Text.TrimSpace(hint) == "" ==> !rd.covers(header, hint)
  }

  lemma MarkdownIgnoresBlankHints()
    ensures IgnoresBlankHints(Markdown())
  {
  }

  /** PlacementForHint: in a section exactly when some header matches the hint. */
  method PlacementForHint(rd: Reading, parent: string, hint: string) returns (p: Placement)
    requires IgnoresBlankHints(rd)
    ensures var lines := Text.Split(parent, '\n');
      p.AfterParentSection? <==> First(MatchesOf(rd, lines, hint)) < |lines|
  {
    var lines := Text.Split(parent, '\n');
    ghost var b := MatchesOf(rd, lines, hint);
    if Text.TrimSpace(hint) == "" {
      assert forall i :: 0 <= i < |b| ==> !b[i];
      return DocumentEnd;
    }
    for i := 0 to |lines|
      invariant forall k :: 0 <= k < i ==> !b[k]
    {
      if rd.isHeader(lines[i]) && rd.covers(lines[i], hint) {
        assert b[i];
        return AfterParentSection;
      }
    }
    p := DocumentEnd;
  }

  // ---------- the composing loop ----------

  datatype Item = Item(member: nat, hint: string, block: string)

  /** Members waiting for the section that starts at line i or later. */
  predicate Waiting(o: Outline, i: nat, k: nat) {
    k < |o.matches| && i <= First(o.matches[k]) < |o.headers|
  }

  function Pending(o: Outline, i: nat): seq<nat> { Select(|o.matches|, (k: nat) => Waiting(o, i, k)) }

  function ItemFor(members: seq<Member>, k: nat): Item {
    if k < |members| then Item(k, members[k].hint, members[k].block) else Item(k, "", "")
  }

  function Filter(ks: seq<nat>, p: nat -> bool): seq<nat> {
    if ks == [] then []
    else
      var n := |ks| - 1;
      Filter(ks[..n], p) + if p(ks[n]) then [ks[n]] else []
  }

  lemma {:induction false} FilterSelect(n: nat, p: nat -> bool, q: nat -> bool, r: nat -> bool)
    requires forall k :: 0 <= k < n ==> r(k) == (p(k) && q(k))
    ensures Filter(Select(n, p), q) == Select(n, r)
  {
    if n > 0 {
      FilterSelect(n - 1, p, q, r);
      var front := Select(n - 1, p);
      assert Filter(front + [n - 1], q) == Filter(front, q) + if q(n - 1) then [n - 1] else [] by {
        assert (front + [n - 1])[..|front|] == front;
      }
      assert front + [] == front;
    }
  }

  lemma RenderSnoc(lines: seq<string>, members: seq<Member>, pieces: seq<Piece>, p: Piece)
    ensures Render(lines, members, pieces + [p]) == Render(lines, members, pieces) + PieceText(lines, members, p)
  {
    assert (pieces + [p])[..|pieces|] == pieces;
  }

  function BlocksText(members: seq<Member>, ks: seq<nat>): string {
    if ks == [] then ""
    else
      var n := |ks| - 1;
      BlocksText(members, ks[..n]) + if ks[n] < |members| then BlockText(members[ks[n]].block) else ""
  }

  lemma {:induction false} RenderCallouts(lines: seq<string>, members: seq<Member>, pieces: seq<Piece>, ks: seq<nat>)
    ensures Render(lines, members, pieces + Callouts(ks)) == Render(lines, members, pieces) + BlocksText(members, ks)
  {
    CalloutsSnoc(pieces, ks);
    if ks != [] {
      var n := |ks| - 1;
      RenderCallouts(lines, members, pieces, ks[..n]);
      RenderSnoc(lines, members, pieces + Callouts(ks[..n]), Callout(ks[n]));
    }
  }

  /** Does member k's hint satisfy the test? */
  predicate HintHas(members: seq<Member>, test: string -> bool, k: nat) { k < |members| && test(members[k].hint) }

  function Hits(members: seq<Member>, test: string -> bool, ks: seq<nat>): seq<nat> {
    Filter(ks, (k: nat) => HintHas(members, test, k))
  }

  function Misses(members: seq<Member>, test: string -> bool, ks: seq<nat>): seq<nat> {
    Filter(ks, (k: nat) => !HintHas(members, test, k))
  }

  /** hitsTo and missesTo list, for every r, the hits and misses among the first r of ks. */
  ghost predicate Splits(members: seq<Member>, test: string -> bool, ks: seq<nat>, hitsTo: nat -> seq<nat>, missesTo: nat -> seq<nat>) {
    && hitsTo(0) == [] && missesTo(0) == []
    && forall r :: 0 <= r < |ks| ==>
         && ks[r] < |members|
         && hitsTo(r + 1) == (if test(members[ks[r]].hint) then hitsTo(r) + [ks[r]] else hitsTo(r))
         && missesTo(r + 1) == (if test(members[ks[r]].hint) then missesTo(r) else missesTo(r) + [ks[r]])
  }

  /** The draining loop: items whose hint passes the test leave, the others are moved down in place. */
  method Drain(items: array<Item>, n: nat, test: string -> bool, ghost members: seq<Member>, ghost ks: seq<nat>,
               ghost hitsTo: nat -> seq<nat>, ghost missesTo: nat -> seq<nat>)
    returns (hits: seq<nat>, m: nat)
    requires Holds(items, n, members, ks) && Splits(members, test, ks, hitsTo, missesTo)
    modifies items
    ensures m <= n && Holds(items, m, members, missesTo(n)) && hits == hitsTo(n)
  {
    hits, m := [], 0;
    for r := 0 to n
      invariant 0 <= m <= r
      invariant forall i :: r <= i < n ==> items[i] == ItemFor(members, ks[i])
      invariant Holds(items, m, members, missesTo(r))
      invariant hits == hitsTo(r)
    {
      var it := items[r];
      assert it == ItemFor(members, ks[r]);
      if test(it.hint) {
        hits := hits + [it.member];
      } else {
        PutAt(items, m, it, members, missesTo(r), ks[r]);
        m := m + 1;
      }
    }
  }

  /** items[m] := it. */
  method PutAt(items: array<Item>, m: nat, it: Item, ghost members: seq<Member>, ghost kept: seq<nat>, ghost k: nat)
    requires Holds(items, m, members, kept) && m < items.Length && it == ItemFor(members, k)
    modifies items
    ensures Holds(items, m + 1, members, kept + [k])
    ensures forall i :: m < i < items.Length ==> items[i] == old(items[i])
  {
    items[m] := it;
  }

  /** The first m array cells are the items of ks. */
  ghost predicate Holds(items: array<Item>, m: nat, members: seq<Member>, ks: seq<nat>)
    reads items
  {
    m <= items.Length && |ks| == m && forall i :: 0 <= i < m ==> items[i] == ItemFor(members, ks[i])
  }

  lemma FilterSnoc(ks: seq<nat>, r: nat, p: nat -> bool)
    requires r < |ks|
    ensures Filter(ks[..r + 1], p) == if p(ks[r]) then Filter(ks[..r], p) + [ks[r]] else Filter(ks[..r], p)
  {
    assert ks[..r + 1][..r] == ks[..r];
  }

  lemma FilterSplits(members: seq<Member>, test: string -> bool, ks: seq<nat>)
    requires forall r :: 0 <= r < |ks| ==> ks[r] < |members|
    ensures Splits(members, test, ks, HitsTo(members, test, ks), MissesTo(members, test, ks))
  {
    var hitsTo, missesTo := HitsTo(members, test, ks), MissesTo(members, test, ks);
    forall r | 0 <= r < |ks|
      ensures hitsTo(r + 1) == (if test(members[ks[r]].hint) then hitsTo(r) + [ks[r]] else hitsTo(r))
      ensures missesTo(r + 1) == (if test(members[ks[r]].hint) then missesTo(r) else missesTo(r) + [ks[r]])
    {
      FilterSnoc(ks, r, (k: nat) => HintHas(members, test, k));
      FilterSnoc(ks, r, (k: nat) => !HintHas(members, test, k));
    }
  }

  ghost function HitsTo(members: seq<Member>, test: string -> bool, ks: seq<nat>): nat -> seq<nat> {
    (r: nat) => if r <= |ks| then Hits(members, test, ks[..r]) else []
  }

  ghost function MissesTo(members: seq<Member>, test: string -> bool, ks: seq<nat>): nat -> seq<nat> {
    (r: nat) => if r <= |ks| then Misses(members, test, ks[..r]) else []
  }

  lemma BlocksTextSnoc(members: seq<Member>, ks: seq<nat>, k: nat)
    requires k < |members|
    ensures BlocksText(members, ks + [k]) == BlocksText(members, ks) + BlockText(members[k].block)
  {
    assert (ks + [k])[..|ks|] == ks;
  }

  // ---------- where headers fall ----------

  lemma SlotMeaning(o: Outline, k: nat)
    requires Proper(o) && k < |o.matches|
    ensures var f := First(o.matches[k]);
      Slots(o)[k] == if f < |o.headers| then AfterBody(BodyEnd(o.headers, f)) else AtEnd
  {
  }

  /** Matches are headers. */
  ghost predicate Sound(o: Outline) {
    Proper(o) && forall k, i :: 0 <= k < |o.matches| && 0 <= i < |o.headers| && o.matches[k][i] ==> o.headers[i]
  }

  lemma OutlineSound(rd: Reading, lines: seq<string>, members: seq<Member>)
    ensures Sound(OutlineOf(rd, lines, members))
  {
  }

  /** No section body ends inside another, nor before the first header. */
  lemma NothingEndsAt(o: Outline, e: nat)
    requires Sound(o) && 0 < e < |o.headers| + 1
    requires (e < |o.headers| && !o.headers[e]) || forall k :: 0 <= k < e ==> !o.headers[k]
    ensures Having(Slots(o), AfterBody(e)) == []
  {
    forall k | 0 <= k < |o.matches| ensures Slots(o)[k] != AfterBody(e) {
      SlotMeaning(o, k);
      var f := First(o.matches[k]);
      assert f < |o.headers| ==> o.headers[f];
    }
    SelectNone(|Slots(o)|, (k: nat) => InSlot(Slots(o), AfterBody(e), k));
  }

  /** The callouts due at the end of the section headed by line h are those waiting for it. */
  lemma DueAfter(o: Outline, h: nat)
    requires Sound(o) && h < |o.headers| && o.headers[h]
    ensures Having(Slots(o), AfterBody(BodyEnd(o.headers, h))) ==
            Select(|o.matches|, (k: nat) => k < |o.matches| && First(o.matches[k]) == h)
  {
    var e := BodyEnd(o.headers, h);
    var p := (k: nat) => InSlot(Slots(o), AfterBody(e), k);
    var q := (k: nat) => k < |o.matches| && First(o.matches[k]) == h;
    forall k | 0 <= k < |o.matches| ensures p(k) == q(k) {
      SlotMeaning(o, k);
      var f := First(o.matches[k]);
      if f < |o.headers| {
        assert o.headers[f];
        var e' := BodyEnd(o.headers, f);
        assert f < h ==> e' <= h;
        assert f > h ==> e <= f;
      }
    }
    SelectSame(|o.matches|, p, q);
  }

  // ---------- ComposeOperativeHierarchical ----------

  function HeaderTest(rd: Reading, line: string): string -> bool { hint => rd.covers(line, hint) }

  /** No member waits for a line that is not a header. */
  lemma {:induction false} PendingSkips(o: Outline, i: nat, j: nat)
    requires Sound(o) && i <= j <= |o.headers| && forall k :: i <= k < j ==> !o.headers[k]
    ensures Pending(o, j) == Pending(o, i)
  {
    forall k | 0 <= k < |o.matches| ensures Waiting(o, j, k) == Waiting(o, i, k) {
      var f := First(o.matches[k]);
      assert f < |o.headers| ==> o.headers[f];
    }
    SelectSame(|o.matches|, (k: nat) => Waiting(o, j, k), (k: nat) => Waiting(o, i, k));
  }

  lemma PendingSkipsBody(o: Outline, h: nat)
    requires Sound(o) && h < |o.headers|
    ensures Pending(o, BodyEnd(o.headers, h)) == Pending(o, h + 1)
  {
    PendingSkips(o, h + 1, BodyEnd(o.headers, h));
  }

  /** Member k is hit by the header at line h exactly when its first match is h, once it waits for h. */
  lemma HitHere(rd: Reading, lines: seq<string>, members: seq<Member>, h: nat, k: nat)
    requires h < |lines| && rd.isHeader(lines[h]) && k < |members|
    ensures var o := OutlineOf(rd, lines, members);
      var hit := HintHas(members, HeaderTest(rd, lines[h]), k);
      && (First(o.matches[k]) == h <==> Waiting(o, h, k) && hit)
      && (Waiting(o, h + 1, k) <==> Waiting(o, h, k) && !hit)
  {
    assert OutlineOf(rd, lines, members).matches[k][h] == HintHas(members, HeaderTest(rd, lines[h]), k);
  }

  /** Draining at a header writes the callouts due after its body. */
  lemma HitsDue(rd: Reading, lines: seq<string>, members: seq<Member>, h: nat)
    requires h < |lines| && rd.isHeader(lines[h])
    ensures var o := OutlineOf(rd, lines, members);
      Hits(members, HeaderTest(rd, lines[h]), Pending(o, h)) == Having(Slots(o), AfterBody(BodyEnd(o.headers, h)))
  {
    var o := OutlineOf(rd, lines, members);
    var hit := (k: nat) => HintHas(members, HeaderTest(rd, lines[h]), k);
    var here := (k: nat) => k < |o.matches| && First(o.matches[k]) == h;
    var waiting := (k: nat) => Waiting(o, h, k);
    forall k | 0 <= k < |members| ensures here(k) == (waiting(k) && hit(k)) { HitHere(rd, lines, members, h, k); }
    FilterSelect(|members|, waiting, hit, here);
    OutlineSound(rd, lines, members);
    DueAfter(o, h);
  }

  /** Draining at a header leaves those waiting for later sections. */
  lemma MissesWait(rd: Reading, lines: seq<string>, members: seq<Member>, h: nat)
    requires h < |lines| && rd.isHeader(lines[h])
    ensures var o := OutlineOf(rd, lines, members);
      Misses(members, HeaderTest(rd, lines[h]), Pending(o, h)) == Pending(o, BodyEnd(o.headers, h))
  {
    var o := OutlineOf(rd, lines, members);
    var miss := (k: nat) => !HintHas(members, HeaderTest(rd, lines[h]), k);
    var later := (k: nat) => Waiting(o, h + 1, k);
    var waiting := (k: nat) => Waiting(o, h, k);
    forall k | 0 <= k < |members| ensures later(k) == (waiting(k) && miss(k)) { HitHere(rd, lines, members, h, k); }
    FilterSelect(|members|, waiting, miss, later);
    OutlineSound(rd, lines, members);
    PendingSkipsBody(o, h);
  }

  /** The composed text before line i, and the same without the callouts due there. */
  ghost function TextBefore(lines: seq<string>, members: seq<Member>, slots: seq<Slot>, i: nat): string {
    Render(lines, members, Interleaved(slots, i))
  }

  ghost function TextThrough(lines: seq<string>, members: seq<Member>, slots: seq<Slot>, i: nat): string
    requires i > 0
  {
    Render(lines, members, Interleaved(slots, i - 1) + [ParentLine(i - 1)])
  }

  function LineText(line: string): string { line + "\n" }

  lemma NextLineText(lines: seq<string>, members: seq<Member>, slots: seq<Slot>, i: nat)
    requires i < |lines|
    ensures TextThrough(lines, members, slots, i + 1) == TextBefore(lines, members, slots, i) + LineText(lines[i])
  {
    RenderSnoc(lines, members, Interleaved(slots, i), ParentLine(i));
  }

  lemma DueText(lines: seq<string>, members: seq<Member>, slots: seq<Slot>, e: nat)
    requires e > 0
    ensures TextBefore(lines, members, slots, e) ==
            TextThrough(lines, members, slots, e) + BlocksText(members, Having(slots, AfterBody(e)))
  {
    RenderCallouts(lines, members, Interleaved(slots, e - 1) + [ParentLine(e - 1)], Having(slots, AfterBody(e)));
  }

  ghost predicate NoHeaderBefore(rd: Reading, lines: seq<string>, i: nat)
    requires i <= |lines|
  {
    forall k :: 0 <= k < i ==> !rd.isHeader(lines[k])
  }

  function SlotsFor(rd: Reading, lines: seq<string>, members: seq<Member>): seq<Slot> {
    Slots(OutlineOf(rd, lines, members))
  }

  /** Nothing is due at a line that no section body ends at. */
  lemma QuietText(rd: Reading, lines: seq<string>, members: seq<Member>, slots: seq<Slot>, e: nat)
    requires slots == SlotsFor(rd, lines, members)
    requires 0 < e <= |lines|
    requires (e < |lines| && !rd.isHeader(lines[e])) || NoHeaderBefore(rd, lines, e)
    ensures TextBefore(lines, members, slots, e) == TextThrough(lines, members, slots, e)
  {
    var o := OutlineOf(rd, lines, members);
    OutlineSound(rd, lines, members);
    assert e < |lines| ==> o.headers[e] == rd.isHeader(lines[e]);
    assert forall k :: 0 <= k < e ==> o.headers[k] == rd.isHeader(lines[k]);
    NothingEndsAt(o, e);
    DueText(lines, members, slots, e);
  }

  ghost function EndOfSection(rd: Reading, lines: seq<string>, h: nat): (e: nat)
    requires h < |lines|
    ensures h < e <= |lines| && (e < |lines| ==> rd.isHeader(lines[e])) && forall k :: h < k < e ==> !rd.isHeader(lines[k])
  {
    var o := OutlineOf(rd, lines, []);
    assert forall k :: 0 <= k < |lines| ==> o.headers[k] == rd.isHeader(lines[k]);
    BodyEnd(o.headers, h)
  }

  lemma BodyLineText(rd: Reading, lines: seq<string>, members: seq<Member>, slots: seq<Slot>, e: nat)
    requires slots == SlotsFor(rd, lines, members) && 0 < e < |lines| && !rd.isHeader(lines[e])
    ensures TextThrough(lines, members, slots, e + 1) == TextThrough(lines, members, slots, e) + LineText(lines[e])
  {
    QuietText(rd, lines, members, slots, e);
    NextLineText(lines, members, slots, e);
  }

  ghost function ThroughText(lines: seq<string>, members: seq<Member>, slots: seq<Slot>): nat -> string {
    (i: nat) => if i > 0 then TextThrough(lines, members, slots, i) else ""
  }

  /** Body lines follow one another in the composed text. */
  ghost predicate BodyRuns(rd: Reading, lines: seq<string>, through: nat -> string) {
    forall e :: 0 < e < |lines| && !rd.isHeader(lines[e]) ==> through(e + 1) == through(e) + LineText(lines[e])
  }

  lemma ComposedBodyRuns(rd: Reading, lines: seq<string>, members: seq<Member>, slots: seq<Slot>)
    requires slots == SlotsFor(rd, lines, members)
    ensures BodyRuns(rd, lines, ThroughText(lines, members, slots))
  {
    var through := ThroughText(lines, members, slots);
    forall e | 0 < e < |lines| && !rd.isHeader(lines[e]) ensures through(e + 1) == through(e) + LineText(lines[e]) {
      BodyLineText(rd, lines, members, slots, e);
    }
  }

  /** One section: its header, its body up to the next header. */
  method EmitSection(rd: Reading, lines: seq<string>, h: nat, before: string, ghost through: nat -> string)
    returns (text: string, e: nat)
    requires h < |lines| && BodyRuns(rd, lines, through) && through(h + 1) == before + LineText(lines[h])
    ensures e == EndOfSection(rd, lines, h) && text == through(e)
  {
    ghost var end := EndOfSection(rd, lines, h);
    text := before + LineText(lines[h]);
    e := h + 1;
    while e < |lines| && !rd.isHeader(lines[e])
      invariant h < e <= end
      invariant text == through(e)
    {
      text := text + LineText(lines[e]);
      e := e + 1;
    }
  }

  /** The members waiting at line i. */
  function WaitingAt(rd: Reading, lines: seq<string>, members: seq<Member>, i: nat): seq<nat> {
    Pending(OutlineOf(rd, lines, members), i)
  }

  lemma WaitingSkipsLine(rd: Reading, lines: seq<string>, members: seq<Member>, i: nat)
    requires i < |lines| && !rd.isHeader(lines[i])
    ensures WaitingAt(rd, lines, members, i + 1) == WaitingAt(rd, lines, members, i)
  {
    var o := OutlineOf(rd, lines, members);
    OutlineSound(rd, lines, members);
    assert !o.headers[i];
    PendingSkips(o, i, i + 1);
  }

  /** The callouts of the section at line h, and the items left for later sections. */
  method DrainSection(rd: Reading, lines: seq<string>, members: seq<Member>, ghost slots: seq<Slot>, h: nat,
                      items: array<Item>, n: nat, text: string)
    returns (out: string, m: nat)
    requires h < |lines| && rd.isHeader(lines[h]) && slots == SlotsFor(rd, lines, members)
    requires Holds(items, n, members, WaitingAt(rd, lines, members, h))
    requires text == TextThrough(lines, members, slots, EndOfSection(rd, lines, h))
    modifies items
    ensures Holds(items, m, members, WaitingAt(rd, lines, members, EndOfSection(rd, lines, h)))
    ensures out == TextBefore(lines, members, slots, EndOfSection(rd, lines, h))
  {
    ghost var o := OutlineOf(rd, lines, members);
    ghost var e := EndOfSection(rd, lines, h);
    assert o.headers == OutlineOf(rd, lines, []).headers;
    PendingBounds(o, h);
    var test := HeaderTest(rd, lines[h]);
    ghost var ks := Pending(o, h);
    FilterSplits(members, test, ks);
    var hits;
    hits, m := Drain(items, n, test, members, ks, HitsTo(members, test, ks), MissesTo(members, test, ks));
    assert ks[..n] == ks;
    HitsDue(rd, lines, members, h);
    MissesWait(rd, lines, members, h);
    DueText(lines, members, slots, e);
    PendingBounds(o, h);
    HavingExact(slots, AfterBody(e));
    out := EmitBlocks(members, hits, text);
  }

  lemma PendingBounds(o: Outline, i: nat)
    ensures var ks := Pending(o, i); forall j :: 0 <= j < |ks| ==> ks[j] < |o.matches|
  {
    SelectExact(|o.matches|, (k: nat) => Waiting(o, i, k));
    var ks := Pending(o, i);
    assert forall j :: 0 <= j < |ks| ==> ks[j] in ks;
  }

  /** A line before the first header. */
  method EmitLoose(rd: Reading, lines: seq<string>, ghost members: seq<Member>, ghost slots: seq<Slot>, i: nat, before: string)
    returns (out: string)
    requires i < |lines| && slots == SlotsFor(rd, lines, members) && NoHeaderBefore(rd, lines, i + 1)
    requires before == TextBefore(lines, members, slots, i)
    ensures out == TextBefore(lines, members, slots, i + 1)
  {
    NextLineText(lines, members, slots, i);
    QuietText(rd, lines, members, slots, i + 1);
    out := before + LineText(lines[i]);
  }

  /** One section and its callouts. */
  method WriteSection(rd: Reading, lines: seq<string>, members: seq<Member>, ghost slots: seq<Slot>, h: nat,
                      items: array<Item>, n: nat, before: string)
    returns (out: string, m: nat, e: nat)
    requires h < |lines| && rd.isHeader(lines[h]) && slots == SlotsFor(rd, lines, members)
    requires Holds(items, n, members, WaitingAt(rd, lines, members, h))
    requires before == TextBefore(lines, members, slots, h)
    modifies items
    ensures e == EndOfSection(rd, lines, h) && Holds(items, m, members, WaitingAt(rd, lines, members, e))
    ensures out == TextBefore(lines, members, slots, e)
  {
    ComposedBodyRuns(rd, lines, members, slots);
    NextLineText(lines, members, slots, h);
    var text;
    text, e := EmitSection(rd, lines, h, before, ThroughText(lines, members, slots));
    out, m := DrainSection(rd, lines, members, slots, h, items, n, text);
  }

  /** The loop over the parent lines. */
  method Interleave(rd: Reading, lines: seq<string>, members: seq<Member>, ghost slots: seq<Slot>, items: array<Item>, count: nat)
    returns (out: string, n: nat)
    requires slots == SlotsFor(rd, lines, members)
    requires Holds(items, count, members, WaitingAt(rd, lines, members, 0))
    modifies items
    ensures out == TextBefore(lines, members, slots, |lines|)
    ensures Holds(items, n, members, WaitingAt(rd, lines, members, |lines|))
  {
    out, n := "", count;
    var i := 0;
    while i < |lines|
      invariant 0 <= i <= |lines|
      invariant i == |lines| || rd.isHeader(lines[i]) || NoHeaderBefore(rd, lines, i)
      invariant Holds(items, n, members, WaitingAt(rd, lines, members, i))
      invariant out == TextBefore(lines, members, slots, i)
      decreases |lines| - i
    {
      if !rd.isHeader(lines[i]) {
        out := EmitLoose(rd, lines, members, slots, i, out);
        WaitingSkipsLine(rd, lines, members, i);
        i := i + 1;
        continue;
      }
      out, n, i := WriteSection(rd, lines, members, slots, i, items, n, out);
    }
  }

  /** placedTo and restTo list, for every k, the placed and the other members among the first k. */
  ghost predicate Sorts(rd: Reading, lines: seq<string>, members: seq<Member>, placedTo: nat -> seq<nat>, restTo: nat -> seq<nat>) {
    && placedTo(0) == [] && restTo(0) == []
    && forall k :: 0 <= k < |members| ==>
         if First(MatchesOf(rd, lines, members[k].hint)) < |lines|
         then placedTo(k + 1) == placedTo(k) + [k] && restTo(k + 1) == restTo(k)
         else placedTo(k + 1) == placedTo(k) && restTo(k + 1) == restTo(k) + [k]
  }

  /** Sorting the members: those placed in a section, as items; the others, as end blocks. */
  method SortMembers(rd: Reading, parent: string, members: seq<Member>, ghost placedTo: nat -> seq<nat>, ghost restTo: nat -> seq<nat>)
    returns (items: array<Item>, count: nat, endBlocks: seq<nat>)
    requires IgnoresBlankHints(rd) && Sorts(rd, Text.Split(parent, '\n'), members, placedTo, restTo)
    ensures fresh(items) && Holds(items, count, members, placedTo(|members|)) && endBlocks == restTo(|members|)
  {
    items := new Item[|members|](_ => Item(0, "", ""));
    count, endBlocks := 0, [];
    for k := 0 to |members|
      invariant count <= k && Holds(items, count, members, placedTo(k)) && endBlocks == restTo(k)
    {
      var p := PlacementForHint(rd, parent, members[k].hint);
      if p == AfterParentSection {
        PutAt(items, count, Item(k, members[k].hint, members[k].block), members, placedTo(k), k);
        count := count + 1;
      } else {
        endBlocks := endBlocks + [k];
      }
    }
  }

  lemma SortedBy(rd: Reading, lines: seq<string>, members: seq<Member>, k: nat)
    requires k < |members|
    ensures var o := OutlineOf(rd, lines, members);
      && (Waiting(o, 0, k) <==> First(MatchesOf(rd, lines, members[k].hint)) < |lines|)
      && (InSlot(Slots(o), AtEnd, k) <==> !Waiting(o, 0, k))
  {
    var o := OutlineOf(rd, lines, members);
    SlotMeaning(o, k);
    assert o.matches[k] == MatchesOf(rd, lines, members[k].hint);
  }

  /** The end blocks, written after all lines. */
  method EmitBlocks(members: seq<Member>, ks: seq<nat>, before: string) returns (out: string)
    requires forall i :: 0 <= i < |ks| ==> ks[i] < |members|
    ensures out == before + BlocksText(members, ks)
  {
    out := before;
    ghost var written := "";
    for r := 0 to |ks|
      invariant written == BlocksText(members, ks[..r]) && out == before + written
    {
      var block := BlockText(members[ks[r]].block);
      assert ks[..r + 1] == ks[..r] + [ks[r]];
      BlocksTextSnoc(members, ks[..r], ks[r]);
      Text.Regroup(before, written, block);
      written := written + block;
      out := out + block;
    }
    assert ks[..|ks|] == ks;
  }

  lemma SortsMembers(rd: Reading, lines: seq<string>, members: seq<Member>)
    ensures Sorts(rd, lines, members, PlacedTo(rd, lines, members), RestTo(rd, lines, members))
  {
    var o := OutlineOf(rd, lines, members);
    var placed, atEnd := (k: nat) => Waiting(o, 0, k), (k: nat) => InSlot(SlotsFor(rd, lines, members), AtEnd, k);
    forall k | 0 <= k < |members|
      ensures placed(k) <==> First(MatchesOf(rd, lines, members[k].hint)) < |lines|
      ensures atEnd(k) <==> !placed(k)
    {
      SortedBy(rd, lines, members, k);
    }
    SelectsSplit(|members|, placed, atEnd);
  }

  lemma SelectsSplit(n: nat, p: nat -> bool, q: nat -> bool)
    requires forall k :: 0 <= k < n ==> (q(k) <==> !p(k))
    ensures forall k :: 0 <= k < n ==> Select(k + 1, p) == if p(k) then Select(k, p) + [k] else Select(k, p)
    ensures forall k :: 0 <= k < n ==> Select(k + 1, q) == if p(k) then Select(k, q) else Select(k, q) + [k]
  {
  }

  ghost function PlacedTo(rd: Reading, lines: seq<string>, members: seq<Member>): nat -> seq<nat> {
    (n: nat) => Select(n, (k: nat) => Waiting(OutlineOf(rd, lines, members), 0, k))
  }

  ghost function RestTo(rd: Reading, lines: seq<string>, members: seq<Member>): nat -> seq<nat> {
    (n: nat) => Select(n, (k: nat) => InSlot(SlotsFor(rd, lines, members), AtEnd, k))
  }

  /** The members of the sections as items, the others as end blocks. */
  method Prepare(rd: Reading, parent: string, lines: seq<string>, members: seq<Member>)
    returns (items: array<Item>, count: nat, endBlocks: seq<nat>)
    requires IgnoresBlankHints(rd) && lines == Text.Split(parent, '\n')
    ensures fresh(items) && Holds(items, count, members, WaitingAt(rd, lines, members, 0))
    ensures endBlocks == Having(SlotsFor(rd, lines, members), AtEnd)
  {
    SortsMembers(rd, lines, members);
    items, count, endBlocks := SortMembers(rd, parent, members, PlacedTo(rd, lines, members), RestTo(rd, lines, members));
  }

  /** The final sweep: items still waiting join the end blocks. */
  method Sweep(items: array<Item>, n: nat, endBlocks: seq<nat>) returns (out: seq<nat>)
    requires n <= items.Length
    ensures |out| == |endBlocks| + n && endBlocks <= out
    ensures n == 0 ==> out == endBlocks
    ensures forall i :: 0 <= i < n ==> out[|endBlocks| + i] == items[i].member
  {
    out := endBlocks;
    for i := 0 to n
      invariant |out| == |endBlocks| + i && endBlocks <= out
      invariant forall k :: 0 <= k < i ==> out[|endBlocks| + k] == items[k].member
    {
      out := out + [items[i].member];
    }
  }

  /** The lines with their callouts, then the end blocks. */
  method WriteAll(rd: Reading, lines: seq<string>, members: seq<Member>, items: array<Item>, count: nat, endBlocks: seq<nat>)
    returns (out: string)
    requires Holds(items, count, members, WaitingAt(rd, lines, members, 0))
    requires endBlocks == Having(SlotsFor(rd, lines, members), AtEnd)
    modifies items
    ensures out == Render(lines, members, Arranged(SlotsFor(rd, lines, members), |lines|))
  {
    ghost var slots := SlotsFor(rd, lines, members);
    var left;
    out, left := Interleave(rd, lines, members, slots, items, count);
    NothingLeft(rd, lines, members);
    var blocks := Sweep(items, left, endBlocks);
    HavingExact(slots, AtEnd);
    out := EmitBlocks(members, blocks, out);
    RenderCallouts(lines, members, Interleaved(slots, |lines|), Having(slots, AtEnd));
  }

  method ComposeWith(rd: Reading, parent: string, members: seq<Member>) returns (result: string)
    requires IgnoresBlankHints(rd)
    ensures members == [] ==> result == parent
    ensures members != [] ==> result == Composed(rd, Text.Split(parent, '\n'), members)
  {
    if |members| == 0 { return parent; }
    var lines := Text.Split(parent, '\n');
    var items, count, endBlocks := Prepare(rd, parent, lines, members);
    var out := WriteAll(rd, lines, members, items, count, endBlocks);
    result := TrimNewlines(out) + "\n";
  }

  /** ComposeOperativeHierarchical. */
  method ComposeOperativeHierarchical(parent: string, members: seq<Member>) returns (result: string)
    ensures members == [] ==> result == parent
    ensures members != [] ==> result == Composed(Markdown(), Text.Split(parent, '\n'), members)
  {
    MarkdownIgnoresBlankHints();
    result := ComposeWith(Markdown(), parent, members);
  }

  /** Every placed callout has been written by the end: the source's final sweep finds nothing. */
  lemma NothingLeft(rd: Reading, lines: seq<string>, members: seq<Member>)
    ensures WaitingAt(rd, lines, members, |lines|) == []
  {
    var o := OutlineOf(rd, lines, members);
    SelectNone(|o.matches|, (k: nat) => Waiting(o, |lines|, k));
  }
}
