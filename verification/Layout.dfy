/** The arrangement of parent lines and callouts, apart from what the lines say. */
module Layout {

  /** Where a callout belongs: after the section body that ends before a line, or at the very end. */
  datatype Slot = AfterBody(end: nat) | AtEnd

  datatype Piece = ParentLine(line: nat) | Callout(member: nat)

  /** The indexes below n that satisfy p, ascending. */
  function Select(n: nat, p: nat -> bool): seq<nat> {
    if n == 0 then [] else Select(n - 1, p) + if p(n - 1) then [n - 1] else []
  }

  ghost predicate Ascending(ks: seq<nat>) {
    forall i, j :: 0 <= i < j < |ks| ==> ks[i] < ks[j]
  }

  lemma {:induction false} SelectExact(n: nat, p: nat -> bool)
    ensures forall k: nat :: k in Select(n, p) <==> k < n && p(k)
    ensures Ascending(Select(n, p))
  {
    if n > 0 {
      SelectExact(n - 1, p);
      var front := Select(n - 1, p);
      assert forall i :: 0 <= i < |front| ==> front[i] in front;
    }
  }

  lemma {:induction false} SelectSame(n: nat, p: nat -> bool, q: nat -> bool)
    requires forall k :: 0 <= k < n ==> p(k) == q(k)
    ensures Select(n, p) == Select(n, q)
  {
    if n > 0 { SelectSame(n - 1, p, q); }
  }

  lemma {:induction false} SelectNone(n: nat, p: nat -> bool)
    requires forall k :: 0 <= k < n ==> !p(k)
    ensures Select(n, p) == []
  {
    if n > 0 { SelectNone(n - 1, p); }
  }

  function Callouts(ks: seq<nat>): seq<Piece> {
    if ks == [] then [] else Callouts(ks[..|ks| - 1]) + [Callout(ks[|ks| - 1])]
  }

  lemma CalloutsSnoc(pieces: seq<Piece>, ks: seq<nat>)
    ensures ks == [] ==> pieces + Callouts(ks) == pieces
    ensures ks != [] ==> var m := |ks| - 1;
      pieces + Callouts(ks) == (pieces + Callouts(ks[..m])) + [Callout(ks[m])]
  {
  }

  predicate InSlot(slots: seq<Slot>, s: Slot, k: nat) { k < |slots| && slots[k] == s }

  /** The members whose slot is s, in order. */
  function Having(slots: seq<Slot>, s: Slot): seq<nat> { Select(|slots|, (k: nat) => InSlot(slots, s, k)) }

  ghost predicate AllInSlot(slots: seq<Slot>, ks: seq<nat>, s: Slot) {
    forall i :: 0 <= i < |ks| ==> ks[i] < |slots| && slots[ks[i]] == s
  }

  lemma HavingExact(slots: seq<Slot>, s: Slot)
    ensures forall k: nat :: k in Having(slots, s) <==> k < |slots| && slots[k] == s
    ensures Ascending(Having(slots, s)) && AllInSlot(slots, Having(slots, s), s)
  {
    SelectExact(|slots|, (k: nat) => InSlot(slots, s, k));
    var ks := Having(slots, s);
    assert forall i :: 0 <= i < |ks| ==> ks[i] in ks;
  }

  /** The first n parent lines, each section body followed by its callouts. */
  function Interleaved(slots: seq<Slot>, n: nat): seq<Piece> {
    if n == 0 then []
    else (Interleaved(slots, n - 1) + [ParentLine(n - 1)]) + Callouts(Having(slots, AfterBody(n)))
  }

  /** n parent lines and all callouts. */
  function Arranged(slots: seq<Slot>, n: nat): seq<Piece> {
    Interleaved(slots, n) + Callouts(Having(slots, AtEnd))
  }

  // ---------- parent lines ----------

  function ParentLines(pieces: seq<Piece>): seq<nat> {
    if pieces == [] then []
    else
      var n := |pieces| - 1;
      ParentLines(pieces[..n]) + if pieces[n].ParentLine? then [pieces[n].line] else []
  }

  function UpTo(n: nat): seq<nat> { seq(n, i => i) }

  lemma {:induction false} ParentLinesCallouts(pieces: seq<Piece>, ks: seq<nat>)
    ensures ParentLines(pieces + Callouts(ks)) == ParentLines(pieces)
  {
    CalloutsSnoc(pieces, ks);
    if ks != [] {
      var n := |ks| - 1;
      ParentLinesCallouts(pieces, ks[..n]);
      var front := pieces + Callouts(ks[..n]);
      assert (front + [Callout(ks[n])])[..|front|] == front;
    }
  }

  lemma {:induction false} InterleavedLines(slots: seq<Slot>, n: nat)
    ensures ParentLines(Interleaved(slots, n)) == UpTo(n)
  {
    if n > 0 {
      InterleavedLines(slots, n - 1);
      var front := Interleaved(slots, n - 1);
      ParentLinesCallouts(front + [ParentLine(n - 1)], Having(slots, AfterBody(n)));
      assert (front + [ParentLine(n - 1)])[..|front|] == front;
    }
  }

  /** Every parent line appears once, in the original order. */
  lemma KeepsLines(slots: seq<Slot>, n: nat)
    ensures ParentLines(Arranged(slots, n)) == UpTo(n)
  {
    InterleavedLines(slots, n);
    ParentLinesCallouts(Interleaved(slots, n), Having(slots, AtEnd));
  }

  // ---------- callouts ----------

  function Occurrences(pieces: seq<Piece>, k: nat): nat {
    if pieces == [] then 0
    else
      var n := |pieces| - 1;
      Occurrences(pieces[..n], k) + if pieces[n] == Callout(k) then 1 else 0
  }

  lemma OccurrencesAppend(pieces: seq<Piece>, p: Piece, k: nat)
    ensures Occurrences(pieces + [p], k) == Occurrences(pieces, k) + if p == Callout(k) then 1 else 0
  {
    assert (pieces + [p])[..|pieces|] == pieces;
  }

  lemma {:induction false} OccurrencesCallouts(pieces: seq<Piece>, ks: seq<nat>, k: nat)
    requires Ascending(ks)
    ensures Occurrences(pieces + Callouts(ks), k) == Occurrences(pieces, k) + if k in ks then 1 else 0
  {
    CalloutsSnoc(pieces, ks);
    if ks != [] {
      var m := |ks| - 1;
      OccurrencesCallouts(pieces, ks[..m], k);
      OccurrencesAppend(pieces + Callouts(ks[..m]), Callout(ks[m]), k);
      assert ks == ks[..m] + [ks[m]];
    }
  }

  lemma {:induction false} InterleavedOccurrences(slots: seq<Slot>, n: nat, k: nat)
    requires k < |slots|
    ensures Occurrences(Interleaved(slots, n), k) == if slots[k].AfterBody? && 0 < slots[k].end <= n then 1 else 0
  {
    if n > 0 {
      InterleavedOccurrences(slots, n - 1, k);
      var front := Interleaved(slots, n - 1);
      OccurrencesAppend(front, ParentLine(n - 1), k);
      HavingExact(slots, AfterBody(n));
      OccurrencesCallouts(front + [ParentLine(n - 1)], Having(slots, AfterBody(n)), k);
    }
  }

  ghost predicate SlotsWithin(slots: seq<Slot>, n: nat) {
    forall k :: 0 <= k < |slots| && slots[k].AfterBody? ==> 0 < slots[k].end <= n
  }

  /** Every member's callout appears exactly once. */
  lemma KeepsMembers(slots: seq<Slot>, n: nat, k: nat)
    requires k < |slots| && SlotsWithin(slots, n)
    ensures Occurrences(Arranged(slots, n), k) == 1
  {
    InterleavedOccurrences(slots, n, k);
    HavingExact(slots, AtEnd);
    OccurrencesCallouts(Interleaved(slots, n), Having(slots, AtEnd), k);
  }

  // ---------- places ----------

  /** How many parent lines stand before a callout in slot s. */
  function LinesBefore(s: Slot, n: nat): nat { if s.AfterBody? then s.end else n }

  /** Callout k may follow front: the lines of its slot, and no later member of the same slot, are
      already there. */
  ghost predicate MayFollow(slots: seq<Slot>, n: nat, front: seq<Piece>, k: nat) {
    && k < |slots| && |ParentLines(front)| == LinesBefore(slots[k], n)
    && forall i :: 0 <= i < |front| && front[i].Callout? ==>
         front[i].member < |slots| && (slots[front[i].member] == slots[k] ==> front[i].member < k)
  }

  /** Read from left to right, every callout may stand where it stands. */
  ghost predicate WellPlaced(slots: seq<Slot>, n: nat, pieces: seq<Piece>) {
    pieces == [] ||
    var m := |pieces| - 1;
    WellPlaced(slots, n, pieces[..m]) && (pieces[m].Callout? ==> MayFollow(slots, n, pieces[..m], pieces[m].member))
  }

  lemma {:induction false} WellPlacedAt(slots: seq<Slot>, n: nat, pieces: seq<Piece>, i: nat)
    requires WellPlaced(slots, n, pieces) && i < |pieces| && pieces[i].Callout?
    ensures MayFollow(slots, n, pieces[..i], pieces[i].member)
  {
    var m := |pieces| - 1;
    if i < m {
      WellPlacedAt(slots, n, pieces[..m], i);
      assert pieces[..m][..i] == pieces[..i];
    }
  }

  lemma AppendPiece(slots: seq<Slot>, n: nat, pieces: seq<Piece>, p: Piece)
    requires WellPlaced(slots, n, pieces) && (p.Callout? ==> MayFollow(slots, n, pieces, p.member))
    ensures WellPlaced(slots, n, pieces + [p])
  {
    assert (pieces + [p])[..|pieces|] == pieces;
  }

  /** All callouts are known members, and those of slot s come from ks. */
  ghost predicate SlotHolds(slots: seq<Slot>, pieces: seq<Piece>, s: Slot, ks: seq<nat>) {
    forall i :: 0 <= i < |pieces| && pieces[i].Callout? ==>
      pieces[i].member < |slots| && (slots[pieces[i].member] == s ==> pieces[i].member in ks)
  }

  lemma {:induction false} CalloutsHold(slots: seq<Slot>, pieces: seq<Piece>, ks: seq<nat>, s: Slot)
    requires AllInSlot(slots, ks, s) && SlotHolds(slots, pieces, s, [])
    ensures SlotHolds(slots, pieces + Callouts(ks), s, ks)
  {
    CalloutsSnoc(pieces, ks);
    if ks != [] {
      var m := |ks| - 1;
      CalloutsHold(slots, pieces, ks[..m], s);
      assert ks == ks[..m] + [ks[m]];
    }
  }

  lemma FollowsInSlot(slots: seq<Slot>, n: nat, front: seq<Piece>, ks: seq<nat>, k: nat)
    requires k < |slots| && SlotHolds(slots, front, slots[k], ks) && |ParentLines(front)| == LinesBefore(slots[k], n)
    requires forall i :: 0 <= i < |ks| ==> ks[i] < k
    ensures MayFollow(slots, n, front, k)
  {
  }

  lemma {:induction false} AppendCallouts(slots: seq<Slot>, n: nat, pieces: seq<Piece>, ks: seq<nat>, s: Slot)
    requires WellPlaced(slots, n, pieces) && Ascending(ks) && |ParentLines(pieces)| == LinesBefore(s, n)
    requires AllInSlot(slots, ks, s) && SlotHolds(slots, pieces, s, [])
    ensures WellPlaced(slots, n, pieces + Callouts(ks))
  {
    CalloutsSnoc(pieces, ks);
    if ks != [] {
      var m := |ks| - 1;
      AppendCallouts(slots, n, pieces, ks[..m], s);
      ParentLinesCallouts(pieces, ks[..m]);
      CalloutsHold(slots, pieces, ks[..m], s);
      var front := pieces + Callouts(ks[..m]);
      assert MayFollow(slots, n, front, ks[m]) by { FollowsInSlot(slots, n, front, ks[..m], ks[m]); }
      AppendPiece(slots, n, front, Callout(ks[m]));
    }
  }

  /** All callouts belong to section bodies that end by line m. */
  ghost predicate EndsBy(slots: seq<Slot>, pieces: seq<Piece>, m: nat) {
    forall i :: 0 <= i < |pieces| && pieces[i].Callout? ==>
      pieces[i].member < |slots| && slots[pieces[i].member].AfterBody? && slots[pieces[i].member].end <= m
  }

  lemma {:induction false} CalloutsEndBy(slots: seq<Slot>, pieces: seq<Piece>, ks: seq<nat>, m: nat)
    requires EndsBy(slots, pieces, m) && AllInSlot(slots, ks, AfterBody(m))
    ensures EndsBy(slots, pieces + Callouts(ks), m)
  {
    CalloutsSnoc(pieces, ks);
    if ks != [] {
      var j := |ks| - 1;
      CalloutsEndBy(slots, pieces, ks[..j], m);
    }
  }

  lemma {:induction false} InterleavedEndsBy(slots: seq<Slot>, m: nat)
    ensures EndsBy(slots, Interleaved(slots, m), m)
  {
    if m > 0 {
      InterleavedEndsBy(slots, m - 1);
      HavingExact(slots, AfterBody(m));
      var withLine := Interleaved(slots, m - 1) + [ParentLine(m - 1)];
      assert EndsBy(slots, withLine, m);
      CalloutsEndBy(slots, withLine, Having(slots, AfterBody(m)), m);
    }
  }

  /** After the next parent line, the slot that ends there is still empty and the line count is right. */
  lemma NextLine(slots: seq<Slot>, n: nat, m: nat)
    requires m > 0 && WellPlaced(slots, n, Interleaved(slots, m - 1))
    ensures var withLine := Interleaved(slots, m - 1) + [ParentLine(m - 1)];
      && WellPlaced(slots, n, withLine) && |ParentLines(withLine)| == m
      && SlotHolds(slots, withLine, AfterBody(m), [])
  {
    AppendPiece(slots, n, Interleaved(slots, m - 1), ParentLine(m - 1));
    LineAdded(slots, m);
    InterleavedEndsBy(slots, m - 1);
    SlotStillEmpty(slots, Interleaved(slots, m - 1), m);
  }

  lemma LineAdded(slots: seq<Slot>, m: nat)
    requires m > 0
    ensures |ParentLines(Interleaved(slots, m - 1) + [ParentLine(m - 1)])| == m
  {
    var front := Interleaved(slots, m - 1);
    InterleavedLines(slots, m - 1);
    assert (front + [ParentLine(m - 1)])[..|front|] == front;
  }

  lemma SlotStillEmpty(slots: seq<Slot>, front: seq<Piece>, m: nat)
    requires m > 0 && EndsBy(slots, front, m - 1)
    ensures SlotHolds(slots, front + [ParentLine(m - 1)], AfterBody(m), [])
  {
  }

  lemma {:induction false} InterleavedWellPlaced(slots: seq<Slot>, n: nat, m: nat)
    ensures WellPlaced(slots, n, Interleaved(slots, m))
  {
    if m > 0 {
      InterleavedWellPlaced(slots, n, m - 1);
      NextLine(slots, n, m);
      HavingExact(slots, AfterBody(m));
      AppendCallouts(slots, n, Interleaved(slots, m - 1) + [ParentLine(m - 1)], Having(slots, AfterBody(m)), AfterBody(m));
    }
  }

  /** Callouts stand where their slots say, in member order within each slot. */
  lemma PlacesCallouts(slots: seq<Slot>, n: nat)
    ensures WellPlaced(slots, n, Arranged(slots, n))
  {
    InterleavedWellPlaced(slots, n, n);
    InterleavedEndsBy(slots, n);
    InterleavedLines(slots, n);
    HavingExact(slots, AtEnd);
    AppendCallouts(slots, n, Interleaved(slots, n), Having(slots, AtEnd), AtEnd);
  }
}
