/** Past, current and future rows of a linked-instrument chain (internal/instruments/chain.go). */
module Chain {
  import opened Domain
  import Text

  const COVERAGE_SECTION := "section"

  function NormalizeSectionHint(hint: string): string {
    var h := Text.TrimSpace(hint);
    if h == "" then "*" else h
  }

  function GroupOf(row: LinkedInstrument): string { NormalizeSectionHint(row.sectionHint) }

  predicate EffectiveBy(row: LinkedInstrument, asOf: int) {
    row.effectiveFrom.Some? && row.effectiveFrom.value <= asOf
  }

  function DateOf(rows: seq<LinkedInstrument>, i: nat): Option<int> {
    if i < |rows| then rows[i].effectiveFrom else None
  }

  /** The comparison handed to sort.SliceStable: by date, undated rows last and in input order. */
  predicate SortsBefore(rows: seq<LinkedInstrument>, i: nat, j: nat) {
    var di, dj := DateOf(rows, i), DateOf(rows, j);
    if di.Some? && dj.Some? then di.value < dj.value
    else if di.Some? then true
    else if dj.Some? then false
    else i < j
  }

  /** The order the stable sort arrives at: equal dates stay in input order. */
  predicate Precedes(rows: seq<LinkedInstrument>, i: nat, j: nat) {
    SortsBefore(rows, i, j) || (!SortsBefore(rows, j, i) && i < j)
  }

  // ---------- specification ----------

  /** Row j takes over from row i: same section, in force by asOf, later in the chain. */
  predicate Supersedes(rows: seq<LinkedInstrument>, asOf: int, j: nat, i: nat)
    requires i < |rows| && j < |rows|
  {
    GroupOf(rows[j]) == GroupOf(rows[i]) && EffectiveBy(rows[j], asOf) && Precedes(rows, i, j)
  }

  function StatusOf(rows: seq<LinkedInstrument>, asOf: int, i: nat): Status
    requires i < |rows|
  {
    if rows[i].effectiveFrom.None? then rows[i].status
    else if rows[i].effectiveFrom.value > asOf then Future
    else if exists j :: 0 <= j < |rows| && Supersedes(rows, asOf, j, i) then Past
    else Current
  }

  function WithCoverage(row: LinkedInstrument): LinkedInstrument {
    if row.coverage == "" then row.(coverage := COVERAGE_SECTION) else row
  }

  /** Every row keeps its place and its fields, except the coverage default and the status. */
  function Annotated(rows: seq<LinkedInstrument>, asOf: int): seq<LinkedInstrument> {
    seq(|rows|, i requires 0 <= i < |rows| => WithCoverage(rows[i]).(status := StatusOf(rows, asOf, i)))
  }

  // ---------- AnnotateChain ----------

  ghost predicate Ascending(idxs: seq<nat>) {
    forall k, l :: 0 <= k < l < |idxs| ==> idxs[k] < idxs[l]
  }

  ghost predicate Ordered(prec: (nat, nat) -> bool, s: seq<nat>) {
    forall k, l :: 0 <= k < l < |s| ==> prec(s[k], s[l])
  }

  /** prec is the order a stable sort by less produces from ascending indexes. */
  ghost predicate StableOrderOf(prec: (nat, nat) -> bool, less: (nat, nat) -> bool) {
    && (forall i, j :: prec(i, j) <==> less(i, j) || (!less(j, i) && i < j))
    && (forall i, j, k :: prec(i, j) && prec(j, k) ==> prec(i, k))
  }

  /** Moving x left past the elements it sorts before, and no further, keeps the order. */
  lemma InsertionKeepsOrder(prec: (nat, nat) -> bool, less: (nat, nat) -> bool, front: seq<nat>, back: seq<nat>, x: nat)
    requires StableOrderOf(prec, less) && Ordered(prec, front + back)
    requires forall k :: 0 <= k < |front| ==> front[k] < x
    requires front != [] ==> !less(x, front[|front| - 1])
    requires forall k :: 0 <= k < |back| ==> less(x, back[k])
    ensures Ordered(prec, front + [x] + back)
  {
    var s, t := front + back, front + [x] + back;
    var last := |front| - 1;
    forall k | 0 <= k < |front| ensures prec(front[k], x) {
      if k < last { assert prec(s[k], s[last]); }
    }
    forall k, l | 0 <= k < l < |t| ensures prec(t[k], t[l]) {
      if k != |front| && l != |front| {
        assert prec(s[if k < |front| then k else k - 1], s[if l < |front| then l else l - 1]);
      }
    }
  }

  lemma SwapMovesLeft(s: seq<nat>, o: seq<nat>, x: nat, j: nat)
    requires 0 < j <= |o| && s == o[..j] + [x] + o[j..]
    ensures |s| == |o| + 1 && s[j] == x && s[j - 1] == o[j - 1]
    ensures s[j - 1 := x][j := o[j - 1]] == o[..j - 1] + [x] + o[j - 1..]
  {
    var t := s[j - 1 := x][j := o[j - 1]];
    var u := o[..j - 1] + [x] + o[j - 1..];
    assert |t| == |u|;
    forall k | 0 <= k < |t| ensures t[k] == u[k] {
      if k > j { assert s[k] == o[j..][k - j - 1]; }
    }
  }

  /** One step to the left of x inside the first i + 1 places, the rest being o in order. */
  method SwapLeft(idxs: array<nat>, i: nat, j: nat, ghost o: seq<nat>, ghost x: nat)
    requires 0 < j <= i < idxs.Length && |o| == i && idxs[..i + 1] == o[..j] + [x] + o[j..]
    modifies idxs
    ensures idxs[..i + 1] == o[..j - 1] + [x] + o[j - 1..]
    ensures idxs[i + 1..] == old(idxs[i + 1..])
  {
    ghost var s := idxs[..i + 1];
    SwapMovesLeft(s, o, x, j);
    assert idxs[j] == s[j] && idxs[j - 1] == s[j - 1];
    idxs[j], idxs[j - 1] := idxs[j - 1], idxs[j];
    assert idxs[..i + 1] == s[j - 1 := x][j := o[j - 1]];
  }

  /** Where x comes to rest among o, the order holds. */
  lemma Settled(prec: (nat, nat) -> bool, less: (nat, nat) -> bool, o: seq<nat>, x: nat, j: nat, s: seq<nat>)
    requires StableOrderOf(prec, less) && Ordered(prec, o) && j <= |o| && s == o[..j] + [x] + o[j..]
    requires forall k :: 0 <= k < |o| ==> o[k] < x
    requires forall k :: j <= k < |o| ==> less(x, o[k])
    requires j > 0 ==> !less(s[j], s[j - 1])
    ensures Ordered(prec, s)
  {
    assert o[..j] + o[j..] == o;
    assert j > 0 ==> s[j] == x && s[j - 1] == o[j - 1] == o[..j][j - 1];
    InsertionKeepsOrder(prec, less, o[..j], o[j..], x);
  }

  lemma InsertedElements(o: seq<nat>, x: nat, j: nat)
    requires j <= |o|
    ensures multiset(o[..j] + [x] + o[j..]) == multiset(o + [x])
  {
    assert multiset(o) == multiset(o[..j] + o[j..]) by { assert o[..j] + o[j..] == o; }
  }

  /** One round of insertion sort: idxs[i] moves left by swaps into the sorted part before it. */
  method SinkInto(idxs: array<nat>, i: nat, less: (nat, nat) -> bool, ghost prec: (nat, nat) -> bool)
    requires i < idxs.Length && StableOrderOf(prec, less) && Ordered(prec, idxs[..i])
    requires forall k :: 0 <= k < i ==> idxs[k] < idxs[i]
    modifies idxs
    ensures multiset(idxs[..i + 1]) == multiset(old(idxs[..i + 1]))
    ensures idxs[i + 1..] == old(idxs[i + 1..])
    ensures Ordered(prec, idxs[..i + 1])
  {
    ghost var o, x := idxs[..i], idxs[i];
    assert idxs[..i + 1] == o + [x];
    var j := i;
    assert idxs[..i + 1] == o[..i] + [x] + o[i..];
    while j > 0 && less(idxs[j], idxs[j - 1])
      invariant 0 <= j <= i
      invariant idxs[..i + 1] == o[..j] + [x] + o[j..]
      invariant idxs[i + 1..] == old(idxs[i + 1..])
      invariant forall k :: j <= k < i ==> less(x, o[k])
    {
      assert idxs[j] == idxs[..i + 1][j] && idxs[j - 1] == idxs[..i + 1][j - 1];
      SwapLeft(idxs, i, j, o, x);
      j := j - 1;
    }
    assert j > 0 ==> idxs[j] == idxs[..i + 1][j] && idxs[j - 1] == idxs[..i + 1][j - 1];
    Settled(prec, less, o, x, j, idxs[..i + 1]);
    InsertedElements(o, x, j);
  }

  lemma AllBelow(o: seq<nat>, s: seq<nat>, i: nat)
    requires Ascending(o) && i < |o| && multiset(s) == multiset(o[..i])
    ensures forall k :: 0 <= k < |s| ==> s[k] < o[i]
  {
    forall k | 0 <= k < |s| ensures s[k] < o[i] { assert s[k] in multiset(o[..i]); }
  }

  /** sort.SliceStable as insertion sort, in place on an ascending index list. */
  method StableSort(idxs: array<nat>, less: (nat, nat) -> bool, ghost prec: (nat, nat) -> bool)
    requires Ascending(idxs[..]) && StableOrderOf(prec, less)
    modifies idxs
    ensures multiset(idxs[..]) == multiset(old(idxs[..]))
    ensures Ordered(prec, idxs[..])
  {
    ghost var o := idxs[..];
    for i := 0 to idxs.Length
      invariant multiset(idxs[..i]) == multiset(o[..i])
      invariant idxs[i..] == o[i..]
      invariant Ordered(prec, idxs[..i])
    {
      assert idxs[i] == idxs[i..][0] == o[i];
      AllBelow(o, idxs[..i], i);
      assert forall k :: 0 <= k < i ==> idxs[k] == idxs[..i][k];
      assert idxs[i + 1..] == idxs[i..][1..] == o[i + 1..];
      assert idxs[..i + 1] == idxs[..i] + [idxs[i]] && o[..i + 1] == o[..i] + [o[i]];
      SinkInto(idxs, i, less, prec);
    }
    assert idxs[..idxs.Length] == idxs[..] && o[..idxs.Length] == o;
  }

  function ByDate(rows: seq<LinkedInstrument>): (nat, nat) -> bool {
    (i: nat, j: nat) => SortsBefore(rows, i, j)
  }

  ghost function ChainOrder(rows: seq<LinkedInstrument>): (nat, nat) -> bool {
    (i: nat, j: nat) => Precedes(rows, i, j)
  }

  lemma PrecedesIsStableOrder(rows: seq<LinkedInstrument>)
    ensures StableOrderOf(ChainOrder(rows), ByDate(rows))
  {
  }

  /** idxs lists the rows of one section, in any order. */
  ghost predicate CoversSection(rows: seq<LinkedInstrument>, key: string, idxs: seq<nat>) {
    && (forall k :: 0 <= k < |idxs| ==> idxs[k] < |rows|)
    && (forall x: nat :: x in idxs <==> x < |rows| && GroupOf(rows[x]) == key)
  }

  /** idxs lists the rows of one section among the first n. */
  ghost predicate ListsGroup(rows: seq<LinkedInstrument>, n: nat, key: string, idxs: seq<nat>)
    requires n <= |rows|
  {
    && Ascending(idxs)
    && forall x: nat :: x in idxs <==> x < n && GroupOf(rows[x]) == key
  }

  /** In a sorted group, the rows after a position are exactly those that supersede it. */
  lemma LaterSupersedes(rows: seq<LinkedInstrument>, key: string, idxs: seq<nat>, pos: nat, asOf: int)
    requires Ordered(ChainOrder(rows), idxs) && CoversSection(rows, key, idxs) && pos < |idxs|
    ensures (exists l :: pos < l < |idxs| && EffectiveBy(rows[idxs[l]], asOf)) <==>
            (exists j :: 0 <= j < |rows| && Supersedes(rows, asOf, j, idxs[pos]))
  {
    var i := idxs[pos];
    if l :| pos < l < |idxs| && EffectiveBy(rows[idxs[l]], asOf) {
      assert idxs[l] in idxs;
      assert Supersedes(rows, asOf, idxs[l], i);
    }
    if j :| 0 <= j < |rows| && Supersedes(rows, asOf, j, i) {
      assert j in idxs;
      var l :| 0 <= l < |idxs| && idxs[l] == j;
      assert ChainOrder(rows)(i, j);
      assert l > pos;
    }
  }

  method AnnotateChain(rows: seq<LinkedInstrument>, asOf: int) returns (out: seq<LinkedInstrument>)
    ensures out == Annotated(rows, asOf)
  {
    if |rows| == 0 { return []; }
    out := rows;
    for i := 0 to |rows|
      invariant |out| == |rows|
      invariant forall k :: 0 <= k < i ==> out[k] == WithCoverage(rows[k])
      invariant forall k :: i <= k < |rows| ==> out[k] == rows[k]
    {
      if out[i].coverage == "" { out := out[i := out[i].(coverage := COVERAGE_SECTION)]; }
    }
    var groups, order := GroupRows(rows);
    for g := 0 to |order|
      invariant |out| == |rows|
      invariant forall k :: 0 <= k < |rows| ==> out[k] == WithCoverage(rows[k]).(status := out[k].status)
      invariant forall k :: 0 <= k < |rows| && GroupOf(rows[k]) in order[..g] ==> out[k].status == StatusOf(rows, asOf, k)
      invariant forall k :: 0 <= k < |rows| && GroupOf(rows[k]) !in order[..g] ==> out[k].status == rows[k].status
    {
      out := LabelGroup(rows, asOf, order[g], groups[order[g]], out);
      assert order[..g + 1] == order[..g] + [order[g]];
    }
    assert order[..|order|] == order;
  }

  lemma ListGrows(rows: seq<LinkedInstrument>, i: nat, key: string, idxs: seq<nat>)
    requires i < |rows| && ListsGroup(rows, i, key, idxs)
    ensures ListsGroup(rows, i + 1, key, if GroupOf(rows[i]) == key then idxs + [i] else idxs)
  {
    assert forall k :: 0 <= k < |idxs| ==> idxs[k] in idxs;
  }

  /** The index list of each section, sections in order of first appearance. */
  method GroupRows(rows: seq<LinkedInstrument>) returns (groups: map<string, seq<nat>>, order: seq<string>)
    ensures Text.Distinct(order) && forall key :: key in groups <==> key in order
    ensures forall k :: 0 <= k < |rows| ==> GroupOf(rows[k]) in groups
    ensures forall key :: key in groups ==> ListsGroup(rows, |rows|, key, groups[key])
  {
    groups, order := map[], [];
    for i := 0 to |rows|
      invariant Text.Distinct(order) && forall key :: key in groups <==> key in order
      invariant forall k :: 0 <= k < i ==> GroupOf(rows[k]) in groups
      invariant forall key :: key in groups ==> ListsGroup(rows, i, key, groups[key])
    {
      var key := GroupOf(rows[i]);
      if key !in groups {
        order := order + [key];
        groups := groups[key := []];
        assert ListsGroup(rows, i, key, []);
      }
      ghost var was := groups;
      groups := groups[key := groups[key] + [i]];
      forall k | k in groups ensures ListsGroup(rows, i + 1, k, groups[k]) { ListGrows(rows, i, k, was[k]); }
    }
  }

  /** The inner loop: is some row later in the sorted group in force? */
  method IsSuperseded(rows: seq<LinkedInstrument>, ghost key: string, idxs: seq<nat>, pos: nat, asOf: int)
    returns (superseded: bool)
    requires Ordered(ChainOrder(rows), idxs) && CoversSection(rows, key, idxs) && pos < |idxs|
    ensures superseded <==> exists j :: 0 <= j < |rows| && Supersedes(rows, asOf, j, idxs[pos])
  {
    LaterSupersedes(rows, key, idxs, pos, asOf);
    for later := pos + 1 to |idxs|
      invariant forall l :: pos < l < later ==> !EffectiveBy(rows[idxs[l]], asOf)
    {
      if EffectiveBy(rows[idxs[later]], asOf) { return true; }
    }
    superseded := false;
  }

  /** The label of the row at one position of its sorted section. */
  method LabelAt(rows: seq<LinkedInstrument>, ghost key: string, idxs: seq<nat>, pos: nat, asOf: int)
    returns (status: Status)
    requires Ordered(ChainOrder(rows), idxs) && CoversSection(rows, key, idxs) && pos < |idxs|
    ensures status == StatusOf(rows, asOf, idxs[pos])
  {
    var effective := rows[idxs[pos]].effectiveFrom;
    if effective.None? { return rows[idxs[pos]].status; }
    if effective.value > asOf { return Future; }
    var superseded := IsSuperseded(rows, key, idxs, pos, asOf);
    status := if superseded then Past else Current;
  }

  method LabelGroup(rows: seq<LinkedInstrument>, asOf: int, key: string, group: seq<nat>, before: seq<LinkedInstrument>)
    returns (out: seq<LinkedInstrument>)
    requires |before| == |rows| && ListsGroup(rows, |rows|, key, group)
    ensures |out| == |rows|
    ensures forall k :: 0 <= k < |rows| ==>
      out[k] == if GroupOf(rows[k]) == key then before[k].(status := StatusOf(rows, asOf, k)) else before[k]
  {
    out := before;
    var idxs := new nat[|group|](i requires 0 <= i < |group| => group[i]);
    assert idxs[..] == group;
    PrecedesIsStableOrder(rows);
    StableSort(idxs, ByDate(rows), ChainOrder(rows));
    var sorted := idxs[..];
    SortedCovers(rows, key, group, sorted);
    for pos := 0 to |sorted|
      invariant |out| == |rows|
      invariant forall k :: 0 <= k < |rows| ==>
        out[k] == if k in sorted[..pos] then before[k].(status := StatusOf(rows, asOf, k)) else before[k]
    {
      var idx := sorted[pos];
      assert sorted[..pos + 1] == sorted[..pos] + [idx];
      var status := LabelAt(rows, key, sorted, pos, asOf);
      out := out[idx := out[idx].(status := status)];
    }
    assert sorted[..|sorted|] == sorted;
  }

  lemma SortedCovers(rows: seq<LinkedInstrument>, key: string, group: seq<nat>, sorted: seq<nat>)
    requires ListsGroup(rows, |rows|, key, group) && multiset(sorted) == multiset(group)
    ensures CoversSection(rows, key, sorted)
  {
    assert forall x :: x in sorted <==> x in multiset(sorted);
    assert forall x :: x in group <==> x in multiset(group);
    assert forall k :: 0 <= k < |sorted| ==> sorted[k] in group;
  }

  // ---------- the filters ----------

  /** FilterLinkedForResponse. */
  method FilterLinkedForResponse(rows: seq<LinkedInstrument>, includePast: bool) returns (out: seq<LinkedInstrument>)
    ensures out == Keep(rows, (row: LinkedInstrument) => includePast || row.status != Past)
  {
    if includePast { KeepAll(rows, (row: LinkedInstrument) => includePast || row.status != Past); return rows; }
    out := [];
    for i := 0 to |rows|
      invariant out == Keep(rows[..i], (row: LinkedInstrument) => includePast || row.status != Past)
    {
      assert rows[..i + 1][..i] == rows[..i];
      if rows[i].status == Past { continue; }
      out := out + [rows[i]];
    }
    assert rows[..|rows|] == rows;
  }

  function Keep(rows: seq<LinkedInstrument>, p: LinkedInstrument -> bool): seq<LinkedInstrument> {
    if rows == [] then []
    else
      var k := |rows| - 1;
      Keep(rows[..k], p) + if p(rows[k]) then [rows[k]] else []
  }

  lemma {:induction false} KeepAll(rows: seq<LinkedInstrument>, p: LinkedInstrument -> bool)
    requires forall row :: p(row)
    ensures Keep(rows, p) == rows
  {
    if rows != [] { KeepAll(rows[..|rows| - 1], p); }
  }

  lemma {:induction false} KeepContents(rows: seq<LinkedInstrument>, p: LinkedInstrument -> bool)
    ensures forall c :: c in Keep(rows, p) <==> c in rows && p(c)
  {
    if rows != [] {
      var k := |rows| - 1;
      KeepContents(rows[..k], p);
      assert rows == rows[..k] + [rows[k]];
    }
  }

  predicate IsBundleMember(row: LinkedInstrument, includePast: bool) {
    match row.status
    case Current => true
    case Past => includePast
    case NoStatus => row.source == "discovered" && row.confidence == "high"
    case Future => false
  }

  /** FilterBundleMembers. */
  method FilterBundleMembers(rows: seq<LinkedInstrument>, includePast: bool) returns (out: seq<LinkedInstrument>)
    ensures out == Keep(rows, row => IsBundleMember(row, includePast))
  {
    out := [];
    for i := 0 to |rows|
      invariant out == Keep(rows[..i], row => IsBundleMember(row, includePast))
    {
      assert rows[..i + 1][..i] == rows[..i];
      match rows[i].status
      case Current => out := out + [rows[i]];
      case Past => if includePast { out := out + [rows[i]]; }
      case NoStatus =>
        if rows[i].source == "discovered" && rows[i].confidence == "high" { out := out + [rows[i]]; }
      case Future =>
    }
    assert rows[..|rows|] == rows;
  }

  // ---------- exactness ----------

  predicate DatedCurrent(rows: seq<LinkedInstrument>, asOf: int, key: string, i: nat)
    requires i < |rows|
  {
    GroupOf(rows[i]) == key && rows[i].effectiveFrom.Some? && StatusOf(rows, asOf, i) == Current
  }

  /** The last row of a section in force by asOf among the first n rows. */
  lemma {:induction false} LatestExists(rows: seq<LinkedInstrument>, asOf: int, key: string, n: nat, w: nat)
    returns (i: nat)
    requires w < n <= |rows| && GroupOf(rows[w]) == key && EffectiveBy(rows[w], asOf)
    ensures i < n && GroupOf(rows[i]) == key && EffectiveBy(rows[i], asOf)
    ensures forall j :: 0 <= j < n && GroupOf(rows[j]) == key && EffectiveBy(rows[j], asOf) && j != i ==> Precedes(rows, j, i)
  {
    i := w;
    for m := 0 to n
      invariant i < n && GroupOf(rows[i]) == key && EffectiveBy(rows[i], asOf)
      invariant forall j :: 0 <= j < m && GroupOf(rows[j]) == key && EffectiveBy(rows[j], asOf) && j != i ==> Precedes(rows, j, i)
    {
      if GroupOf(rows[m]) == key && EffectiveBy(rows[m], asOf) && Precedes(rows, i, m) {
        i := m;
      }
    }
  }

  /** A section with a row in force has exactly one dated current row; it is the latest in force,
      all other rows in force are past, and dated rows not yet in force are future. */
  lemma OneCurrentPerSection(rows: seq<LinkedInstrument>, asOf: int, w: nat) returns (c: nat)
    requires w < |rows| && EffectiveBy(rows[w], asOf)
    ensures c < |rows| && DatedCurrent(rows, asOf, GroupOf(rows[w]), c)
    ensures forall i :: 0 <= i < |rows| && DatedCurrent(rows, asOf, GroupOf(rows[w]), i) ==> i == c
    ensures forall i :: 0 <= i < |rows| && GroupOf(rows[i]) == GroupOf(rows[w]) && EffectiveBy(rows[i], asOf) && i != c ==>
      && StatusOf(rows, asOf, i) == Past
      && rows[i].effectiveFrom.value <= rows[c].effectiveFrom.value
      && (rows[i].effectiveFrom.value == rows[c].effectiveFrom.value ==> i < c)
    ensures forall i :: 0 <= i < |rows| && rows[i].effectiveFrom.Some? && !EffectiveBy(rows[i], asOf) ==>
      StatusOf(rows, asOf, i) == Future
  {
    var key := GroupOf(rows[w]);
    c := LatestExists(rows, asOf, key, |rows|, w);
    forall i | 0 <= i < |rows| && GroupOf(rows[i]) == key && EffectiveBy(rows[i], asOf)
      ensures StatusOf(rows, asOf, i) == if i == c then Current else Past
    {
      if i != c {
        assert Supersedes(rows, asOf, c, i);
      } else if j :| 0 <= j < |rows| && Supersedes(rows, asOf, j, i) {
        assert false;
      }
    }
  }

  function Rank(s: Status): int { match s case Past => 2 case Current => 1 case Future => 0 case NoStatus => 0 }

  /** As asOf grows a dated row only moves future, current, past. */
  lemma StatusMovesForward(rows: seq<LinkedInstrument>, asOf: int, later: int, i: nat)
    requires i < |rows| && rows[i].effectiveFrom.Some? && asOf <= later
    ensures Rank(StatusOf(rows, asOf, i)) <= Rank(StatusOf(rows, later, i))
  {
    if j :| 0 <= j < |rows| && Supersedes(rows, asOf, j, i) {
      assert Supersedes(rows, later, j, i);
    }
  }

  /** What holds between any two kept rows of the input holds between any two rows of the output. */
  lemma {:induction false} KeepPairs(
    rows: seq<LinkedInstrument>, p: LinkedInstrument -> bool, r: (LinkedInstrument, LinkedInstrument) -> bool)
    requires forall i, j :: 0 <= i < j < |rows| && p(rows[i]) && p(rows[j]) ==> r(rows[i], rows[j])
    ensures forall a, b :: 0 <= a < b < |Keep(rows, p)| ==> r(Keep(rows, p)[a], Keep(rows, p)[b])
  {
    if rows != [] {
      var k := |rows| - 1;
      var front := rows[..k];
      var kept := Keep(front, p);
      KeepPairs(front, p, r);
      KeepContents(front, p);
      if p(rows[k]) {
        forall a | 0 <= a < |kept| ensures r(kept[a], rows[k]) {
          assert kept[a] in kept;
          var i :| 0 <= i < k && front[i] == kept[a];
          assert rows[i] == front[i];
        }
      }
    }
  }

  function DatedApart(): (LinkedInstrument, LinkedInstrument) -> bool {
    (x: LinkedInstrument, y: LinkedInstrument) => x.effectiveFrom.Some? && y.effectiveFrom.Some? ==> GroupOf(x) != GroupOf(y)
  }

  /** A bundle without past rows holds at most one dated row per section. */
  lemma BundleHoldsOneDatedPerSection(rows: seq<LinkedInstrument>, asOf: int)
    ensures var bundle := Keep(Annotated(rows, asOf), row => IsBundleMember(row, false));
      forall a, b :: 0 <= a < b < |bundle| && bundle[a].effectiveFrom.Some? && bundle[b].effectiveFrom.Some? ==>
        GroupOf(bundle[a]) != GroupOf(bundle[b])
  {
    var all := Annotated(rows, asOf);
    var member := (row: LinkedInstrument) => IsBundleMember(row, false);
    forall i, j | 0 <= i < j < |all| && member(all[i]) && member(all[j]) ensures DatedApart()(all[i], all[j]) {
      if all[i].effectiveFrom.Some? && all[j].effectiveFrom.Some? {
        assert DatedCurrent(rows, asOf, GroupOf(rows[i]), i) && DatedCurrent(rows, asOf, GroupOf(rows[j]), j);
        var c := OneCurrentPerSection(rows, asOf, i);
      }
    }
    KeepPairs(all, member, DatedApart());
    var bundle := Keep(all, member);
    assert forall a, b :: 0 <= a < b < |bundle| ==> DatedApart()(bundle[a], bundle[b]);
  }

  // ---------- on the dates alone ----------

  /** The section a hint names; blank and "*" both name none. */
  function SectionOf(hint: string): string {
    if Text.TrimSpace(hint) == "*" then "" else Text.TrimSpace(hint)
  }

  lemma SameSection(x: LinkedInstrument, y: LinkedInstrument)
    ensures GroupOf(x) == GroupOf(y) <==> SectionOf(x.sectionHint) == SectionOf(y.sectionHint)
  {
  }

  /** Row j of the same section is dated no later than asOf and later than row i, or alike and further down. */
  predicate TakesOver(rows: seq<LinkedInstrument>, asOf: int, j: nat, i: nat)
    requires i < |rows| && j < |rows| && rows[i].effectiveFrom.Some?
  {
    && SectionOf(rows[j].sectionHint) == SectionOf(rows[i].sectionHint)
    && rows[j].effectiveFrom.Some? && rows[j].effectiveFrom.value <= asOf
    && (rows[j].effectiveFrom.value > rows[i].effectiveFrom.value
        || (rows[j].effectiveFrom.value == rows[i].effectiveFrom.value && j > i))
  }

  lemma SupersedesMeaning(rows: seq<LinkedInstrument>, asOf: int, j: nat, i: nat)
    requires i < |rows| && j < |rows| && rows[i].effectiveFrom.Some?
    ensures Supersedes(rows, asOf, j, i) <==> TakesOver(rows, asOf, j, i)
  {
    SameSection(rows[j], rows[i]);
  }

  /** A row without a date keeps its status. A dated row is future before its day; from then on it is
      past once a row of its section with a later day, or with the same day and further down, is in force
      too, and current until then. */
  lemma StatusByDates(rows: seq<LinkedInstrument>, asOf: int, i: nat)
    requires i < |rows|
    ensures Annotated(rows, asOf)[i].status ==
            if rows[i].effectiveFrom.None? then rows[i].status
            else if rows[i].effectiveFrom.value > asOf then Future
            else if exists j :: 0 <= j < |rows| && TakesOver(rows, asOf, j, i) then Past
            else Current
  {
    if rows[i].effectiveFrom.Some? {
      forall j | 0 <= j < |rows| { SupersedesMeaning(rows, asOf, j, i); }
    }
  }

  /** A bundle holds the current rows, past ones on request, and undated ones discovered with high
      confidence; a response holds all but past ones. */
  lemma MembersByStatus(rows: seq<LinkedInstrument>, includePast: bool, row: LinkedInstrument)
    ensures row in Keep(rows, x => IsBundleMember(x, includePast)) <==>
      row in rows && (row.status == Current || (row.status == Past && includePast) ||
                      (row.status == NoStatus && row.source == "discovered" && row.confidence == "high"))
    ensures row in Keep(rows, (x: LinkedInstrument) => includePast || x.status != Past) <==>
      row in rows && (includePast || row.status != Past)
  {
    KeepContents(rows, x => IsBundleMember(x, includePast));
    KeepContents(rows, (x: LinkedInstrument) => includePast || x.status != Past);
  }
}
