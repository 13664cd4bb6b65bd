/** Which linked ordinances a law has: seeds, the newest family member and discovered edges
    (internal/discovery/merge.go and family_prefix.go, internal/instruments/family.go, and the two
    places that put them together in internal/service/service.go and internal/sync/orchestrator.go). */
module Linked {
  import opened Domain
  import Text

  const SEEDED := "seeded"
  const DISCOVERED := "discovered"
  const HIGH := "high"

  // ---------- Merge: specification ----------

  function LinkKey(key: string -> string, parent: string, slug: string): string { key(parent) + ['|'] + slug }

  function KeyOf(key: string -> string, row: LinkedInstrument): string {
    LinkKey(key, row.parentLawID, row.giiSlug)
  }

  function Keys(key: string -> string, rows: seq<LinkedInstrument>): seq<string> {
    seq(|rows|, i requires 0 <= i < |rows| => KeyOf(key, rows[i]))
  }

  /** Of several seeds with one key the last stands. */
  function SeedFor(key: string -> string, seeded: seq<LinkedInstrument>, k: string): Option<LinkedInstrument> {
    if seeded == [] then None
    else
      var last := seeded[|seeded| - 1];
      if KeyOf(key, last) == k then Some(last.(source := SEEDED)) else SeedFor(key, seeded[..|seeded| - 1], k)
  }

  function WithSource(row: LinkedInstrument): LinkedInstrument {
    if row.source == "" then row.(source := DISCOVERED) else row
  }

  /** Of several high-confidence discovered rows with one key the first stands. */
  function DiscoveredFor(key: string -> string, discovered: seq<LinkedInstrument>, k: string): Option<LinkedInstrument> {
    if discovered == [] then None
    else
      var last := discovered[|discovered| - 1];
      var front := DiscoveredFor(key, discovered[..|discovered| - 1], k);
      if front.Some? then front
      else if last.confidence == HIGH && KeyOf(key, last) == k then Some(WithSource(last))
      else None
  }

  function Winner(key: string -> string, seeded: seq<LinkedInstrument>, discovered: seq<LinkedInstrument>, k: string)
    : Option<LinkedInstrument>
  {
    if SeedFor(key, seeded, k).Some? then SeedFor(key, seeded, k) else DiscoveredFor(key, discovered, k)
  }

  /** One row per key, ascending by key, the winner of its key. */
  ghost predicate IsMerge(
    key: string -> string, seeded: seq<LinkedInstrument>, discovered: seq<LinkedInstrument>, out: seq<LinkedInstrument>)
  {
    && Text.StrictlySorted(Keys(key, out))
    && (forall k :: k in Keys(key, out) <==> Winner(key, seeded, discovered, k).Some?)
    && (forall i :: 0 <= i < |out| ==> Winner(key, seeded, discovered, KeyOf(key, out[i])) == Some(out[i]))
  }

  function At(m: map<string, LinkedInstrument>, k: string): Option<LinkedInstrument> {
    if k in m then Some(m[k]) else None
  }

  // ---------- Merge ----------

  lemma {:induction false} SeedForExact(key: string -> string, seeded: seq<LinkedInstrument>, k: string)
    ensures SeedFor(key, seeded, k).Some? ==>
      exists i :: 0 <= i < |seeded| && KeyOf(key, seeded[i]) == k && SeedFor(key, seeded, k).value == seeded[i].(source := SEEDED)
    ensures SeedFor(key, seeded, k).None? ==> forall i :: 0 <= i < |seeded| ==> KeyOf(key, seeded[i]) != k
  {
    if seeded != [] {
      var n := |seeded| - 1;
      SeedForExact(key, seeded[..n], k);
      assert forall i :: 0 <= i < n ==> seeded[..n][i] == seeded[i];
    }
  }

  lemma {:induction false} DiscoveredForExact(key: string -> string, discovered: seq<LinkedInstrument>, k: string)
    ensures DiscoveredFor(key, discovered, k).Some? ==>
      exists i :: 0 <= i < |discovered| && KeyOf(key, discovered[i]) == k && discovered[i].confidence == HIGH &&
        DiscoveredFor(key, discovered, k).value == WithSource(discovered[i])
    ensures DiscoveredFor(key, discovered, k).None? ==>
      forall i :: 0 <= i < |discovered| && discovered[i].confidence == HIGH ==> KeyOf(key, discovered[i]) != k
  {
    if discovered != [] {
      var n := |discovered| - 1;
      DiscoveredForExact(key, discovered[..n], k);
      assert forall i :: 0 <= i < n ==> discovered[..n][i] == discovered[i];
    }
  }

  lemma WinnerHasKey(
    key: string -> string, seeded: seq<LinkedInstrument>, discovered: seq<LinkedInstrument>, k: string)
    ensures Winner(key, seeded, discovered, k).Some? ==> KeyOf(key, Winner(key, seeded, discovered, k).value) == k
  {
    SeedForExact(key, seeded, k);
    DiscoveredForExact(key, discovered, k);
  }

  lemma WinnerSnoc(
    key: string -> string, seeded: seq<LinkedInstrument>, front: seq<LinkedInstrument>, li: LinkedInstrument, k: string)
    ensures Winner(key, seeded, front + [li], k) ==
            if Winner(key, seeded, front, k).Some? then Winner(key, seeded, front, k)
            else if li.confidence == HIGH && KeyOf(key, li) == k then Some(WithSource(li))
            else None
  {
    assert (front + [li])[..|front|] == front;
  }

  method Merge(key: string -> string, seeded: seq<LinkedInstrument>, discovered: seq<LinkedInstrument>)
    returns (out: seq<LinkedInstrument>)
    ensures IsMerge(key, seeded, discovered, out)
  {
    var byKey: map<string, LinkedInstrument> := map[];
    for i := 0 to |seeded|
      invariant forall k :: At(byKey, k) == SeedFor(key, seeded[..i], k)
    {
      assert seeded[..i + 1][..i] == seeded[..i];
      byKey := byKey[KeyOf(key, seeded[i]) := seeded[i].(source := SEEDED)];
    }
    assert seeded[..|seeded|] == seeded;
    for i := 0 to |discovered|
      invariant forall k :: At(byKey, k) == Winner(key, seeded, discovered[..i], k)
    {
      var li := discovered[i];
      forall k { WinnerSnoc(key, seeded, discovered[..i], li, k); }
      assert discovered[..i + 1] == discovered[..i] + [li];
      if li.confidence != HIGH { continue; }
      assert At(byKey, KeyOf(key, li)) == Winner(key, seeded, discovered[..i], KeyOf(key, li));
      if KeyOf(key, li) in byKey { continue; }
      byKey := byKey[KeyOf(key, li) := WithSource(li)];
    }
    assert discovered[..|discovered|] == discovered;
    out := InKeyOrder(key, seeded, discovered, byKey);
  }

  /** The rows of the map by ascending key, in whatever order the map yields its keys. */
  method InKeyOrder(
    key: string -> string, ghost seeded: seq<LinkedInstrument>, ghost discovered: seq<LinkedInstrument>,
    byKey: map<string, LinkedInstrument>)
    returns (out: seq<LinkedInstrument>)
    requires forall k :: At(byKey, k) == Winner(key, seeded, discovered, k)
    ensures IsMerge(key, seeded, discovered, out)
  {
    var keys := SortedKeys(byKey.Keys);
    out := [];
    for i := 0 to |keys|
      invariant |out| == i && forall j :: 0 <= j < i ==> out[j] == byKey[keys[j]] && KeyOf(key, out[j]) == keys[j]
    {
      assert At(byKey, keys[i]) == Some(byKey[keys[i]]);
      WinnerHasKey(key, seeded, discovered, keys[i]);
      out := out + [byKey[keys[i]]];
    }
    assert Keys(key, out) == keys;
    forall k ensures k in Keys(key, out) <==> Winner(key, seeded, discovered, k).Some? {
      assert At(byKey, k) == Winner(key, seeded, discovered, k);
    }
  }

  method SortedKeys(keys: set<string>) returns (sorted: seq<string>)
    ensures Text.StrictlySorted(sorted) && forall k :: k in sorted <==> k in keys
  {
    var todo := keys;
    var listed: seq<string> := [];
    while todo != {}
      invariant todo <= keys && Text.Distinct(listed)
      invariant forall k :: k in keys <==> k in todo || k in listed
      invariant forall k :: k in listed ==> k !in todo
      decreases |todo|
    {
      var k :| k in todo;
      todo := todo - {k};
      listed := listed + [k];
    }
    sorted := Text.Sort(listed);
    Text.SortSorted(listed);
    assert forall k :: k in sorted <==> k in multiset(sorted);
    assert forall k :: k in listed <==> k in multiset(listed);
  }

  // ---------- Merge: laws ----------

  /** There is one merge: map iteration order leaves no trace. */
  lemma MergeUnique(
    key: string -> string, seeded: seq<LinkedInstrument>, discovered: seq<LinkedInstrument>,
    a: seq<LinkedInstrument>, b: seq<LinkedInstrument>)
    requires IsMerge(key, seeded, discovered, a) && IsMerge(key, seeded, discovered, b)
    ensures a == b
  {
    Text.SortedUnique(Keys(key, a), Keys(key, b));
    forall i | 0 <= i < |a| ensures a[i] == b[i] {
      assert Keys(key, a)[i] == Keys(key, b)[i];
    }
  }

  /** A separator-free parent key makes a link key name one parent and one slug. */
  lemma LinkKeyInjective(key: string -> string, p: string, s: string, q: string, t: string)
    requires '|' !in key(p) && '|' !in key(q) && LinkKey(key, p, s) == LinkKey(key, q, t)
    ensures key(p) == key(q) && s == t
  {
    Text.CutUnique(key(p), s, key(q), t, '|');
  }

  ghost predicate SeededWithKey(key: string -> string, seeded: seq<LinkedInstrument>, k: string) {
    exists i :: 0 <= i < |seeded| && KeyOf(key, seeded[i]) == k
  }

  ghost predicate FromSeed(seeded: seq<LinkedInstrument>, row: LinkedInstrument) {
    exists i :: 0 <= i < |seeded| && row == seeded[i].(source := SEEDED)
  }

  ghost predicate FromHigh(discovered: seq<LinkedInstrument>, row: LinkedInstrument) {
    exists i :: 0 <= i < |discovered| && discovered[i].confidence == HIGH && row == WithSource(discovered[i])
  }

  /** Seeds win: a row is a seed wherever a seed has its key, and otherwise a high-confidence
      discovered one. */
  lemma SeedsWin(
    key: string -> string, seeded: seq<LinkedInstrument>, discovered: seq<LinkedInstrument>, out: seq<LinkedInstrument>,
    i: nat)
    requires IsMerge(key, seeded, discovered, out) && i < |out|
    ensures if SeededWithKey(key, seeded, KeyOf(key, out[i])) then FromSeed(seeded, out[i]) else FromHigh(discovered, out[i])
  {
    var k := KeyOf(key, out[i]);
    SeedForExact(key, seeded, k);
    DiscoveredForExact(key, discovered, k);
  }

  ghost predicate Holds(key: string -> string, out: seq<LinkedInstrument>, parentKey: string, slug: string) {
    exists j :: 0 <= j < |out| && key(out[j].parentLawID) == parentKey && out[j].giiSlug == slug
  }

  lemma KeyHolds(key: string -> string, out: seq<LinkedInstrument>, row: LinkedInstrument)
    requires forall s :: '|' !in key(s)
    requires KeyOf(key, row) in Keys(key, out)
    ensures Holds(key, out, key(row.parentLawID), row.giiSlug)
  {
    var j :| 0 <= j < |out| && Keys(key, out)[j] == KeyOf(key, row);
    LinkKeyInjective(key, out[j].parentLawID, out[j].giiSlug, row.parentLawID, row.giiSlug);
  }

  /** Nothing is lost: the parent and slug of every seed and of every high-confidence discovered row
      are in the result. */
  lemma NothingLost(
    key: string -> string, seeded: seq<LinkedInstrument>, discovered: seq<LinkedInstrument>, out: seq<LinkedInstrument>)
    requires IsMerge(key, seeded, discovered, out) && forall s :: '|' !in key(s)
    ensures forall i :: 0 <= i < |seeded| ==> Holds(key, out, key(seeded[i].parentLawID), seeded[i].giiSlug)
    ensures forall i :: 0 <= i < |discovered| && discovered[i].confidence == HIGH ==>
      Holds(key, out, key(discovered[i].parentLawID), discovered[i].giiSlug)
  {
    forall i | 0 <= i < |seeded| ensures Holds(key, out, key(seeded[i].parentLawID), seeded[i].giiSlug) {
      SeedForExact(key, seeded, KeyOf(key, seeded[i]));
      KeyHolds(key, out, seeded[i]);
    }
    forall i | 0 <= i < |discovered| && discovered[i].confidence == HIGH
      ensures Holds(key, out, key(discovered[i].parentLawID), discovered[i].giiSlug)
    {
      DiscoveredForExact(key, discovered, KeyOf(key, discovered[i]));
      KeyHolds(key, out, discovered[i]);
    }
  }

  /** Seed j is the last of its key. */
  ghost predicate LastSeedAt(key: string -> string, seeded: seq<LinkedInstrument>, k: string, j: nat) {
    j < |seeded| && KeyOf(key, seeded[j]) == k && forall l :: j < l < |seeded| ==> KeyOf(key, seeded[l]) != k
  }

  /** Discovered row j is the first of its key among those found with high confidence. */
  ghost predicate FirstHighAt(key: string -> string, discovered: seq<LinkedInstrument>, k: string, j: nat) {
    && j < |discovered| && KeyOf(key, discovered[j]) == k && discovered[j].confidence == "high"
    && forall l :: 0 <= l < j && discovered[l].confidence == "high" ==> KeyOf(key, discovered[l]) != k
  }

  lemma {:induction false} SeedForIsLast(key: string -> string, seeded: seq<LinkedInstrument>, k: string, j: nat)
    requires LastSeedAt(key, seeded, k, j)
    ensures SeedFor(key, seeded, k) == Some(seeded[j].(source := "seeded"))
  {
    var n := |seeded| - 1;
    if j < n {
      assert KeyOf(key, seeded[n]) != k;
      SeedForIsLast(key, seeded[..n], k, j);
    }
  }

  lemma {:induction false} DiscoveredForIsFirst(key: string -> string, discovered: seq<LinkedInstrument>, k: string, j: nat)
    requires FirstHighAt(key, discovered, k, j)
    ensures DiscoveredFor(key, discovered, k) ==
            Some(if discovered[j].source == "" then discovered[j].(source := "discovered") else discovered[j])
  {
    var n := |discovered| - 1;
    if j < n {
      DiscoveredForIsFirst(key, discovered[..n], k, j);
    } else {
      DiscoveredForExact(key, discovered[..n], k);
      assert forall l :: 0 <= l < n ==> discovered[..n][l] == discovered[l];
    }
  }

  /** Which row stands for a key: the last seed of the key; without seeds, the first discovered with high
      confidence. */
  lemma RowOfKey(key: string -> string, seeded: seq<LinkedInstrument>, discovered: seq<LinkedInstrument>,
                 out: seq<LinkedInstrument>, i: nat, j: nat)
    requires IsMerge(key, seeded, discovered, out) && i < |out|
    ensures LastSeedAt(key, seeded, KeyOf(key, out[i]), j) ==> out[i] == seeded[j].(source := "seeded")
    ensures !SeededWithKey(key, seeded, KeyOf(key, out[i])) && FirstHighAt(key, discovered, KeyOf(key, out[i]), j) ==>
      out[i] == if discovered[j].source == "" then discovered[j].(source := "discovered") else discovered[j]
  {
    var k := KeyOf(key, out[i]);
    if LastSeedAt(key, seeded, k, j) { SeedForIsLast(key, seeded, k, j); }
    if !SeededWithKey(key, seeded, k) && FirstHighAt(key, discovered, k, j) {
      SeedForExact(key, seeded, k);
      DiscoveredForIsFirst(key, discovered, k, j);
    }
  }
}
