/** Label sets as map keys, for the Prometheus text exposition format 0.0.4
    (internal/metrics/registry.go: canonicalLabelKey, decodeLabelKey, IncCounter, SetGauge). */
module LabelKeys {
  import Text

  type Labels = map<string, string>

  predicate NameChar(c: char) { 'a' <= c <= 'z' || 'A' <= c <= 'Z' || c == '_' }

  /** labelKeyRE. */
  predicate ValidKey(k: string) {
    k != "" && NameChar(k[0]) && forall i :: 0 <= i < |k| ==> NameChar(k[i]) || Text.IsDigit(k[i])
  }

  /** metricNameRE also allows colons. */
  predicate ValidName(n: string) {
    && n != "" && (NameChar(n[0]) || n[0] == ':')
    && forall i :: 0 <= i < |n| ==> NameChar(n[i]) || n[i] == ':' || Text.IsDigit(n[i])
  }

  predicate ValidKeys(labels: Labels) { forall k :: k in labels ==> ValidKey(k) }

  /** No value holds the separator; '=' is allowed. */
  predicate Plain(labels: Labels) { forall k :: k in labels ==> '|' !in labels[k] }

  // ---------- specification ----------

  ghost predicate Lists(keys: seq<string>, labels: Labels) {
    Text.StrictlySorted(keys) && forall k :: k in keys <==> k in labels
  }

  function Part(k: string, v: string): string { k + ['='] + v }

  function Parts(keys: seq<string>, labels: Labels): (parts: seq<string>)
    requires forall k :: k in keys ==> k in labels
    ensures |parts| == |keys|
  {
    seq(|keys|, i requires 0 <= i < |keys| => assert keys[i] in keys; Part(keys[i], labels[keys[i]]))
  }

  /** The parts of all labels by ascending key, joined. */
  ghost predicate Encodes(key: string, labels: Labels) {
    exists keys :: Lists(keys, labels) && key == Text.Join(Parts(keys, labels), '|')
  }

  function Decoded(parts: seq<string>): Labels {
    if parts == [] then map[]
    else
      var front := Decoded(parts[..|parts| - 1]);
      var part := parts[|parts| - 1];
      var cut := Text.IndexOf(part, '=');
      if cut == |part| then front else front[part[..cut] := part[cut + 1..]]
  }

  function Decode(key: string): Labels { if key == "" then map[] else Decoded(Text.Split(key, '|')) }

  // ---------- the codec ----------

  lemma {:induction false} JoinSnoc(parts: seq<string>, part: string)
    ensures Text.Join(parts + [part], '|') == if parts == [] then part else Text.Join(parts, '|') + ['|'] + part
  {
    if parts != [] {
      JoinSnoc(parts[1..], part);
      assert (parts + [part])[1..] == parts[1..] + [part];
    }
  }

  /** canonicalLabelKey: an error for an invalid label name, else the key; the order in which the map
      yields its labels does not matter. */
  method CanonicalLabelKey(labels: Labels) returns (key: string, ok: bool)
    ensures ok == ValidKeys(labels)
    ensures ok ==> Encodes(key, labels)
  {
    var keys, valid := SortedValidKeys(labels);
    if !valid { return "", false; }
    key := JoinParts(Parts(keys, labels));
    ok := true;
  }

  /** The string builder loop. */
  method JoinParts(parts: seq<string>) returns (key: string)
    ensures key == Text.Join(parts, '|')
  {
    key := "";
    for i := 0 to |parts|
      invariant key == Text.Join(parts[..i], '|')
    {
      JoinSnoc(parts[..i], parts[i]);
      assert parts[..i + 1] == parts[..i] + [parts[i]];
      if i > 0 { key := key + ['|']; }
      key := key + parts[i];
    }
    assert parts[..|parts|] == parts;
  }

  method SortedValidKeys(labels: Labels) returns (keys: seq<string>, valid: bool)
    ensures valid == ValidKeys(labels)
    ensures valid ==> Lists(keys, labels)
  {
    var todo := labels.Keys;
    keys := [];
    while todo != {}
      invariant todo <= labels.Keys && Text.Distinct(keys)
      invariant forall k :: k in keys <==> k in labels && k !in todo
      invariant forall k :: k in keys ==> ValidKey(k)
      decreases |todo|
    {
      var k :| k in todo;
      if !ValidKey(k) { return [], false; }
      todo := todo - {k};
      keys := keys + [k];
    }
    ghost var listed := keys;
    keys := Text.Sort(keys);
    Text.SortSorted(listed);
    assert forall k :: k in keys <==> k in multiset(keys);
    assert forall k :: k in listed <==> k in multiset(listed);
    valid := true;
  }

  method DecodeLabelKey(key: string) returns (labels: Labels)
    ensures labels == Decode(key)
  {
    labels := map[];
    if key == "" { return; }
    var parts := Text.Split(key, '|');
    for i := 0 to |parts|
      invariant labels == Decoded(parts[..i])
    {
      assert parts[..i + 1][..i] == parts[..i];
      var cut := Text.IndexOf(parts[i], '=');
      if cut == |parts[i]| { continue; }
      labels := labels[parts[i][..cut] := parts[i][cut + 1..]];
    }
    assert parts[..|parts|] == parts;
  }

  // ---------- laws ----------

  /** A label set has one key. */
  lemma EncodesUnique(a: string, b: string, labels: Labels)
    requires Encodes(a, labels) && Encodes(b, labels)
    ensures a == b
  {
    var ks :| Lists(ks, labels) && a == Text.Join(Parts(ks, labels), '|');
    var ls :| Lists(ls, labels) && b == Text.Join(Parts(ls, labels), '|');
    Text.SortedUnique(ks, ls);
  }

  lemma ValidKeyIsClean(k: string)
    requires ValidKey(k)
    ensures '|' !in k && '=' !in k
  {
  }

  lemma DecodedSnoc(parts: seq<string>, k: string, v: string)
    requires '=' !in k
    ensures Decoded(parts + [Part(k, v)]) == Decoded(parts)[k := v]
  {
    Text.IndexOfCut(k, v, '=');
    assert Part(k, v)[..|k|] == k && Part(k, v)[|k| + 1..] == v;
    assert (parts + [Part(k, v)])[..|parts|] == parts;
  }

  lemma {:induction false} DecodedParts(keys: seq<string>, labels: Labels)
    requires forall k :: k in keys ==> k in labels && '=' !in k
    ensures Decoded(Parts(keys, labels)) == map k | k in keys :: labels[k]
  {
    if keys != [] {
      var n := |keys| - 1;
      DecodedParts(keys[..n], labels);
      DecodedSnoc(Parts(keys[..n], labels), keys[n], labels[keys[n]]);
      assert Parts(keys, labels) == Parts(keys[..n], labels) + [Part(keys[n], labels[keys[n]])];
      RestrictedSnoc(keys, labels);
    }
  }

  lemma RestrictedSnoc(keys: seq<string>, labels: Labels)
    requires keys != [] && forall k :: k in keys ==> k in labels
    ensures var n := |keys| - 1;
      (map k | k in keys :: labels[k]) == (map k | k in keys[..n] :: labels[k])[keys[n] := labels[keys[n]]]
  {
    assert keys == keys[..|keys| - 1] + [keys[|keys| - 1]];
  }

  lemma PartsAreClean(keys: seq<string>, labels: Labels)
    requires ValidKeys(labels) && Plain(labels) && forall k :: k in keys ==> k in labels
    ensures forall i :: 0 <= i < |keys| ==> '|' !in Parts(keys, labels)[i]
    ensures forall k :: k in keys ==> '=' !in k
  {
    forall k | k in keys ensures '=' !in k && '|' !in Part(k, labels[k]) { ValidKeyIsClean(k); }
    assert forall i :: 0 <= i < |keys| ==> keys[i] in keys;
  }

  lemma RoundTrip(key: string, labels: Labels)
    requires ValidKeys(labels) && Plain(labels) && Encodes(key, labels)
    ensures Decode(key) == labels
  {
    var keys :| Lists(keys, labels) && key == Text.Join(Parts(keys, labels), '|');
    var parts := Parts(keys, labels);
    if keys == [] {
      assert labels == map[] by { assert forall k :: k in labels ==> k in keys; }
    } else {
      PartsAreClean(keys, labels);
      Text.SplitJoin(parts, '|');
      NonEmptyKey(keys, labels);
      DecodedParts(keys, labels);
    }
  }

  lemma NonEmptyKey(keys: seq<string>, labels: Labels)
    requires Lists(keys, labels) && keys != []
    ensures Text.Join(Parts(keys, labels), '|') != ""
  {
    assert keys[0] in keys;
    assert Parts(keys, labels)[0] == Part(keys[0], labels[keys[0]]) != "";
  }

  lemma {:induction false} DecodedIsPlain(parts: seq<string>)
    requires forall i :: 0 <= i < |parts| ==> '|' !in parts[i]
    ensures Plain(Decoded(parts))
  {
    if parts != [] {
      DecodedIsPlain(parts[..|parts| - 1]);
    }
  }

  /** Decoding inverts encoding exactly when no label value holds '|'. */
  lemma RoundTripIff(key: string, labels: Labels)
    requires ValidKeys(labels) && Encodes(key, labels)
    ensures Decode(key) == labels <==> Plain(labels)
  {
    if Plain(labels) { RoundTrip(key, labels); }
    if key != "" { DecodedIsPlain(Text.Split(key, '|')); }
  }

  /** Distinct label sets never share a series. */
  lemma KeysDistinct(a: string, labels: Labels, b: string, labels': Labels)
    requires ValidKeys(labels) && Plain(labels) && Encodes(a, labels)
    requires ValidKeys(labels') && Plain(labels') && Encodes(b, labels')
    ensures a == b <==> labels == labels'
  {
    RoundTrip(a, labels);
    RoundTrip(b, labels');
    if labels == labels' { EncodesUnique(a, b, labels); }
  }

  /** With a '|' in a value two label sets can share one. */
  lemma SharedWithSeparator()
    ensures Encodes("a=1|b=2", map["a" := "1|b=2"]) && Encodes("a=1|b=2", map["a" := "1", "b" := "2"])
  {
    var one, two := map["a" := "1|b=2"], map["a" := "1", "b" := "2"];
    assert Lists(["a"], one) && Lists(["a", "b"], two);
    assert Part("a", "1|b=2") == "a=1|b=2" && Part("a", "1") == "a=1" && Part("b", "2") == "b=2";
    assert ["a", "b"][0] == "a" && ["a", "b"][1] == "b" && ["a"][0] == "a";
    assert Parts(["a"], one) == [Part("a", one["a"])];
    assert Parts(["a", "b"], two) == [Part("a", two["a"]), Part("b", two["b"])];
    assert Text.Join(["a=1", "b=2"], '|') == "a=1|b=2" by { JoinSnoc(["a=1"], "b=2"); assert ["a=1"] + ["b=2"] == ["a=1", "b=2"]; }
  }

  /** The value continues past a bar with another label, whose name is valid and later than k. */
  ghost predicate SplitsAt(k: string, v: string, x: string, k': string, y: string) {
    v == x + ['|'] + Part(k', y) && ValidKey(k') && Text.Less(k, k')
  }

  ghost predicate Splits(k: string, v: string) { exists x, k', y :: SplitsAt(k, v, x, k', y) }

  ghost predicate Shares(key: string, labels: Labels) {
    exists other :: other != labels && ValidKeys(other) && Encodes(key, other)
  }

  /** Two labels and more. */
  ghost predicate Several(labels: Labels) { exists a, b :: a in labels && b in labels && a != b }

  /** A joined list reads as one label whose value takes in all that follows. */
  lemma JoinAsPart(keys: seq<string>, labels: Labels) returns (tail: string)
    requires keys != [] && forall k :: k in keys ==> k in labels
    ensures keys[0] in labels && Text.Join(Parts(keys, labels), '|') == Part(keys[0], labels[keys[0]] + tail)
    ensures tail == if |keys| == 1 then "" else ['|'] + Text.Join(Parts(keys[1..], labels), '|')
  {
    var parts := Parts(keys, labels);
    assert keys[0] in keys && parts[0] == Part(keys[0], labels[keys[0]]);
    tail := if |keys| == 1 then "" else ['|'] + Text.Join(Parts(keys[1..], labels), '|');
    assert parts[1..] == Parts(keys[1..], labels);
    assert parts[0] + tail == Part(keys[0], labels[keys[0]] + tail);
  }

  ghost predicate Continues(h: string, tail: string) {
    exists k', y :: tail == ['|'] + Part(k', y) && ValidKey(k') && Text.Less(h, k')
  }

  /** The key of a label set reads as its first label continued by the others. */
  lemma FirstLabel(key: string, labels: Labels) returns (h: string, tail: string)
    requires ValidKeys(labels) && Encodes(key, labels) && labels != map[]
    ensures h in labels && key == Part(h, labels[h] + tail)
    ensures if tail == "" then labels == map[h := labels[h]] else Continues(h, tail)
  {
    var keys :| Lists(keys, labels) && key == Text.Join(Parts(keys, labels), '|');
    assert forall q :: q in labels <==> q in keys;
    h := keys[0];
    tail := JoinAsPart(keys, labels);
    if |keys| > 1 {
      assert keys[1] in keys && keys[1..][0] == keys[1];
      var more := JoinAsPart(keys[1..], labels);
      assert tail == ['|'] + Part(keys[1], labels[keys[1]] + more);
    }
  }

  /** Several labels can be read as one label with bars in its value. */
  lemma SeveralShare(key: string, labels: Labels)
    requires ValidKeys(labels) && Encodes(key, labels) && Several(labels)
    ensures Shares(key, labels)
  {
    var h, tail := FirstLabel(key, labels);
    SingleEncodes(h, labels[h] + tail);
  }

  lemma SingleEncodes(k: string, v: string)
    requires ValidKey(k)
    ensures ValidKeys(map[k := v]) && Encodes(Part(k, v), map[k := v])
  {
    assert Lists([k], map[k := v]);
    assert Parts([k], map[k := v]) == [Part(k, v)];
  }

  /** A value that continues with a later label can be read as two labels. */
  lemma SplitShares(k: string, v: string, x: string, k': string, y: string)
    requires ValidKey(k) && SplitsAt(k, v, x, k', y)
    ensures Shares(Part(k, v), map[k := v])
  {
    Text.LessTotal(k, k');
    var two := map[k := x, k' := y];
    assert Lists([k, k'], two);
    var parts := [Part(k, x), Part(k', y)];
    assert Parts([k, k'], two) == parts;
    assert parts[1..] == [Part(k', y)];
    assert Text.Join(parts, '|') == Part(k, v);
    assert ValidKeys(two) && k' !in map[k := v];
  }

  /** A single label that shares its key continues with a later label. */
  lemma SharedSingleSplits(k: string, v: string, other: Labels)
    requires ValidKey(k) && ValidKeys(other) && other != map[k := v] && Encodes(Part(k, v), other)
    ensures Splits(k, v)
  {
    if other == map[] {
      EncodesUnique(Part(k, v), "", other) by { assert Lists([], other) && Parts([], other) == []; }
      assert false;
    }
    var h, tail := FirstLabel(Part(k, v), other);
    ValidKeyIsClean(k);
    ValidKeyIsClean(h);
    assert tail == "" ==> other[h] + tail == other[h];
    Text.CutUnique(k, v, h, other[h] + tail, '=');
    var k', y :| tail == ['|'] + Part(k', y) && ValidKey(k') && Text.Less(h, k');
    assert SplitsAt(k, v, other[h], k', y);
  }

  lemma EmptyKeyIsNoLabel(other: Labels)
    requires Encodes("", other)
    ensures other == map[]
  {
    var keys :| Lists(keys, other) && "" == Text.Join(Parts(keys, other), '|');
    if keys != [] { NonEmptyKey(keys, other); }
    assert forall q :: q in other ==> q in keys;
  }

  /** A valid label set shares its key with another exactly when it has two labels or more, or its one
      value continues past a bar with a valid later name and an equals sign. Between sets without bars
      it never happens. */
  lemma SharesIff(key: string, labels: Labels)
    requires ValidKeys(labels) && Encodes(key, labels)
    ensures Shares(key, labels) <==> Several(labels) || exists k :: k in labels && Splits(k, labels[k])
  {
    if Several(labels) {
      SeveralShare(key, labels);
    } else if labels == map[] {
      EncodesUnique(key, "", labels) by { assert Lists([], labels) && Parts([], labels) == []; }
      forall other | Encodes(key, other) ensures other == map[] { EmptyKeyIsNoLabel(other); }
    } else {
      var k :| k in labels;
      assert labels == map[k := labels[k]];
      SingleEncodes(k, labels[k]);
      EncodesUnique(key, Part(k, labels[k]), labels);
      if other :| other != labels && ValidKeys(other) && Encodes(key, other) { SharedSingleSplits(k, labels[k], other); }
      if q :| q in labels && Splits(q, labels[q]) {
        var x, k', y :| SplitsAt(q, labels[q], x, k', y);
        SplitShares(k, labels[k], x, k', y);
      }
    }
  }

  // ---------- the registry ----------

  type Series = map<string, map<string, real>>

  function At(series: Series, name: string, key: string): real {
    if name in series && key in series[name] then series[name][key] else 0.0
  }

  /** The series stored for a name and a label set. */
  ghost predicate Reads(series: Series, name: string, labels: Labels, value: real) {
    exists key :: Encodes(key, labels) && value == At(series, name, key)
  }

  function Put(series: Series, name: string, key: string, value: real): Series {
    series[name := (if name in series then series[name] else map[])[key := value]]
  }

  class Registry {
    var counters: Series
    var gauges: Series

    constructor ()
      ensures counters == map[] && gauges == map[]
    {
      counters, gauges := map[], map[];
    }

    method IncCounter(name: string, labels: Labels, delta: real) returns (ok: bool, ghost key: string)
      modifies `counters
      ensures ok == (ValidName(name) && ValidKeys(labels))
      ensures if ok then Encodes(key, labels) && counters == Put(old(counters), name, key, At(old(counters), name, key) + delta)
              else counters == old(counters)
    {
      key := "";
      if !ValidName(name) { return false, key; }
      var k, valid := CanonicalLabelKey(labels);
      if !valid { return false, key; }
      counters := Put(counters, name, k, At(counters, name, k) + delta);
      ok, key := true, k;
    }

    method SetGauge(name: string, labels: Labels, value: real) returns (ok: bool, ghost key: string)
      modifies `gauges
      ensures ok == (ValidName(name) && ValidKeys(labels))
      ensures if ok then Encodes(key, labels) && gauges == Put(old(gauges), name, key, value) else gauges == old(gauges)
    {
      key := "";
      if !ValidName(name) { return false, key; }
      var k, valid := CanonicalLabelKey(labels);
      if !valid { return false, key; }
      gauges := Put(gauges, name, k, value);
      ok, key := true, k;
    }
  }

  /** Writing one series leaves what every other name and label set reads alone, and is what its own
      reads. */
  lemma SeriesSeparate(series: Series, name: string, labels: Labels, key: string, value: real,
                       n: string, other: Labels, read: real)
    requires ValidKeys(labels) && Plain(labels) && Encodes(key, labels)
    requires ValidKeys(other) && Plain(other)
    requires Reads(Put(series, name, key, value), n, other, read)
    ensures if n == name && other == labels then read == value else Reads(series, n, other, read)
  {
    var k :| Encodes(k, other) && read == At(Put(series, name, key, value), n, k);
    KeysDistinct(key, labels, k, other);
  }
}
