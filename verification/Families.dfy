/** Slug families: the newest edition behind a prefix, and discovered editions it makes obsolete
    (internal/instruments/family.go, internal/discovery/family_prefix.go). */
module Families {
  import opened Domain
  import Chain
  import Text

  datatype FamilyRow = FamilyRow(consumerParentID: string, slugPrefix: string, sectionHint: string, notes: string)

  // ---------- the year of a path ----------

  predicate FourDigits(s: string) { |s| == 4 && forall i :: 0 <= i < 4 ==> Text.IsDigit(s[i]) }

  function Digit(c: char): int { c as int - '0' as int }

  /** A year from 1000 to 9999 written with four digits. */
  function Year(s: string): Option<nat> {
    if FourDigits(s) && s[0] != '0' then
      assert Text.IsDigit(s[0]) && Text.IsDigit(s[1]) && Text.IsDigit(s[2]) && Text.IsDigit(s[3]);
      Some(1000 * Digit(s[0]) + 100 * Digit(s[1]) + 10 * Digit(s[2]) + Digit(s[3]))
    else None
  }

  /** yearFromPrefixPath: the prefix followed by a year alone, or any path ending in '_' and a year. */
  function YearFromPrefixPath(path: string, prefix: string): Option<nat> {
    if !Text.HasPrefix(path, prefix) then None
    else if Year(path[|prefix|..]).Some? then Year(path[|prefix|..])
    else if |path| >= 5 && path[|path| - 5] == '_' then Year(path[|path| - 4..])
    else None
  }

  function PathOf(law: Law): string { Text.TrimSpace(law.giiPath) }

  function YearOf(law: Law, prefix: string): Option<nat> {
    if PathOf(law) == "" then None else YearFromPrefixPath(PathOf(law), prefix)
  }

  lemma YearInRange(s: string)
    ensures Year(s).Some? ==> 1000 <= Year(s).value <= 9999
  {
    if Year(s).Some? { assert Text.IsDigit(s[0]) && Text.IsDigit(s[1]) && Text.IsDigit(s[2]) && Text.IsDigit(s[3]); }
  }

  lemma YearOfInRange(law: Law, prefix: string)
    ensures YearOf(law, prefix).Some? ==> 1000 <= YearOf(law, prefix).value <= 9999
  {
    var path := PathOf(law);
    if Text.HasPrefix(path, prefix) { YearInRange(path[|prefix|..]); }
    if |path| >= 5 { YearInRange(path[|path| - 4..]); }
  }

  // ---------- LatestSlugByPrefix ----------

  /** The position of the highest year among the years given, the first of equals. */
  function Newest(years: seq<Option<nat>>): (i: Option<nat>)
    ensures i.Some? ==> i.value < |years| && years[i.value].Some?
  {
    if years == [] then None
    else
      var k := |years| - 1;
      var front := Newest(years[..k]);
      if years[k].Some? && (front.None? || years[k].value > years[front.value].value) then Some(k) else front
  }

  lemma {:induction false} NewestExact(years: seq<Option<nat>>)
    ensures Newest(years).None? <==> forall j :: 0 <= j < |years| ==> years[j].None?
    ensures Newest(years).Some? ==>
      forall j :: 0 <= j < |years| && years[j].Some? ==>
        && years[j].value <= years[Newest(years).value].value
        && (j < Newest(years).value ==> years[j].value < years[Newest(years).value].value)
  {
    if years != [] {
      var k := |years| - 1;
      NewestExact(years[..k]);
      assert forall j :: 0 <= j < k ==> years[..k][j] == years[j];
      assert years[k] == years[..][k];
    }
  }

  lemma NewestStep(years: seq<Option<nat>>, i: nat)
    requires i < |years|
    ensures Newest(years[..i + 1]) ==
            var best := Newest(years[..i]);
            if years[i].Some? && (best.None? || years[i].value > years[best.value].value) then Some(i) else best
  {
    assert years[..i + 1][..i] == years[..i];
  }

  function Years(laws: seq<Law>, prefix: string): (years: seq<Option<nat>>)
    ensures |years| == |laws|
  {
    seq(|laws|, i requires 0 <= i < |laws| => YearOf(laws[i], prefix))
  }

  function LatestSlug(laws: seq<Law>, prefix: string): Option<string> {
    var best := Newest(Years(laws, prefix));
    if prefix == "" || best.None? then None else Some(PathOf(laws[best.value]))
  }

  method ReadYear(law: Law, prefix: string) returns (path: string, year: Option<nat>)
    ensures path == PathOf(law) && year == YearOf(law, prefix)
    ensures path == "" ==> year.None?
    ensures year.Some? ==> year.value >= 1000
  {
    YearOfInRange(law, prefix);
    path := PathOf(law);
    year := if path == "" then None else YearFromPrefixPath(path, prefix);
  }

  method LatestSlugByPrefix(laws: seq<Law>, prefix: string) returns (slug: string, ok: bool)
    ensures LatestSlug(laws, prefix) == if ok then Some(slug) else None
  {
    slug, ok := "", false;
    if prefix == "" || |laws| == 0 { return; }
    var bestYear := 0;
    ghost var years, best := Years(laws, prefix), None;
    for i := 0 to |laws|
      invariant best == Newest(years[..i]) && ok == best.Some?
      invariant if ok then years[best.value] == Some(bestYear) && slug == PathOf(laws[best.value]) else bestYear == 0
    {
      var path, year := ReadYear(laws[i], prefix);
      NewestStep(years, i);
      assert years[i] == year;
      if path == "" { continue; }
      if year.None? || year.value <= bestYear { continue; }
      bestYear := year.value;
      slug := path;
      ok := true;
      best := Some(i);
    }
    assert years[..|laws|] == years;
  }

  /** The slug belongs to the prefix with a year no other law of the catalog exceeds. */
  lemma LatestIsNewest(laws: seq<Law>, prefix: string, j: nat)
    requires LatestSlug(laws, prefix).Some? && j < |laws|
    ensures var year := YearFromPrefixPath(LatestSlug(laws, prefix).value, prefix);
      && year.Some?
      && (exists i :: 0 <= i < |laws| && PathOf(laws[i]) == LatestSlug(laws, prefix).value)
      && (YearOf(laws[j], prefix).Some? ==> YearOf(laws[j], prefix).value <= year.value)
  {
    var years := Years(laws, prefix);
    NewestExact(years);
    var i := Newest(years).value;
    assert years[i] == YearOf(laws[i], prefix) && years[j] == YearOf(laws[j], prefix);
  }

  // ---------- ExpandForParent ----------

  function RowFor(parentKey: string, row: FamilyRow, slug: string): LinkedInstrument {
    LinkedInstrument(parentKey, "verordnung", slug, row.notes, None, row.sectionHint, NoStatus, Chain.COVERAGE_SECTION, "", "", "", "")
  }

  /** The newest edition of every family that has one with a usable slug. */
  function Expanded(parentKey: string, rows: seq<FamilyRow>, laws: seq<Law>, validSlug: string -> bool): seq<LinkedInstrument> {
    Flat(Edition(parentKey, laws, validSlug), rows)
  }

  /** The newest edition of one family, if it has a usable one. */
  function Edition(parentKey: string, laws: seq<Law>, validSlug: string -> bool): FamilyRow -> seq<LinkedInstrument> {
    (row: FamilyRow) =>
      var slug := LatestSlug(laws, row.slugPrefix);
      if slug.Some? && validSlug(slug.value) then [RowFor(parentKey, row, slug.value)] else []
  }

  function Flat(of: FamilyRow -> seq<LinkedInstrument>, rows: seq<FamilyRow>): seq<LinkedInstrument> {
    if rows == [] then [] else Flat(of, rows[..|rows| - 1]) + of(rows[|rows| - 1])
  }

  lemma {:induction false} FlatMembers(of: FamilyRow -> seq<LinkedInstrument>, rows: seq<FamilyRow>)
    ensures forall x :: x in Flat(of, rows) <==> exists i :: 0 <= i < |rows| && x in of(rows[i])
  {
    if rows != [] {
      var n := |rows| - 1;
      FlatMembers(of, rows[..n]);
      assert forall i :: 0 <= i < n ==> rows[..n][i] == rows[i];
    }
  }

  lemma ExpandedHasEdition(
    parentKey: string, rows: seq<FamilyRow>, laws: seq<Law>, validSlug: string -> bool, r: nat, x: LinkedInstrument)
    requires r < |rows| && x in Edition(parentKey, laws, validSlug)(rows[r])
    ensures x in Expanded(parentKey, rows, laws, validSlug)
  {
    FlatMembers(Edition(parentKey, laws, validSlug), rows);
  }

  method ExpandForParent(parentKey: string, rows: seq<FamilyRow>, laws: seq<Law>, validSlug: string -> bool)
    returns (out: seq<LinkedInstrument>)
    ensures out == Expanded(parentKey, rows, laws, validSlug)
  {
    out := [];
    for i := 0 to |rows|
      invariant out == Expanded(parentKey, rows[..i], laws, validSlug)
    {
      assert rows[..i + 1][..i] == rows[..i];
      var slug, ok := LatestSlugByPrefix(laws, rows[i].slugPrefix);
      if !ok || !validSlug(slug) { continue; }
      out := out + [RowFor(parentKey, rows[i], slug)];
    }
    assert rows[..|rows|] == rows;
  }

  ghost predicate FromFamily(parentKey: string, rows: seq<FamilyRow>, laws: seq<Law>, li: LinkedInstrument) {
    exists i :: 0 <= i < |rows| && LatestSlug(laws, rows[i].slugPrefix).Some? &&
      li == RowFor(parentKey, rows[i], LatestSlug(laws, rows[i].slugPrefix).value)
  }

  lemma EditionMeaning(parentKey: string, row: FamilyRow, laws: seq<Law>, validSlug: string -> bool, x: LinkedInstrument)
    requires x in Edition(parentKey, laws, validSlug)(row)
    ensures LatestSlug(laws, row.slugPrefix).Some? && x == RowFor(parentKey, row, LatestSlug(laws, row.slugPrefix).value)
    ensures x.parentLawID == parentKey && validSlug(x.giiSlug)
  {
    var slug := LatestSlug(laws, row.slugPrefix);
    assert Edition(parentKey, laws, validSlug)(row) ==
           if slug.Some? && validSlug(slug.value) then [RowFor(parentKey, row, slug.value)] else [];
  }

  lemma ExpandedFromFamilies(
    parentKey: string, rows: seq<FamilyRow>, laws: seq<Law>, validSlug: string -> bool)
    ensures forall x :: x in Expanded(parentKey, rows, laws, validSlug) ==>
      x.parentLawID == parentKey && validSlug(x.giiSlug) && FromFamily(parentKey, rows, laws, x)
  {
    FlatMembers(Edition(parentKey, laws, validSlug), rows);
    forall x | x in Expanded(parentKey, rows, laws, validSlug)
      ensures x.parentLawID == parentKey && validSlug(x.giiSlug) && FromFamily(parentKey, rows, laws, x)
    {
      var i :| 0 <= i < |rows| && x in Edition(parentKey, laws, validSlug)(rows[i]);
      EditionMeaning(parentKey, rows[i], laws, validSlug, x);
    }
  }

  // ---------- FilterDiscoveredByFamilyPrefixes ----------

  ghost predicate UnderFamily(slug: string, prefixes: seq<string>) {
    exists i :: 0 <= i < |prefixes| && prefixes[i] != "" && Text.HasPrefix(slug, prefixes[i])
  }

  /** A slug is dropped when some family covers it and it is not the edition kept; which prefix matches
      first does not matter. */
  method ShouldDrop(slug: string, prefixes: seq<string>, keepSlugs: set<string>) returns (drop: bool)
    ensures drop <==> UnderFamily(slug, prefixes) && slug !in keepSlugs
  {
    for i := 0 to |prefixes|
      invariant !UnderFamily(slug, prefixes[..i])
    {
      if prefixes[i] == "" || !Text.HasPrefix(slug, prefixes[i]) { continue; }
      assert UnderFamily(slug, prefixes);
      return slug !in keepSlugs;
    }
    assert prefixes[..|prefixes|] == prefixes;
    drop := false;
  }

  ghost function Survives(prefixes: seq<string>, keepSlugs: set<string>): LinkedInstrument -> bool {
    (li: LinkedInstrument) => !UnderFamily(li.giiSlug, prefixes) || li.giiSlug in keepSlugs
  }

  ghost function Surviving(discovered: seq<LinkedInstrument>, prefixes: seq<string>, keepSlugs: set<string>): seq<LinkedInstrument> {
    Chain.Keep(discovered, Survives(prefixes, keepSlugs))
  }

  method FilterDiscoveredByFamilyPrefixes(discovered: seq<LinkedInstrument>, prefixes: seq<string>, keepSlugs: set<string>)
    returns (out: seq<LinkedInstrument>)
    ensures out == Surviving(discovered, prefixes, keepSlugs)
  {
    if |discovered| == 0 { return []; }
    if |prefixes| == 0 {
      Chain.KeepAll(discovered, Survives(prefixes, keepSlugs));
      return discovered;
    }
    out := [];
    for i := 0 to |discovered|
      invariant out == Surviving(discovered[..i], prefixes, keepSlugs)
    {
      assert discovered[..i + 1][..i] == discovered[..i];
      var drop := ShouldDrop(discovered[i].giiSlug, prefixes, keepSlugs);
      if drop { continue; }
      out := out + [discovered[i]];
    }
    assert discovered[..|discovered|] == discovered;
  }

  // ---------- years as they are written ----------

  /** A printed year reads back to itself: nothing but a four-digit number from 1000 on is a year. */
  lemma YearPrinted(y: nat)
    requires 1000 <= y <= 9999
    ensures Year(Text.Itoa(y)) == Some(y) && |Text.Itoa(y)| == 4
  {
    var a, b := y / 1000, y / 100 % 10;
    var c, d := y / 10 % 10, y % 10;
    assert y / 10 / 10 == y / 100 && y / 100 / 10 == y / 1000;
    assert Text.ItoaNat(a) == [Text.DigitChar(a)];
    assert Text.ItoaNat(y / 100) == [Text.DigitChar(a), Text.DigitChar(b)];
    assert Text.ItoaNat(y / 10) == [Text.DigitChar(a), Text.DigitChar(b), Text.DigitChar(c)];
    assert Text.Itoa(y) == [Text.DigitChar(a), Text.DigitChar(b), Text.DigitChar(c), Text.DigitChar(d)];
    assert y == 1000 * a + 100 * b + 10 * c + d;
  }

  lemma FourDigitsUnique(a: int, b: int, c: int, d: int, a': int, b': int, c': int, d': int)
    requires 0 <= a < 10 && 0 <= b < 10 && 0 <= c < 10 && 0 <= d < 10
    requires 0 <= a' < 10 && 0 <= b' < 10 && 0 <= c' < 10 && 0 <= d' < 10
    requires 1000 * a + 100 * b + 10 * c + d == 1000 * a' + 100 * b' + 10 * c' + d'
    ensures a == a' && b == b' && c == c' && d == d'
  {
  }

  lemma YearInjective(s: string, t: string)
    requires Year(s).Some? && Year(s) == Year(t)
    ensures s == t
  {
    assert Text.IsDigit(s[0]) && Text.IsDigit(s[1]) && Text.IsDigit(s[2]) && Text.IsDigit(s[3]);
    assert Text.IsDigit(t[0]) && Text.IsDigit(t[1]) && Text.IsDigit(t[2]) && Text.IsDigit(t[3]);
    FourDigitsUnique(Digit(s[0]), Digit(s[1]), Digit(s[2]), Digit(s[3]), Digit(t[0]), Digit(t[1]), Digit(t[2]), Digit(t[3]));
    assert s == [s[0], s[1], s[2], s[3]] && t == [t[0], t[1], t[2], t[3]];
  }

  /** Whatever reads as a year is that year printed. */
  lemma YearIsPrinted(s: string)
    requires Year(s).Some?
    ensures s == Text.Itoa(Year(s).value)
  {
    YearInRange(s);
    YearPrinted(Year(s).value);
    YearInjective(s, Text.Itoa(Year(s).value));
  }

  /** A slug made of the prefix and a year has that year, and so has one that puts more between them and
      an underscore before the year. */
  lemma EditionYear(prefix: string, middle: string, y: nat)
    requires 1000 <= y <= 9999
    ensures YearFromPrefixPath(prefix + Text.Itoa(y), prefix) == Some(y)
    ensures YearFromPrefixPath(prefix + middle + "_" + Text.Itoa(y), prefix) == Some(y)
  {
    YearPrinted(y);
    var short, long := prefix + Text.Itoa(y), prefix + middle + "_" + Text.Itoa(y);
    assert short[|prefix|..] == Text.Itoa(y);
    assert long[|prefix|..] == middle + "_" + Text.Itoa(y);
    assert long[|long| - 5] == '_' && long[|long| - 4..] == Text.Itoa(y);
    assert prefix <= long;
  }
}
