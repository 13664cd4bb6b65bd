/** The order of BGBl citations (internal/citation/parse.go). */
module Citation {
  import opened Domain
  import Text

  // ---------- numbers ----------

  /** The value of the leading digits of s, in 64-bit arithmetic. */
  function LeadingValue(s: string, acc: int): int {
    if s == [] || !Text.IsDigit(s[0]) then acc
    else LeadingValue(s[1..], Wrap64(acc * 10 + (s[0] as int - '0' as int)))
  }

  /** The issue number a citation names: leading digits, a letter suffix ignored. None when there
      is no positive leading value. */
  function IssueNum(s: string): Option<int> {
    if LeadingValue(s, 0) > 0 then Some(LeadingValue(s, 0)) else None
  }

  predicate IsLetter(c: char) { 'a' <= c <= 'z' || 'A' <= c <= 'Z' }

  /** How the feeds and the parser read a number: digits and at most one letter after them. */
  predicate IsIssueNumber(s: string) {
    && s != "" && Text.IsDigit(s[0])
    && (forall i :: 0 <= i < |s| - 1 ==> Text.IsDigit(s[i]))
    && (Text.IsDigit(s[|s| - 1]) || IsLetter(s[|s| - 1]))
  }

  predicate ZeroDigits(s: string) { forall i :: 0 <= i < |s| && Text.IsDigit(s[i]) ==> s[i] == '0' }

  function Pow10(n: nat): nat { if n == 0 then 1 else 10 * Pow10(n - 1) }

  predicate NumberTail(s: string) {
    && (forall i :: 0 <= i < |s| - 1 ==> Text.IsDigit(s[i]))
    && (s != "" ==> Text.IsDigit(s[|s| - 1]) || IsLetter(s[|s| - 1]))
  }

  lemma {:induction false} Pow10Fits(n: nat)
    requires n <= 18
    ensures 1 <= Pow10(n) <= Pow10(18)
    decreases 18 - n
  {
    if n < 18 { Pow10Fits(n + 1); }
    if n > 0 { Pow10Positive(n - 1); }
  }

  lemma {:induction false} Pow10Positive(n: nat)
    ensures Pow10(n) >= 1
  {
    if n > 0 { Pow10Positive(n - 1); }
  }

  lemma NextFits(acc: nat, digit: int, room: nat)
    requires acc < Pow10(room) && 0 <= digit < 10 && room < 18
    ensures acc * 10 + digit < Pow10(room + 1) && Wrap64(acc * 10 + digit) == acc * 10 + digit
  {
    Pow10Fits(room + 1);
    assert Pow10(6) == 1_000_000;
    assert Pow10(12) == 1_000_000_000_000;
  }

  /** With room for the digits to come nothing wraps, and only zeros leave nothing. */
  lemma {:induction false} LeadingValueGrows(s: string, acc: nat, room: nat)
    requires NumberTail(s) && room + |s| <= 18 && acc < Pow10(room)
    ensures LeadingValue(s, acc) >= acc
    ensures LeadingValue(s, acc) > 0 <==> acc > 0 || !ZeroDigits(s)
  {
    if s != [] && Text.IsDigit(s[0]) {
      var next := acc * 10 + (s[0] as int - '0' as int);
      NextFits(acc, s[0] as int - '0' as int, room);
      LeadingValueGrows(s[1..], next, room + 1);
      assert ZeroDigits(s) <==> s[0] == '0' && ZeroDigits(s[1..]) by {
        assert forall i :: 0 < i < |s| ==> s[i] == s[1..][i - 1];
      }
    } else if s != [] {
      assert |s| == 1;
    }
  }

  /** A number of at most 18 characters has no positive value exactly when all its digits are zeros. */
  lemma NoValueIffZero(s: string)
    requires IsIssueNumber(s) && |s| <= 18
    ensures IssueNum(s).None? <==> ZeroDigits(s)
  {
    LeadingValueGrows(s, 0, 0);
  }

  /** parseIssueNum. */
  method ParseIssueNum(s: string) returns (n: int, ok: bool)
    ensures IssueNum(s) == if ok then Some(n) else None
  {
    n := 0;
    var i := 0;
    while i < |s|
      invariant 0 <= i <= |s|
      invariant LeadingValue(s[i..], n) == LeadingValue(s, 0)
      invariant i == 0 ==> n == 0
    {
      if !Text.IsDigit(s[i]) {
        if i == 0 { return 0, false; }
        break;
      }
      n := Wrap64(n * 10 + (s[i] as int - '0' as int));
      i := i + 1;
    }
    ok := n > 0;
  }

  predicate AllDigits(s: string) { forall i :: 0 <= i < |s| ==> Text.IsDigit(s[i]) }

  function Digits(s: string): nat
    requires AllDigits(s)
  {
    Text.DecimalValue(s)
  }

  /** The value strconv.Atoi leaves when its error is ignored: 0 on malformed text, the nearest
      64-bit bound when out of range. */
  function AtoiOrBound(s: string): int {
    var neg := s != [] && s[0] == '-';
    var body := if s != [] && (s[0] == '-' || s[0] == '+') then s[1..] else s;
    if body == [] || !AllDigits(body) then 0
    else
      var n: int := Digits(body);
      if neg then (if n > -MIN_DURATION then MIN_DURATION else -n)
      else if n > MAX_DURATION then MAX_DURATION
      else n
  }

  // ---------- Compare ----------

  function Sign(x: int, y: int): int {
    if x < y then -1 else if x > y then 1 else 0
  }

  datatype Comparison = Comparison(cmp: int, ok: bool)

  /** Compare: -1 when a is older, 1 when newer; ok is false when the two are incomparable. */
  function Compare(a: StandCitation, b: StandCitation): Comparison {
    if a.year == 0 || b.year == 0 || a.teil == 0 || b.teil == 0 then Comparison(0, false)
    else if a.teil != b.teil then Comparison(0, false)
    else if a.year != b.year then Comparison(if a.year < b.year then -1 else 1, true)
    else if a.number != "" && b.number != "" && IssueNum(a.number).Some? && IssueNum(b.number).Some? then
      Comparison(Sign(IssueNum(a.number).value, IssueNum(b.number).value), true)
    else if a.page != "" && b.page != "" then
      Comparison(Sign(AtoiOrBound(a.page), AtoiOrBound(b.page)), true)
    else Comparison(0, false)
  }

  /** Swapping the arguments flips the sign and keeps the verdict on comparability, for all pairs. */
  lemma CompareAntisymmetric(a: StandCitation, b: StandCitation)
    ensures Compare(b, a).ok == Compare(a, b).ok
    ensures Compare(b, a).cmp == -Compare(a, b).cmp
    ensures !Compare(a, b).ok ==> Compare(a, b).cmp == 0
    ensures Compare(a, b).ok ==> a.teil == b.teil
  {
  }

  /** A citation with Teil, year and a usable issue number: the form the BGBl has had since 2023. */
  predicate Numbered(a: StandCitation) {
    a.teil != 0 && a.year != 0 && a.number != "" && IssueNum(a.number).Some?
  }

  /** The place of a numbered citation in its Teil. */
  function Position(a: StandCitation): (int, int)
    requires Numbered(a)
  {
    (a.year, IssueNum(a.number).value)
  }

  predicate LexLess(p: (int, int), q: (int, int)) {
    p.0 < q.0 || (p.0 == q.0 && p.1 < q.1)
  }

  /** On numbered citations of one Teil Compare is the lexicographic order on (year, number);
      across Teile it never answers. */
  lemma CompareLexicographic(a: StandCitation, b: StandCitation)
    requires Numbered(a) && Numbered(b)
    ensures Compare(a, b).ok <==> a.teil == b.teil
    ensures a.teil == b.teil ==>
      && (Compare(a, b).cmp < 0 <==> LexLess(Position(a), Position(b)))
      && (Compare(a, b).cmp > 0 <==> LexLess(Position(b), Position(a)))
      && (Compare(a, b).cmp == 0 <==> Position(a) == Position(b))
  {
  }

  /** Hence a total preorder on the numbered citations of a Teil. */
  lemma CompareTotalPreorder(a: StandCitation, b: StandCitation, c: StandCitation)
    requires Numbered(a) && Numbered(b) && Numbered(c) && a.teil == b.teil == c.teil
    ensures Compare(a, a) == Comparison(0, true)
    ensures Compare(a, b).cmp <= 0 || Compare(b, a).cmp <= 0
    ensures Compare(a, b).cmp <= 0 && Compare(b, c).cmp <= 0 ==> Compare(a, c).cmp <= 0
    ensures Compare(a, b).cmp <= 0 && Compare(b, c).cmp <= 0 && (Compare(a, b).cmp < 0 || Compare(b, c).cmp < 0)
            ==> Compare(a, c).cmp < 0
  {
    CompareLexicographic(a, b);
    CompareLexicographic(b, c);
    CompareLexicographic(a, c);
  }

  /** IssueID. */
  function IssueID(teil: int, year: int, number: string): string {
    "BGBl-" + (Text.Itoa(teil) + ['/'] + (Text.Itoa(year) + ['/'] + number))
  }

  /** Two citations share an issue id only when they are the same citation. */
  lemma IssueIDInjective(t1: int, y1: int, n1: string, t2: int, y2: int, n2: string)
    requires IssueID(t1, y1, n1) == IssueID(t2, y2, n2)
    ensures t1 == t2 && y1 == y2 && n1 == n2
  {
    var r1, r2 := Text.Itoa(y1) + ['/'] + n1, Text.Itoa(y2) + ['/'] + n2;
    var w1, w2 := Text.Itoa(t1) + ['/'] + r1, Text.Itoa(t2) + ['/'] + r2;
    assert w1 == ("BGBl-" + w1)[5..] == ("BGBl-" + w2)[5..] == w2;
    Text.ItoaFreeOf(t1, '/'); Text.ItoaFreeOf(t2, '/');
    Text.CutUnique(Text.Itoa(t1), r1, Text.Itoa(t2), r2, '/');
    Text.ItoaFreeOf(y1, '/'); Text.ItoaFreeOf(y2, '/');
    Text.CutUnique(Text.Itoa(y1), n1, Text.Itoa(y2), n2, '/');
    Text.ItoaInjective(t1, t2);
    Text.ItoaInjective(y1, y2);
  }
}
