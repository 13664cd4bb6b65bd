/** Books of the Sozialgesetzbuch: reading "SGB V", "sgb_5" and their like, and the keys such a book is
    filed under (internal/normalize/sgb.go; internal/search/engine.go: sgbBookNumber). */
module SGB {
  import opened Domain
  import Citation
  import Text

  // ---------- numbers ----------

  /** strconv.Atoi: None for its error. */
  function Atoi(s: string): Option<int> {
    var signed := s != [] && (s[0] == '-' || s[0] == '+');
    var body := if signed then s[1..] else s;
    if body == [] || !Citation.AllDigits(body) then None
    else
      var digits: int := Citation.Digits(body);
      var n := if s[0] == '-' then -digits else digits;
      if MIN_DURATION <= n <= MAX_DURATION then Some(n) else None
  }

  function RomanDigit(c: char): nat {
    match c
    case 'I' => 1 case 'V' => 5 case 'X' => 10 case 'L' => 50 case 'C' => 100 case 'D' => 500 case 'M' => 1000
    case _ => 0
  }

  predicate IsRoman(s: string) { s != "" && forall i :: 0 <= i < |s| ==> RomanDigit(s[i]) > 0 }

  /** A digit before a greater one counts negative. */
  function RomanValue(s: string): int {
    if s == [] then 0
    else if |s| > 1 && RomanDigit(s[0]) < RomanDigit(s[1]) then RomanValue(s[1..]) - RomanDigit(s[0])
    else RomanValue(s[1..]) + RomanDigit(s[0])
  }

  function Roman(s: string): Option<int> {
    var u := Text.Upper(Text.TrimSpace(s));
    if IsRoman(u) && RomanValue(u) > 0 then Some(RomanValue(u)) else None
  }

  /** RomanToInt on the trimmed upper-case numeral. */
  method RomanToInt(u: string) returns (n: int, ok: bool)
    ensures ok == (IsRoman(u) && RomanValue(u) > 0)
    ensures ok ==> n == RomanValue(u)
  {
    if u == "" { return 0, false; }
    for i := 0 to |u|
      invariant forall k :: 0 <= k < i ==> RomanDigit(u[k]) > 0
    {
      if RomanDigit(u[i]) == 0 { return 0, false; }
    }
    var total: int, prev: nat := 0, 0;
    for i := |u| downto 0
      invariant total == RomanValue(u[i..])
      invariant prev == if i < |u| then RomanDigit(u[i]) else 0
    {
      assert u[i..][1..] == u[i + 1..];
      var v := RomanDigit(u[i]);
      if v < prev { total := total - v; } else { total := total + v; }
      prev := v;
    }
    assert u[0..] == u;
    if total <= 0 { return 0, false; }
    n, ok := total, true;
  }

  /** The greedy numeral. */
  function ToRoman(n: nat): string {
    if n >= 10 then "X" + ToRoman(n - 10)
    else if n >= 9 then "IX" + ToRoman(n - 9)
    else if n >= 5 then "V" + ToRoman(n - 5)
    else if n >= 4 then "IV" + ToRoman(n - 4)
    else if n >= 1 then "I" + ToRoman(n - 1)
    else ""
  }

  const VALS: seq<nat> := [10, 9, 5, 4, 1]
  const SYMS: seq<string> := ["X", "IX", "V", "IV", "I"]

  /** IntToRoman, for 1 to 20. */
  method IntToRoman(n: int) returns (s: string, ok: bool)
    ensures ok == (1 <= n <= 20)
    ensures ok ==> s == ToRoman(n)
  {
    if n <= 0 || n > 20 { return "", false; }
    s, ok := "", true;
    var rest := n;
    for i := 0 to 5
      invariant rest >= 0 && s + ToRoman(rest) == ToRoman(n)
      invariant i > 0 ==> rest < VALS[i - 1]
    {
      while rest >= VALS[i]
        invariant rest >= 0 && s + ToRoman(rest) == ToRoman(n)
        invariant i > 0 ==> rest < VALS[i - 1]
      {
        NumeralStep(s, rest, i);
        s := s + SYMS[i];
        rest := rest - VALS[i];
      }
    }
  }

  /** The greatest numeral that fits comes next. */
  lemma NumeralStep(s: string, rest: nat, i: nat)
    requires i < 5 && rest >= VALS[i] && (i > 0 ==> rest < VALS[i - 1])
    ensures s + ToRoman(rest) == (s + SYMS[i]) + ToRoman(rest - VALS[i])
  {
    assert ToRoman(rest) == SYMS[i] + ToRoman(rest - VALS[i]);
  }

  predicate Reads(s: string, n: nat) { RomanValue(s) == n && (n > 0 ==> IsRoman(s)) }

  /** A numeral in front that does not count less than what follows adds its value. */
  lemma PrefixAdds(c: char, s: string, n: nat)
    requires RomanDigit(c) > 0 && Reads(s, n) && (s == "" ==> n == 0) && (n == 0 ==> s == "")
    requires s != "" ==> RomanDigit(s[0]) <= RomanDigit(c)
    ensures Reads([c] + s, RomanDigit(c) + n)
  {
    assert ([c] + s)[1..] == s;
  }

  lemma {:induction false} ToRomanHead(n: nat)
    ensures n == 0 <==> ToRoman(n) == ""
    ensures n > 0 ==> RomanDigit(ToRoman(n)[0]) <= if n >= 10 then 10 else if n >= 4 && n != 9 then 5 else 1
  {
  }

  /** Reading a written numeral gives the number back. */
  lemma {:induction false} RomanRoundTrip(n: nat)
    ensures Reads(ToRoman(n), n)
  {
    if n >= 10 {
      RomanRoundTrip(n - 10);
      ToRomanHead(n - 10);
      PrefixAdds('X', ToRoman(n - 10), n - 10);
    } else if n == 9 {
      assert ToRoman(9) == "IX" && "IX"[1..] == "X" && "X"[1..] == "";
    } else if n >= 5 {
      RomanRoundTrip(n - 5);
      ToRomanHead(n - 5);
      PrefixAdds('V', ToRoman(n - 5), n - 5);
    } else if n == 4 {
      assert ToRoman(4) == "IV" && "IV"[1..] == "V" && "V"[1..] == "";
    } else if n >= 1 {
      RomanRoundTrip(n - 1);
      ToRomanHead(n - 1);
      PrefixAdds('I', ToRoman(n - 1), n - 1);
    }
  }

  // ---------- ParseSGBBookQuery ----------

  predicate IsSeparator(c: char) { c == ' ' || c == '\t' || c == '\n' || c == '\U{0C}' || c == '\r' || c == '_' || c == '-' }

  predicate IsBookChar(c: char) { Text.IsDigit(c) || c in "ivxlcIVXLC" }

  function DropSeparators(s: string): string {
    if s != [] && IsSeparator(s[0]) then DropSeparators(s[1..]) else s
  }

  /** The part of a trimmed text that names a book: "sgb" in any case, separators, then digits or a
      numeral to the end. */
  function BookPart(t: string): Option<string> {
    if |t| < 3 || !Text.EqualFold(t[..3], "sgb") then None
    else
      var rest := DropSeparators(t[3..]);
      if rest != "" && forall i :: 0 <= i < |rest| ==> IsBookChar(rest[i]) then Some(rest) else None
  }

  /** The book a text names; always positive. */
  function ParseBook(s: string): (n: Option<int>)
    ensures n.Some? ==> n.value > 0
  {
    var part := BookPart(Text.TrimSpace(s));
    if part.None? then None
    else if Atoi(part.value).Some? then (if Atoi(part.value).value > 0 then Atoi(part.value) else None)
    else Roman(part.value)
  }

  method ParseSGBBookQuery(s: string) returns (n: int, ok: bool)
    ensures ParseBook(s) == if ok then Some(n) else None
  {
    var part := BookPart(Text.TrimSpace(s));
    if part.None? { return 0, false; }
    var number := Atoi(part.value);
    if number.Some? {
      return number.value, number.value > 0;
    }
    n, ok := RomanToInt(Text.Upper(Text.TrimSpace(part.value)));
  }

  // ---------- the book of a law ----------

  function TrimUnderscores(s: string): string {
    if s != [] && s[0] == '_' then TrimUnderscores(s[1..]) else s
  }

  /** The number after "sgb" in a trimmed id. */
  function IDNumber(id: string): Option<int>
    requires |id| >= 3
  {
    Atoi(TrimUnderscores(id[3..]))
  }

  predicate IsSGBID(id: string) { Text.HasPrefix(Text.Lower(id), "sgb") }

  /** sgbBookNumber: the abbreviation speaks before the id. 0 is no book. */
  function BookNumber(l: Law): int {
    if ParseBook(l.abbreviation).Some? then ParseBook(l.abbreviation).value
    else
      var id := Text.Lower(Text.TrimSpace(l.id));
      if Text.HasPrefix(id, "sgb") && IDNumber(id).Some? && 1 <= IDNumber(id).value <= 20 then IDNumber(id).value else 0
  }

  // ---------- keys ----------

  function AddKey(keys: seq<string>, k: string): seq<string> {
    if k == "" || k in keys then keys else keys + [k]
  }

  function RomanIn1To20(n: int): Option<string> { if 1 <= n <= 20 then Some(ToRoman(n)) else None }

  /** sgbBookAlternateKeys. */
  function AlternateKeys(key: string -> string, s: string): seq<string> {
    if ParseBook(s).None? then []
    else
      var n := Text.Itoa(ParseBook(s).value);
      var keys := AddKey(AddKey([], key("sgb" + n)), key("sgb_" + n));
      var roman := RomanIn1To20(ParseBook(s).value);
      if roman.None? then keys
      else AddKey(AddKey(keys, key("sgb" + roman.value)), key("sgb_" + roman.value))
  }

  function IDKeys(key: string -> string, keys: seq<string>, id: string): seq<string> {
    if !IsSGBID(id) || |id| < 3 || IDNumber(id).None? then keys
    else
      var n := Text.Itoa(IDNumber(id).value);
      var more := AddKey(AddKey(keys, key("sgb " + n)), key("sgb_" + n));
      var roman := RomanIn1To20(IDNumber(id).value);
      if roman.None? then more
      else AddKey(AddKey(more, key("sgb " + roman.value)), key("sgb_" + roman.value))
  }

  function AbbreviationKeys(key: string -> string, keys: seq<string>, abbreviation: string): seq<string> {
    if ParseBook(abbreviation).None? then keys
    else
      var n := Text.Itoa(ParseBook(abbreviation).value);
      AddKey(AddKey(keys, key("sgb" + n)), key("sgb_" + n))
  }

  /** SGBBookLawIDKeys. */
  function LawKeys(key: string -> string, lawID: string, abbreviation: string): seq<string> {
    var keys := AddKey(AddKey([], key(lawID)), key(abbreviation));
    AbbreviationKeys(key, IDKeys(key, keys, Text.TrimSpace(lawID)), abbreviation)
  }

  /** The key a book's law and every query for the book have in common. */
  function BookKey(key: string -> string, n: int): string { key("sgb_" + Text.Itoa(n)) }

  lemma AddKeyHas(keys: seq<string>, k: string)
    ensures forall x :: x in AddKey(keys, k) <==> x in keys || (x == k && k != "")
  {
  }

  lemma QueryHasBookKey(key: string -> string, query: string)
    requires ParseBook(query).Some? && BookKey(key, ParseBook(query).value) != ""
    ensures BookKey(key, ParseBook(query).value) in AlternateKeys(key, query)
  {
    var n := Text.Itoa(ParseBook(query).value);
    AddKeyHas(AddKey([], key("sgb" + n)), key("sgb_" + n));
    var keys := AddKey(AddKey([], key("sgb" + n)), key("sgb_" + n));
    var roman := RomanIn1To20(ParseBook(query).value);
    if roman.Some? {
      AddKeyHas(keys, key("sgb" + roman.value));
      AddKeyHas(AddKey(keys, key("sgb" + roman.value)), key("sgb_" + roman.value));
    }
  }

  // ---------- a law is filed under its book ----------

  predicate Numeral(s: string) { forall i :: 0 <= i < |s| ==> Text.IsDigit(s[i]) || s[i] == '-' || s[i] == '+' }

  lemma AtoiNumeral(s: string)
    requires Atoi(s).Some?
    ensures Numeral(s)
  {
    forall i | 0 <= i < |s| ensures Text.IsDigit(s[i]) || s[i] == '-' || s[i] == '+' {
      if i > 0 && (s[0] == '-' || s[0] == '+') { assert s[1..][i - 1] == s[i]; }
    }
  }

  lemma LowerKeepsNumerals(s: string)
    requires Numeral(Text.Lower(s))
    ensures Text.Lower(s) == s
  {
    forall i | 0 <= i < |s| ensures Text.Lower(s)[i] == s[i] {
      assert Text.Lower(s)[i] == Text.LowerChar(s[i]);
    }
  }

  lemma {:induction false} TrimLower(s: string)
    ensures TrimUnderscores(Text.Lower(s)) == Text.Lower(TrimUnderscores(s))
  {
    if s != [] {
      assert Text.Lower(s)[1..] == Text.Lower(s[1..]);
      TrimLower(s[1..]);
    }
  }

  /** Lower-casing an id does not change the number it ends in. */
  lemma IDNumberLower(id: string)
    requires |id| >= 3 && IDNumber(Text.Lower(id)).Some?
    ensures IDNumber(id) == IDNumber(Text.Lower(id))
  {
    assert Text.Lower(id)[3..] == Text.Lower(id[3..]);
    TrimLower(id[3..]);
    AtoiNumeral(TrimUnderscores(Text.Lower(id)[3..]));
    LowerKeepsNumerals(TrimUnderscores(id[3..]));
  }

  lemma IDKeysHas(key: string -> string, keys: seq<string>, id: string)
    ensures forall x :: x in keys ==> x in IDKeys(key, keys, id)
    ensures IsSGBID(id) && |id| >= 3 && IDNumber(id).Some? && BookKey(key, IDNumber(id).value) != "" ==>
      BookKey(key, IDNumber(id).value) in IDKeys(key, keys, id)
  {
    if IsSGBID(id) && |id| >= 3 && IDNumber(id).Some? {
      var n := Text.Itoa(IDNumber(id).value);
      AddKeyHas(keys, key("sgb " + n));
      AddKeyHas(AddKey(keys, key("sgb " + n)), key("sgb_" + n));
      var more := AddKey(AddKey(keys, key("sgb " + n)), key("sgb_" + n));
      var roman := RomanIn1To20(IDNumber(id).value);
      if roman.Some? {
        AddKeyHas(more, key("sgb " + roman.value));
        AddKeyHas(AddKey(more, key("sgb " + roman.value)), key("sgb_" + roman.value));
      }
    }
  }

  lemma AbbreviationKeysHas(key: string -> string, keys: seq<string>, abbreviation: string)
    ensures forall x :: x in keys ==> x in AbbreviationKeys(key, keys, abbreviation)
    ensures ParseBook(abbreviation).Some? && BookKey(key, ParseBook(abbreviation).value) != "" ==>
      BookKey(key, ParseBook(abbreviation).value) in AbbreviationKeys(key, keys, abbreviation)
  {
    if ParseBook(abbreviation).Some? {
      var n := Text.Itoa(ParseBook(abbreviation).value);
      AddKeyHas(keys, key("sgb" + n));
      AddKeyHas(AddKey(keys, key("sgb" + n)), key("sgb_" + n));
    }
  }

  /** A law with a book number is filed under the key of that book. */
  lemma LawHasBookKey(key: string -> string, l: Law)
    requires BookNumber(l) > 0 && BookKey(key, BookNumber(l)) != ""
    ensures BookKey(key, BookNumber(l)) in LawKeys(key, l.id, l.abbreviation)
  {
    var keys := AddKey(AddKey([], key(l.id)), key(l.abbreviation));
    var id := Text.TrimSpace(l.id);
    IDKeysHas(key, keys, id);
    AbbreviationKeysHas(key, IDKeys(key, keys, id), l.abbreviation);
    if ParseBook(l.abbreviation).None? { IDNumberLower(id); }
  }

  // ---------- how books are spelled ----------

  predicate AllSeparators(s: string) { forall i :: 0 <= i < |s| ==> IsSeparator(s[i]) }

  lemma {:induction false} SeparatorsDropped(sep: string, rest: string)
    requires AllSeparators(sep) && rest != "" && !IsSeparator(rest[0])
    ensures DropSeparators(sep + rest) == rest
  {
    if sep == "" {
      assert sep + rest == rest;
    } else {
      SeparatorsDropped(sep[1..], rest);
      assert (sep + rest)[1..] == sep[1..] + rest;
    }
  }

  lemma SpelledTrimmed(s: string)
    requires s != "" && !Text.IsSpace(s[0]) && !Text.IsSpace(s[|s| - 1])
    ensures Text.TrimSpace(s) == s
  {
  }

  /** "SGB", separators and a part made of book characters. */
  lemma SpelledPart(sgb: string, sep: string, part: string)
    requires sgb in {"SGB", "sgb", "Sgb"} && AllSeparators(sep) && part != "" && forall i :: 0 <= i < |part| ==> IsBookChar(part[i])
    ensures BookPart(Text.TrimSpace(sgb + sep + part)) == Some(part)
  {
    var s := sgb + sep + part;
    assert s[..3] == sgb && s[3..] == sep + part && s[|s| - 1] == part[|part| - 1];
    SpelledTrimmed(s);
    SeparatorsDropped(sep, part);
  }

  /** A book is recognised by its number, in any of these spellings. */
  lemma NumberedBook(sgb: string, sep: string, n: nat)
    requires sgb in {"SGB", "sgb", "Sgb"} && AllSeparators(sep) && 0 < n <= MAX_DURATION
    ensures ParseBook(sgb + sep + Text.Itoa(n)) == Some(n)
  {
    SpelledPart(sgb, sep, Text.Itoa(n));
    Text.DecimalRoundTrip(n);
    assert Text.IsDigit(Text.Itoa(n)[0]);
  }

  lemma {:induction false} ToRomanLetters(n: nat)
    ensures forall i :: 0 <= i < |ToRoman(n)| ==> ToRoman(n)[i] in "IVX"
  {
    if n >= 10 { ToRomanLetters(n - 10); }
    else if n == 9 { assert ToRoman(0) == ""; }
    else if n >= 5 { ToRomanLetters(n - 5); }
    else if n == 4 { assert ToRoman(0) == ""; }
    else if n >= 1 { ToRomanLetters(n - 1); }
  }

  lemma UpperKeeps(s: string)
    requires forall i :: 0 <= i < |s| ==> s[i] in "IVX"
    ensures Text.Upper(s) == s
  {
  }

  lemma LettersAreNoNumber(s: string)
    requires s != "" && forall i :: 0 <= i < |s| ==> s[i] in "IVX"
    ensures Atoi(s).None?
  {
    assert s[0] in "IVX";
  }

  lemma RomanRead(n: nat)
    requires n > 0
    ensures Roman(ToRoman(n)) == Some(n)
  {
    var roman := ToRoman(n);
    ToRomanHead(n);
    ToRomanLetters(n);
    SpelledTrimmed(roman);
    UpperKeeps(roman);
    RomanRoundTrip(n);
  }

  /** And by its numeral. */
  lemma RomanBook(sgb: string, sep: string, n: nat)
    requires sgb in {"SGB", "sgb", "Sgb"} && AllSeparators(sep) && n > 0
    ensures ParseBook(sgb + sep + ToRoman(n)) == Some(n)
  {
    ToRomanHead(n);
    ToRomanLetters(n);
    SpelledPart(sgb, sep, ToRoman(n));
    LettersAreNoNumber(ToRoman(n));
    RomanRead(n);
  }

  /** A law abbreviated like that is the law of the book. */
  lemma BookOfLaw(l: Law, sep: string, n: nat)
    requires AllSeparators(sep) && 0 < n <= MAX_DURATION
    requires l.abbreviation == "SGB" + sep + Text.Itoa(n) || l.abbreviation == "SGB" + sep + ToRoman(n)
    ensures BookNumber(l) == n
  {
    NumberedBook("SGB", sep, n);
    RomanBook("SGB", sep, n);
  }
}
