/** Go string helpers the other modules rely on: trimming, upper-casing, decimal
    printing, splitting and joining, and the byte order used by sort.Strings. */
module Text {

  // ---------- characters ----------

  /** unicode.IsSpace. */
  predicate IsSpace(c: char) {
    var n := c as int;
    9 <= n <= 13 || n == 0x20 || n == 0x85 || n == 0xA0 || n == 0x1680 ||
    0x2000 <= n <= 0x200a || n == 0x2028 || n == 0x2029 || n == 0x202f || n == 0x205f || n == 0x3000
  }

  predicate IsDigit(c: char) { '0' <= c <= '9' }

  /** unicode.ToUpper on the ASCII letters and on the two other characters it maps into ASCII. */
  function UpperChar(c: char): char {
    if 'a' <= c <= 'z' then ((c as int) - 32) as char
    else if c == '\U{131}' then 'I'
    else if c == '\U{17F}' then 'S'
    else c
  }

  /** unicode.ToLower on the ASCII letters and on the two other characters it maps into ASCII. */
  function LowerChar(c: char): char {
    if 'A' <= c <= 'Z' then ((c as int) + 32) as char
    else if c == '\U{130}' then 'i'
    else if c == '\U{212A}' then 'k'
    else c
  }

  /** strings.ToUpper, as far as a comparison with an ASCII word can tell. */
  function Upper(s: string): string {
    seq(|s|, i requires 0 <= i < |s| => UpperChar(s[i]))
  }

  /** strings.ToLower, as far as a comparison with an ASCII word can tell. */
  function Lower(s: string): string {
    seq(|s|, i requires 0 <= i < |s| => LowerChar(s[i]))
  }

  /** strings.EqualFold against an ASCII word. */
  predicate EqualFold(s: string, word: string) {
    |s| == |word| && forall i :: 0 <= i < |s| ==> FoldChar(s[i]) == FoldChar(word[i])
  }

  function FoldChar(c: char): char {
    if 'A' <= c <= 'Z' then ((c as int) + 32) as char
    else if c == '\U{17F}' then 's'
    else if c == '\U{212A}' then 'k'
    else c
  }

  predicate Blank(s: string) { forall i :: 0 <= i < |s| ==> IsSpace(s[i]) }

  function TrimLeft(s: string): string {
    if s != [] && IsSpace(s[0]) then TrimLeft(s[1..]) else s
  }

  function TrimRight(s: string): string {
    if s != [] && IsSpace(s[|s| - 1]) then TrimRight(s[..|s| - 1]) else s
  }

  /** strings.TrimSpace. */
  function TrimSpace(s: string): string { TrimRight(TrimLeft(s)) }

  lemma {:induction false} TrimLeftNonBlank(s: string)
    ensures Blank(s) <==> TrimLeft(s) == []
    ensures TrimLeft(s) != [] ==> !IsSpace(TrimLeft(s)[0])
  {
    if s != [] && IsSpace(s[0]) {
      TrimLeftNonBlank(s[1..]);
      assert Blank(s[1..]) <==> Blank(s) by {
        if Blank(s[1..]) {
          forall i | 0 <= i < |s| ensures IsSpace(s[i]) { if i > 0 { assert s[i] == s[1..][i - 1]; } }
        }
      }
    }
  }

  lemma {:induction false} TrimRightKeepsHead(s: string)
    requires s != [] && !IsSpace(s[0])
    ensures TrimRight(s) != [] && TrimRight(s)[0] == s[0]
  {
    if IsSpace(s[|s| - 1]) { TrimRightKeepsHead(s[..|s| - 1]); }
  }

  /** strings.TrimSpace leaves nothing exactly when every character is a space. */
  lemma TrimSpaceBlank(s: string)
    ensures TrimSpace(s) == [] <==> Blank(s)
  {
    TrimLeftNonBlank(s);
    if TrimLeft(s) != [] { TrimRightKeepsHead(TrimLeft(s)); }
  }

  lemma {:induction false} TrimLeftCuts(s: string)
    ensures exists a :: Blank(a) && s == a + TrimLeft(s)
  {
    if s != [] && IsSpace(s[0]) {
      TrimLeftCuts(s[1..]);
      var a :| Blank(a) && s[1..] == a + TrimLeft(s[1..]);
      assert s == [s[0]] + a + TrimLeft(s);
      assert Blank([s[0]] + a);
    } else {
      assert s == [] + TrimLeft(s) && Blank([]);
    }
  }

  lemma {:induction false} TrimRightCuts(s: string)
    ensures exists b :: Blank(b) && s == TrimRight(s) + b
    ensures TrimRight(s) != [] ==> !IsSpace(TrimRight(s)[|TrimRight(s)| - 1])
  {
    if s != [] && IsSpace(s[|s| - 1]) {
      var k := |s| - 1;
      TrimRightCuts(s[..k]);
      var b :| Blank(b) && s[..k] == TrimRight(s[..k]) + b;
      assert s == TrimRight(s) + (b + [s[k]]);
      assert Blank(b + [s[k]]);
    } else {
      assert s == TrimRight(s) + [] && Blank([]);
    }
  }

  /** strings.TrimSpace takes spaces off both ends, all of them and nothing else. */
  lemma TrimExact(s: string)
    ensures exists a, b :: Blank(a) && Blank(b) && s == a + TrimSpace(s) + b
    ensures TrimSpace(s) != [] ==> !IsSpace(TrimSpace(s)[0]) && !IsSpace(TrimSpace(s)[|TrimSpace(s)| - 1])
  {
    var t := TrimLeft(s);
    TrimLeftCuts(s);
    TrimLeftNonBlank(s);
    TrimRightCuts(t);
    var a :| Blank(a) && s == a + t;
    var b :| Blank(b) && t == TrimRight(t) + b;
    assert s == a + TrimSpace(s) + b;
    if t != [] { TrimRightKeepsHead(t); }
  }

  predicate HasPrefix(s: string, p: string) { p <= s }

  lemma Regroup<T>(a: seq<T>, b: seq<T>, c: seq<T>)
    ensures a + b + c == a + (b + c)
  {
  }

  // ---------- decimal printing ----------

  function DigitChar(d: nat): (c: char)
    requires d < 10
    ensures IsDigit(c)
  {
    ('0' as int + d) as char
  }

  /** strconv.Itoa on a non-negative number. */
  function ItoaNat(n: nat): (s: string)
    ensures s != [] && forall i :: 0 <= i < |s| ==> IsDigit(s[i])
  {
    if n < 10 then [DigitChar(n)] else ItoaNat(n / 10) + [DigitChar(n % 10)]
  }

  /** strconv.Itoa. */
  function Itoa(n: int): string {
    if n < 0 then "-" + ItoaNat(-n) else ItoaNat(n)
  }

  function DecimalValue(s: string): nat
    requires forall i :: 0 <= i < |s| ==> IsDigit(s[i])
  {
    if s == [] then 0
    else
      assert IsDigit(s[|s| - 1]);
      10 * DecimalValue(s[..|s| - 1]) + (s[|s| - 1] as int - '0' as int)
  }

  lemma {:induction false} DecimalRoundTrip(n: nat)
    ensures DecimalValue(ItoaNat(n)) == n
  {
    var s := ItoaNat(n);
    if n < 10 {
      assert s[..|s| - 1] == [];
    } else {
      DecimalRoundTrip(n / 10);
      assert s[..|s| - 1] == ItoaNat(n / 10);
    }
  }

  lemma ItoaNatInjective(m: nat, n: nat)
    ensures ItoaNat(m) == ItoaNat(n) ==> m == n
  {
    DecimalRoundTrip(m);
    DecimalRoundTrip(n);
  }

  lemma ItoaHead(n: int)
    ensures Itoa(n) != "" && (Itoa(n)[0] == '-' <==> n < 0)
  {
    if n >= 0 { assert IsDigit(ItoaNat(n)[0]); }
  }

  lemma ItoaInjective(m: int, n: int)
    ensures Itoa(m) == Itoa(n) ==> m == n
  {
    ItoaHead(m);
    ItoaHead(n);
    if m >= 0 && n >= 0 {
      ItoaNatInjective(m, n);
    } else if m < 0 && n < 0 {
      assert Itoa(m)[1..] == ItoaNat(-m) && Itoa(n)[1..] == ItoaNat(-n);
      ItoaNatInjective(-m, -n);
    }
  }

  lemma ItoaFreeOf(n: int, c: char)
    requires !IsDigit(c) && c != '-'
    ensures c !in Itoa(n)
  {
  }

  // ---------- cutting, splitting, joining ----------

  /** strings.IndexByte: the first position of c, or the length when c is absent. */
  function IndexOf(s: string, c: char): (i: nat)
    ensures i <= |s| && c !in s[..i] && (i < |s| ==> s[i] == c)
  {
    if s == [] || s[0] == c then 0 else 1 + IndexOf(s[1..], c)
  }

  lemma {:induction false} IndexOfCut(a: string, x: string, sep: char)
    requires sep !in a
    ensures IndexOf(a + [sep] + x, sep) == |a|
  {
    if a != [] {
      IndexOfCut(a[1..], x, sep);
      assert (a + [sep] + x)[1..] == a[1..] + [sep] + x;
    }
  }

  /** A separator cuts a string in one way only when the left part does not contain it. */
  lemma CutUnique(a: string, x: string, b: string, y: string, sep: char)
    requires sep !in a && sep !in b
    requires a + [sep] + x == b + [sep] + y
    ensures a == b && x == y
  {
    IndexOfCut(a, x, sep);
    IndexOfCut(b, y, sep);
    assert a == (a + [sep] + x)[..|a|] && b == (b + [sep] + y)[..|b|];
    assert x == (a + [sep] + x)[|a| + 1..] && y == (b + [sep] + y)[|b| + 1..];
  }

  /** strings.Split on a one-character separator: never empty. */
  function Split(s: string, sep: char): (parts: seq<string>)
    ensures parts != []
    ensures forall i :: 0 <= i < |parts| ==> sep !in parts[i]
  {
    if s == [] then [""]
    else
      var rest := Split(s[1..], sep);
      if s[0] == sep then [""] + rest else [[s[0]] + rest[0]] + rest[1..]
  }

  /** strings.Join with a one-character separator. */
  function Join(parts: seq<string>, sep: char): string {
    if parts == [] then ""
    else if |parts| == 1 then parts[0]
    else parts[0] + [sep] + Join(parts[1..], sep)
  }

  lemma {:induction false} SplitFree(p: string, sep: char)
    requires sep !in p
    ensures Split(p, sep) == [p]
  {
    if p != [] { SplitFree(p[1..], sep); assert p == [p[0]] + p[1..]; }
  }

  lemma {:induction false} SplitCut(p: string, s: string, sep: char)
    requires sep !in p
    ensures Split(p + [sep] + s, sep) == [p] + Split(s, sep)
  {
    var w := p + [sep] + s;
    if p == [] {
      assert w[1..] == s;
    } else {
      SplitCut(p[1..], s, sep);
      assert w[1..] == p[1..] + [sep] + s;
      assert p == [p[0]] + p[1..];
    }
  }

  lemma {:induction false} SplitJoin(parts: seq<string>, sep: char)
    requires parts != []
    requires forall i :: 0 <= i < |parts| ==> sep !in parts[i]
    ensures Split(Join(parts, sep), sep) == parts
  {
    if |parts| == 1 {
      SplitFree(parts[0], sep);
    } else {
      SplitJoin(parts[1..], sep);
      SplitCut(parts[0], Join(parts[1..], sep), sep);
    }
  }

  // ---------- the order of sort.Strings ----------

  predicate Less(a: string, b: string) {
    b != [] && (a == [] || a[0] < b[0] || (a[0] == b[0] && Less(a[1..], b[1..])))
  }

  lemma {:induction false} LessTotal(a: string, b: string)
    ensures Less(a, b) || a == b || Less(b, a)
    ensures !(Less(a, b) && Less(b, a))
    ensures !Less(a, a)
  {
    if a != [] && b != [] {
      LessTotal(a[1..], b[1..]);
      if a[0] == b[0] && a[1..] == b[1..] { assert a == [a[0]] + a[1..] == b; }
    }
    if a != [] { LessTotal(a[1..], a[1..]); }
  }

  lemma {:induction false} LessTransitive(a: string, b: string, c: string)
    requires Less(a, b) && Less(b, c)
    ensures Less(a, c)
  {
    if a != [] && a[0] == b[0] == c[0] { LessTransitive(a[1..], b[1..], c[1..]); }
  }

  /** Ascending without repetition. */
  ghost predicate StrictlySorted(keys: seq<string>) {
    forall i, j :: 0 <= i < j < |keys| ==> Less(keys[i], keys[j])
  }

  function Insert(k: string, keys: seq<string>): (r: seq<string>)
    ensures multiset(r) == multiset(keys) + multiset{k}
  {
    if keys == [] then [k]
    else if Less(keys[0], k) then
      assert keys == [keys[0]] + keys[1..];
      [keys[0]] + Insert(k, keys[1..])
    else [k] + keys
  }

  /** sort.Strings. */
  function Sort(keys: seq<string>): (r: seq<string>)
    ensures multiset(r) == multiset(keys)
  {
    if keys == [] then []
    else
      assert keys == [keys[0]] + keys[1..];
      Insert(keys[0], Sort(keys[1..]))
  }

  lemma {:induction false} InsertSorted(k: string, keys: seq<string>)
    requires StrictlySorted(keys) && k !in keys
    ensures StrictlySorted(Insert(k, keys))
  {
    var r := Insert(k, keys);
    if keys != [] {
      LessTotal(keys[0], k);
      if Less(keys[0], k) {
        InsertSorted(k, keys[1..]);
        var t := Insert(k, keys[1..]);
        forall j | 0 <= j < |t| ensures Less(keys[0], t[j]) {
          assert t[j] in multiset(t);
          assert t[j] in multiset(keys[1..]) || t[j] == k;
        }
      } else {
        forall j | 0 <= j < |keys| ensures Less(k, keys[j]) {
          if j > 0 { LessTransitive(k, keys[0], keys[j]); }
        }
      }
    }
  }

  ghost predicate Distinct<T>(s: seq<T>) {
    forall i, j :: 0 <= i < j < |s| ==> s[i] != s[j]
  }

  // ---------- first occurrences ----------

  predicate HasKey<T>(s: seq<T>, key: T -> string, k: string) {
    exists i :: 0 <= i < |s| && key(s[i]) == k
  }

  /** The first element for every key, in order: the seen-map loops. */
  function FirstPerKey<T>(s: seq<T>, key: T -> string): seq<T> {
    if s == [] then []
    else
      var k := |s| - 1;
      var front := FirstPerKey(s[..k], key);
      if HasKey(front, key, key(s[k])) then front else front + [s[k]]
  }

  ghost predicate KeysDistinct<T>(s: seq<T>, key: T -> string) {
    forall i, j :: 0 <= i < j < |s| ==> key(s[i]) != key(s[j])
  }

  /** No key occurs twice, nothing is invented and no key is lost. */
  lemma {:induction false} FirstPerKeyExact<T>(s: seq<T>, key: T -> string)
    ensures KeysDistinct(FirstPerKey(s, key), key)
    ensures forall x :: x in FirstPerKey(s, key) ==> x in s
    ensures forall k :: HasKey(FirstPerKey(s, key), key, k) <==> HasKey(s, key, k)
  {
    if s != [] {
      var n := |s| - 1;
      FirstPerKeyExact(s[..n], key);
      var front := FirstPerKey(s[..n], key);
      assert s == s[..n] + [s[n]];
      forall k ensures HasKey(FirstPerKey(s, key), key, k) <==> HasKey(s, key, k) {
        HasKeyAppend(s[..n], s[n], key, k);
        HasKeyAppend(front, s[n], key, k);
      }
    }
  }

  /** The loop that keeps the first element for every key. */
  method FirstOccurrences<T>(s: seq<T>, key: T -> string) returns (out: seq<T>)
    ensures out == FirstPerKey(s, key)
  {
    var seen: set<string> := {};
    out := [];
    for i := 0 to |s|
      invariant out == FirstPerKey(s[..i], key)
      invariant forall k :: k in seen <==> HasKey(out, key, k)
    {
      assert s[..i + 1][..i] == s[..i];
      var k := key(s[i]);
      if k in seen { continue; }
      forall x ensures HasKey(out + [s[i]], key, x) <==> HasKey(out, key, x) || k == x {
        HasKeyAppend(out, s[i], key, x);
      }
      seen := seen + {k};
      out := out + [s[i]];
    }
    assert s[..|s|] == s;
  }

  lemma HasKeyAppend<T>(s: seq<T>, x: T, key: T -> string, k: string)
    ensures HasKey(s + [x], key, k) <==> HasKey(s, key, k) || key(x) == k
  {
    if i :| 0 <= i < |s| && key(s[i]) == k { assert (s + [x])[i] == s[i]; }
    assert (s + [x])[|s|] == x;
  }

  lemma {:induction false} SortSorted(keys: seq<string>)
    requires Distinct(keys)
    ensures StrictlySorted(Sort(keys))
  {
    if keys != [] {
      SortSorted(keys[1..]);
      assert forall j :: 0 <= j < |keys[1..]| ==> keys[1..][j] == keys[j + 1] != keys[0];
      assert keys[0] !in multiset(Sort(keys[1..]));
      InsertSorted(keys[0], Sort(keys[1..]));
    }
  }

  /** A set of strings has one ascending listing: whatever order a map is walked in, sorting its
      keys gives the same list. */
  lemma {:induction false} SortedUnique(a: seq<string>, b: seq<string>)
    requires StrictlySorted(a) && StrictlySorted(b)
    requires forall k :: k in a <==> k in b
    ensures a == b
  {
    assert a != [] ==> a[0] in b;
    assert b != [] ==> b[0] in a;
    if a != [] && b != [] {
      assert a[0] in b && b[0] in a;
      LessTotal(a[0], b[0]);
      assert a[0] == b[0];
      forall k ensures k in a[1..] <==> k in b[1..] {
        LessTotal(a[0], a[0]);
        if k in a[1..] { assert k in b; }
        if k in b[1..] { assert k in a; }
      }
      SortedUnique(a[1..], b[1..]);
      assert a == [a[0]] + a[1..] && b == [b[0]] + b[1..];
    }
  }
}
