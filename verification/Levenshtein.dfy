/** The fuzzy kernel of the search engine (internal/search/engine.go: min3, levenshtein, similarity). */
module Levenshtein {

  // ---------- edit scripts ----------

  /** One step of an edit script read from left to right; Sub keeps a character when it maps it to
      itself. */
  datatype Op = Sub(from: char, to: char) | Del(from: char) | Ins(to: char)

  type Script = seq<Op>

  function Source(s: Script): string {
    if s == [] then ""
    else
      var k := |s| - 1;
      Source(s[..k]) + if s[k].Ins? then [] else [s[k].from]
  }

  function Target(s: Script): string {
    if s == [] then ""
    else
      var k := |s| - 1;
      Target(s[..k]) + if s[k].Del? then [] else [s[k].to]
  }

  function OpCost(op: Op): nat { if op.Sub? && op.from == op.to then 0 else 1 }

  function Cost(s: Script): nat {
    if s == [] then 0
    else
      var k := |s| - 1;
      Cost(s[..k]) + OpCost(s[k])
  }

  lemma SourceTargetAppend(s: Script, op: Op)
    ensures Source(s + [op]) == Source(s) + if op.Ins? then [] else [op.from]
    ensures Target(s + [op]) == Target(s) + if op.Del? then [] else [op.to]
    ensures Cost(s + [op]) == Cost(s) + OpCost(op)
  {
    assert (s + [op])[..|s|] == s;
  }

  // ---------- the recurrence ----------

  /** min3. */
  function Min3(a: int, b: int, c: int): (m: int)
    ensures m <= a && m <= b && m <= c && (m == a || m == b || m == c)
  {
    if a < b && a < c then a
    else if b < c then b
    else c
  }

  function Distance(a: string, b: string): nat
    decreases |a| + |b|
  {
    if a == [] then |b|
    else if b == [] then |a|
    else
      var i, j := |a| - 1, |b| - 1;
      Min3(Distance(a[..i], b) + 1, Distance(a, b[..j]) + 1,
           Distance(a[..i], b[..j]) + if a[i] != b[j] then 1 else 0)
  }

  ghost predicate Witness(s: Script, a: string, b: string, cost: nat) {
    Source(s) == a && Target(s) == b && Cost(s) == cost
  }

  lemma WitnessDel(s: Script, a: string, b: string, cost: nat)
    requires a != [] && Witness(s, a[..|a| - 1], b, cost)
    ensures Witness(s + [Del(a[|a| - 1])], a, b, cost + 1)
  {
    SourceTargetAppend(s, Del(a[|a| - 1]));
    assert a[..|a| - 1] + [a[|a| - 1]] == a;
  }

  lemma WitnessIns(s: Script, a: string, b: string, cost: nat)
    requires b != [] && Witness(s, a, b[..|b| - 1], cost)
    ensures Witness(s + [Ins(b[|b| - 1])], a, b, cost + 1)
  {
    SourceTargetAppend(s, Ins(b[|b| - 1]));
    assert b[..|b| - 1] + [b[|b| - 1]] == b;
  }

  lemma WitnessSub(s: Script, a: string, b: string, cost: nat)
    requires a != [] && b != [] && Witness(s, a[..|a| - 1], b[..|b| - 1], cost)
    ensures Witness(s + [Sub(a[|a| - 1], b[|b| - 1])], a, b, cost + if a[|a| - 1] != b[|b| - 1] then 1 else 0)
  {
    SourceTargetAppend(s, Sub(a[|a| - 1], b[|b| - 1]));
    assert a[..|a| - 1] + [a[|a| - 1]] == a && b[..|b| - 1] + [b[|b| - 1]] == b;
  }

  /** Some script from a to b costs exactly the distance. */
  lemma {:induction false} OptimalScript(a: string, b: string) returns (s: Script)
    ensures Witness(s, a, b, Distance(a, b))
    decreases |a| + |b|
  {
    var i, j := |a| - 1, |b| - 1;
    if a == [] && b == [] {
      s := [];
    } else if b == [] || (a != [] && Distance(a, b) == Distance(a[..i], b) + 1) {
      s := OptimalScript(a[..i], b);
      WitnessDel(s, a, b, Distance(a[..i], b));
      s := s + [Del(a[i])];
    } else if a == [] || Distance(a, b) == Distance(a, b[..j]) + 1 {
      s := OptimalScript(a, b[..j]);
      WitnessIns(s, a, b, Distance(a, b[..j]));
      s := s + [Ins(b[j])];
    } else {
      s := OptimalScript(a[..i], b[..j]);
      WitnessSub(s, a, b, Distance(a[..i], b[..j]));
      s := s + [Sub(a[i], b[j])];
    }
  }

  function FromOf(op: Op): string { if op.Ins? then [] else [op.from] }

  function ToOf(op: Op): string { if op.Del? then [] else [op.to] }

  /** What one more character on either side can cost: w is a with x at its end, v is b with y. */
  lemma OneMoreSource(w: string, a: string, b: string, x: char)
    requires w == a + [x]
    ensures Distance(w, b) <= Distance(a, b) + 1
  {
    assert w[..|w| - 1] == a;
  }

  lemma OneMoreTarget(a: string, v: string, b: string, y: char)
    requires v == b + [y]
    ensures Distance(a, v) <= Distance(a, b) + 1
  {
    assert v[..|v| - 1] == b;
  }

  lemma OneMoreBoth(w: string, a: string, v: string, b: string, x: char, y: char)
    requires w == a + [x] && v == b + [y]
    ensures Distance(w, v) <= Distance(a, b) + if x != y then 1 else 0
  {
    assert w[..|w| - 1] == a && v[..|v| - 1] == b;
  }

  lemma DistanceStep(w: string, a: string, v: string, b: string, op: Op)
    requires w == a + FromOf(op) && v == b + ToOf(op)
    ensures Distance(w, v) <= Distance(a, b) + OpCost(op)
  {
    match op
    case Sub(x, y) => OneMoreBoth(w, a, v, b, x, y);
    case Del(x) => assert v == b; OneMoreSource(w, a, b, x);
    case Ins(y) => assert w == a; OneMoreTarget(a, v, b, y);
  }

  /** No script costs less. */
  lemma {:induction false} NoCheaperScript(s: Script)
    ensures Cost(s) >= Distance(Source(s), Target(s))
  {
    if s != [] {
      var k := |s| - 1;
      NoCheaperScript(s[..k]);
      assert Source(s) == Source(s[..k]) + FromOf(s[k]) && Target(s) == Target(s[..k]) + ToOf(s[k]);
      DistanceStep(Source(s), Source(s[..k]), Target(s), Target(s[..k]), s[k]);
    }
  }

  // ---------- it is a metric ----------

  /** Reading a script backwards: deletions become insertions. */
  lemma {:induction false} DistanceSymmetric(a: string, b: string)
    ensures Distance(a, b) == Distance(b, a)
    decreases |a| + |b|
  {
    if a != [] && b != [] {
      var i, j := |a| - 1, |b| - 1;
      DistanceSymmetric(a[..i], b);
      DistanceSymmetric(a, b[..j]);
      DistanceSymmetric(a[..i], b[..j]);
    }
  }

  lemma {:induction false} DistanceZero(a: string, b: string)
    ensures Distance(a, b) == 0 <==> a == b
    decreases |a| + |b|
  {
    if a != [] && b != [] {
      var i, j := |a| - 1, |b| - 1;
      DistanceZero(a[..i], b[..j]);
      assert a == a[..i] + [a[i]] && b == b[..j] + [b[j]];
    }
  }

  lemma {:induction false} DistanceAtMost(a: string, b: string)
    ensures Distance(a, b) <= if |a| >= |b| then |a| else |b|
    decreases |a| + |b|
  {
    if a != [] && b != [] { DistanceAtMost(a[..|a| - 1], b[..|b| - 1]); }
  }

  lemma {:induction false} DistanceAtLeast(a: string, b: string)
    ensures Distance(a, b) >= |a| - |b| && Distance(a, b) >= |b| - |a|
    decreases |a| + |b|
  {
    if a != [] && b != [] {
      var i, j := |a| - 1, |b| - 1;
      DistanceAtLeast(a[..i], b);
      DistanceAtLeast(a, b[..j]);
      DistanceAtLeast(a[..i], b[..j]);
    }
  }

  lemma DistanceBounds(a: string, b: string)
    ensures Distance(a, b) <= if |a| >= |b| then |a| else |b|
    ensures Distance(a, b) >= |a| - |b| && Distance(a, b) >= |b| - |a|
  {
    DistanceAtMost(a, b);
    DistanceAtLeast(a, b);
  }

  /** Two scripts that meet in the middle compose without costing more. */
  lemma {:induction false} Compose(s: Script, t: Script) returns (r: Script)
    requires Target(s) == Source(t)
    ensures Source(r) == Source(s) && Target(r) == Target(t) && Cost(r) <= Cost(s) + Cost(t)
    decreases |s| + |t|
  {
    var i, j := |s| - 1, |t| - 1;
    if s != [] && s[i].Del? {
      r := Compose(s[..i], t);
      SourceTargetAppend(r, s[i]);
      r := r + [s[i]];
    } else if t != [] && t[j].Ins? {
      r := Compose(s, t[..j]);
      SourceTargetAppend(r, t[j]);
      r := r + [t[j]];
    } else if s == [] || t == [] {
      r := [];
    } else {
      assert Target(s[..i]) == Target(s)[..|Target(s)| - 1] && Source(t[..j]) == Source(t)[..|Source(t)| - 1];
      r := Compose(s[..i], t[..j]);
      if s[i].Sub? || t[j].Sub? {
        var op := if s[i].Sub? && t[j].Sub? then Sub(s[i].from, t[j].to)
                  else if s[i].Sub? then Del(s[i].from)
                  else Ins(t[j].to);
        SourceTargetAppend(r, op);
        r := r + [op];
      }
    }
  }

  lemma {:induction false} TriangleInequality(a: string, b: string, c: string)
    ensures Distance(a, c) <= Distance(a, b) + Distance(b, c)
  {
    var s := OptimalScript(a, b);
    var t := OptimalScript(b, c);
    var r := Compose(s, t);
    NoCheaperScript(r);
  }

  // ---------- single edits of whole words ----------

  /** One edit of a word at a position. */
  datatype Edit = Insert(at: nat, c: char) | Delete(at: nat) | Replace(at: nat, c: char)

  predicate Fits(s: string, e: Edit) { if e.Insert? then e.at <= |s| else e.at < |s| }

  function Apply(s: string, e: Edit): string
    requires Fits(s, e)
  {
    match e
    case Insert(i, c) => s[..i] + [c] + s[i..]
    case Delete(i) => s[..i] + s[i + 1..]
    case Replace(i, c) => s[..i] + [c] + s[i + 1..]
  }

  ghost predicate OneEdit(s: string, t: string) {
    exists e :: Fits(s, e) && t == Apply(s, e)
  }

  ghost predicate Linked(p: seq<string>, i: nat) { i + 1 < |p| && OneEdit(p[i], p[i + 1]) }

  ghost predicate Linear(p: seq<string>) {
    forall i :: 0 <= i < |p| - 1 ==> Linked(p, i)
  }

  /** A chain of words from a to b, each one edit away from the one before. */
  ghost predicate EditPath(p: seq<string>, a: string, b: string) {
    p != [] && p[0] == a && p[|p| - 1] == b && Linear(p)
  }

  lemma LinearFront(p: seq<string>)
    requires p != [] && Linear(p)
    ensures Linear(p[..|p| - 1])
  {
    var q := p[..|p| - 1];
    forall i | 0 <= i < |q| - 1 ensures Linked(q, i) { assert Linked(p, i); }
  }

  lemma LinearAppend(p: seq<string>, w: string)
    requires p != [] && Linear(p) && OneEdit(p[|p| - 1], w)
    ensures Linear(p + [w])
  {
    var q := p + [w];
    forall i | 0 <= i < |q| - 1 ensures Linked(q, i) {
      if i < |p| - 1 { assert Linked(p, i); }
    }
  }

  lemma {:induction false} SuffixDistance(a: string, b: string, w: string)
    ensures Distance(a + w, b + w) <= Distance(a, b)
  {
    if w == [] {
      assert a + w == a && b + w == b;
    } else {
      var k := |w| - 1;
      SuffixDistance(a, b, w[..k]);
      assert (a + w)[..|a| + k] == a + w[..k] && (b + w)[..|b| + k] == b + w[..k];
    }
  }

  lemma InsertDistance(s: string, t: string, p: string, c: char, rest: string)
    requires s == p + rest && t == p + [c] + rest
    ensures Distance(s, t) <= 1
  {
    LastInserted(p, c);
    SuffixDistance(p, p + [c], rest);
  }

  lemma LastInserted(p: string, c: char)
    ensures Distance(p, p + [c]) <= 1
  {
    DistanceZero(p, p);
    assert (p + [c])[..|p|] == p;
  }

  lemma ReplaceDistance(s: string, t: string, p: string, x: char, c: char, rest: string)
    requires s == p + [x] + rest && t == p + [c] + rest
    ensures Distance(s, t) <= 1
  {
    LastReplaced(p, x, c);
    SuffixDistance(p + [x], p + [c], rest);
  }

  lemma LastReplaced(p: string, x: char, c: char)
    ensures Distance(p + [x], p + [c]) <= 1
  {
    DistanceZero(p, p);
    assert (p + [x])[..|p|] == p && (p + [c])[..|p|] == p;
  }

  lemma EditDistance(s: string, e: Edit)
    requires Fits(s, e)
    ensures Distance(s, Apply(s, e)) <= 1
  {
    var t := Apply(s, e);
    match e
    case Insert(i, c) =>
      assert s == s[..i] + s[i..];
      InsertDistance(s, t, s[..i], c, s[i..]);
    case Delete(i) =>
      assert s == s[..i] + [s[i]] + s[i + 1..];
      InsertDistance(t, s, s[..i], s[i], s[i + 1..]);
      DistanceSymmetric(s, t);
    case Replace(i, c) =>
      assert s == s[..i] + [s[i]] + s[i + 1..];
      ReplaceDistance(s, t, s[..i], s[i], c, s[i + 1..]);
  }

  lemma OneEditDistance(s: string, t: string)
    requires OneEdit(s, t)
    ensures Distance(s, t) <= 1
  {
    var e :| Fits(s, e) && t == Apply(s, e);
    EditDistance(s, e);
  }

  /** No chain of single edits is shorter than the distance. */
  lemma {:induction false} NoShorterPath(p: seq<string>, a: string, b: string)
    requires EditPath(p, a, b)
    ensures |p| - 1 >= Distance(a, b)
  {
    if |p| == 1 {
      DistanceZero(a, b);
    } else {
      var k := |p| - 1;
      LinearFront(p);
      NoShorterPath(p[..k], a, p[k - 1]);
      assert Linked(p, k - 1);
      OneEditDistance(p[k - 1], b);
      TriangleInequality(a, p[k - 1], b);
    }
  }

  lemma ApplyExtends(s: string, e: Edit, x: char)
    requires Fits(s, e)
    ensures Fits(s + [x], e) && Apply(s + [x], e) == Apply(s, e) + [x]
  {
    var w := s + [x];
    match e
    case Insert(i, c) => assert w[i..] == s[i..] + [x];
    case Delete(i) => assert w[i + 1..] == s[i + 1..] + [x];
    case Replace(i, c) => assert w[i + 1..] == s[i + 1..] + [x];
  }

  lemma OneEditExtends(s: string, t: string, x: char)
    requires OneEdit(s, t)
    ensures OneEdit(s + [x], t + [x])
  {
    var e :| Fits(s, e) && t == Apply(s, e);
    ApplyExtends(s, e, x);
  }

  /** Changing the end of a word is one edit. */
  lemma LastEdit(b: string, x: char, y: char)
    ensures OneEdit(b, b + [y]) && OneEdit(b + [x], b) && OneEdit(b + [x], b + [y])
  {
    assert Apply(b, Insert(|b|, y)) == b + [y];
    assert Apply(b + [x], Delete(|b|)) == b;
    assert Apply(b + [x], Replace(|b|, y)) == b + [y];
  }

  /** A script of cost n is a chain of n single edits. */
  lemma {:induction false} PathOfScript(s: Script) returns (p: seq<string>)
    ensures EditPath(p, Source(s), Target(s)) && |p| == Cost(s) + 1
  {
    p := [""];
    if s != [] {
      var k := |s| - 1;
      var q := PathOfScript(s[..k]);
      p := PathExtended(q, Source(s[..k]), Target(s[..k]), s[k]);
      assert Source(s) == Source(s[..k]) + FromOf(s[k]) && Target(s) == Target(s[..k]) + ToOf(s[k]);
    }
  }

  lemma PathInserted(q: seq<string>, a: string, b: string, y: char) returns (p: seq<string>)
    requires EditPath(q, a, b)
    ensures EditPath(p, a, b + [y]) && |p| == |q| + 1
  {
    LastEdit(b, y, y);
    LinearAppend(q, b + [y]);
    p := q + [b + [y]];
  }

  lemma PathLifted(q: seq<string>, a: string, b: string, x: char) returns (p: seq<string>)
    requires EditPath(q, a, b)
    ensures EditPath(p, a + [x], b + [x]) && |p| == |q|
  {
    p := Lifted(q, x);
  }

  lemma PathDeleted(q: seq<string>, a: string, b: string, x: char) returns (p: seq<string>)
    requires EditPath(q, a, b)
    ensures EditPath(p, a + [x], b) && |p| == |q| + 1
  {
    p := PathLifted(q, a, b, x);
    LastEdit(b, x, x);
    LinearAppend(p, b);
    p := p + [b];
  }

  lemma PathReplaced(q: seq<string>, a: string, b: string, x: char, y: char) returns (p: seq<string>)
    requires EditPath(q, a, b)
    ensures EditPath(p, a + [x], b + [y]) && |p| == |q| + if x == y then 0 else 1
  {
    p := PathLifted(q, a, b, x);
    if x != y {
      LastEdit(b, x, y);
      LinearAppend(p, b + [y]);
      p := p + [b + [y]];
    }
  }

  /** One more step of a script is at most one more edit. */
  lemma PathExtended(q: seq<string>, a: string, b: string, op: Op) returns (p: seq<string>)
    requires EditPath(q, a, b)
    ensures EditPath(p, a + FromOf(op), b + ToOf(op)) && |p| == |q| + OpCost(op)
  {
    match op
    case Ins(y) =>
      p := PathInserted(q, a, b, y);
      assert a + FromOf(op) == a;
    case Del(x) =>
      p := PathDeleted(q, a, b, x);
      assert b + ToOf(op) == b;
    case Sub(x, y) => p := PathReplaced(q, a, b, x, y);
  }

  lemma Lifted(q: seq<string>, x: char) returns (p: seq<string>)
    requires q != [] && Linear(q)
    ensures |p| == |q| && Linear(p) && forall i :: 0 <= i < |p| ==> p[i] == q[i] + [x]
  {
    p := seq(|q|, i requires 0 <= i < |q| => q[i] + [x]);
    forall i | 0 <= i < |p| - 1 ensures Linked(p, i) {
      assert Linked(q, i);
      OneEditExtends(q[i], q[i + 1], x);
    }
  }

  /** The distance is the least number of single-character edits that turns a into b. */
  lemma DistanceIsMinimumEdits(a: string, b: string) returns (p: seq<string>)
    ensures EditPath(p, a, b) && |p| - 1 == Distance(a, b)
    ensures forall q :: EditPath(q, a, b) ==> |q| >= |p|
  {
    var s := OptimalScript(a, b);
    p := PathOfScript(s);
    forall q | EditPath(q, a, b) ensures |q| >= |p| { NoShorterPath(q, a, b); }
  }

  // ---------- levenshtein ----------

  /** The table cell for the first i and j characters. */
  function Cell(a: string, b: string, i: nat, j: nat): nat
    requires i <= |a| && j <= |b|
  {
    Distance(a[..i], b[..j])
  }

  lemma CellStep(a: string, b: string, i: nat, j: nat)
    requires 0 < i <= |a| && 0 < j <= |b|
    ensures Cell(a, b, i, j) == Min3(Cell(a, b, i - 1, j) + 1, Cell(a, b, i, j - 1) + 1,
                                     Cell(a, b, i - 1, j - 1) + if a[i - 1] != b[j - 1] then 1 else 0)
  {
    assert a[..i][..i - 1] == a[..i - 1] && b[..j][..j - 1] == b[..j - 1];
  }

  lemma CellEdges(a: string, b: string, k: nat)
    ensures k <= |b| ==> Cell(a, b, 0, k) == k
    ensures k <= |a| ==> Cell(a, b, k, 0) == k
  {
  }

  /** levenshtein: two rows, updated in place and swapped. */
  method Compute(a: string, b: string) returns (d: nat)
    ensures d == Distance(a, b)
  {
    if |a| == 0 { return |b|; }
    if |b| == 0 { return |a|; }
    var prev := new nat[|b| + 1];
    var cur := new nat[|b| + 1];
    for j := 0 to |b| + 1
      invariant forall k :: 0 <= k < j ==> prev[k] == k
    {
      prev[j] := j;
    }
    forall k | 0 <= k <= |b| ensures prev[k] == Cell(a, b, 0, k) { CellEdges(a, b, k); }
    for i := 1 to |a| + 1
      invariant prev.Length == cur.Length == |b| + 1 && prev != cur
      invariant fresh(prev) && fresh(cur)
      invariant forall k :: 0 <= k <= |b| ==> prev[k] == Cell(a, b, i - 1, k)
    {
      cur[0] := i;
      CellEdges(a, b, i);
      for j := 1 to |b| + 1
        invariant forall k :: 0 <= k <= |b| ==> prev[k] == Cell(a, b, i - 1, k)
        invariant forall k :: 0 <= k < j ==> cur[k] == Cell(a, b, i, k)
      {
        var cost := if a[i - 1] != b[j - 1] then 1 else 0;
        var del := prev[j] + 1;
        var ins := cur[j - 1] + 1;
        var sub := prev[j - 1] + cost;
        CellStep(a, b, i, j);
        cur[j] := Min3(del, ins, sub);
      }
      prev, cur := cur, prev;
    }
    assert a[..|a|] == a && b[..|b|] == b;
    d := prev[|b|];
  }

  // ---------- similarity ----------

  /** The UTF-8 encoding of one code point; Go's len and indexing see these bytes. */
  function Utf8Char(c: char): (r: seq<nat>)
    ensures 1 <= |r| <= 4
  {
    var n := c as int;
    if n < 0x80 then [n]
    else if n < 0x800 then [0xC0 + n / 64, 0x80 + n % 64]
    else if n < 0x10000 then [0xE0 + n / 4096, 0x80 + n / 64 % 64, 0x80 + n % 64]
    else [0xF0 + n / 262144, 0x80 + n / 4096 % 64, 0x80 + n / 64 % 64, 0x80 + n % 64]
  }

  function Utf8(s: string): (r: seq<nat>)
    ensures |r| >= |s|
  {
    if s == [] then [] else Utf8Char(s[0]) + Utf8(s[1..])
  }

  function CommonPrefix(a: seq<nat>, b: seq<nat>): (n: nat)
    ensures n <= |a| && n <= |b|
  {
    if a != [] && b != [] && a[0] == b[0] then 1 + CommonPrefix(a[1..], b[1..]) else 0
  }

  function MaxReal(a: real, b: real): real { if a > b then a else b }

  function MaxLen(a: string, b: string): nat {
    if |Utf8(b)| > |Utf8(a)| then |Utf8(b)| else |Utf8(a)|
  }

  /** similarity, with real arithmetic for float64. */
  function SimilarityOf(a: string, b: string): real {
    if a == "" || b == "" then 0.0
    else if a == b then 1.0
    else
      var n := MaxLen(a, b) as real;
      var pref := CommonPrefix(Utf8(a), Utf8(b));
      var byDistance := 1.0 - Distance(a, b) as real / n;
      if pref > 0 then MaxReal(byDistance, pref as real / n * 0.9) else byDistance
  }

  lemma QuotientBounds(x: nat, n: nat)
    requires n > 0 && x <= n
    ensures 0.0 <= x as real / n as real <= 1.0
    ensures x > 0 ==> x as real / n as real > 0.0
  {
  }

  /** The loop over the common prefix. */
  method CommonPrefixLen(ab: seq<nat>, bb: seq<nat>) returns (pref: nat)
    ensures pref == CommonPrefix(ab, bb)
  {
    var n := |ab|;
    if |bb| < n { n := |bb|; }
    pref := 0;
    while pref < n && ab[pref] == bb[pref]
      invariant 0 <= pref <= n
      invariant CommonPrefix(ab, bb) == pref + CommonPrefix(ab[pref..], bb[pref..])
    {
      pref := pref + 1;
    }
  }

  /** The floor at zero in the source is never needed: the distance cannot exceed the longer length. */
  method Similarity(a: string, b: string) returns (score: real)
    ensures score == SimilarityOf(a, b)
  {
    if a == "" || b == "" { return 0.0; }
    if a == b { return 1.0; }
    var ab, bb := Utf8(a), Utf8(b);
    var pref := CommonPrefixLen(ab, bb);
    var dist := Compute(a, b);
    var maxLen := |ab|;
    if |bb| > maxLen { maxLen := |bb|; }
    score := 1.0 - dist as real / maxLen as real;
    if pref > 0 { score := MaxReal(score, pref as real / maxLen as real * 0.9); }
    DistanceBounds(a, b);
    QuotientBounds(dist, maxLen);
    if score < 0.0 { assert false; }
  }

  lemma {:induction false} CommonPrefixSymmetric(a: seq<nat>, b: seq<nat>)
    ensures CommonPrefix(a, b) == CommonPrefix(b, a)
  {
    if a != [] && b != [] && a[0] == b[0] { CommonPrefixSymmetric(a[1..], b[1..]); }
  }

  /** The score is symmetric, lies in [0,1], and is 1 exactly on equal non-empty strings. */
  lemma SimilarityLaws(a: string, b: string)
    ensures SimilarityOf(a, b) == SimilarityOf(b, a)
    ensures 0.0 <= SimilarityOf(a, b) <= 1.0
    ensures SimilarityOf(a, b) == 1.0 <==> a == b && a != ""
  {
    if a != "" && b != "" && a != b {
      DistanceSymmetric(a, b);
      CommonPrefixSymmetric(Utf8(a), Utf8(b));
      DistanceBounds(a, b);
      DistanceZero(a, b);
      var n, pref := MaxLen(a, b), CommonPrefix(Utf8(a), Utf8(b));
      QuotientBounds(Distance(a, b), n);
      QuotientBounds(pref, n);
    }
  }

  // ---------- the score in edits ----------

  /** The encodings of two different characters differ within both: at most their lead bytes agree. */
  lemma EncodingsDiffer(x: char, y: char, s: seq<nat>, t: seq<nat>)
    requires x != y
    ensures CommonPrefix(Utf8Char(x) + s, Utf8Char(y) + t) < |Utf8Char(x)|
    ensures CommonPrefix(Utf8Char(x) + s, Utf8Char(y) + t) < |Utf8Char(y)|
  {
    var a, b := Utf8Char(x) + s, Utf8Char(y) + t;
    if a[0] == b[0] {
      SameLeadSameLength(x, y);
      SomeByteDiffers(x, y);
      var i :| 0 <= i < |Utf8Char(x)| && Utf8Char(x)[i] != Utf8Char(y)[i];
      PrefixStops(a, b, i);
    }
  }

  lemma SameLeadSameLength(x: char, y: char)
    requires Utf8Char(x)[0] == Utf8Char(y)[0]
    ensures |Utf8Char(x)| == |Utf8Char(y)|
  {
    LeadByte(x);
    LeadByte(y);
  }

  /** The lead byte tells the length. */
  lemma LeadByte(x: char)
    ensures var u := Utf8Char(x);
      && (|u| == 1 <==> u[0] < 0x80) && (|u| == 2 <==> 0xC0 <= u[0] < 0xE0)
      && (|u| == 3 <==> 0xE0 <= u[0] < 0xF0) && (|u| == 4 <==> 0xF0 <= u[0])
  {
  }

  lemma SomeByteDiffers(x: char, y: char)
    requires x != y && |Utf8Char(x)| == |Utf8Char(y)|
    ensures exists i :: 0 <= i < |Utf8Char(x)| && Utf8Char(x)[i] != Utf8Char(y)[i]
  {
    var u, v := Utf8Char(x), Utf8Char(y);
    CodePoint(x);
    CodePoint(y);
    assert u != v;
    assert (forall i :: 0 <= i < |u| ==> u[i] == v[i]) ==> u == v;
  }

  /** The bytes give the code point back. */
  function Decoded(u: seq<int>): int
    requires 1 <= |u| <= 4
  {
    if |u| == 1 then u[0]
    else if |u| == 2 then (u[0] - 0xC0) * 64 + (u[1] - 0x80)
    else if |u| == 3 then (u[0] - 0xE0) * 4096 + (u[1] - 0x80) * 64 + (u[2] - 0x80)
    else (u[0] - 0xF0) * 262144 + (u[1] - 0x80) * 4096 + (u[2] - 0x80) * 64 + (u[3] - 0x80)
  }

  lemma CodePoint(x: char)
    ensures Decoded(Utf8Char(x)) == x as int
  {
    var n := x as int;
    assert n == n / 64 * 64 + n % 64;
    assert n / 64 == n / 64 / 64 * 64 + n / 64 % 64 && n / 64 / 64 == n / 4096;
    assert n / 4096 == n / 4096 / 64 * 64 + n / 4096 % 64 && n / 4096 / 64 == n / 262144;
  }

  lemma {:induction false} PrefixStops(a: seq<nat>, b: seq<nat>, i: nat)
    requires i < |a| && i < |b| && a[i] != b[i]
    ensures CommonPrefix(a, b) <= i
  {
    if i > 0 && a[0] == b[0] { PrefixStops(a[1..], b[1..], i - 1); }
  }

  lemma {:induction false} PrefixShared(u: seq<nat>, s: seq<nat>, t: seq<nat>)
    ensures CommonPrefix(u + s, u + t) == |u| + CommonPrefix(s, t)
  {
    if u == [] {
      assert u + s == s && u + t == t;
    } else {
      PrefixShared(u[1..], s, t);
      assert (u + s)[1..] == u[1..] + s && (u + t)[1..] == u[1..] + t;
    }
  }

  /** Removing the same first character from both words. */
  lemma {:induction false} HeadDistance(x: char, a: string, b: string)
    ensures Distance([x] + a, [x] + b) <= Distance(a, b)
    decreases |a| + |b|
  {
    var xa, xb := [x] + a, [x] + b;
    if a == [] {
      KeepTail(x, b);
      assert xa == [x];
    } else if b == [] {
      KeepTail(x, a);
      assert xb == [x];
      DistanceSymmetric(xa, xb);
    } else {
      var i, j := |a| - 1, |b| - 1;
      HeadDistance(x, a[..i], b);
      HeadDistance(x, a, b[..j]);
      HeadDistance(x, a[..i], b[..j]);
      assert xa[..i + 1] == [x] + a[..i] && xb[..j + 1] == [x] + b[..j];
    }
  }

  lemma {:induction false} KeepTail(x: char, b: string)
    ensures Distance([x], [x] + b) <= |b|
  {
    if b == [] {
      DistanceZero([x], [x] + b);
    } else {
      var k := |b| - 1;
      KeepTail(x, b[..k]);
      assert ([x] + b)[..k + 1] == [x] + b[..k];
    }
  }

  /** What the characters beyond the first differing one leave room for: the shared bytes are never more
      than the longer encoding has over the distance. */
  lemma {:induction false} PrefixWithinDistance(a: string, b: string, n: nat)
    requires n >= |Utf8(a)| && n >= |Utf8(b)| && (n == |Utf8(a)| || n == |Utf8(b)|)
    ensures CommonPrefix(Utf8(a), Utf8(b)) <= n - Distance(a, b)
  {
    if a == [] || b == [] {
      DistanceBounds(a, b);
    } else if a[0] == b[0] {
      var u := Utf8Char(a[0]);
      assert |Utf8(a)| == |u| + |Utf8(a[1..])| && |Utf8(b)| == |u| + |Utf8(b[1..])|;
      PrefixWithinDistance(a[1..], b[1..], n - |u|);
      SharedHead(a, b);
      HeadRemoved(a, b, a[0], a[1..], b[1..]);
    } else {
      DifferentHeads(a, b);
      DistanceAtMost(a, b);
    }
  }

  lemma SharedHead(a: string, b: string)
    requires a != [] && b != [] && a[0] == b[0]
    ensures CommonPrefix(Utf8(a), Utf8(b)) == |Utf8Char(a[0])| + CommonPrefix(Utf8(a[1..]), Utf8(b[1..]))
  {
    PrefixShared(Utf8Char(a[0]), Utf8(a[1..]), Utf8(b[1..]));
  }

  lemma HeadRemoved(a: string, b: string, x: char, s: string, t: string)
    requires a == [x] + s && b == [x] + t
    ensures Distance(a, b) <= Distance(s, t)
  {
    HeadDistance(x, s, t);
  }

  lemma DifferentHeads(a: string, b: string)
    requires a != [] && b != [] && a[0] != b[0]
    ensures CommonPrefix(Utf8(a), Utf8(b)) + |a| <= |Utf8(a)|
    ensures CommonPrefix(Utf8(a), Utf8(b)) + |b| <= |Utf8(b)|
  {
    EncodingsDiffer(a[0], b[0], Utf8(a[1..]), Utf8(b[1..]));
  }

  lemma SharesAddUp(p: real, d: real, m: real)
    requires m > 0.0 && p >= 0.0 && p + d <= m
    ensures p / m * 0.9 <= 1.0 - d / m
  {
    assert p / m + d / m == (p + d) / m;
    assert p / m >= 0.0;
  }

  lemma ShareOf(pref: nat, d: nat, n: nat)
    requires n > 0 && pref + d <= n
    ensures pref as real / n as real * 0.9 <= 1.0 - d as real / n as real
  {
    assert pref as real + d as real == (pref + d) as real;
    SharesAddUp(pref as real, d as real, n as real);
  }

  /** The prefix bonus never decides: the score is the share of the longer word the distance leaves. */
  lemma ScoreInDistance(a: string, b: string, n: nat)
    requires a != "" && b != "" && a != b
    requires n >= |Utf8(a)| && n >= |Utf8(b)| && (n == |Utf8(a)| || n == |Utf8(b)|)
    ensures SimilarityOf(a, b) == 1.0 - Distance(a, b) as real / n as real
  {
    var d, pref := Distance(a, b), CommonPrefix(Utf8(a), Utf8(b));
    PrefixWithinDistance(a, b, n);
    ShareOf(pref, d, n);
    assert n == MaxLen(a, b);
  }

  /** No chain of edits is shorter. */
  ghost predicate ShortestPath(p: seq<string>, a: string, b: string) {
    EditPath(p, a, b) && forall q :: EditPath(q, a, b) ==> |q| >= |p|
  }

  /** A shortest chain of edits has the length of the distance. */
  lemma ShortestLength(a: string, b: string, p: seq<string>)
    requires ShortestPath(p, a, b)
    ensures |p| - 1 == Distance(a, b)
  {
    var q := DistanceIsMinimumEdits(a, b);
  }

  /** The score of two different words is the share of the longer one, in bytes, that a shortest chain of
      single-character edits leaves alone. */
  lemma SimilarityInEdits(a: string, b: string, p: seq<string>, n: nat)
    requires a != "" && b != "" && a != b && ShortestPath(p, a, b)
    requires n >= |Utf8(a)| && n >= |Utf8(b)| && (n == |Utf8(a)| || n == |Utf8(b)|)
    ensures SimilarityOf(a, b) == 1.0 - (|p| - 1) as real / n as real
  {
    ShortestLength(a, b, p);
    ScoreInDistance(a, b, n);
  }
}
