/** Texts as words: strings.Fields, joining and splitting at spaces. */
module Words {
  import Text

  /** strings.Fields; cur is the field being read. */
  function Fields(s: string, cur: string): seq<string> {
    if s == [] then (if cur == "" then [] else [cur])
    else if Text.IsSpace(s[0]) then (if cur == "" then [] else [cur]) + Fields(s[1..], "")
    else Fields(s[1..], cur + [s[0]])
  }

  /** The words of a text, whatever the spacing. */
  function WordsOf(s: string): seq<string> { Fields(Text.TrimSpace(s), "") }

  predicate Word(w: string) { w != "" && forall i :: 0 <= i < |w| ==> !Text.IsSpace(w[i]) }

  lemma {:induction false} FieldsAreWords(s: string, cur: string)
    requires cur == "" || Word(cur)
    ensures forall i :: 0 <= i < |Fields(s, cur)| ==> Word(Fields(s, cur)[i])
  {
    if s != [] {
      if Text.IsSpace(s[0]) { FieldsAreWords(s[1..], ""); } else { FieldsAreWords(s[1..], cur + [s[0]]); }
    }
  }

  lemma {:induction false} JoinMore(ws: seq<string>, us: seq<string>)
    requires ws != [] && us != []
    ensures Text.Join(ws + us, ' ') == Text.Join(ws, ' ') + [' '] + Text.Join(us, ' ')
  {
    if |ws| == 1 {
      assert (ws + us)[1..] == us;
    } else {
      JoinMore(ws[1..], us);
      assert (ws + us)[1..] == ws[1..] + us;
    }
  }

  lemma {:induction false} SplitMore(ws: seq<string>, rest: string)
    requires ws != [] && forall i :: 0 <= i < |ws| ==> ' ' !in ws[i]
    ensures Text.Split(Text.Join(ws, ' ') + [' '] + rest, ' ') == ws + Text.Split(rest, ' ')
  {
    var parts := Text.Split(rest, ' ');
    if |ws| == 1 {
      Text.SplitCut(ws[0], rest, ' ');
      assert [ws[0]] + parts == ws + parts;
    } else {
      SplitMore(ws[1..], rest);
      SplitFirst(ws, rest);
      assert [ws[0]] + (ws[1..] + parts) == ws + parts;
    }
  }

  lemma SplitFirst(ws: seq<string>, rest: string)
    requires |ws| > 1 && ' ' !in ws[0]
    ensures Text.Split(Text.Join(ws, ' ') + [' '] + rest, ' ')
            == [ws[0]] + Text.Split(Text.Join(ws[1..], ' ') + [' '] + rest, ' ')
  {
    var j := Text.Join(ws[1..], ' ');
    Regroup(ws[0], j, rest);
    Text.SplitCut(ws[0], j + [' '] + rest, ' ');
  }

  lemma Regroup(a: string, b: string, c: string)
    ensures a + [' '] + b + [' '] + c == a + [' '] + (b + [' '] + c)
  {
  }

  lemma JoinNonEmpty(ws: seq<string>)
    requires ws != [] && ws[0] != ""
    ensures Text.Join(ws, ' ') != ""
  {
  }

  ghost predicate AllWords(ws: seq<string>) { forall i :: 0 <= i < |ws| ==> Word(ws[i]) }

  lemma WordsHaveNoSpace(ws: seq<string>)
    requires AllWords(ws)
    ensures forall i :: 0 <= i < |ws| ==> ' ' !in ws[i]
  {
  }

  lemma JoinExtends(ws: seq<string>, vs: seq<string>)
    requires ws != [] && ws <= vs
    ensures var h, l := Text.Join(ws, ' '), Text.Join(vs, ' ');
      l == h || Text.HasPrefix(l, h + " ")
  {
    if ws != vs {
      var us := vs[|ws|..];
      assert vs == ws + us;
      JoinMore(ws, us);
      assert Text.Join(ws, ' ') + " " <= Text.Join(ws, ' ') + [' '] + Text.Join(us, ' ');
    }
  }

  lemma JoinInjective(ws: seq<string>, vs: seq<string>)
    requires ws != [] && AllWords(ws) && AllWords(vs) && Text.Join(ws, ' ') == Text.Join(vs, ' ')
    ensures ws == vs
  {
    WordsHaveNoSpace(ws);
    WordsHaveNoSpace(vs);
    JoinNonEmpty(ws);
    Text.SplitJoin(ws, ' ');
    Text.SplitJoin(vs, ' ');
  }

  lemma JoinBegins(ws: seq<string>, vs: seq<string>)
    requires ws != [] && AllWords(ws) && AllWords(vs) && Text.HasPrefix(Text.Join(vs, ' '), Text.Join(ws, ' ') + " ")
    ensures ws <= vs
  {
    var h, l := Text.Join(ws, ' '), Text.Join(vs, ' ');
    var rest := l[|h| + 1..];
    assert l == h + [' '] + rest;
    WordsHaveNoSpace(ws);
    WordsHaveNoSpace(vs);
    SplitMore(ws, rest);
    Text.SplitJoin(vs, ' ');
  }

  /** Joined by spaces, words begin with words exactly when the lists do. */
  lemma JoinedPrefix(ws: seq<string>, vs: seq<string>)
    requires ws != [] && AllWords(ws) && AllWords(vs)
    ensures var h, l := Text.Join(ws, ' '), Text.Join(vs, ' ');
      l == h || Text.HasPrefix(l, h + " ") <==> ws <= vs
  {
    var h, l := Text.Join(ws, ' '), Text.Join(vs, ' ');
    if ws <= vs { JoinExtends(ws, vs); }
    if l == h { JoinInjective(ws, vs); }
    if Text.HasPrefix(l, h + " ") { JoinBegins(ws, vs); }
  }

  lemma {:induction false} FieldsReadsWord(w: string, s: string, cur: string)
    requires forall i :: 0 <= i < |w| ==> !Text.IsSpace(w[i])
    ensures Fields(w + s, cur) == Fields(s, cur + w)
  {
    if w == "" {
      assert w + s == s && cur + w == cur;
    } else {
      FieldsReadsWord(w[1..], s, cur + [w[0]]);
      assert (w + s)[1..] == w[1..] + s;
      assert cur + [w[0]] + w[1..] == cur + w;
    }
  }

  lemma {:induction false} FieldsOfJoin(ws: seq<string>)
    requires ws != [] && AllWords(ws)
    ensures Fields(Text.Join(ws, ' '), "") == ws
  {
    var w := ws[0];
    if |ws| == 1 {
      FieldsReadsWord(w, "", "");
      assert w + "" == w && "" + w == w;
    } else {
      var rest := Text.Join(ws[1..], ' ');
      FieldsReadsWord(w, [' '] + rest, "");
      assert Text.Join(ws, ' ') == w + ([' '] + rest) && "" + w == w;
      assert ([' '] + rest)[1..] == rest;
      FieldsOfJoin(ws[1..]);
    }
  }

  /** A text without spaces at its ends. */
  predicate Trimmed(s: string) { s != "" && !Text.IsSpace(s[0]) && !Text.IsSpace(s[|s| - 1]) }

  lemma {:induction false} JoinTrimmed(ws: seq<string>)
    requires ws != [] && AllWords(ws)
    ensures Trimmed(Text.Join(ws, ' '))
  {
    if |ws| > 1 { JoinTrimmed(ws[1..]); }
  }

  lemma TrimmedStays(s: string)
    requires Trimmed(s)
    ensures Text.TrimSpace(s) == s && Text.TrimSpace(" " + s) == s
  {
    assert (" " + s)[1..] == s;
  }

  lemma WordsOfJoin(ws: seq<string>)
    requires ws != [] && AllWords(ws)
    ensures WordsOf(Text.Join(ws, ' ')) == ws
  {
    JoinTrimmed(ws);
    TrimmedStays(Text.Join(ws, ' '));
    FieldsOfJoin(ws);
  }

  /** The fields read to their end, and the one still being read. */
  function Done(s: string, cur: string): seq<string> {
    if s == [] then []
    else if Text.IsSpace(s[0]) then (if cur == "" then [] else [cur]) + Done(s[1..], "")
    else Done(s[1..], cur + [s[0]])
  }

  function Reading(s: string, cur: string): string {
    if s == [] then cur
    else if Text.IsSpace(s[0]) then Reading(s[1..], "")
    else Reading(s[1..], cur + [s[0]])
  }

  lemma {:induction false} FieldsParts(s: string, cur: string)
    ensures Fields(s, cur) == Done(s, cur) + if Reading(s, cur) == "" then [] else [Reading(s, cur)]
  {
    if s != [] {
      if Text.IsSpace(s[0]) { FieldsParts(s[1..], ""); } else { FieldsParts(s[1..], cur + [s[0]]); }
    }
  }

  /** One more character ends the field being read or belongs to it. */
  lemma {:induction false} OneMoreChar(s: string, cur: string, c: char)
    ensures Done(s + [c], cur) == if Text.IsSpace(c) then Fields(s, cur) else Done(s, cur)
    ensures Reading(s + [c], cur) == if Text.IsSpace(c) then "" else Reading(s, cur) + [c]
  {
    if s == [] {
      assert (s + [c])[1..] == [];
      assert s + [c] == [c];
    } else {
      assert (s + [c])[1..] == s[1..] + [c] && (s + [c])[0] == s[0];
      if Text.IsSpace(s[0]) { OneMoreChar(s[1..], "", c); } else { OneMoreChar(s[1..], cur + [s[0]], c); }
    }
  }

  lemma {:induction false} DoneAreWords(s: string, cur: string)
    requires cur == "" || Word(cur)
    ensures AllWords(Done(s, cur)) && (Reading(s, cur) == "" || Word(Reading(s, cur)))
  {
    if s != [] {
      if Text.IsSpace(s[0]) { DoneAreWords(s[1..], ""); } else { DoneAreWords(s[1..], cur + [s[0]]); }
    }
  }
}
