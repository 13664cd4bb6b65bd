/** Where callouts stand and what the composed text says, told on the lines and hints alone. */
module Callouts {
  import opened Compose
  import opened Layout
  import opened Words
  import Text

  // ---------- which headers a hint covers ----------

  /** A header covers a hint exactly when the words of the hint, which must have some, are the first words
      of the header. */
  lemma CoversIff(header: string, hint: string)
    ensures SectionHintMatchesHeader(header, hint) <==>
            WordsOf(hint) != [] && WordsOf(hint) <= WordsOf(TrimPrefix(Text.TrimSpace(header), "##"))
  {
    var ws, vs := WordsOf(hint), WordsOf(TrimPrefix(Text.TrimSpace(header), "##"));
    FieldsAreWords(Text.TrimSpace(hint), "");
    FieldsAreWords(Text.TrimSpace(TrimPrefix(Text.TrimSpace(header), "##")), "");
    if ws != [] {
      JoinNonEmpty(ws);
      JoinedPrefix(ws, vs);
    }
  }

  lemma WordsOfHeader(vs: seq<string>)
    requires vs != [] && AllWords(vs)
    ensures WordsOf(TrimPrefix(Text.TrimSpace("## " + Text.Join(vs, ' ')), "##")) == vs
  {
    var title := Text.Join(vs, ' ');
    var header := "## " + title;
    JoinTrimmed(vs);
    assert header[|header| - 1] == title[|title| - 1];
    TrimmedStays(header);
    assert header[2..] == " " + title;
    TrimmedStays(title);
    FieldsOfJoin(vs);
  }

  /** "## " and words cover a hint of words exactly when they begin with them. */
  lemma HeaderCovers(ws: seq<string>, vs: seq<string>)
    requires ws != [] && vs != [] && AllWords(ws) && AllWords(vs)
    ensures SectionHintMatchesHeader("## " + Text.Join(vs, ' '), Text.Join(ws, ' ')) <==> ws <= vs
  {
    WordsOfJoin(ws);
    WordsOfHeader(vs);
    CoversIff("## " + Text.Join(vs, ' '), Text.Join(ws, ' '));
  }

  /** The hint of section 1 covers the header of section 1 and not that of section 10. */
  lemma SectionOneIsNotTen()
    ensures SectionHintMatchesHeader("## " + Text.Join(["\U{A7}", "1", "Titel"], ' '), Text.Join(["\U{A7}", "1"], ' '))
    ensures !SectionHintMatchesHeader("## " + Text.Join(["\U{A7}", "10", "Titel"], ' '), Text.Join(["\U{A7}", "1"], ' '))
  {
    var hint, one, ten := ["\U{A7}", "1"], ["\U{A7}", "1", "Titel"], ["\U{A7}", "10", "Titel"];
    assert AllWords(hint) && AllWords(one) && AllWords(ten);
    HeaderCovers(hint, one);
    HeaderCovers(hint, ten);
    assert one[..2] == hint;
    assert |hint[1]| == 1 && |ten[1]| == 2;
  }

  // ---------- where a callout stands ----------

  function Pieces(rd: Reading, lines: seq<string>, members: seq<Member>): seq<Piece> {
    Arranged(Slots(OutlineOf(rd, lines, members)), |lines|)
  }

  predicate Heads(rd: Reading, lines: seq<string>, hint: string, h: nat) {
    h < |lines| && rd.isHeader(lines[h]) && rd.covers(lines[h], hint)
  }

  /** The first section the hint names starts at line h and ends before line e. */
  ghost predicate SectionAt(rd: Reading, lines: seq<string>, hint: string, h: nat, e: nat) {
    && Heads(rd, lines, hint, h) && (forall g :: 0 <= g < h ==> !Heads(rd, lines, hint, g))
    && h < e <= |lines| && (forall g :: h < g < e ==> !rd.isHeader(lines[g])) && (e < |lines| ==> rd.isHeader(lines[e]))
  }

  ghost predicate NoSection(rd: Reading, lines: seq<string>, hint: string) {
    forall h :: 0 <= h < |lines| ==> !Heads(rd, lines, hint, h)
  }

  lemma FirstMatch(rd: Reading, lines: seq<string>, hint: string)
    ensures var f := First(MatchesOf(rd, lines, hint));
      && (forall g :: 0 <= g < f ==> !Heads(rd, lines, hint, g))
      && (f < |lines| ==> Heads(rd, lines, hint, f))
  {
    var b := MatchesOf(rd, lines, hint);
    assert forall g :: 0 <= g < |lines| ==> (b[g] <==> Heads(rd, lines, hint, g));
  }

  lemma SlotIs(rd: Reading, lines: seq<string>, members: seq<Member>, k: nat)
    requires k < |members|
    ensures var o := OutlineOf(rd, lines, members);
      && (forall h: nat, e: nat :: SectionAt(rd, lines, members[k].hint, h, e) ==> Slots(o)[k] == AfterBody(e))
      && (NoSection(rd, lines, members[k].hint) ==> Slots(o)[k] == AtEnd)
  {
    var o := OutlineOf(rd, lines, members);
    SlotMeaning(o, k);
    FirstMatch(rd, lines, members[k].hint);
    var f := First(o.matches[k]);
    assert f == First(MatchesOf(rd, lines, members[k].hint));
    assert forall g :: 0 <= g < |lines| ==> o.headers[g] == rd.isHeader(lines[g]);
    forall h: nat, e: nat | SectionAt(rd, lines, members[k].hint, h, e) ensures Slots(o)[k] == AfterBody(e) {
      assert f == h;
      var b := BodyEnd(o.headers, h);
      assert b == e;
    }
  }

  /** A callout stands right after the lines of the first section its hint names, and after all lines when
      it names none. */
  lemma CalloutPlace(rd: Reading, lines: seq<string>, members: seq<Member>, i: nat, k: nat)
    requires i < |Pieces(rd, lines, members)| && Pieces(rd, lines, members)[i] == Callout(k) && k < |members|
    ensures forall h: nat, e: nat :: SectionAt(rd, lines, members[k].hint, h, e) ==> |ParentLines(Pieces(rd, lines, members)[..i])| == e
    ensures NoSection(rd, lines, members[k].hint) ==> |ParentLines(Pieces(rd, lines, members)[..i])| == |lines|
  {
    CompositionConserves(rd, lines, members);
    SlotIs(rd, lines, members, k);
    assert MayFollow(Slots(OutlineOf(rd, lines, members)), |lines|, Pieces(rd, lines, members)[..i], k);
  }

  /** Callouts of one section, and those of none, stand in member order. */
  lemma CalloutOrder(rd: Reading, lines: seq<string>, members: seq<Member>, i: nat, j: nat, k: nat, l: nat)
    requires j < i < |Pieces(rd, lines, members)| && k < |members| && l < |members|
    requires Pieces(rd, lines, members)[i] == Callout(k) && Pieces(rd, lines, members)[j] == Callout(l)
    requires (exists h: nat, e: nat :: SectionAt(rd, lines, members[k].hint, h, e) && SectionAt(rd, lines, members[l].hint, h, e))
             || (NoSection(rd, lines, members[k].hint) && NoSection(rd, lines, members[l].hint))
    ensures l < k
  {
    CompositionConserves(rd, lines, members);
    SlotIs(rd, lines, members, k);
    SlotIs(rd, lines, members, l);
    var front := Pieces(rd, lines, members)[..i];
    assert MayFollow(Slots(OutlineOf(rd, lines, members)), |lines|, front, k);
    assert front[j] == Callout(l);
  }

  // ---------- what the text says ----------

  /** A text without its line breaks. */
  function Unbroken(s: string): string {
    if s == [] then ""
    else
      var k := |s| - 1;
      Unbroken(s[..k]) + if s[k] == '\n' then "" else [s[k]]
  }

  lemma {:induction false} UnbrokenConcat(s: string, t: string)
    ensures Unbroken(s + t) == Unbroken(s) + Unbroken(t)
  {
    if t == [] {
      assert s + t == s;
    } else {
      var k := |t| - 1;
      UnbrokenConcat(s, t[..k]);
      assert (s + t)[..|s| + k] == s + t[..k];
    }
  }

  lemma {:induction false} UnbrokenTrim(s: string)
    ensures Unbroken(TrimNewlines(s)) == Unbroken(s)
    ensures TrimNewlines(s) == "" || TrimNewlines(s)[|TrimNewlines(s)| - 1] != '\n'
  {
    if s != [] && s[|s| - 1] == '\n' { UnbrokenTrim(s[..|s| - 1]); }
  }

  /** What a piece says: its line, or its member's block. */
  function Says(lines: seq<string>, members: seq<Member>, p: Piece): string {
    match p
    case ParentLine(l) => if l < |lines| then Unbroken(lines[l]) else ""
    case Callout(k) => if k < |members| then Unbroken(members[k].block) else ""
  }

  function AllSay(lines: seq<string>, members: seq<Member>, pieces: seq<Piece>): string {
    if pieces == [] then ""
    else
      var n := |pieces| - 1;
      AllSay(lines, members, pieces[..n]) + Says(lines, members, pieces[n])
  }

  lemma PieceSays(lines: seq<string>, members: seq<Member>, p: Piece)
    ensures Unbroken(PieceText(lines, members, p)) == Says(lines, members, p)
  {
    assert Unbroken("\n") == "" by { assert "\n"[..0] == ""; }
    assert Unbroken("\n\n") == "" by { assert "\n\n"[..1] == "\n"; }
    match p
    case ParentLine(l) => if l < |lines| { UnbrokenConcat(lines[l], "\n"); }
    case Callout(k) =>
      if k < |members| {
        var block := members[k].block;
        UnbrokenConcat("\n" + block, "\n\n");
        UnbrokenConcat("\n", block);
      }
  }

  lemma {:induction false} RenderSays(lines: seq<string>, members: seq<Member>, pieces: seq<Piece>)
    ensures Unbroken(Render(lines, members, pieces)) == AllSay(lines, members, pieces)
  {
    if pieces != [] {
      var n := |pieces| - 1;
      RenderSays(lines, members, pieces[..n]);
      UnbrokenConcat(Render(lines, members, pieces[..n]), PieceText(lines, members, pieces[n]));
      PieceSays(lines, members, pieces[n]);
    }
  }

  /** Line breaks aside, the composed text is the text of its pieces in order; it ends in one line break. */
  lemma ComposedSays(rd: Reading, lines: seq<string>, members: seq<Member>)
    ensures var text := Composed(rd, lines, members);
      && Unbroken(text) == AllSay(lines, members, Pieces(rd, lines, members))
      && text != "" && text[|text| - 1] == '\n' && (|text| > 1 ==> text[|text| - 2] != '\n')
  {
    var whole := Render(lines, members, Pieces(rd, lines, members));
    RenderSays(lines, members, Pieces(rd, lines, members));
    UnbrokenTrim(whole);
    UnbrokenConcat(TrimNewlines(whole), "\n");
    assert Unbroken("\n") == "" by { assert "\n"[..0] == ""; }
  }
}
