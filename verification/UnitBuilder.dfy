/** Turning the token stream of a GII norm document into text units (internal/export/export.go:
    extractUnits and its helpers). */
module UnitBuilder {
  import opened Domain
  import Text
  import Words

  datatype Attr = Attr(name: string, value: string)

  datatype XmlToken = StartElement(name: string, attrs: seq<Attr>) | EndElement(name: string) | Chars(data: string)

  /** The element names the machine tells apart. */
  datatype Tag =
    | Norm | Enbez | Titel | Langue | Metangabe | Gliederungseinheit | Paragraph | Content | TextTag | Textdaten
    | Metadaten | Other(name: string)

  datatype Token = Start(tag: Tag, attrs: seq<Attr>) | End(tag: Tag) | CharData(text: string)

  function TagOf(name: string): Tag {
    var n := Text.Lower(name);
    if n == "norm" then Norm
    else if n == "enbez" then Enbez
    else if n == "titel" || n == "title" then Titel
    else if n == "langue" then Langue
    else if n == "metangabe" then Metangabe
    else if n == "gliederungseinheit" then Gliederungseinheit
    else if n == "p" || n == "absatz" then Paragraph
    else if n == "content" then Content
    else if n == "text" then TextTag
    else if n == "textdaten" then Textdaten
    else if n == "metadaten" then Metadaten
    else Other(n)
  }

  function Read(t: XmlToken): Token {
    match t
    case StartElement(name, attrs) => Start(TagOf(name), attrs)
    case EndElement(name) => End(TagOf(name))
    case Chars(data) => CharData(data)
  }

  function ReadAll(doc: seq<XmlToken>): seq<Token> {
    seq(|doc|, i requires 0 <= i < |doc| => Read(doc[i]))
  }

  datatype Kind = Preamble | SectionHeading | Normtext | Footnote | Noise

  datatype Unit = Unit(
    id: string, sectionKey: string, sectionRef: string, sectionTitle: string, paragraphNum: string,
    text: string, kind: Kind, ambiguous: bool)

  /** classifyUnit and unitID for one law: pattern matching and hashing are not part of this model. */
  datatype Labels = Labels(classify: (string, string, bool) -> Kind, unitID: (string, string) -> string)

  // ---------- whitespace ----------

  /** The text with all whitespace erased. */
  function Erase(s: string): string {
    if s == [] then ""
    else
      var k := |s| - 1;
      Erase(s[..k]) + if Text.IsSpace(s[k]) then "" else [s[k]]
  }

  lemma {:induction false} EraseConcat(s: string, t: string)
    ensures Erase(s + t) == Erase(s) + Erase(t)
  {
    if t == [] {
      assert s + t == s;
    } else {
      var k := |t| - 1;
      EraseConcat(s, t[..k]);
      assert (s + t)[..|s| + k] == s + t[..k];
    }
  }

  lemma {:induction false} EraseBlank(s: string)
    ensures Erase(s) == "" <==> Text.Blank(s)
  {
    if s != [] {
      var k := |s| - 1;
      EraseBlank(s[..k]);
      assert s == s[..k] + [s[k]];
    }
  }

  lemma {:induction false} EraseTrimRight(s: string)
    ensures Erase(Text.TrimRight(s)) == Erase(s)
  {
    if s != [] && Text.IsSpace(s[|s| - 1]) { EraseTrimRight(s[..|s| - 1]); }
  }

  lemma {:induction false} EraseTrimLeft(s: string)
    ensures Erase(Text.TrimLeft(s)) == Erase(s)
  {
    if s != [] && Text.IsSpace(s[0]) {
      EraseTrimLeft(s[1..]);
      assert s == [s[0]] + s[1..];
      EraseConcat([s[0]], s[1..]);
      assert [s[0]][..0] == "";
      assert Erase([s[0]]) == "";
    }
  }

  /** What the collapsing loop of normalizeWhitespace has written after reading s. */
  function Collapsed(s: string): string {
    if s == [] then ""
    else
      var k := |s| - 1;
      var front := Collapsed(s[..k]);
      if !Text.IsSpace(s[k]) then front + [s[k]]
      else if front == "" || front[|front| - 1] == ' ' then front
      else front + " "
  }

  function Normalized(s: string): string { Text.TrimSpace(Collapsed(s)) }

  /** Single inner spaces only, none at the ends. */
  predicate Tidy(t: string) {
    && (forall i :: 0 <= i < |t| && Text.IsSpace(t[i]) ==> t[i] == ' ')
    && (forall i :: 0 <= i < |t| - 1 ==> !(t[i] == ' ' && t[i + 1] == ' '))
    && (t != "" ==> !Text.IsSpace(t[0]) && !Text.IsSpace(t[|t| - 1]))
  }

  predicate SingleSpaces(t: string) {
    && (forall i :: 0 <= i < |t| && Text.IsSpace(t[i]) ==> t[i] == ' ')
    && (forall i :: 0 <= i < |t| - 1 ==> !(t[i] == ' ' && t[i + 1] == ' '))
    && (t != "" ==> !Text.IsSpace(t[0]))
  }

  lemma {:induction false} CollapsedShape(s: string)
    ensures SingleSpaces(Collapsed(s))
  {
    if s != [] { CollapsedShape(s[..|s| - 1]); }
  }

  lemma {:induction false} CollapsedErases(s: string)
    ensures Erase(Collapsed(s)) == Erase(s)
  {
    if s != [] {
      var k := |s| - 1;
      CollapsedErases(s[..k]);
      var front := Collapsed(s[..k]);
      SpaceErased(front);
      assert (front + [s[k]])[..|front|] == front;
    }
  }

  lemma SpaceErased(s: string)
    ensures Erase(s + " ") == Erase(s)
  {
    assert (s + " ")[..|s|] == s;
  }

  /** normalizeWhitespace changes nothing but whitespace, and leaves it tidy. */
  lemma NormalizedExact(s: string)
    ensures Erase(Normalized(s)) == Erase(s) && Tidy(Normalized(s))
    ensures Normalized(s) == "" <==> Text.Blank(s)
  {
    var t := Collapsed(s);
    CollapsedShape(s);
    CollapsedErases(s);
    EraseTrimLeft(t);
    EraseTrimRight(t);
    EraseBlank(s);
    EraseBlank(Normalized(s));
    if t != "" {
      assert Text.TrimLeft(t) == t;
      var u := Text.TrimRight(t);
      Text.TrimRightKeepsHead(t);
      TrimRightPrefix(t);
    }
  }

  lemma {:induction false} TrimRightPrefix(t: string)
    ensures Text.TrimRight(t) <= t
    ensures Text.TrimRight(t) != "" ==> !Text.IsSpace(Text.TrimRight(t)[|Text.TrimRight(t)| - 1])
  {
    if t != [] && Text.IsSpace(t[|t| - 1]) { TrimRightPrefix(t[..|t| - 1]); }
  }

  /** Words read so far, each followed by a space, and the beginning of one more. */
  function SpacedOut(done: seq<string>, reading: string): string {
    if done == [] then reading else Text.Join(done, ' ') + [' '] + reading
  }

  lemma SpacedOutNext(done: seq<string>, reading: string)
    requires reading != ""
    ensures SpacedOut(done, reading) == Text.Join(done + [reading], ' ')
    ensures SpacedOut(done, reading) + [' '] == SpacedOut(done + [reading], "")
  {
    if done == [] {
      assert done + [reading] == [reading];
    } else {
      Words.JoinMore(done, [reading]);
    }
  }

  lemma SpacedOutGrows(done: seq<string>, reading: string, c: char)
    ensures SpacedOut(done, reading + [c]) == SpacedOut(done, reading) + [c]
  {
  }

  lemma SpacedOutEnd(done: seq<string>, reading: string)
    requires reading == "" || Words.Word(reading)
    ensures var t := SpacedOut(done, reading);
      && (t == "" <==> done == [] && reading == "")
      && (t != "" ==> (t[|t| - 1] == ' ' <==> reading == ""))
  {
  }

  /** The collapsing loop writes the words of the text, one space after each. */
  lemma {:induction false} CollapsedIsSpacedOut(s: string)
    ensures Collapsed(s) == SpacedOut(Words.Done(s, ""), Words.Reading(s, ""))
  {
    if s != [] {
      var k := |s| - 1;
      var front, c := s[..k], s[k];
      assert s == front + [c];
      CollapsedIsSpacedOut(front);
      Words.OneMoreChar(front, "", c);
      Words.FieldsParts(front, "");
      Words.DoneAreWords(front, "");
      var done, reading := Words.Done(front, ""), Words.Reading(front, "");
      SpacedOutEnd(done, reading);
      SpacedOutGrows(done, reading, c);
      if reading != "" { SpacedOutNext(done, reading); } else { assert done + [] == done; }
    }
  }

  /** The normal form is the words of the text joined by single spaces: no word is split, and no two are
      run together. */
  lemma NormalizedWords(s: string)
    ensures Normalized(s) == Text.Join(Words.Fields(s, ""), ' ')
  {
    var done, reading := Words.Done(s, ""), Words.Reading(s, "");
    CollapsedIsSpacedOut(s);
    Words.FieldsParts(s, "");
    Words.DoneAreWords(s, "");
    if reading != "" {
      SpacedOutNext(done, reading);
      Words.JoinTrimmed(done + [reading]);
      Words.TrimmedStays(Text.Join(done + [reading], ' '));
    } else if done != [] {
      Words.JoinTrimmed(done);
      SpaceTrimmed(Text.Join(done, ' '));
      assert done + [] == done;
    }
  }

  lemma SpaceTrimmed(t: string)
    requires Words.Trimmed(t)
    ensures Text.TrimSpace(t + [' '] + "") == t
  {
    var u := t + [' '] + "";
    assert u[..|u| - 1] == t && u[0] == t[0] && u[|u| - 1] == ' ';
    assert Text.TrimLeft(u) == u;
    assert Text.TrimRight(u) == Text.TrimRight(t) == t;
  }

  method NormalizeWhitespace(s: string) returns (r: string)
    ensures r == Normalized(s)
  {
    r := "";
    var prevSpace := false;
    for i := 0 to |s|
      invariant r == Collapsed(s[..i])
      invariant prevSpace <==> r != "" && r[|r| - 1] == ' '
    {
      assert s[..i + 1][..i] == s[..i];
      if Text.IsSpace(s[i]) {
        if !prevSpace && |r| > 0 {
          r := r + " ";
          prevSpace := true;
        }
        continue;
      }
      prevSpace := false;
      r := r + [s[i]];
    }
    assert s[..|s|] == s;
    r := Text.TrimSpace(r);
  }

  /** strings.TrimSpace(s) == "". */
  method IsBlank(s: string) returns (blank: bool)
    ensures blank == Text.Blank(s)
  {
    Text.TrimSpaceBlank(s);
    blank := Text.TrimSpace(s) == "";
  }

  /** The normal form, with what Emit relies on. */
  method Tidied(text: string) returns (txt: string)
    ensures txt == Normalized(text) && Erase(txt) == Erase(text) && Tidy(txt)
    ensures txt == "" ==> Erase(text) == ""
  {
    txt := NormalizeWhitespace(text);
    NormalizedExact(text);
  }

  function IsClosingPunct(c: char): bool {
    c in {',', '.', ';', ':', '!', '?', ')', ']', '}', '\U{BB}', '\"', '\''}
  }

  function IsOpeningPunct(c: char): bool { c in {'(', '[', '{', '\U{AB}', '\"', '\''} }

  /** A space joins s to the buffer: between two non-spaces, but not before closing and not after
      opening punctuation; a blank s is itself reduced to such a space. */
  predicate NeedsJoint(buf: string, last: char, s: string) {
    && buf != "" && last != '\0' && s != "" && !Text.IsSpace(last)
    && (Text.Blank(s) || (!Text.IsSpace(s[0]) && !IsClosingPunct(s[0]) && !IsOpeningPunct(last)))
  }

  function Joint(buf: string, last: char, s: string): string { if NeedsJoint(buf, last, s) then " " else "" }

  function Appended(buf: string, last: char, s: string): string {
    buf + Joint(buf, last, s) + if Text.Blank(s) then "" else s
  }

  predicate IsWordChar(c: char) { 'a' <= c <= 'z' || 'A' <= c <= 'Z' || Text.IsDigit(c) }

  /** Runs of text that meet letter to letter are kept apart by a space; before a comma or a closing bracket
      and after an opening one none is put in. */
  lemma RunsMeet(buf: string, s: string)
    requires buf != "" && s != ""
    ensures var last := buf[|buf| - 1];
      && (IsWordChar(last) && IsWordChar(s[0]) ==> Appended(buf, last, s) == buf + " " + s)
      && (IsWordChar(last) && s[0] in ",.;:!?)]}" ==> Appended(buf, last, s) == buf + s)
      && (last in "([{" && IsWordChar(s[0]) ==> Appended(buf, last, s) == buf + s)
      && (last == ' ' && IsWordChar(s[0]) ==> Appended(buf, last, s) == buf + s)
  {
    var last := buf[|buf| - 1];
    assert buf + "" + s == buf + s;
    assert IsWordChar(s[0]) || s[0] in ",.;:!?)]}" ==> !Text.IsSpace(s[0]) && !Text.Blank(s);
  }

  lemma EraseAppended(buf: string, last: char, s: string)
    ensures Erase(Appended(buf, last, s)) == Erase(buf) + Erase(s)
  {
    var joint := Joint(buf, last, s);
    SpaceErased(buf);
    EraseBlank(s);
    assert buf + "" == buf;
    assert Erase(buf + joint) == Erase(buf);
    EraseConcat(buf + joint, s);
    assert buf + joint + "" == buf + joint;
  }

  // ---------- specification: what is body text ----------

  /** The part of the machine state that decides what character data is: open elements, whether a
      paragraph is open, and the metadata element being captured. */
  datatype Control = Control(stack: seq<Tag>, inP: bool, capture: Option<Tag>)

  const INITIAL := Control([], false, None)

  predicate Captures(tag: Tag) { tag == Enbez || tag == Langue || tag == Metangabe }

  function Popped(stack: seq<Tag>): seq<Tag> {
    if stack == [] then [] else stack[..|stack| - 1]
  }

  function ControlStep(c: Control, t: Token): Control {
    match t
    case CharData(_) => c
    case Start(tag, _) =>
      var d := c.(stack := c.stack + [tag]);
      if tag == Norm then d.(inP := false, capture := None)
      else if tag == Paragraph then d.(inP := true, capture := None)
      else if Captures(tag) then d.(capture := Some(tag))
      else if tag == Titel && Metadaten in d.stack then d.(capture := Some(Titel))
      else d
    case End(tag) =>
      var d := c.(stack := Popped(c.stack));
      if tag == Norm || tag == Paragraph then d.(inP := false)
      else if Captures(tag) || tag == Titel then d.(capture := None)
      else d
  }

  function ControlAfter(tokens: seq<Token>): Control {
    if tokens == [] then INITIAL else ControlStep(ControlAfter(tokens[..|tokens| - 1]), tokens[|tokens| - 1])
  }

  /** Character data that belongs to the body: everything inside an open paragraph, and stray text of
      textdaten outside metadata. */
  function BodyOf(c: Control, t: Token): string {
    if !t.CharData? then ""
    else if c.inP then t.text
    else if c.capture.None? && Metadaten !in c.stack && Textdaten in c.stack && !Text.Blank(t.text) then t.text
    else ""
  }

  function Accepted(tokens: seq<Token>): string {
    if tokens == [] then ""
    else
      var k := |tokens| - 1;
      Accepted(tokens[..k]) + BodyOf(ControlAfter(tokens[..k]), tokens[k])
  }

  /** The metadata text captured so far. */
  function MetaStep(c: Control, meta: string, t: Token): string {
    match t
    case CharData(s) => if !c.inP && c.capture.Some? then meta + s else meta
    case Start(tag, _) =>
      if tag == Norm || Captures(tag) || (tag == Titel && Metadaten in c.stack) then "" else meta
    case End(tag) => if Captures(tag) || tag == Titel then "" else meta
  }

  function MetaAfter(tokens: seq<Token>): string {
    if tokens == [] then ""
    else
      var k := |tokens| - 1;
      MetaStep(ControlAfter(tokens[..k]), MetaAfter(tokens[..k]), tokens[k])
  }

  /** The text of the unit a closing metangabe yields. */
  function MetaUnitOf(meta: string, t: Token): seq<string> {
    if t == End(Metangabe) && Normalized(meta) != "" then [Normalized(meta)] else []
  }

  function MetaUnits(tokens: seq<Token>): seq<string> {
    if tokens == [] then []
    else
      var k := |tokens| - 1;
      MetaUnits(tokens[..k]) + MetaUnitOf(MetaAfter(tokens[..k]), tokens[k])
  }

  /** The texts of the units whose flag is not set, run together. */
  function BodyText(units: seq<Unit>, fromMeta: seq<bool>): string
    requires |units| == |fromMeta|
  {
    if units == [] then ""
    else
      var k := |units| - 1;
      BodyText(units[..k], fromMeta[..k]) + if fromMeta[k] then "" else units[k].text
  }

  /** The texts of the units whose flag is set. */
  function MetaTexts(units: seq<Unit>, fromMeta: seq<bool>): seq<string>
    requires |units| == |fromMeta|
  {
    if units == [] then []
    else
      var k := |units| - 1;
      MetaTexts(units[..k], fromMeta[..k]) + if fromMeta[k] then [units[k].text] else []
  }

  predicate AllTidy(units: seq<Unit>) {
    forall i :: 0 <= i < |units| ==> units[i].text != "" && Tidy(units[i].text)
  }

  function AttrVal(attrs: seq<Attr>, key: string): string {
    if attrs == [] then ""
    else if Text.EqualFold(attrs[0].name, key) && attrs[0].value != "" then attrs[0].value
    else AttrVal(attrs[1..], key)
  }

  /** bez and titel, trimmed, the empty ones left out, joined by a dash. */
  function JoinTitle(bez: string, titel: string): string {
    var b, t := Text.TrimSpace(bez), Text.TrimSpace(titel);
    Text.TrimSpace(if b == "" then t else if t == "" then b else b + " \U{2014} " + t)
  }

  /** body and metas summarize what has been emitted so far. */
  ghost predicate Summarizes(units: seq<Unit>, fromMeta: seq<bool>, body: string, metas: seq<string>) {
    && |units| == |fromMeta| && AllTidy(units)
    && body == Erase(BodyText(units, fromMeta)) && metas == MetaTexts(units, fromMeta)
  }

  lemma SummarizesAppend(units: seq<Unit>, fromMeta: seq<bool>, body: string, metas: seq<string>, u: Unit, meta: bool)
    requires Summarizes(units, fromMeta, body, metas) && u.text != "" && Tidy(u.text)
    ensures Summarizes(units + [u], fromMeta + [meta], body + if meta then "" else Erase(u.text),
                       metas + if meta then [u.text] else [])
  {
    TextsAppend(units, fromMeta, u, meta);
    EraseConcat(BodyText(units, fromMeta), if meta then "" else u.text);
  }

  lemma TextsAppend(units: seq<Unit>, fromMeta: seq<bool>, u: Unit, meta: bool)
    requires |units| == |fromMeta|
    ensures BodyText(units + [u], fromMeta + [meta]) == BodyText(units, fromMeta) + if meta then "" else u.text
    ensures MetaTexts(units + [u], fromMeta + [meta]) == MetaTexts(units, fromMeta) + if meta then [u.text] else []
  {
    assert (units + [u])[..|units|] == units && (fromMeta + [meta])[..|units|] == fromMeta;
  }

  // ---------- the machine ----------

  class Machine {
    const labels: Labels
    var stack: seq<Tag>
    var sectionRef: string
    var sectionTitle: string
    var sectionKey: string
    var isGliederung: bool
    var paraNum: string
    var inP: bool
    var textBuf: string
    var lastRune: char
    var captureMeta: Option<Tag>
    var metaBuf: string
    var docTitle: string
    var ambiguous: bool
    var units: seq<Unit>
    ghost var fromMeta: seq<bool>
    ghost var body: string
    ghost var metas: seq<string>

    constructor (labels: Labels)
      ensures Valid() && Ctl() == INITIAL && metaBuf == "" && textBuf == "" && body == "" && metas == []
    {
      this.labels := labels;
      stack, sectionRef, sectionTitle, sectionKey, isGliederung, paraNum := [], "", "", "", false, "";
      inP, textBuf, lastRune, captureMeta, metaBuf := false, "", '\0', None, "";
      docTitle, ambiguous, units, fromMeta, body, metas := "", false, [], [], "", [];
    }

    function Ctl(): Control
      reads `stack, `inP, `captureMeta
    {
      Control(stack, inP, captureMeta)
    }

    ghost predicate Valid()
      reads `units, `fromMeta, `body, `metas
    {
      Summarizes(units, fromMeta, body, metas)
    }

    /** Body text emitted or still buffered, whitespace erased. */
    ghost function Held(): string
      reads `body, `textBuf
    {
      body + Erase(textBuf)
    }

    method MakeUnit(txt: string, pnum: string, glied: bool, forceKind: Option<Kind>) returns (u: Unit)
      modifies `ambiguous
      ensures u.text == txt && u.paragraphNum == pnum && u.sectionRef == sectionRef && u.sectionTitle == sectionTitle
      ensures u.sectionKey == if sectionKey == "" then sectionRef else sectionKey
      ensures u.kind == if forceKind.Some? then forceKind.value else labels.classify(txt, sectionRef, glied)
      ensures u.ambiguous <==> sectionKey == "" && sectionRef == "" && pnum == ""
      ensures ambiguous == (old(ambiguous) || u.ambiguous)
    {
      var kind := if forceKind.Some? then forceKind.value else labels.classify(txt, sectionRef, glied);
      var sk := sectionKey;
      if sk == "" && sectionRef != "" { sk := sectionRef; }
      var path := sk + "/" + pnum;
      var amb := false;
      if sk == "" && pnum == "" && sectionRef == "" {
        ambiguous := true;
        amb := true;
        path := "orphan/" + Text.Itoa(|units| + 1);
      }
      u := Unit(labels.unitID(path, txt), sk, sectionRef, sectionTitle, pnum, txt, kind, amb);
    }

    /** emit; meta says that the text comes from a metangabe element. */
    method Emit(text: string, pnum: string, glied: bool, forceKind: Option<Kind>, ghost meta: bool)
      requires Valid()
      modifies `units, `fromMeta, `body, `metas, `ambiguous
      ensures Valid()
      ensures body == old(body) + if meta then "" else Erase(text)
      ensures metas == old(metas) + if meta && Normalized(text) != "" then [Normalized(text)] else []
    {
      var txt := Tidied(text);
      if txt == "" { return; }
      var u := MakeUnit(txt, pnum, glied, forceKind);
      Append(u, meta);
    }

    method Append(u: Unit, ghost meta: bool)
      requires Valid() && u.text != "" && Tidy(u.text)
      modifies `units, `fromMeta, `body, `metas
      ensures Valid() && body == old(body) + if meta then "" else Erase(u.text)
      ensures metas == old(metas) + if meta then [u.text] else []
    {
      SummarizesAppend(units, fromMeta, body, metas, u, meta);
      units, fromMeta := units + [u], fromMeta + [meta];
      body, metas := body + (if meta then "" else Erase(u.text)), metas + if meta then [u.text] else [];
    }

    method FlushP()
      requires Valid()
      modifies `units, `fromMeta, `body, `metas, `ambiguous, `textBuf, `lastRune, `paraNum, `inP
      ensures Valid() && !inP && textBuf == ""
      ensures Held() == old(Held()) && metas == old(metas)
    {
      if !inP && |textBuf| == 0 { return; }
      Emit(textBuf, paraNum, isGliederung, None, false);
      textBuf, lastRune, paraNum, inP := "", '\0', "", false;
    }

    method FlushOrphanText()
      requires Valid()
      modifies `units, `fromMeta, `body, `metas, `ambiguous, `textBuf, `lastRune
      ensures Valid() && textBuf == ""
      ensures Held() == old(Held()) && metas == old(metas)
    {
      if |textBuf| == 0 { return; }
      Emit(textBuf, "", false, None, false);
      textBuf, lastRune := "", '\0';
    }

    method ResetNorm()
      requires textBuf == ""
      modifies `sectionRef, `sectionTitle, `sectionKey, `isGliederung, `paraNum, `inP,
               `textBuf, `lastRune, `captureMeta, `metaBuf
      ensures textBuf == "" && !inP && captureMeta.None? && metaBuf == ""
    {
      sectionRef, sectionTitle, sectionKey, isGliederung, paraNum := "", "", "", false, "";
      inP, textBuf, lastRune, captureMeta, metaBuf := false, "", '\0', None, "";
    }

    /** The body of appendCharData. */
    method WriteCharData(s: string)
      modifies `textBuf, `lastRune
      ensures textBuf == Appended(old(textBuf), old(lastRune), s)
      ensures lastRune ==
              if !Text.Blank(s) then s[|s| - 1]
              else if NeedsJoint(old(textBuf), old(lastRune), s) then ' '
              else old(lastRune)
    {
      assert textBuf + "" + "" == textBuf;
      if s == "" { return; }
      var blank := IsBlank(s);
      if blank {
        if |textBuf| > 0 && lastRune != '\0' && !Text.IsSpace(lastRune) {
          textBuf, lastRune := textBuf + " ", ' ';
        }
        return;
      }
      var first := s[0];
      if |textBuf| > 0 && lastRune != '\0' {
        if !Text.IsSpace(lastRune) && !Text.IsSpace(first) && !IsClosingPunct(first) {
          if !IsOpeningPunct(lastRune) {
            textBuf, lastRune := textBuf + " ", ' ';
          }
        }
      }
      textBuf, lastRune := textBuf + s, s[|s| - 1];
    }

    /** appendCharData on the text buffer. */
    method AppendCharData(s: string)
      modifies `textBuf, `lastRune
      ensures Erase(textBuf) == old(Erase(textBuf)) + Erase(s)
      ensures textBuf == Appended(old(textBuf), old(lastRune), s)
      ensures lastRune ==
              if !Text.Blank(s) then s[|s| - 1]
              else if NeedsJoint(old(textBuf), old(lastRune), s) then ' '
              else old(lastRune)
    {
      EraseAppended(textBuf, lastRune, s);
      WriteCharData(s);
    }

    /** Body text goes to the buffer. */
    method KeepText(s: string)
      requires Valid()
      modifies `textBuf, `lastRune
      ensures Held() == old(Held()) + Erase(s)
    {
      AppendCharData(s);
    }

    method TakeSectionId(attrs: seq<Attr>)
      modifies `sectionKey
      ensures sectionKey == if AttrVal(attrs, "id") != "" then AttrVal(attrs, "id") else old(sectionKey)
    {
      var id := AttrVal(attrs, "id");
      if id != "" { sectionKey := id; }
    }

    method TakeParagraphNumber(attrs: seq<Attr>)
      modifies `paraNum
      ensures paraNum == AttrVal(attrs, "nr")
    {
      paraNum := AttrVal(attrs, "nr");
    }

    method EnterGliederung(attrs: seq<Attr>)
      modifies `isGliederung, `sectionKey, `sectionTitle, `sectionRef
      ensures isGliederung && sectionTitle == JoinTitle(AttrVal(attrs, "gliederungsbez"), AttrVal(attrs, "gliederungstitel"))
      ensures AttrVal(attrs, "gliederungsbez") != "" ==> sectionRef == AttrVal(attrs, "gliederungsbez")
      ensures AttrVal(attrs, "gliederungsbez") == "" ==> sectionRef == old(sectionRef)
      ensures sectionKey == if AttrVal(attrs, "gliederungskennzahl") != "" then AttrVal(attrs, "gliederungskennzahl") else "gliederung"
    {
      isGliederung := true;
      var kenn := AttrVal(attrs, "gliederungskennzahl");
      var bez := AttrVal(attrs, "gliederungsbez");
      var titel := AttrVal(attrs, "gliederungstitel");
      sectionKey := if kenn != "" then kenn else "gliederung";
      sectionTitle := JoinTitle(bez, titel);
      if bez != "" { sectionRef := bez; }
    }

    /** What an opening tag flushes before it takes effect. */
    method FlushForStart(tag: Tag)
      requires Valid()
      modifies `units, `fromMeta, `body, `metas, `ambiguous, `textBuf, `lastRune, `paraNum, `inP
      ensures Valid() && Held() == old(Held()) && metas == old(metas)
      ensures tag == Norm || tag == Paragraph ==> textBuf == ""
      ensures inP == if tag == Norm then false else old(inP)
    {
      match tag
      case Norm =>
        FlushP();
        FlushOrphanText();
      case Paragraph => FlushOrphanText();
      case Content => FlushOrphanText();
      case _ =>
    }

    /** The fields an opening tag sets. */
    method SetForStart(t: Token)
      requires t.Start? && (t.tag == Norm || t.tag == Paragraph ==> textBuf == "")
      requires t.tag == Norm ==> !inP
      modifies `sectionRef, `sectionTitle, `sectionKey, `isGliederung, `paraNum, `inP,
               `textBuf, `lastRune, `captureMeta, `metaBuf
      ensures textBuf == old(textBuf)
      ensures inP == ControlStep(old(Ctl()), t).inP && captureMeta == ControlStep(old(Ctl()), t).capture
      ensures metaBuf == MetaStep(old(Ctl()), old(metaBuf), t)
    {
      match t.tag
      case Norm => ResetNorm();
      case Enbez =>
        captureMeta, metaBuf := Some(Enbez), "";
        TakeSectionId(t.attrs);
      case Titel =>
        if Metadaten in stack { captureMeta, metaBuf := Some(Titel), ""; }
      case Langue => captureMeta, metaBuf := Some(Langue), "";
      case Metangabe => captureMeta, metaBuf := Some(Metangabe), "";
      case Gliederungseinheit => EnterGliederung(t.attrs);
      case Paragraph =>
        captureMeta, inP := None, true;
        TakeParagraphNumber(t.attrs);
        textBuf, lastRune := "", '\0';
      case _ =>
    }

    method OnStart(t: Token)
      requires Valid() && t.Start?
      modifies this
      ensures Valid() && Ctl() == ControlStep(old(Ctl()), t)
      ensures metaBuf == MetaStep(old(Ctl()), old(metaBuf), t)
      ensures Held() == old(Held()) && metas == old(metas)
    {
      FlushForStart(t.tag);
      assert Held() == old(Held()) && Ctl() == old(Ctl()).(inP := inP);
      SetForStart(t);
      assert Valid() && Held() == old(Held());
      stack := stack + [t.tag];
    }

    /** The fields a closing tag sets. */
    method SetForEnd(tag: Tag)
      modifies `sectionRef, `sectionTitle, `sectionKey, `docTitle, `captureMeta, `metaBuf
      ensures captureMeta == if Captures(tag) || tag == Titel then None else old(captureMeta)
      ensures metaBuf == if Captures(tag) || tag == Titel then "" else old(metaBuf)
    {
      match tag
      case Enbez =>
        sectionRef := NormalizeWhitespace(metaBuf);
        if sectionKey == "" { sectionKey := sectionRef; }
        captureMeta, metaBuf := None, "";
      case Titel =>
        if captureMeta == Some(Titel) { sectionTitle := NormalizeWhitespace(metaBuf); }
        captureMeta, metaBuf := None, "";
      case Langue =>
        if docTitle == "" { docTitle := NormalizeWhitespace(metaBuf); }
        captureMeta, metaBuf := None, "";
      case Metangabe => captureMeta, metaBuf := None, "";
      case _ =>
    }

    /** What a closing tag flushes. */
    method FlushForEnd(tag: Tag)
      requires Valid()
      modifies `units, `fromMeta, `body, `metas, `ambiguous, `textBuf, `lastRune, `paraNum, `inP
      ensures Valid() && Held() == old(Held()) && metas == old(metas)
      ensures inP == if tag == Norm || tag == Paragraph then false else old(inP)
    {
      match tag
      case Paragraph => FlushP();
      case Content => FlushOrphanText();
      case TextTag => FlushOrphanText();
      case Textdaten => FlushOrphanText();
      case Norm =>
        FlushP();
        FlushOrphanText();
      case _ =>
    }

    method EmitMetangabe()
      requires Valid()
      modifies `units, `fromMeta, `body, `metas, `ambiguous
      ensures Valid() && body == old(body) && metas == old(metas) + MetaUnitOf(metaBuf, End(Metangabe))
    {
      Emit(metaBuf, "", false, Some(Preamble), true);
    }

    /** What a closing tag emits. */
    method EmitForEnd(tag: Tag)
      requires Valid()
      modifies `units, `fromMeta, `body, `metas, `ambiguous, `textBuf, `lastRune, `paraNum, `inP
      ensures Valid() && Held() == old(Held())
      ensures metas == old(metas) + MetaUnitOf(metaBuf, End(tag))
      ensures inP == if tag == Norm || tag == Paragraph then false else old(inP)
    {
      if tag == Metangabe {
        EmitMetangabe();
      } else {
        FlushForEnd(tag);
        assert MetaUnitOf(metaBuf, End(tag)) == [];
      }
    }

    method PopStack()
      modifies `stack
      ensures stack == Popped(old(stack))
    {
      if |stack| > 0 { stack := stack[..|stack| - 1]; }
    }

    method OnEnd(t: Token)
      requires Valid() && t.End?
      modifies this
      ensures Valid() && Ctl() == ControlStep(old(Ctl()), t)
      ensures metaBuf == MetaStep(old(Ctl()), old(metaBuf), t)
      ensures Held() == old(Held()) && metas == old(metas) + MetaUnitOf(old(metaBuf), t)
    {
      EmitForEnd(t.tag);
      assert Held() == old(Held()) && metaBuf == old(metaBuf) && Ctl() == old(Ctl()).(inP := inP);
      SetForEnd(t.tag);
      assert Valid() && Held() == old(Held());
      PopStack();
    }

    method OnCharData(t: Token)
      requires Valid() && t.CharData?
      modifies this
      ensures Valid() && Ctl() == ControlStep(old(Ctl()), t)
      ensures metaBuf == MetaStep(old(Ctl()), old(metaBuf), t)
      ensures Held() == old(Held()) + Erase(BodyOf(old(Ctl()), t))
      ensures metas == old(metas)
    {
      var s := t.text;
      if inP {
        KeepText(s);
        return;
      }
      if captureMeta.Some? {
        metaBuf := metaBuf + s;
        return;
      }
      if Metadaten in stack { return; }
      var blank := IsBlank(s);
      if Textdaten in stack && !blank {
        KeepText(s);
      }
    }

    method OnToken(t: Token)
      requires Valid()
      modifies this
      ensures Valid() && Ctl() == ControlStep(old(Ctl()), t)
      ensures metaBuf == MetaStep(old(Ctl()), old(metaBuf), t)
      ensures Held() == old(Held()) + Erase(BodyOf(old(Ctl()), t))
      ensures metas == old(metas) + MetaUnitOf(old(metaBuf), t)
    {
      match t
      case Start(_, _) => OnStart(t);
      case End(_) => OnEnd(t);
      case CharData(_) => OnCharData(t);
    }
  }

  /** stripTags. */
  function StripTags(s: string, inTag: bool): string {
    if s == [] then ""
    else if s[0] == '<' then StripTags(s[1..], true)
    else if s[0] == '>' then StripTags(s[1..], false)
    else (if inTag then "" else [s[0]]) + StripTags(s[1..], inTag)
  }

  /** Nothing lost, repeated or reordered: apart from the units that metangabe elements yielded, the
      texts run together are the accepted body text up to whitespace; the others are what the metangabe
      elements held, in order. */
  ghost predicate ConservesWith(units: seq<Unit>, fromMeta: seq<bool>, tokens: seq<Token>) {
    && |units| == |fromMeta| && AllTidy(units)
    && Erase(BodyText(units, fromMeta)) == Erase(Accepted(tokens))
    && MetaTexts(units, fromMeta) == MetaUnits(tokens)
  }

  ghost predicate Conserves(units: seq<Unit>, tokens: seq<Token>) {
    exists fromMeta :: ConservesWith(units, fromMeta, tokens)
  }

  predicate NothingToBuild(tokens: seq<Token>) { Text.Blank(Accepted(tokens)) && MetaUnits(tokens) == [] }

  /** extractUnits on a complete token stream; raw is the document text. The whole-document fallback
      acts exactly when the stream gives nothing to build from. */
  method ExtractUnits(labels: Labels, doc: seq<XmlToken>, raw: string)
    returns (units: seq<Unit>, ambiguous: bool, docTitle: string)
    ensures !NothingToBuild(ReadAll(doc)) ==> units != [] && Conserves(units, ReadAll(doc))
    ensures NothingToBuild(ReadAll(doc)) ==>
      if Text.Blank(StripTags(raw, false)) then units == []
      else |units| == 1 && ambiguous && units[0].ambiguous && units[0].text == Normalized(StripTags(raw, false))
  {
    var m := RunMachine(labels, doc);
    units, ambiguous, docTitle := m.units, m.ambiguous, m.docTitle;
    assert ConservesWith(units, m.fromMeta, ReadAll(doc));
    NothingBuiltIff(units, m.fromMeta, ReadAll(doc));
    if |units| == 0 {
      var plain := NormalizeWhitespace(StripTags(raw, false));
      NormalizedExact(StripTags(raw, false));
      if plain != "" {
        ambiguous := true;
        units := [Unit(labels.unitID("full", plain), "", "", "", "", plain, Normtext, true)];
      }
    }
  }

  /** The token loop and the final flushes. */
  method RunMachine(labels: Labels, doc: seq<XmlToken>) returns (m: Machine)
    ensures fresh(m) && m.Valid()
    ensures m.body == Erase(Accepted(ReadAll(doc))) && m.metas == MetaUnits(ReadAll(doc))
  {
    m := new Machine(labels);
    ghost var tokens := ReadAll(doc);
    for i := 0 to |doc|
      invariant fresh(m) && m.Valid() && Follows(m, tokens[..i])
    {
      FeedToken(m, tokens, i, Read(doc[i]));
    }
    assert tokens[..|tokens|] == tokens;
    m.FlushP();
    m.FlushOrphanText();
  }

  /** The machine has read exactly these tokens. */
  ghost predicate Follows(m: Machine, tokens: seq<Token>)
    reads m
  {
    && m.Ctl() == ControlAfter(tokens) && m.metaBuf == MetaAfter(tokens)
    && m.Held() == Erase(Accepted(tokens)) && m.metas == MetaUnits(tokens)
  }

  method FeedToken(m: Machine, ghost tokens: seq<Token>, ghost i: nat, t: Token)
    requires m.Valid() && i < |tokens| && tokens[i] == t && Follows(m, tokens[..i])
    modifies m
    ensures m.Valid() && Follows(m, tokens[..i + 1])
  {
    assert tokens[..i + 1][..i] == tokens[..i];
    EraseConcat(Accepted(tokens[..i]), BodyOf(ControlAfter(tokens[..i]), t));
    m.OnToken(t);
  }

  /** The builder yields no unit of its own exactly when there is neither body text nor a metangabe. */
  lemma NothingBuiltIff(built: seq<Unit>, fromMeta: seq<bool>, tokens: seq<Token>)
    requires ConservesWith(built, fromMeta, tokens)
    ensures built == [] <==> NothingToBuild(tokens)
  {
    EraseBlank(Accepted(tokens));
    if built != [] {
      var k := |built| - 1;
      EraseConcat(BodyText(built[..k], fromMeta[..k]), built[k].text);
      EraseBlank(built[k].text);
    }
  }
}
