/** Which text of a document becomes units, told on the element tree: what an element keeps depends on
    its ancestors and on what has been closed before it, and not on the run of the token machine. */
module UnitTrees {
  import opened Domain
  import opened UnitBuilder
  import Text

  /** The content of an element, or a whole document: texts and elements in order. */
  datatype Content =
    | Empty
    | Words(text: string, rest: Content)
    | Element(tag: Tag, attrs: seq<Attr>, inner: Content, rest: Content)

  /** The tokens a document is read as. */
  function Flatten(c: Content): seq<Token> {
    match c
    case Empty => []
    case Words(text, rest) => [CharData(text)] + Flatten(rest)
    case Element(tag, attrs, inner, rest) => [Start(tag, attrs)] + Flatten(inner) + [End(tag)] + Flatten(rest)
  }

  /** Some element of c, at any depth, has such a tag. */
  predicate Has(c: Content, p: Tag -> bool) {
    match c
    case Empty => false
    case Words(_, rest) => Has(rest, p)
    case Element(tag, _, inner, rest) => p(tag) || Has(inner, p) || Has(rest, p)
  }

  predicate IsBlock(tag: Tag) { tag == Norm || tag == Paragraph }

  predicate IsMark(tag: Tag) {
    IsBlock(tag) || tag == Enbez || tag == Langue || tag == Metangabe || tag == Titel
  }

  predicate HasBlock(c: Content) { Has(c, IsBlock) }

  predicate HasMark(c: Content) { Has(c, IsMark) }

  lemma HasElement(tag: Tag, attrs: seq<Attr>, inner: Content, rest: Content)
    ensures HasBlock(Element(tag, attrs, inner, rest)) <==> IsBlock(tag) || HasBlock(inner) || HasBlock(rest)
    ensures HasMark(Element(tag, attrs, inner, rest)) <==> IsMark(tag) || HasMark(inner) || HasMark(rest)
    ensures !HasBlock(Empty) && !HasMark(Empty)
  {
  }

  // ---------- what a tree keeps ----------

  /** Where a piece of content stands: its ancestors, whether a paragraph is open, and whether a heading
      or note is being collected. */
  datatype Place = Place(path: seq<Tag>, inP: bool, collecting: bool)

  function Collects(tag: Tag, path: seq<Tag>): bool {
    tag in {Enbez, Langue, Metangabe} || (tag == Titel && Metadaten in path)
  }

  /** Inside an element. */
  function Inside(at: Place, tag: Tag): Place {
    Place(at.path + [tag],
          tag == Paragraph || (at.inP && tag != Norm),
          Collects(tag, at.path) || (at.collecting && tag != Norm && tag != Paragraph))
  }

  /** After an element: a paragraph inside it has ended the open one, a heading inside it the collecting. */
  function Behind(at: Place, tag: Tag, inner: Content): Place {
    at.(inP := at.inP && !IsBlock(tag) && !HasBlock(inner),
        collecting := at.collecting && !IsMark(tag) && !HasMark(inner))
  }

  /** Everything in an open paragraph; stray text of textdaten, outside metadaten and collected elements. */
  function KeptWords(at: Place, text: string): string {
    if at.inP then text
    else if !at.collecting && Textdaten in at.path && Metadaten !in at.path && !Text.Blank(text) then text
    else ""
  }

  function Kept(c: Content, at: Place): string {
    match c
    case Empty => ""
    case Words(text, rest) => KeptWords(at, text) + Kept(rest, at)
    case Element(tag, _, inner, rest) => Kept(inner, Inside(at, tag)) + Kept(rest, Behind(at, tag, inner))
  }

  const TOP := Place([], false, false)

  // ---------- reading a balanced stretch ----------

  function PlaceOf(c: Control): Place { Place(c.stack, c.inP, c.capture.Some?) }

  lemma TokenRead(before: seq<Token>, t: Token)
    ensures ControlAfter(before + [t]) == ControlStep(ControlAfter(before), t)
    ensures Accepted(before + [t]) == Accepted(before) + BodyOf(ControlAfter(before), t)
  {
    assert (before + [t])[..|before|] == before;
  }

  /** What the machine is in after content that stands at c. */
  function ControlBehind(c: Control, content: Content): Control {
    c.(inP := c.inP && !HasBlock(content), capture := if HasMark(content) then None else c.capture)
  }

  lemma StartPlace(c: Control, tag: Tag, attrs: seq<Attr>)
    ensures PlaceOf(ControlStep(c, Start(tag, attrs))) == Inside(PlaceOf(c), tag)
  {
  }

  /** An element, once closed, has left the stack as it was. */
  lemma EndPlace(c: Control, tag: Tag, attrs: seq<Attr>, inner: Content)
    ensures ControlStep(ControlBehind(ControlStep(c, Start(tag, attrs)), inner), End(tag))
            == ControlBehind(c, Element(tag, attrs, inner, Empty))
  {
    HasElement(tag, attrs, inner, Empty);
    assert Popped(c.stack + [tag]) == c.stack;
  }

  lemma BehindTwice(c: Control, tag: Tag, attrs: seq<Attr>, inner: Content, rest: Content)
    ensures ControlBehind(ControlBehind(c, Element(tag, attrs, inner, Empty)), rest)
            == ControlBehind(c, Element(tag, attrs, inner, rest))
    ensures PlaceOf(ControlBehind(c, Element(tag, attrs, inner, Empty))) == Behind(PlaceOf(c), tag, inner)
  {
    HasElement(tag, attrs, inner, Empty);
    HasElement(tag, attrs, inner, rest);
  }

  lemma FlattenWords(before: seq<Token>, text: string, rest: Content)
    ensures before + Flatten(Words(text, rest)) == before + [CharData(text)] + Flatten(rest)
  {
  }

  lemma FlattenElement(before: seq<Token>, tag: Tag, attrs: seq<Attr>, inner: Content, rest: Content)
    ensures before + Flatten(Element(tag, attrs, inner, rest))
            == before + [Start(tag, attrs)] + Flatten(inner) + [End(tag)] + Flatten(rest)
  {
  }

  /** Reading a balanced stretch leaves the open elements alone. */
  lemma {:induction false} StretchControl(before: seq<Token>, c: Content)
    ensures ControlAfter(before + Flatten(c)) == ControlBehind(ControlAfter(before), c)
    decreases c, 0
  {
    var k := ControlAfter(before);
    match c
    case Empty =>
      assert before + Flatten(c) == before;
    case Words(text, rest) =>
      FlattenWords(before, text, rest);
      TokenRead(before, CharData(text));
      StretchControl(before + [CharData(text)], rest);
    case Element(tag, attrs, inner, rest) =>
      ElementControl(before, tag, attrs, inner);
      FlattenElement(before, tag, attrs, inner, rest);
      StretchControl(before + [Start(tag, attrs)] + Flatten(inner) + [End(tag)], rest);
      BehindTwice(k, tag, attrs, inner, rest);
  }

  /** One element, and what holds before its end. */
  lemma ElementControl(before: seq<Token>, tag: Tag, attrs: seq<Attr>, inner: Content)
    ensures var k := ControlAfter(before);
      && PlaceOf(ControlAfter(before + [Start(tag, attrs)])) == Inside(PlaceOf(k), tag)
      && ControlAfter(before + [Start(tag, attrs)] + Flatten(inner) + [End(tag)])
         == ControlBehind(k, Element(tag, attrs, inner, Empty))
    decreases inner, 1
  {
    var k := ControlAfter(before);
    TokenRead(before, Start(tag, attrs));
    StretchControl(before + [Start(tag, attrs)], inner);
    TokenRead(before + [Start(tag, attrs)] + Flatten(inner), End(tag));
    StartPlace(k, tag, attrs);
    EndPlace(k, tag, attrs, inner);
  }

  lemma WordsText(before: seq<Token>, text: string)
    ensures ControlAfter(before + [CharData(text)]) == ControlAfter(before)
    ensures Accepted(before + [CharData(text)]) == Accepted(before) + KeptWords(PlaceOf(ControlAfter(before)), text)
  {
    TokenRead(before, CharData(text));
  }

  /** Reading a balanced stretch keeps of it what its tree says. */
  lemma {:induction false} StretchText(before: seq<Token>, c: Content)
    ensures Accepted(before + Flatten(c)) == Accepted(before) + Kept(c, PlaceOf(ControlAfter(before)))
    decreases c, 0
  {
    var at := PlaceOf(ControlAfter(before));
    match c
    case Empty =>
      assert before + Flatten(c) == before;
    case Words(text, rest) =>
      FlattenWords(before, text, rest);
      WordsText(before, text);
      StretchText(before + [CharData(text)], rest);
      Text.Regroup(Accepted(before), KeptWords(at, text), Kept(rest, at));
    case Element(tag, attrs, inner, rest) =>
      FlattenElement(before, tag, attrs, inner, rest);
      ElementText(before, tag, attrs, inner);
      ElementBehind(before, tag, attrs, inner);
      StretchText(before + [Start(tag, attrs)] + Flatten(inner) + [End(tag)], rest);
      Text.Regroup(Accepted(before), Kept(inner, Inside(at, tag)), Kept(rest, Behind(at, tag, inner)));
  }

  lemma ElementBehind(before: seq<Token>, tag: Tag, attrs: seq<Attr>, inner: Content)
    ensures PlaceOf(ControlAfter(before + [Start(tag, attrs)] + Flatten(inner) + [End(tag)]))
            == Behind(PlaceOf(ControlAfter(before)), tag, inner)
  {
    ElementControl(before, tag, attrs, inner);
    BehindTwice(ControlAfter(before), tag, attrs, inner, Empty);
  }

  lemma ElementText(before: seq<Token>, tag: Tag, attrs: seq<Attr>, inner: Content)
    ensures Accepted(before + [Start(tag, attrs)] + Flatten(inner) + [End(tag)])
            == Accepted(before) + Kept(inner, Inside(PlaceOf(ControlAfter(before)), tag))
    decreases inner, 1
  {
    var k := ControlAfter(before);
    TokenRead(before, Start(tag, attrs));
    assert Accepted(before + [Start(tag, attrs)]) == Accepted(before);
    StretchText(before + [Start(tag, attrs)], inner);
    StartPlace(k, tag, attrs);
    TokenRead(before + [Start(tag, attrs)] + Flatten(inner), End(tag));
  }

  /** The body text of a document is what its tree keeps. */
  lemma DocumentText(doc: Content)
    ensures Accepted(Flatten(doc)) == Kept(doc, TOP)
  {
    StretchText([], doc);
    assert [] + Flatten(doc) == Flatten(doc);
  }

  // ---------- what metangabe elements hold ----------

  function BufferInside(at: Place, tag: Tag, buf: string): string {
    if tag == Norm || Collects(tag, at.path) then "" else buf
  }

  function BufferBehind(tag: Tag, buf: string): string {
    if tag == Enbez || tag == Langue || tag == Metangabe || tag == Titel then "" else buf
  }

  function BufferWords(at: Place, text: string, buf: string): string {
    if at.collecting && !at.inP then buf + text else buf
  }

  /** What has been collected after some content. */
  function Collected(c: Content, at: Place, buf: string): string {
    match c
    case Empty => buf
    case Words(text, rest) => Collected(rest, at, BufferWords(at, text, buf))
    case Element(tag, _, inner, rest) =>
      Collected(rest, Behind(at, tag, inner), BufferBehind(tag, Collected(inner, Inside(at, tag), BufferInside(at, tag, buf))))
  }

  function NoteOf(text: string): seq<string> { if Text.Blank(text) then [] else [Normalized(text)] }

  /** The texts of the metangabe elements, in document order. */
  function Notes(c: Content, at: Place, buf: string): seq<string> {
    match c
    case Empty => []
    case Words(text, rest) => Notes(rest, at, BufferWords(at, text, buf))
    case Element(tag, _, inner, rest) =>
      var start := BufferInside(at, tag, buf);
      var held := Collected(inner, Inside(at, tag), start);
      Notes(inner, Inside(at, tag), start) + (if tag == Metangabe then NoteOf(held) else [])
      + Notes(rest, Behind(at, tag, inner), BufferBehind(tag, held))
  }

  lemma TokenNoted(before: seq<Token>, t: Token)
    ensures MetaAfter(before + [t]) == MetaStep(ControlAfter(before), MetaAfter(before), t)
    ensures MetaUnits(before + [t]) == MetaUnits(before) + MetaUnitOf(MetaAfter(before), t)
  {
    assert (before + [t])[..|before|] == before;
  }

  lemma StartNoted(before: seq<Token>, tag: Tag, attrs: seq<Attr>)
    ensures MetaAfter(before + [Start(tag, attrs)]) == BufferInside(PlaceOf(ControlAfter(before)), tag, MetaAfter(before))
    ensures MetaUnits(before + [Start(tag, attrs)]) == MetaUnits(before)
  {
    TokenNoted(before, Start(tag, attrs));
  }

  lemma EndNoted(before: seq<Token>, tag: Tag)
    ensures MetaAfter(before + [End(tag)]) == BufferBehind(tag, MetaAfter(before))
    ensures MetaUnits(before + [End(tag)]) == MetaUnits(before) + if tag == Metangabe then NoteOf(MetaAfter(before)) else []
  {
    TokenNoted(before, End(tag));
    NormalizedExact(MetaAfter(before));
  }

  lemma WordsNoted(before: seq<Token>, text: string)
    ensures MetaAfter(before + [CharData(text)]) == BufferWords(PlaceOf(ControlAfter(before)), text, MetaAfter(before))
    ensures MetaUnits(before + [CharData(text)]) == MetaUnits(before)
  {
    TokenNoted(before, CharData(text));
  }

  lemma {:induction false} StretchCollected(before: seq<Token>, c: Content)
    ensures MetaAfter(before + Flatten(c)) == Collected(c, PlaceOf(ControlAfter(before)), MetaAfter(before))
    decreases c, 0
  {
    match c
    case Empty =>
      assert before + Flatten(c) == before;
    case Words(text, rest) =>
      FlattenWords(before, text, rest);
      WordsText(before, text);
      WordsNoted(before, text);
      StretchCollected(before + [CharData(text)], rest);
    case Element(tag, attrs, inner, rest) =>
      FlattenElement(before, tag, attrs, inner, rest);
      ElementCollected(before, tag, attrs, inner);
      ElementBehind(before, tag, attrs, inner);
      StretchCollected(before + [Start(tag, attrs)] + Flatten(inner) + [End(tag)], rest);
  }

  /** What an element has collected when it ends, and what is left of it. */
  lemma ElementCollected(before: seq<Token>, tag: Tag, attrs: seq<Attr>, inner: Content)
    ensures var at := PlaceOf(ControlAfter(before));
      var held := Collected(inner, Inside(at, tag), BufferInside(at, tag, MetaAfter(before)));
      && MetaAfter(before + [Start(tag, attrs)] + Flatten(inner)) == held
      && MetaAfter(before + [Start(tag, attrs)] + Flatten(inner) + [End(tag)]) == BufferBehind(tag, held)
    decreases inner, 1
  {
    StartNoted(before, tag, attrs);
    ElementControl(before, tag, attrs, inner);
    StretchCollected(before + [Start(tag, attrs)], inner);
    EndNoted(before + [Start(tag, attrs)] + Flatten(inner), tag);
  }

  lemma RegroupUnits(a: seq<string>, b: seq<string>, c: seq<string>, d: seq<string>)
    ensures a + b + c + d == a + (b + c + d)
  {
  }

  lemma {:induction false} StretchNotes(before: seq<Token>, c: Content)
    ensures MetaUnits(before + Flatten(c)) == MetaUnits(before) + Notes(c, PlaceOf(ControlAfter(before)), MetaAfter(before))
    decreases c, 0
  {
    var at, buf := PlaceOf(ControlAfter(before)), MetaAfter(before);
    match c
    case Empty =>
      assert before + Flatten(c) == before;
    case Words(text, rest) =>
      FlattenWords(before, text, rest);
      WordsText(before, text);
      WordsNoted(before, text);
      StretchNotes(before + [CharData(text)], rest);
    case Element(tag, attrs, inner, rest) =>
      FlattenElement(before, tag, attrs, inner, rest);
      ElementNotes(before, tag, attrs, inner);
      ElementCollected(before, tag, attrs, inner);
      ElementBehind(before, tag, attrs, inner);
      StretchNotes(before + [Start(tag, attrs)] + Flatten(inner) + [End(tag)], rest);
      var start := BufferInside(at, tag, buf);
      var held := Collected(inner, Inside(at, tag), start);
      RegroupUnits(MetaUnits(before), Notes(inner, Inside(at, tag), start), if tag == Metangabe then NoteOf(held) else [],
                   Notes(rest, Behind(at, tag, inner), BufferBehind(tag, held)));
  }

  lemma ElementNotes(before: seq<Token>, tag: Tag, attrs: seq<Attr>, inner: Content)
    ensures var at := PlaceOf(ControlAfter(before));
      var start := BufferInside(at, tag, MetaAfter(before));
      MetaUnits(before + [Start(tag, attrs)] + Flatten(inner) + [End(tag)])
      == MetaUnits(before) + Notes(inner, Inside(at, tag), start)
         + if tag == Metangabe then NoteOf(Collected(inner, Inside(at, tag), start)) else []
    decreases inner, 1
  {
    StartNoted(before, tag, attrs);
    ElementControl(before, tag, attrs, inner);
    StretchNotes(before + [Start(tag, attrs)], inner);
    ElementCollected(before, tag, attrs, inner);
    EndNoted(before + [Start(tag, attrs)] + Flatten(inner), tag);
  }

  /** The notes of a document are those of its tree. */
  lemma DocumentNotes(doc: Content)
    ensures MetaUnits(Flatten(doc)) == Notes(doc, TOP, "")
  {
    StretchNotes([], doc);
    assert [] + Flatten(doc) == Flatten(doc);
  }

  /** All text of some content, run together. */
  function WordsOf(c: Content): string {
    match c
    case Empty => ""
    case Words(text, rest) => text + WordsOf(rest)
    case Element(_, _, inner, rest) => WordsOf(inner) + WordsOf(rest)
  }

  /** Outside paragraphs an element without marks inside is collected whole. */
  lemma {:induction false} CollectedWhole(c: Content, at: Place, buf: string)
    requires at.collecting && !at.inP && !HasMark(c)
    ensures Collected(c, at, buf) == buf + WordsOf(c)
  {
    match c
    case Empty =>
    case Words(text, rest) =>
      CollectedWhole(rest, at, buf + text);
      Text.Regroup(buf, text, WordsOf(rest));
    case Element(tag, attrs, inner, rest) =>
      HasElement(tag, attrs, inner, rest);
      NoBlockWithoutMark(inner);
      CollectedWhole(inner, Inside(at, tag), buf);
      CollectedWhole(rest, at, buf + WordsOf(inner));
      Text.Regroup(buf, WordsOf(inner), WordsOf(rest));
  }

  lemma {:induction false} NoBlockWithoutMark(c: Content)
    requires !HasMark(c)
    ensures !HasBlock(c)
  {
    match c
    case Empty =>
    case Words(_, rest) => NoBlockWithoutMark(rest);
    case Element(tag, attrs, inner, rest) =>
      HasElement(tag, attrs, inner, rest);
      NoBlockWithoutMark(inner);
      NoBlockWithoutMark(rest);
  }

  /** A metangabe element outside paragraphs, with nothing marked inside, yields its whole text as one note. */
  lemma MetangabeNote(attrs: seq<Attr>, inner: Content, at: Place, buf: string)
    requires !at.inP && !HasMark(inner)
    ensures Notes(Element(Metangabe, attrs, inner, Empty), at, buf) == NoteOf(WordsOf(inner))
  {
    CollectedWhole(inner, Inside(at, Metangabe), "");
    NoNotesWithoutMark(inner, Inside(at, Metangabe), "");
    assert "" + WordsOf(inner) == WordsOf(inner);
  }

  lemma {:induction false} NoNotesWithoutMark(c: Content, at: Place, buf: string)
    requires !HasMark(c)
    ensures Notes(c, at, buf) == []
  {
    match c
    case Empty =>
    case Words(text, rest) => NoNotesWithoutMark(rest, at, BufferWords(at, text, buf));
    case Element(tag, attrs, inner, rest) =>
      HasElement(tag, attrs, inner, rest);
      var start := BufferInside(at, tag, buf);
      NoNotesWithoutMark(inner, Inside(at, tag), start);
      NoNotesWithoutMark(rest, Behind(at, tag, inner), BufferBehind(tag, Collected(inner, Inside(at, tag), start)));
  }

  // ---------- ancestors alone ----------

  /** The text an element keeps by its ancestors alone: everything inside p or absatz; otherwise what is
      not blank inside textdaten, outside metadaten and outside headings and notes. */
  function ByAncestors(c: Content, path: seq<Tag>): string {
    match c
    case Empty => ""
    case Words(text, rest) => WordsByAncestors(text, path) + ByAncestors(rest, path)
    case Element(tag, _, inner, rest) => ByAncestors(inner, path + [tag]) + ByAncestors(rest, path)
  }

  predicate UnderNote(path: seq<Tag>) { Enbez in path || Langue in path || Metangabe in path }

  function WordsByAncestors(text: string, path: seq<Tag>): string {
    if Paragraph in path then text
    else if Textdaten in path && Metadaten !in path && !UnderNote(path) && !Text.Blank(text) then text
    else ""
  }

  /** No paragraph holds a paragraph or a norm; no heading or note holds one of these or another. */
  predicate Orderly(c: Content) {
    match c
    case Empty => true
    case Words(_, rest) => Orderly(rest)
    case Element(tag, _, inner, rest) =>
      && (tag == Paragraph ==> !HasBlock(inner))
      && (tag == Enbez || tag == Langue || tag == Metangabe ==> !HasMark(inner))
      && Orderly(inner) && Orderly(rest)
  }

  /** The place agrees with the ancestors, as far as it decides anything. */
  ghost predicate Agrees(at: Place) {
    && (at.inP <==> Paragraph in at.path)
    && (!at.inP && Metadaten !in at.path ==> (at.collecting <==> UnderNote(at.path)))
  }

  ghost predicate Fits(c: Content, at: Place) {
    && Agrees(at) && Orderly(c) && (Paragraph in at.path ==> !HasBlock(c)) && (UnderNote(at.path) ==> !HasMark(c))
  }

  lemma FitsInside(at: Place, tag: Tag, attrs: seq<Attr>, inner: Content, rest: Content)
    requires Fits(Element(tag, attrs, inner, rest), at)
    ensures Fits(inner, Inside(at, tag))
  {
    HasElement(tag, attrs, inner, rest);
    if !HasMark(inner) { NoBlockWithoutMark(inner); }
  }

  lemma FitsBehind(at: Place, tag: Tag, attrs: seq<Attr>, inner: Content, rest: Content)
    requires Fits(Element(tag, attrs, inner, rest), at)
    ensures Fits(rest, Behind(at, tag, inner))
  {
    HasElement(tag, attrs, inner, rest);
  }

  /** In orderly documents the ancestors alone decide what is kept. */
  lemma {:induction false} OrderlyKept(c: Content, at: Place)
    requires Fits(c, at)
    ensures Kept(c, at) == ByAncestors(c, at.path)
  {
    match c
    case Empty =>
    case Words(text, rest) => OrderlyKept(rest, at);
    case Element(tag, attrs, inner, rest) =>
      FitsInside(at, tag, attrs, inner, rest);
      FitsBehind(at, tag, attrs, inner, rest);
      OrderlyKept(inner, Inside(at, tag));
      OrderlyKept(rest, Behind(at, tag, inner));
  }

  /** The body text of an orderly document. */
  lemma OrderlyDocument(doc: Content)
    requires Orderly(doc)
    ensures Accepted(Flatten(doc)) == ByAncestors(doc, [])
  {
    DocumentText(doc);
    OrderlyKept(doc, TOP);
  }

  /** Without that order they do not: after a paragraph inside a paragraph the rest of the outer one is
      no longer paragraph text, and outside textdaten it is lost. */
  lemma NestedParagraphTail() returns (doc: Content)
    ensures !Orderly(doc) && Accepted(Flatten(doc)) == "" && ByAncestors(doc, []) == "x"
  {
    var rest := Words("x", Empty);
    var nested := Element(Paragraph, [], Empty, rest);
    doc := Element(Paragraph, [], nested, Empty);
    DocumentText(doc);
    HasElement(Paragraph, [], Empty, rest);
    var inside := Inside(TOP, Paragraph);
    assert Kept(nested, inside) == Kept(rest, Behind(inside, Paragraph, Empty));
    assert inside.path == [Paragraph];
    assert Textdaten !in inside.path;
    assert ByAncestors(nested, [Paragraph]) == ByAncestors(Empty, [Paragraph, Paragraph]) + ByAncestors(rest, [Paragraph]);
    assert [] + [Paragraph] == [Paragraph];
  }

  // ---------- the units of a document ----------

  /** Units that conserve the token stream hold, up to whitespace, the text the tree keeps, and apart from
      it the notes of the tree. */
  lemma UnitsOfDocument(units: seq<Unit>, doc: Content)
    requires Conserves(units, Flatten(doc))
    ensures exists fromMeta ::
      && |units| == |fromMeta| && Erase(BodyText(units, fromMeta)) == Erase(Kept(doc, TOP))
      && MetaTexts(units, fromMeta) == Notes(doc, TOP, "")
  {
    DocumentText(doc);
    DocumentNotes(doc);
    var fromMeta :| ConservesWith(units, fromMeta, Flatten(doc));
  }
}
