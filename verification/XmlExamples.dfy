/** Inputs for which parsing and printing do not do what a reader would expect: they show that the
    exact conditions proved elsewhere do exclude something. */
module XmlExamples {
  import opened XmlChars
  import opened XmlText
  import opened XmlScan
  import opened XmlParser
  import opened XmlProductions
  import opened XmlPrinter
  import opened XmlRoundTrip
  import opened XmlGrammar
  import opened XmlErrors
  import opened XmlDocument
  import opened XmlLoaded

  // ---- tags and texts at the front ----

  lemma PlainStartTag(name: Bytes, rest: Bytes)
    requires LegalName(name)
    ensures ParseTag(name + (TagEnd(false) + rest)) == Tag(Element(name, [], []), Open, rest)
  {
    hide ParseTag;
    StartTagRoundTrip(name, [], false, rest);
    assert PrintAttributes([]) + (TagEnd(false) + rest) == TagEnd(false) + rest;
    assert NormalAttributes([]) == [];
  }

  lemma StartTagHere(name: Bytes, inner: Bytes)
    requires LegalName(name)
    ensures TagAt([LESS] + (name + (TagEnd(false) + inner)), Element(name, [], []), Open, inner)
  {
    hide ParseTag, Identify, LegalName, TagEnd, TagAt;
    PlainStartTag(name, inner);
    ElementText(name, TagEnd(false) + inner);
    var text := name + (TagEnd(false) + inner);
    TagRead([LESS] + text, text, Element(name, [], []), Open, inner);
  }

  lemma EndTagHere(name: Bytes, rest: Bytes)
    requires LegalName(name)
    ensures EndTagAt(EndTag(name) + rest, name, rest)
  {
    hide ParseTag, Identify, LegalName, TagAt;
    var text := [SLASH] + name + [GREATER] + rest;
    EndTagRoundTrip(name, rest);
    ElementIdentified(SLASH, name + [GREATER] + rest);
    assert [LESS, SLASH] + (name + [GREATER] + rest) == EndTag(name) + rest;
    assert [SLASH] + (name + [GREATER] + rest) == text;
    TagRead(EndTag(name) + rest, text, Element(name, [], []), Closing, rest);
    EndTagRead(EndTag(name) + rest, Element(name, [], []), rest);
  }

  lemma TextHere(v: Bytes, rest: Bytes)
    requires v != [] && !IsWhiteSpace(v[0]) && Absent(LESS, v) && rest != []
    ensures LeafAt(v + [LESS] + rest, Text(Value(v, TEXT_FLAGS), false), [LESS] + rest)
  {
    hide Value;
    assert v + [LESS] + rest == v + ([LESS] + rest);
    assert TextIs(v + [LESS] + rest, v, [LESS] + rest);
  }

  lemma OneNode(n: Node, s: Bytes, rest: Bytes, isDocument: bool, depth: Depth)
    requires Reads(n, s, rest, depth) && !n.Declaration?
    ensures ReadsAll([n], s, rest, isDocument, [], depth)
  {
    hide Reads, ReadsAll;
    StopThere(rest, isDocument, [n], depth);
    assert [] + [n] == [n] && [n] + [] == [n];
    Extend(n, s, rest, [], rest, isDocument, [], depth);
  }

  lemma StopThere(s: Bytes, isDocument: bool, sofar: seq<Node>, depth: Depth)
    ensures ReadsAll([], s, s, isDocument, sofar, depth)
  {
  }

  lemma BodyIsAll(xml: Bytes)
    requires xml != [] && NoNul(xml) && !IsWhiteSpace(xml[0]) && !(BOM <= xml)
    ensures Body(xml) == xml && !ReadBom(SkipWs(CStr(xml))).0
  {
    NoSpaceToSkip(xml);
  }

  // ---- a blank text that a reference brings in ----

  /** "&#32;" */
  const SPACE_REFERENCE: Bytes := [AMP, HASH, 51, 50, SEMICOLON]

  lemma SpaceReferenceDecodes()
    ensures Value(SPACE_REFERENCE, TEXT_FLAGS) == [SPACE]
  {
    hide CharacterRef;
    var ds: Bytes := [51, 50];
    assert Positional(ds, false) == 32 by { assert ds[..1] == [51] && [51][..0] == []; }
    CharacterRefMeaning(ds, false, []);
    assert Intro(false) + ds + ([SEMICOLON] + []) == SPACE_REFERENCE;
    var p := Piece(5, [SPACE]);
    assert NextPiece(SPACE_REFERENCE, TEXT_FLAGS) == p;
    assert SPACE_REFERENCE[5..] == [];
    assert Pieces(SPACE_REFERENCE, TEXT_FLAGS) == [p];
    assert Plain([p]) == [SPACE] + Plain([]);
    RecognisedDecodesFaithfully(SPACE_REFERENCE, TEXT_FLAGS);
  }

  /** "<a>&#32;</a>" holds a blank text, and is no longer the same when printed and loaded again. */
  lemma BlankReferenceIsLost(name: Bytes)
    requires LegalName(name)
    ensures var xml := [LESS] + (name + (TagEnd(false) + (SPACE_REFERENCE + EndTag(name))));
            var d := Document(false, [Element(name, [], [Text([SPACE], false)])]);
            Parse(xml) == Ok(d) && Parse(PrintDocument(d)) != Ok(d)
  {
    hide *;
    var inner := SPACE_REFERENCE + EndTag(name);
    var xml := [LESS] + (name + (TagEnd(false) + inner));
    var t := Text([SPACE], false);
    var d := Document(false, [Element(name, [], [t])]);
    BlankElementRead(name, inner, xml, t);
    ElementIsDocument(name, inner, xml, d.children[0]);
    LoadPrintLoad(xml, d);
    BlankChild(d.children[0], t);
  }

  lemma BlankChild(e: Node, t: Node)
    requires t == Text([SPACE], false) && e.Element? && e.children == [t]
    ensures !NodesKept([e])
  {
    assert !NodeKept(t) && !NodesKept([t]) && !NodeKept(e);
  }

  lemma BlankElementRead(name: Bytes, inner: Bytes, xml: Bytes, t: Node)
    requires LegalName(name) && inner == SPACE_REFERENCE + EndTag(name) && t == Text([SPACE], false)
    requires xml == [LESS] + (name + (TagEnd(false) + inner))
    ensures Reads(Element(name, [], [t]), xml, [], 1)
  {
    hide Reads, ReadsAll, TagAt, EndTagAt, LeafAt, Value, LegalName, TagEnd;
    var end := EndTag(name);
    SpaceReferenceDecodes();
    assert end == [LESS] + ([SLASH] + name + [GREATER]);
    assert inner == SPACE_REFERENCE + [LESS] + ([SLASH] + name + [GREATER]);
    TextHere(SPACE_REFERENCE, [SLASH] + name + [GREATER]);
    LeafReads(inner, t, end, 2);
    OneNode(t, inner, end, false, 2);
    EndTagHere(name, []);
    assert end + [] == end;
    StartTagHere(name, inner);
    OpenElementReads(xml, Element(name, [], [t]), Element(name, [], []), inner, end, [], 1, 2);
  }

  lemma ElementIsDocument(name: Bytes, inner: Bytes, xml: Bytes, e: Node)
    requires LegalName(name) && inner == SPACE_REFERENCE + EndTag(name)
    requires xml == [LESS] + (name + (TagEnd(false) + inner)) && e.Element? && Reads(e, xml, [], 1)
    ensures Parse(xml) == Ok(Document(false, [e]))
  {
    hide Parse, Reads, ReadsAll, EndTagAt;
    BodyIsAll(xml);
    OneNode(e, xml, [], true, 1);
    TextIsParsed(xml, Document(false, [e]));
  }

  // ---- end tags that close nothing ----

  /** "x</a>" and whatever follows is a document of one text, which cannot be read back. */
  lemma StrayEndTag(name: Bytes, rest: Bytes)
    requires LegalName(name) && NoNul(rest)
    ensures var d := Document(false, [Text([LOWER_X], false)]);
            Parse([LOWER_X] + (EndTag(name) + rest)) == Ok(d) && Parse(PrintDocument(d)) != Ok(d)
  {
    hide Parse, PrintDocument, EndTagAt, LegalName, ReadsAll, Reads, LeafAt;
    var end, t := EndTag(name) + rest, Text([LOWER_X], false);
    var xml, d := [LOWER_X] + end, Document(false, [t]);
    EndTagHere(name, rest);
    LetterDecodes();
    assert end == [LESS] + ([SLASH] + name + [GREATER] + rest);
    assert xml == [LOWER_X] + [LESS] + ([SLASH] + name + [GREATER] + rest);
    TextHere([LOWER_X], [SLASH] + name + [GREATER] + rest);
    LeafReads(xml, t, end, 1);
    OneNode(t, xml, end, true, 1);
    NameHasNoNul(name);
    BodyIsAll(xml);
    TextIsParsed(xml, d);
    LoadPrintLoad(xml, d);
  }

  lemma LetterDecodes()
    ensures Value([LOWER_X], TEXT_FLAGS) == [LOWER_X]
  {
    var p := Piece(1, [LOWER_X]);
    assert [LOWER_X][1..] == [] && Pieces([LOWER_X], TEXT_FLAGS) == [p];
    assert Plain([p]) == [LOWER_X] + Plain([]);
    RecognisedDecodesFaithfully([LOWER_X], TEXT_FLAGS);
  }

  lemma NameHasNoNul(name: Bytes)
    requires LegalName(name)
    ensures NoNul(name)
  {
  }

  /** "</a/>" is a document of one element. */
  lemma SealedEndTag(name: Bytes)
    requires LegalName(name)
    ensures Parse([LESS, SLASH] + (name + TagEnd(true))) == Ok(Document(false, [Element(name, [], [])]))
  {
    hide Parse, EndTagAt, LegalName, ReadsAll, TagAt;
    var xml, e := [LESS, SLASH] + (name + TagEnd(true)), Element(name, [], []);
    SealedEndTagHere(name);
    NameHasNoNul(name);
    BodyIsAll(xml);
    OneNode(e, xml, [], true, 1);
    TextIsParsed(xml, Document(false, [e]));
  }

  lemma SealedEndTagHere(name: Bytes)
    requires LegalName(name)
    ensures TagAt([LESS, SLASH] + (name + TagEnd(true)), Element(name, [], []), Closed, [])
  {
    hide ParseAttributes, ParseName, SkipWs, LegalName, Identify, TagAt;
    var text := [SLASH] + (name + TagEnd(true));
    ElementIdentified(SLASH, name + TagEnd(true));
    NoSpaceToSkip(text);
    NameRoundTrip(name, TagEnd(true));
    TagEndStops([], true, []);
    assert TagEnd(true) + [] == TagEnd(true) && text[1..] == name + TagEnd(true);
    TagRead([LESS, SLASH] + (name + TagEnd(true)), text, Element(name, [], []), Closed, []);
  }

  // ---- start tags down to the limit ----

  /** Start tags one inside the other, and something behind them. */
  function OpenTags(names: seq<Bytes>, tail: Bytes): (r: Bytes)
    ensures tail != [] ==> r != []
    ensures names != [] ==> r != [] && r[0] == LESS
  {
    if names == [] then tail else [LESS] + (names[0] + (TagEnd(false) + OpenTags(names[1..], tail)))
  }

  lemma {:induction false} NestedTagsAreDeep(names: seq<Bytes>, tail: Bytes, isDocument: bool, depth: Depth)
    requires (forall i :: 0 <= i < |names| ==> LegalName(names[i])) && tail != []
    requires names != [] && depth + |names| >= MAX_ELEMENT_DEPTH
    ensures GoesTooDeep(OpenTags(names, tail), isDocument, [], depth)
    decreases |names|
  {
    hide GoesTooDeep, LegalName, TagAt, TagEnd;
    var inner := OpenTags(names[1..], tail);
    StartTagHere(names[0], inner);
    if depth + 1 < MAX_ELEMENT_DEPTH {
      NestedTagsAreDeep(names[1..], tail, false, depth + 1);
    }
    GoesDeeper(OpenTags(names, tail), Element(names[0], [], []), inner, isDocument, [], depth);
  }

  /** "<a><a>...<a>x" with as many start tags as the limit is refused. */
  lemma NestedTagsAreRefused(names: seq<Bytes>, tail: Bytes)
    requires (forall i :: 0 <= i < |names| ==> LegalName(names[i])) && tail != []
    requires 1 + |names| >= MAX_ELEMENT_DEPTH && NoNul(OpenTags(names, tail))
    ensures Parse(OpenTags(names, tail)) == Err(ElementDepthExceeded)
  {
    hide Parse, LegalName, OpenTags, GoesTooDeep;
    var s := OpenTags(names, tail);
    BodyIsAll(s);
    NestedTagsAreDeep(names, tail, true, 1);
    TooDeepExactlyWhen(s);
  }

  // ---- nodes that cannot be written down ----

  /** A node other than a declaration that is not fit to be printed is lost, whatever it is. */
  lemma UnfitNodeIsLost(bom: bool, n: Node)
    requires !NodeOk(n) && !n.Declaration?
    ensures var d := Document(bom, [n]); Parse(PrintDocument(d)) != Ok(d)
  {
    hide Parse, PrintDocument, NodeOk;
    var d := Document(bom, [n]);
    RoundTripExactlyWhen(d);
    forall k: nat | k <= 1 ensures !WellFormed(d, k) {
      assert [n][0..] == [n] && [n][..1] == [n];
    }
  }

  /** A comment that holds "-->", a CDATA section that holds "]]>", an element whose name holds a
      space, and one with two attributes of one name. */
  lemma UnfitNodes(name: Bytes, value: Bytes)
    ensures !NodeOk(Comment(COMMENT_END)) && !NodeOk(Text(CDATA_END, true))
    ensures !NodeOk(Element(name + [SPACE], [], []))
    ensures !NodeOk(Element(name, [Attribute(name, value), Attribute(name, value)], []))
  {
    assert COMMENT_END <= (COMMENT_END + COMMENT_END)[0..];
    assert CDATA_END <= (CDATA_END + CDATA_END)[0..];
    assert (name + [SPACE])[|name|] == SPACE && !IsNameChar(SPACE);
    var twice := [Attribute(name, value), Attribute(name, value)];
    assert twice[0].name == twice[1].name;
  }
}
