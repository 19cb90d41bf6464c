/** What printed nodes are read back as. */
module XmlRoundTrip {
  import opened Common
  import opened XmlChars
  import opened XmlScan
  import opened XmlParser
  import opened XmlProductions
  import opened XmlPrinter
  import opened XmlValues

  // ---- tags ----

  predicate AttributeOk(a: Attribute) {
    LegalName(a.name) && NoNul(a.value)
  }

  /** What a printed attribute is read back as. */
  function NormalAttribute(a: Attribute): Attribute {
    Attribute(a.name, LineEnds(a.value))
  }

  function NormalAttributes(attributes: seq<Attribute>): (r: seq<Attribute>)
    ensures |r| == |attributes| && forall i :: 0 <= i < |r| ==> r[i] == NormalAttribute(attributes[i])
  {
    if attributes == [] then [] else [NormalAttribute(attributes[0])] + NormalAttributes(attributes[1..])
  }

  /** One printed attribute, its leading space gone, reads back. */
  lemma AttributeRoundTrip(a: Attribute, rest: Bytes)
    requires AttributeOk(a)
    ensures ParseAttribute(PrintAttribute(a)[1..] + rest) == Some((NormalAttribute(a), rest))
    ensures (PrintAttribute(a)[1..] + rest)[0] == a.name[0]
  {
    hide Escape, ParseText, ParseName, SkipWs, Value, LineEnds, PrintAttribute, ParseAttribute;
    var quoted := Escape(a.value, false) + [DOUBLE_QUOTE] + rest;
    var after := [EQUALS, DOUBLE_QUOTE] + quoted;
    AttributeText(a, rest);
    NameRoundTrip(a.name, after);
    NoSpaceInside(quoted);
    EscapeRoundTrip(a.value, false, DOUBLE_QUOTE, rest);
    QuotedAttribute(a.name + after, a.name, after, quoted, Escape(a.value, false), rest);
  }

  lemma AttributeText(a: Attribute, rest: Bytes)
    requires AttributeOk(a)
    ensures PrintAttribute(a)[1..] + rest
            == a.name + ([EQUALS, DOUBLE_QUOTE] + (Escape(a.value, false) + [DOUBLE_QUOTE] + rest))
    ensures (PrintAttribute(a)[1..] + rest)[0] == a.name[0]
  {
    hide Escape;
    WithoutSpace(a.name, [EQUALS, DOUBLE_QUOTE], Escape(a.value, false), [DOUBLE_QUOTE], rest);
  }

  lemma WithoutSpace(n: Bytes, e: Bytes, v: Bytes, q: Bytes, rest: Bytes)
    ensures ([SPACE] + n + e + v + q)[1..] + rest == n + (e + (v + q + rest))
  {
    hide ParseLevel, ParseElement, ParseTag, ParseAttributes, ParseText, Identify, Escape;
    assert ([SPACE] + n + e + v + q)[1..] == n + e + v + q;
    Assoc(n + e + v, q, rest);
    Assoc(n + e, v, q + rest);
    Assoc(n, e, v + (q + rest));
    Assoc(v, q, rest);
  }

  lemma NoSpaceInside(quoted: Bytes)
    ensures var after := [EQUALS, DOUBLE_QUOTE] + quoted;
            && SkipWs(after) == after && SkipWs(after[1..]) == after[1..]
            && after[1..] == [DOUBLE_QUOTE] + quoted && after[1..][1..] == quoted
  {
    hide SkipWs;
    var after := [EQUALS, DOUBLE_QUOTE] + quoted;
    assert after[1..] == [DOUBLE_QUOTE] + quoted;
    NoSpaceToSkip(after);
    NoSpaceToSkip(after[1..]);
  }

  /** A name, an equals sign and a quoted value, with no space between, are an attribute. */
  lemma QuotedAttribute(s: Bytes, name: Bytes, after: Bytes, quoted: Bytes, raw: Bytes, rest: Bytes)
    requires ParseName(s) == Some((name, after)) && after == [EQUALS, DOUBLE_QUOTE] + quoted
    requires SkipWs(after) == after && SkipWs(after[1..]) == after[1..] && after[1..] == [DOUBLE_QUOTE] + quoted
    requires after[1..][1..] == quoted && ParseText(quoted, [DOUBLE_QUOTE]) == Some((raw, rest))
    ensures ParseAttribute(s) == Some((Attribute(name, Value(raw, TEXT_FLAGS)), rest))
  {
  }

  predicate AttributesOk(attributes: seq<Attribute>) {
    UniqueNames(attributes) && forall i :: 0 <= i < |attributes| ==> AttributeOk(attributes[i])
  }

  lemma TagEndStops(sofar: seq<Attribute>, sealed: bool, rest: Bytes)
    ensures ParseAttributes(TagEnd(sealed) + rest, sofar) == Attributes(sofar, sealed, rest)
  {
    var s := TagEnd(sealed) + rest;
    NoSpaceToSkip(s);
    assert s[..|TagEnd(sealed)|] == TagEnd(sealed) && s[|TagEnd(sealed)|..] == rest;
  }

  lemma OneAttribute(s: Bytes, sofar: seq<Attribute>, a: Attribute, next: Bytes)
    requires s == PrintAttribute(a) + next && AttributeOk(a) && !HasAttribute(sofar, a.name)
    ensures ParseAttributes(s, sofar) == ParseAttributes(next, sofar + [NormalAttribute(a)])
  {
    hide PrintAttribute, ParseAttribute, SkipWs, LineEnds;
    AttributeRoundTrip(a, next);
    SpaceThen(s, a, next);
    AttributeTaken(s, SkipWs(s), sofar, NormalAttribute(a), next);
  }

  lemma NameNotYetUsed(sofar: seq<Attribute>, attributes: seq<Attribute>)
    requires UniqueNames(sofar + attributes) && attributes != []
    ensures !HasAttribute(sofar, attributes[0].name)
  {
    hide ParseLevel, ParseElement, ParseTag, ParseAttributes, ParseText, Identify, Escape;
    assert (sofar + attributes)[|sofar|] == attributes[0];
    assert forall i :: 0 <= i < |sofar| ==> (sofar + attributes)[i] == sofar[i];
  }

  lemma AttributesStep(sofar: seq<Attribute>, attributes: seq<Attribute>, tail: Bytes)
    requires UniqueNames(sofar + attributes) && attributes != [] && AttributeOk(attributes[0])
    ensures ParseAttributes(PrintAttributes(attributes) + tail, sofar)
            == ParseAttributes(PrintAttributes(attributes[1..]) + tail, sofar + [NormalAttribute(attributes[0])])
  {
    hide PrintAttribute, ParseAttributes, LineEnds;
    var a := attributes[0];
    NameNotYetUsed(sofar, attributes);
    Assoc(PrintAttribute(a), PrintAttributes(attributes[1..]), tail);
    OneAttribute(PrintAttributes(attributes) + tail, sofar, a, PrintAttributes(attributes[1..]) + tail);
  }

  /** Values do not matter to the uniqueness of names. */
  lemma NamesStayUnique(sofar: seq<Attribute>, attributes: seq<Attribute>)
    requires UniqueNames(sofar + attributes) && attributes != []
    ensures UniqueNames((sofar + [NormalAttribute(attributes[0])]) + attributes[1..])
  {
    hide ParseLevel, ParseElement, ParseTag, ParseAttributes, ParseText, Identify, Escape;
    var a, b := sofar + attributes, (sofar + [NormalAttribute(attributes[0])]) + attributes[1..];
    assert |a| == |b|;
    forall i | 0 <= i < |b| ensures b[i].name == a[i].name {
    }
  }

  lemma Regroup(sofar: seq<Attribute>, attributes: seq<Attribute>)
    requires attributes != []
    ensures (sofar + [NormalAttribute(attributes[0])]) + NormalAttributes(attributes[1..])
            == sofar + NormalAttributes(attributes)
  {
  }

  /** Printed attributes followed by the end of the tag read back, after any read before them. */
  lemma {:induction false} AttributesRoundTrip(sofar: seq<Attribute>, attributes: seq<Attribute>, sealed: bool,
                                               rest: Bytes)
    requires UniqueNames(sofar + attributes) && forall i :: 0 <= i < |attributes| ==> AttributeOk(attributes[i])
    ensures ParseAttributes(PrintAttributes(attributes) + (TagEnd(sealed) + rest), sofar)
            == Attributes(sofar + NormalAttributes(attributes), sealed, rest)
    decreases |attributes|
  {
    hide ParseAttributes, PrintAttributes, NormalAttributes, UniqueNames;
    if attributes == [] {
      NoAttributes(sofar, sealed, rest);
    } else {
      AttributesStep(sofar, attributes, TagEnd(sealed) + rest);
      Regroup(sofar, attributes);
      NamesStayUnique(sofar, attributes);
      AttributesRoundTrip(sofar + [NormalAttribute(attributes[0])], attributes[1..], sealed, rest);
    }
  }

  lemma NoAttributes(sofar: seq<Attribute>, sealed: bool, rest: Bytes)
    ensures ParseAttributes(PrintAttributes([]) + (TagEnd(sealed) + rest), sofar)
            == Attributes(sofar + NormalAttributes([]), sealed, rest)
  {
    hide ParseLevel, ParseElement, ParseTag, ParseAttributes, ParseText, Identify, Escape;
    assert PrintAttributes([]) + (TagEnd(sealed) + rest) == TagEnd(sealed) + rest && sofar + [] == sofar;
    TagEndStops(sofar, sealed, rest);
  }

  lemma SpaceThen(s: Bytes, a: Attribute, next: Bytes)
    requires LegalName(a.name) && s == PrintAttribute(a) + next
    ensures SkipWs(s) == PrintAttribute(a)[1..] + next
    ensures SkipWs(s)[0] == a.name[0]
  {
    hide ParseLevel, ParseElement, ParseTag, ParseAttributes, ParseText, Identify, Escape;
    var p := PrintAttribute(a);
    assert p[0] == SPACE && p[1] == a.name[0];
    assert s[1..] == p[1..] + next;
    assert s[1..][0] == a.name[0];
    NoSpaceToSkip(s[1..]);
  }

  lemma AttributesStart(attributes: seq<Attribute>, sealed: bool, rest: Bytes)
    ensures var after := PrintAttributes(attributes) + (TagEnd(sealed) + rest);
            after != [] && !IsNameChar(after[0])
  {
  }

  /** A tag whose name and attributes are known. */
  lemma TagOf(s: Bytes, name: Bytes, after: Bytes, attributes: seq<Attribute>, sealed: bool, rest: Bytes)
    requires SkipWs(s) == s && s != [] && s[0] != SLASH && ParseName(s) == Some((name, after))
    requires ParseAttributes(after, []) == Attributes(attributes, sealed, rest)
    ensures ParseTag(s) == Tag(Element(name, attributes, []), if sealed then Closed else Open, rest)
  {
  }

  /** A printed start tag reads back as the element without its children. */
  lemma StartTagRoundTrip(name: Bytes, attributes: seq<Attribute>, sealed: bool, rest: Bytes)
    requires LegalName(name) && AttributesOk(attributes)
    ensures ParseTag(name + (PrintAttributes(attributes) + (TagEnd(sealed) + rest)))
            == Tag(Element(name, NormalAttributes(attributes), []), if sealed then Closed else Open, rest)
  {
    hide ParseAttributes, PrintAttributes, ParseName, ParseTag, SkipWs, NormalAttributes;
    var after := PrintAttributes(attributes) + (TagEnd(sealed) + rest);
    AttributesStart(attributes, sealed, rest);
    NameRoundTrip(name, after);
    NothingBefore(attributes);
    AttributesRoundTrip([], attributes, sealed, rest);
    TagOf(name + after, name, after, NormalAttributes(attributes), sealed, rest);
  }

  lemma NothingBefore(attributes: seq<Attribute>)
    ensures [] + attributes == attributes && [] + NormalAttributes(attributes) == NormalAttributes(attributes)
  {
  }

  lemma EndTagRoundTrip(name: Bytes, rest: Bytes)
    requires LegalName(name)
    ensures ParseTag([SLASH] + name + [GREATER] + rest) == Tag(Element(name, [], []), Closing, rest)
  {
    hide ParseAttributes, ParseName, SkipWs, LegalName;
    var s := [SLASH] + name + [GREATER] + rest;
    NoSpaceToSkip(s);
    assert s[1..] == name + ([GREATER] + rest);
    NameRoundTrip(name, [GREATER] + rest);
    TagEndStops([], false, rest);
  }

  // ---- nodes ----

  predicate Blank(v: Bytes) {
    forall i :: 0 <= i < |v| ==> IsWhiteSpace(v[i])
  }

  predicate PlainText(n: Node) {
    n.Text? && !n.cdata
  }

  /** The tree can be written down: legal and unique names, no NUL, and in comments and the like no
      CR and a terminator only at the end. */
  predicate NodeOk(n: Node)
    decreases n, 1
  {
    match n
    case Element(name, attributes, children) =>
      LegalName(name) && AttributesOk(attributes) && NodesOk(children)
    case Text(v, cdata) => if cdata then Clean(v) && EndsAt(v, CDATA_END) else NoNul(v)
    case Comment(v) => Clean(v) && EndsAt(v, COMMENT_END)
    case Declaration(v) => Clean(v) && EndsAt(v, DECLARATION_END)
    case Unknown(v) => Clean(v) && Absent(GREATER, v) && !([DASH, DASH] <= v) && !(CDATA_HEADER[2..] <= v)
  }

  /** Children of an element: no declarations, and no two plain texts in a row. */
  predicate NodesOk(ns: seq<Node>)
    decreases ns, 0
  {
    ns != [] ==>
      && NodeOk(ns[0]) && !ns[0].Declaration?
      && (PlainText(ns[0]) && |ns| > 1 ==> !PlainText(ns[1]))
      && NodesOk(ns[1..])
  }

  /** Plain text that is skipped as white space. */
  predicate BlankText(n: Node) {
    PlainText(n) && Blank(n.value)
  }

  /** What a printed node is read back as: line ends of text and attribute values are normalised
      and blank texts are gone. */
  function Normal(n: Node): Node
    decreases n, 1
  {
    match n
    case Element(name, attributes, children) => Element(name, NormalAttributes(attributes), NormalAll(children))
    case Text(v, cdata) => Text(if cdata then v else LineEnds(v), cdata)
    case _ => n
  }

  function NormalAll(ns: seq<Node>): seq<Node>
    decreases ns, 0
  {
    if ns == [] then []
    else (if BlankText(ns[0]) then [] else [Normal(ns[0])]) + NormalAll(ns[1..])
  }

  /** Text that lets what precedes it end properly: nothing, or another tag. */
  predicate TagOrEnd(s: Bytes) {
    s == [] || (|s| >= 2 && s[0] == LESS)
  }

  lemma PrintStartsTag(n: Node)
    requires NodeOk(n) && !PlainText(n)
    ensures |PrintNode(n)| >= 2 && PrintNode(n)[0] == LESS
  {
  }

  lemma Headers(p: Bytes)
    requires p != [] && p[0] == LESS
    ensures SkipWs(p) == p
  {
  }

  /** A leaf other than plain text is recognised and cut out whole. */
  lemma LeafRoundTrip(n: Node, rest: Bytes)
    requires NodeOk(n) && !n.Element? && !PlainText(n)
    ensures exists kind, text ::
              && Identify(PrintNode(n) + rest) == Some((kind, text)) && kind != ElementKind
              && ParseLeaf(kind, text) == Leaf(n, rest)
  {
    hide ParseLevel, ParseElement, ParseTag, ParseAttributes, ParseText, Identify, Escape;
    match n
    case Text(v, cdata) => CDataRoundTrip(v, rest);
    case Comment(v) => CommentRoundTrip(v, rest);
    case Declaration(v) => DeclarationRoundTrip(v, rest);
    case Unknown(v) => UnknownRoundTrip(v, rest);
  }

  lemma CDataRoundTrip(v: Bytes, rest: Bytes)
    requires NodeOk(Text(v, true))
    ensures Identify(PrintNode(Text(v, true)) + rest) == Some((CDataKind, v + CDATA_END + rest))
    ensures ParseLeaf(CDataKind, v + CDATA_END + rest) == Leaf(Text(v, true), rest)
  {
    var p := PrintNode(Text(v, true)) + rest;
    assert p == CDATA_HEADER + (v + CDATA_END + rest);
    Headers(p);
    assert p[1] == BANG && p[2] == 91;
    assert p[9..] == v + CDATA_END + rest;
    ParseTextFindsFirst(v, CDATA_END, rest);
    CleanValue(v);
  }

  lemma CommentRoundTrip(v: Bytes, rest: Bytes)
    requires NodeOk(Comment(v))
    ensures Identify(PrintNode(Comment(v)) + rest) == Some((CommentKind, v + COMMENT_END + rest))
    ensures ParseLeaf(CommentKind, v + COMMENT_END + rest) == Leaf(Comment(v), rest)
  {
    var p := PrintNode(Comment(v)) + rest;
    assert p == COMMENT_HEADER + (v + COMMENT_END + rest);
    Headers(p);
    assert p[1] == BANG;
    assert p[4..] == v + COMMENT_END + rest;
    ParseTextFindsFirst(v, COMMENT_END, rest);
    CleanValue(v);
  }

  lemma DeclarationRoundTrip(v: Bytes, rest: Bytes)
    requires NodeOk(Declaration(v))
    ensures Identify(PrintNode(Declaration(v)) + rest) == Some((DeclarationKind, v + DECLARATION_END + rest))
    ensures ParseLeaf(DeclarationKind, v + DECLARATION_END + rest) == Leaf(Declaration(v), rest)
  {
    var p := PrintNode(Declaration(v)) + rest;
    assert p == DECLARATION_HEADER + (v + DECLARATION_END + rest);
    Headers(p);
    assert p[2..] == v + DECLARATION_END + rest;
    ParseTextFindsFirst(v, DECLARATION_END, rest);
    CleanValue(v);
  }

  lemma UnknownRoundTrip(v: Bytes, rest: Bytes)
    requires NodeOk(Unknown(v))
    ensures Identify(PrintNode(Unknown(v)) + rest) == Some((UnknownKind, v + [GREATER] + rest))
    ensures ParseLeaf(UnknownKind, v + [GREATER] + rest) == Leaf(Unknown(v), rest)
  {
    hide ParseLevel, ParseElement, ParseTag, ParseAttributes, ParseText, Identify, Escape;
    var body := v + [GREATER] + rest;
    assert PrintNode(Unknown(v)) + rest == UNKNOWN_HEADER + body;
    NotInValue([DASH, DASH], v, rest);
    NotInValue(CDATA_HEADER[2..], v, rest);
    UnknownIdentified(body);
    UnknownParsed(v, rest);
  }

  lemma UnknownParsed(v: Bytes, rest: Bytes)
    requires Clean(v) && Absent(GREATER, v)
    ensures ParseLeaf(UnknownKind, v + [GREATER] + rest) == Leaf(Unknown(v), rest)
  {
    hide ParseLevel, ParseElement, ParseTag, ParseAttributes, ParseText, Identify, Escape;
    AbsentEndsAt(GREATER, v);
    ParseTextFindsFirst(v, [GREATER], rest);
    CleanValue(v);
  }

  lemma UnknownIdentified(body: Bytes)
    requires !([DASH, DASH] <= body) && !(CDATA_HEADER[2..] <= body)
    ensures Identify(UNKNOWN_HEADER + body) == Some((UnknownKind, body))
  {
    var p := UNKNOWN_HEADER + body;
    Headers(p);
    assert p[1] == BANG && p[2..] == body;
    LongerHeader(COMMENT_HEADER, p, body);
    LongerHeader(CDATA_HEADER, p, body);
  }

  lemma LongerHeader(header: Bytes, p: Bytes, body: Bytes)
    requires |header| >= 2 && p == header[..2] + body
    ensures header <= p ==> header[2..] <= body
  {
  }

  /** What does not start v does not start v followed by '>' either. */
  lemma NotInValue(x: Bytes, v: Bytes, rest: Bytes)
    requires Absent(GREATER, x)
    ensures x <= v + [GREATER] + rest ==> x <= v
  {
    hide ParseLevel, ParseElement, ParseTag, ParseAttributes, ParseText, Identify, Escape;
    var s := v + [GREATER] + rest;
    assert s[|v|] == GREATER;
    assert forall i :: 0 <= i < |v| ==> s[i] == v[i];
    if x <= s {
      assert forall i :: 0 <= i < |x| ==> x[i] == s[i];
      assert |x| <= |v|;
    }
  }

  /** Plain text is recognised as text, however much white space it starts with. */
  lemma {:induction false} TextIsNotATag(v: Bytes, rest: Bytes)
    requires !Blank(v)
    ensures SkipWs(Escape(v, true) + rest) != [] && SkipWs(Escape(v, true) + rest)[0] != LESS
  {
    var s := Escape(v, true) + rest;
    var e, more := EscapeByte(v[0], true), Escape(v[1..], true);
    assert s == e + (more + rest);
    if IsWhiteSpace(v[0]) {
      assert s[1..] == more + rest;
      assert !Blank(v[1..]) by {
        var i :| 0 <= i < |v| && !IsWhiteSpace(v[i]);
        assert v[1..][i - 1] == v[i];
      }
      TextIsNotATag(v[1..], rest);
    } else {
      EscapedByteHidesDelimiter(v[0], true, LESS);
      assert s[0] == e[0];
      assert e[0] == v[0] || e[0] == AMP;
      NoSpaceToSkip(s);
    }
  }

  lemma TextLeaf(v: Bytes, after: Bytes)
    requires NoNul(v) && after != []
    ensures ParseLeaf(TextKind, Escape(v, true) + [LESS] + after) == Leaf(Text(LineEnds(v), false), [LESS] + after)
  {
    hide ParseLevel, ParseElement, ParseTag, ParseAttributes, ParseText, Identify, Escape;
    EscapeRoundTrip(v, true, LESS, after);
  }

  lemma TextIdentified(v: Bytes, rest: Bytes)
    requires !Blank(v)
    ensures Identify(Escape(v, true) + rest) == Some((TextKind, Escape(v, true) + rest))
  {
    TextIsNotATag(v, rest);
  }

  lemma TextRoundTrip(v: Bytes, rest: Bytes)
    requires NoNul(v) && !Blank(v) && TagOrEnd(rest) && rest != []
    ensures Identify(PrintNode(Text(v, false)) + rest) == Some((TextKind, Escape(v, true) + rest))
    ensures ParseLeaf(TextKind, Escape(v, true) + rest) == Leaf(Text(LineEnds(v), false), rest)
  {
    hide Identify, ParseLeaf, Escape, LineEnds;
    TextIdentified(v, rest);
    Assoc(Escape(v, true), [LESS], rest[1..]);
    TextLeaf(v, rest[1..]);
    assert rest == [LESS] + rest[1..];
  }

  // ---- levels ----

  lemma LeafStep(n: Node, rest: Bytes, isDocument: bool, sofar: seq<Node>, depth: Depth)
    requires NodeOk(n) && !n.Element? && !BlankText(n) && (PlainText(n) ==> TagOrEnd(rest) && rest != [])
    requires n.Declaration? ==> WellLocated(isDocument, sofar)
    ensures ParseLevel(PrintNode(n) + rest, isDocument, sofar, depth)
            == ParseLevel(rest, isDocument, sofar + [Normal(n)], depth)
  {
    hide ParseLevel, Identify, ParseLeaf, Escape, LineEnds, EndsAt;
    var s := PrintNode(n) + rest;
    if PlainText(n) {
      TextRoundTrip(n.value, rest);
      LeafLevel(s, TextKind, Escape(n.value, true) + rest, Normal(n), rest, isDocument, sofar, depth);
    } else {
      LeafRoundTrip(n, rest);
      var kind, text :|
        Identify(s) == Some((kind, text)) && kind != ElementKind && ParseLeaf(kind, text) == Leaf(n, rest);
      LeafLevel(s, kind, text, n, rest, isDocument, sofar, depth);
    }
  }

  /** White space before a tag or the end is skipped. */
  lemma {:induction false} SpaceIsSkipped(v: Bytes, rest: Bytes)
    requires Blank(v)
    ensures SkipWs(v + rest) == SkipWs(rest)
  {
    hide ParseLevel, ParseElement, ParseTag, ParseAttributes, ParseText, Identify, Escape;
    if v == [] {
      assert v + rest == rest;
    } else {
      assert (v + rest)[1..] == v[1..] + rest && (v + rest)[0] == v[0];
      SpaceIsSkipped(v[1..], rest);
    }
  }

  lemma {:induction false} SpaceIsPrinted(v: Bytes)
    requires Blank(v)
    ensures Escape(v, true) == v
  {
    if v != [] {
      assert EscapeByte(v[0], true) == [v[0]];
      SpaceIsPrinted(v[1..]);
    }
  }

  lemma SameIdentity(s: Bytes, t: Bytes)
    requires SkipWs(s) == SkipWs(t) && (SkipWs(s) == [] || SkipWs(s)[0] == LESS)
    ensures Identify(s) == Identify(t)
  {
    hide SkipWs;
  }

  lemma SameLevel(s: Bytes, t: Bytes, isDocument: bool, sofar: seq<Node>, depth: Depth)
    requires Identify(s) == Identify(t)
    ensures ParseLevel(s, isDocument, sofar, depth) == ParseLevel(t, isDocument, sofar, depth)
  {
    hide Identify, ParseElement, ParseLeaf, WellLocated, Mismatch;
  }

  lemma SkippedStep(n: Node, rest: Bytes, isDocument: bool, sofar: seq<Node>, depth: Depth)
    requires BlankText(n) && TagOrEnd(rest)
    ensures ParseLevel(PrintNode(n) + rest, isDocument, sofar, depth) == ParseLevel(rest, isDocument, sofar, depth)
  {
    hide ParseLevel, Identify, SkipWs, Escape;
    SpaceIsPrinted(n.value);
    SpaceIsSkipped(n.value, rest);
    if rest != [] {
      Headers(rest);
    }
    SameIdentity(PrintNode(n) + rest, rest);
    SameLevel(PrintNode(n) + rest, rest, isDocument, sofar, depth);
  }

  lemma ElementIdentified(b: Byte, after: Bytes)
    requires b != QUESTION && b != BANG
    ensures Identify([LESS, b] + after) == Some((ElementKind, [b] + after))
  {
    var s := [LESS, b] + after;
    Headers(s);
    assert s[1] == b && s[1..] == [b] + after;
  }

  /** The end tag of an element ends the level of its children. */
  lemma EndTagEndsLevel(name: Bytes, rest: Bytes, sofar: seq<Node>, depth: Depth)
    requires LegalName(name)
    ensures ParseLevel(EndTag(name) + rest, false, sofar, depth) == AtEndTag(sofar, name, rest)
  {
    var after := name + [GREATER] + rest;
    var text := [SLASH] + name + [GREATER] + rest;
    assert EndTag(name) + rest == [LESS, SLASH] + after && text == [SLASH] + after;
    ElementIdentified(SLASH, after);
    EndTagRoundTrip(name, rest);
    assert ParseElement(text, depth) == Parsed(Element(name, [], []), Closing, [], rest);
    ElementLevel(EndTag(name) + rest, text, Element(name, [], []), Closing, [], rest, false, sofar, depth);
  }

  lemma ElementText(name: Bytes, after: Bytes)
    requires LegalName(name)
    ensures Identify([LESS] + (name + after)) == Some((ElementKind, name + after))
  {
    hide ParseLevel, ParseElement, ParseTag, ParseAttributes, ParseText, Identify, Escape;
    assert [LESS] + (name + after) == [LESS, name[0]] + (name[1..] + after);
    assert name + after == [name[0]] + (name[1..] + after);
    ElementIdentified(name[0], name[1..] + after);
  }

  lemma PrintedElement(n: Node, rest: Bytes)
    requires n.Element?
    ensures n.children == [] ==>
              PrintNode(n) + rest == [LESS] + (n.name + (PrintAttributes(n.attributes) + (TagEnd(true) + rest)))
    ensures n.children != [] ==>
              PrintNode(n) + rest == [LESS] + (n.name + (PrintAttributes(n.attributes) +
                                     (TagEnd(false) + (PrintNodes(n.children) + (EndTag(n.name) + rest)))))
  {
    hide ParseLevel, ParseElement, ParseTag, ParseAttributes, ParseText, Identify, Escape;
    var name, attrs := n.name, PrintAttributes(n.attributes);
    var close := if n.children == [] then [SLASH, GREATER] else [GREATER] + PrintNodes(n.children) + EndTag(name);
    Assoc([LESS] + name + attrs, close, rest);
    Assoc([LESS] + name, attrs, close + rest);
    Assoc([LESS], name, attrs + (close + rest));
    if n.children != [] {
      Assoc([GREATER] + PrintNodes(n.children), EndTag(name), rest);
      Assoc([GREATER], PrintNodes(n.children), EndTag(name) + rest);
    }
  }

  lemma SealedElement(n: Node, rest: Bytes, isDocument: bool, sofar: seq<Node>, depth: Depth)
    requires NodeOk(n) && n.Element? && n.children == []
    ensures ParseLevel(PrintNode(n) + rest, isDocument, sofar, depth)
            == ParseLevel(rest, isDocument, sofar + [Normal(n)], depth)
  {
    hide ParseLevel, ParseElement, ParseTag, Identify, PrintNode, PrintAttributes, NormalAttributes, AttributesOk;
    var after := PrintAttributes(n.attributes) + (TagEnd(true) + rest);
    PrintedElement(n, rest);
    ElementText(n.name, after);
    StartTagRoundTrip(n.name, n.attributes, true, rest);
    assert NormalAll(n.children) == [];
    TagAlone(n.name + after, Normal(n), Closed, rest, depth);
    ElementLevel(PrintNode(n) + rest, n.name + after, Normal(n), Closed, [], rest, isDocument, sofar, depth);
  }

  lemma OpenElementParsed(n: Node, rest: Bytes, depth: Depth)
    requires NodeOk(n) && n.Element? && n.children != [] && depth + 1 < MAX_ELEMENT_DEPTH
    requires ParseLevel(PrintNodes(n.children) + (EndTag(n.name) + rest), false, [], depth + 1)
             == AtEndTag(NormalAll(n.children), n.name, rest)
    ensures ParseElement(n.name + (PrintAttributes(n.attributes) +
                         (TagEnd(false) + (PrintNodes(n.children) + (EndTag(n.name) + rest)))), depth)
            == Parsed(Normal(n), Open, n.name, rest)
  {
    hide ParseLevel, ParseElement, ParseTag, PrintNodes, PrintAttributes, NormalAttributes, NormalAll, AttributesOk;
    var inner := PrintNodes(n.children) + (EndTag(n.name) + rest);
    StartTagRoundTrip(n.name, n.attributes, false, inner);
    TagWithLevel(n.name + (PrintAttributes(n.attributes) + (TagEnd(false) + inner)),
                 Element(n.name, NormalAttributes(n.attributes), []), inner,
                 NormalAll(n.children), n.name, rest, depth);
  }

  lemma OpenElementStep(n: Node, rest: Bytes, isDocument: bool, sofar: seq<Node>, depth: Depth)
    requires NodeOk(n) && n.Element? && n.children != [] && depth + 1 < MAX_ELEMENT_DEPTH
    requires ParseLevel(PrintNodes(n.children) + (EndTag(n.name) + rest), false, [], depth + 1)
             == AtEndTag(NormalAll(n.children), n.name, rest)
    ensures ParseLevel(PrintNode(n) + rest, isDocument, sofar, depth)
            == ParseLevel(rest, isDocument, sofar + [Normal(n)], depth)
  {
    hide ParseLevel, ParseElement, Identify, PrintNode, PrintNodes, PrintAttributes, NormalAttributes,
         NormalAll, AttributesOk, NodesOk;
    var after := PrintAttributes(n.attributes) + (TagEnd(false) + (PrintNodes(n.children) + (EndTag(n.name) + rest)));
    PrintedElement(n, rest);
    ElementText(n.name, after);
    OpenElementParsed(n, rest, depth);
    ElementLevel(PrintNode(n) + rest, n.name + after, Normal(n), Open, n.name, rest, isDocument, sofar, depth);
  }

  /** One printed node at the front of a level is read and linked. */
  lemma {:induction false} NodeRoundTrip(n: Node, rest: Bytes, isDocument: bool, sofar: seq<Node>, depth: Depth)
    requires NodeOk(n) && !BlankText(n) && depth + Height(n) < MAX_ELEMENT_DEPTH
    requires PlainText(n) ==> TagOrEnd(rest) && rest != []
    requires n.Declaration? ==> WellLocated(isDocument, sofar)
    ensures ParseLevel(PrintNode(n) + rest, isDocument, sofar, depth)
            == ParseLevel(rest, isDocument, sofar + [Normal(n)], depth)
    decreases n, 1
  {
    hide ParseLevel, PrintNode, NodeOk, Height, Normal;
    if !n.Element? {
      LeafStep(n, rest, isDocument, sofar, depth);
    } else if n.children == [] {
      SealedElement(n, rest, isDocument, sofar, depth);
    } else {
      OpenElementRoundTrip(n, rest, isDocument, sofar, depth);
    }
  }

  lemma ElementParts(n: Node)
    requires NodeOk(n) && n.Element? && n.children != []
    ensures NodesOk(n.children) && LegalName(n.name) && Height(n) == 1 + HeightOf(n.children)
  {
  }

  lemma {:induction false} OpenElementRoundTrip(n: Node, rest: Bytes, isDocument: bool, sofar: seq<Node>, depth: Depth)
    requires NodeOk(n) && n.Element? && n.children != [] && depth + Height(n) < MAX_ELEMENT_DEPTH
    ensures ParseLevel(PrintNode(n) + rest, isDocument, sofar, depth)
            == ParseLevel(rest, isDocument, sofar + [Normal(n)], depth)
    decreases n, 0
  {
    hide *;
    ElementParts(n);
    ChildrenRoundTrip(n.children, n.name, rest, depth + 1);
    OpenElementStep(n, rest, isDocument, sofar, depth);
  }

  /** The children of an element, up to and with its end tag. */
  lemma {:induction false} ChildrenRoundTrip(ns: seq<Node>, name: Bytes, rest: Bytes, depth: Depth)
    requires NodesOk(ns) && LegalName(name) && depth + HeightOf(ns) < MAX_ELEMENT_DEPTH
    ensures ParseLevel(PrintNodes(ns) + (EndTag(name) + rest), false, [], depth) == AtEndTag(NormalAll(ns), name, rest)
    decreases ns, 2
  {
    hide ParseLevel, PrintNodes, EndTag, NormalAll, NodesOk, HeightOf;
    EndTagIsTag(name, rest);
    LevelRoundTrip(ns, EndTag(name) + rest, false, [], depth);
    assert [] + NormalAll(ns) == NormalAll(ns);
    EndTagEndsLevel(name, rest, NormalAll(ns), depth);
  }

  lemma EndTagIsTag(name: Bytes, rest: Bytes)
    ensures TagOrEnd(EndTag(name) + rest) && EndTag(name) + rest != []
  {
  }

  lemma NextIsTag(ns: seq<Node>, tail: Bytes)
    requires NodesOk(ns) && (if ns == [] then TagOrEnd(tail) else !PlainText(ns[0]))
    ensures TagOrEnd(PrintNodes(ns) + tail)
    ensures ns != [] ==> PrintNodes(ns) + tail != []
  {
  }

  /** What may follow nodes: anything after a tag, after text another tag, after blank text also
      the end. */
  predicate MayFollow(ns: seq<Node>, tail: Bytes) {
    ns != [] && PlainText(ns[|ns| - 1]) ==> TagOrEnd(tail) && (tail != [] || BlankText(ns[|ns| - 1]))
  }

  lemma FollowRest(ns: seq<Node>, tail: Bytes)
    requires NodesOk(ns) && ns != [] && MayFollow(ns, tail)
    ensures NodesOk(ns[1..]) && MayFollow(ns[1..], tail)
    ensures PlainText(ns[0]) ==> TagOrEnd(PrintNodes(ns[1..]) + tail)
    ensures PlainText(ns[0]) && !BlankText(ns[0]) ==> PrintNodes(ns[1..]) + tail != []
  {
    hide ParseLevel, ParseElement, ParseTag, ParseAttributes, ParseText, Identify, Escape;
    if PlainText(ns[0]) {
      NextIsTag(ns[1..], tail);
      assert ns[1..] == [] ==> PrintNodes(ns[1..]) + tail == tail;
    }
  }

  lemma HeightSplit(ns: seq<Node>)
    requires ns != []
    ensures Height(ns[0]) <= HeightOf(ns) && HeightOf(ns[1..]) <= HeightOf(ns)
  {
  }

  /** Printed nodes are linked again in their normal form, and the level goes on behind them. */
  lemma {:induction false} LevelRoundTrip(ns: seq<Node>, tail: Bytes, isDocument: bool, sofar: seq<Node>, depth: Depth)
    requires NodesOk(ns) && depth + HeightOf(ns) < MAX_ELEMENT_DEPTH && MayFollow(ns, tail)
    ensures ParseLevel(PrintNodes(ns) + tail, isDocument, sofar, depth)
            == ParseLevel(tail, isDocument, sofar + NormalAll(ns), depth)
    decreases ns, 0
  {
    hide ParseLevel, PrintNode, NodeOk, HeightOf, Height, Normal, MayFollow;
    if ns == [] {
      EmptyLevel(tail, sofar);
    } else {
      var n, more := ns[0], ns[1..];
      Assoc(PrintNode(n), PrintNodes(more), tail);
      FollowRest(ns, tail);
      HeightSplit(ns);
      if BlankText(n) {
        SkippedStep(n, PrintNodes(more) + tail, isDocument, sofar, depth);
        LevelRoundTrip(more, tail, isDocument, sofar, depth);
        assert [] + NormalAll(more) == NormalAll(more);
      } else {
        NodeRoundTrip(n, PrintNodes(more) + tail, isDocument, sofar, depth);
        LevelRoundTrip(more, tail, isDocument, sofar + [Normal(n)], depth);
        Regrouped(sofar, Normal(n), NormalAll(more));
      }
    }
  }

  lemma Regrouped(sofar: seq<Node>, n: Node, more: seq<Node>)
    ensures (sofar + [n]) + more == sofar + ([n] + more)
  {
  }

  lemma EmptyLevel(tail: Bytes, sofar: seq<Node>)
    ensures PrintNodes([]) + tail == tail && sofar + NormalAll([]) == sofar
  {
  }
}
