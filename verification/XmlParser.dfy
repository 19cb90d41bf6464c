/** The recursive parser (external/tinyxml2/tinyxml2.cpp lines 715-792, 1085-1199, 1246-1480,
    1972-2113, 2460-2590), for a document with its default options: entities are processed and
    white space is preserved. Text positions are represented by the text that remains. */
module XmlParser {
  import opened Common
  import opened XmlChars
  import opened XmlText
  import opened XmlScan

  datatype Attribute = Attribute(name: Bytes, value: Bytes)

  datatype Node =
    | Element(name: Bytes, attributes: seq<Attribute>, children: seq<Node>)
    | Text(value: Bytes, cdata: bool)
    | Comment(value: Bytes)
    | Declaration(value: Bytes)
    | Unknown(value: Bytes)

  datatype Document = Document(bom: bool, children: seq<Node>)

  datatype Error =
    | ParsingElement | ParsingAttribute | ParsingText | ParsingCData | ParsingComment
    | ParsingDeclaration | ParsingUnknown | EmptyDocument | MismatchedElement | Parsing
    | ElementDepthExceeded

  const MAX_ELEMENT_DEPTH: nat := 500

  /** The levels being read, the innermost included. The parser is entered with no other value, so
      its recursion stays below the limit on every input, rejected ones too. */
  type Depth = d: nat | d < MAX_ELEMENT_DEPTH witness 0

  const DECLARATION_HEADER: Bytes := [LESS, QUESTION]
  const COMMENT_HEADER: Bytes := [LESS, BANG, DASH, DASH]
  const CDATA_HEADER: Bytes := [LESS, BANG, 91, 67, 68, 65, 84, 65, 91]
  const UNKNOWN_HEADER: Bytes := [LESS, BANG]
  const DECLARATION_END: Bytes := [QUESTION, GREATER]
  const COMMENT_END: Bytes := [DASH, DASH, GREATER]
  const CDATA_END: Bytes := [93, 93, GREATER]
  const BOM: Bytes := [0xEF, 0xBB, 0xBF]

  const TEXT_FLAGS := Flags(true, true)
  const RAW_FLAGS := Flags(false, true)

  /** The C string that GetStr returns for a slice of the buffer. */
  function Value(raw: Bytes, f: Flags): Bytes {
    CStr(InPlace(raw, f))
  }

  datatype Kind = ElementKind | TextKind | CDataKind | CommentKind | DeclarationKind | UnknownKind

  /** Identify: what starts here, and the text its parser is given; None at the end. Plain text
      gets its leading white space back. */
  function Identify(s: Bytes): (r: Option<(Kind, Bytes)>)
    ensures r.Some? && r.value.0 != TextKind ==> |r.value.1| < |s|
    ensures r.Some? && r.value.0 == TextKind ==> r.value.1 == s && s != [] && s[0] != LESS
    ensures r.None? <==> SkipWs(s) == []
  {
    var p := SkipWs(s);
    if p == [] then None
    else if DECLARATION_HEADER <= p then Some((DeclarationKind, p[2..]))
    else if COMMENT_HEADER <= p then Some((CommentKind, p[4..]))
    else if CDATA_HEADER <= p then Some((CDataKind, p[9..]))
    else if UNKNOWN_HEADER <= p then Some((UnknownKind, p[2..]))
    else if p[0] == LESS then Some((ElementKind, p[1..]))
    else Some((TextKind, s))
  }

  // ---- leaves ----

  datatype LeafResult = LeafFail(error: Error) | Leaf(node: Node, rest: Bytes)

  /** ParseDeep of the leaf nodes. Plain text stops before the '<' that ends it, and fails if
      that is the last byte of the input. */
  function ParseLeaf(kind: Kind, s: Bytes): (r: LeafResult)
    requires kind != ElementKind
    ensures r.Leaf? ==> |r.rest| <= |s| && !r.node.Element?
    ensures r.Leaf? && kind == TextKind && s != [] && s[0] != LESS ==> |r.rest| < |s|
  {
    match kind
    case TextKind =>
      var t := ParseText(s, [LESS]);
      if t.None? then LeafFail(ParsingText)
      else if t.value.1 == [] then LeafFail(Parsing)
      else
        assert |s| == |t.value.0| + 1 + |t.value.1|;
        assert t.value.0 == [] ==> s[0] == LESS;
        Leaf(Text(Value(t.value.0, TEXT_FLAGS), false), [LESS] + t.value.1)
    case CDataKind =>
      var t := ParseText(s, CDATA_END);
      if t.None? then LeafFail(ParsingCData) else Leaf(Text(Value(t.value.0, RAW_FLAGS), true), t.value.1)
    case CommentKind =>
      var t := ParseText(s, COMMENT_END);
      if t.None? then LeafFail(ParsingComment) else Leaf(Comment(Value(t.value.0, RAW_FLAGS)), t.value.1)
    case DeclarationKind =>
      var t := ParseText(s, DECLARATION_END);
      if t.None? then LeafFail(ParsingDeclaration) else Leaf(Declaration(Value(t.value.0, RAW_FLAGS)), t.value.1)
    case UnknownKind =>
      var t := ParseText(s, [GREATER]);
      if t.None? then LeafFail(ParsingUnknown) else Leaf(Unknown(Value(t.value.0, RAW_FLAGS)), t.value.1)
  }

  // ---- attributes ----

  /** XMLAttribute::ParseDeep */
  function ParseAttribute(s: Bytes): (r: Option<(Attribute, Bytes)>)
    ensures r.Some? ==> |r.value.1| < |s|
  {
    var n := ParseName(s);
    if n.None? || n.value.1 == [] then None
    else
      var a := SkipWs(n.value.1);
      if a == [] || a[0] != EQUALS then None
      else
        var b := SkipWs(a[1..]);
        if b == [] || (b[0] != DOUBLE_QUOTE && b[0] != SINGLE_QUOTE) then None
        else
          var t := ParseText(b[1..], [b[0]]);
          if t.None? then None
          else Some((Attribute(n.value.0, Value(t.value.0, TEXT_FLAGS)), t.value.1))
  }

  predicate HasAttribute(attributes: seq<Attribute>, name: Bytes) {
    exists i :: 0 <= i < |attributes| && attributes[i].name == name
  }

  datatype AttributesResult =
    | AttributesFail(error: Error)
    | Attributes(attributes: seq<Attribute>, sealed: bool, rest: Bytes)

  /** ParseAttributes, with the attributes read so far; sealed means the tag ended in "/>". */
  function ParseAttributes(s: Bytes, sofar: seq<Attribute>): (r: AttributesResult)
    ensures r.Attributes? ==> |r.rest| < |s|
    decreases |s|
  {
    var p := SkipWs(s);
    if p == [] then AttributesFail(ParsingElement)
    else if IsNameStart(p[0]) then
      var a := ParseAttribute(p);
      if a.None? || HasAttribute(sofar, a.value.0.name) then AttributesFail(ParsingAttribute)
      else ParseAttributes(a.value.1, sofar + [a.value.0])
    else if p[0] == GREATER then Attributes(sofar, false, p[1..])
    else if [SLASH, GREATER] <= p then Attributes(sofar, true, p[2..])
    else AttributesFail(ParsingElement)
  }

  // ---- elements and levels ----

  datatype ClosingType = Open | Closed | Closing

  /** What ParseDeep of an element leaves: the element, how its tag was written, the name of the
      end tag read for it (empty if none), and the remaining text. */
  datatype ElementResult =
    | ElementFail(error: Error)
    | Parsed(element: Node, closing: ClosingType, endTag: Bytes, rest: Bytes)

  /** How reading one level of children ends: with an error, at an end tag, or at the end of
      the input. */
  datatype LevelResult =
    | LevelFail(error: Error)
    | AtEndTag(children: seq<Node>, endTag: Bytes, rest: Bytes)
    | AtEnd(children: seq<Node>)

  /** Declarations go before everything else, directly in the document. */
  predicate WellLocated(isDocument: bool, children: seq<Node>) {
    isDocument && (children == [] || (children[0].Declaration? && children[|children| - 1].Declaration?))
  }

  datatype TagHead = TagFail(error: Error) | Tag(element: Node, closing: ClosingType, rest: Bytes)

  /** The part of XMLElement::ParseDeep that reads one tag. A tag that starts with '/' but ends
      in "/>" counts as a sealed element. */
  function ParseTag(s: Bytes): (r: TagHead)
    ensures r.Tag? ==> |r.rest| < |s| && r.element.Element? && r.element.name != [] && r.element.children == []
  {
    var p := SkipWs(s);
    var slash := p != [] && p[0] == SLASH;
    var n := ParseName(if slash then p[1..] else p);
    if n.None? then TagFail(Parsing)
    else match ParseAttributes(n.value.1, [])
      case AttributesFail(e) => TagFail(e)
      case Attributes(attributes, sealed, rest) =>
        Tag(Element(n.value.0, attributes, []), if sealed then Closed else if slash then Closing else Open, rest)
  }

  /** XMLElement::ParseDeep; depth counts the levels being read, this one included. */
  function ParseElement(s: Bytes, depth: Depth): (r: ElementResult)
    ensures r.Parsed? ==> |r.rest| < |s| && r.element.Element?
    decreases |s|, 0
  {
    match ParseTag(s)
    case TagFail(e) => ElementFail(e)
    case Tag(element, closing, rest) =>
      if rest == [] || closing != Open then Parsed(element, closing, [], rest)
      else if depth + 1 == MAX_ELEMENT_DEPTH then ElementFail(ElementDepthExceeded)
      else match ParseLevel(rest, false, [], depth + 1)
        case LevelFail(e) => ElementFail(e)
        case AtEnd(_) => ElementFail(Parsing)
        case AtEndTag(children, endTag, after) =>
          Parsed(element.(children := children), Open, endTag, after)
  }

  /** XMLNode::ParseDeep, with the children linked so far. */
  function ParseLevel(s: Bytes, isDocument: bool, sofar: seq<Node>, depth: Depth): (r: LevelResult)
    ensures r.AtEndTag? ==> |r.rest| < |s|
    decreases |s|, 1
  {
    match Identify(s)
    case None => AtEnd(sofar)
    case Some((kind, text)) =>
      if kind == ElementKind then
        match ParseElement(text, depth)
        case ElementFail(e) => LevelFail(e)
        case Parsed(element, closing, endTag, rest) =>
          if closing == Closing then AtEndTag(sofar, element.name, rest)
          else if Mismatch(element, closing, endTag) then LevelFail(MismatchedElement)
          else ParseLevel(rest, isDocument, sofar + [element], depth)
      else
        match ParseLeaf(kind, text)
        case LeafFail(e) => LevelFail(e)
        case Leaf(node, rest) =>
          if node.Declaration? && !WellLocated(isDocument, sofar) then LevelFail(ParsingDeclaration)
          else ParseLevel(rest, isDocument, sofar + [node], depth)
  }

  predicate Mismatch(element: Node, closing: ClosingType, endTag: Bytes)
    requires element.Element?
  {
    if endTag == [] then closing == Open else closing != Open || endTag != element.name
  }

  /** How many levels of content a tree opens below itself. */
  function Height(n: Node): nat
    decreases n, 1
  {
    if n.Element? && n.children != [] then 1 + HeightOf(n.children) else 0
  }

  function HeightOf(ns: seq<Node>): nat
    decreases ns, 0
  {
    if ns == [] then 0
    else var a, b := Height(ns[0]), HeightOf(ns[1..]); if a > b then a else b
  }

  // ---- one step of the parser at a time ----

  lemma AttributeTaken(s: Bytes, p: Bytes, sofar: seq<Attribute>, a: Attribute, rest: Bytes)
    requires p == SkipWs(s) && p != [] && IsNameStart(p[0])
    requires ParseAttribute(p) == Some((a, rest)) && !HasAttribute(sofar, a.name)
    ensures ParseAttributes(s, sofar) == ParseAttributes(rest, sofar + [a])
    ensures |rest| < |s|
  {
  }

  lemma FirstAndRest(sofar: seq<Node>, ns: seq<Node>)
    requires ns != []
    ensures (sofar + [ns[0]]) + ns[1..] == sofar + ns
  {
  }

  lemma LeafLevel(s: Bytes, kind: Kind, text: Bytes, n: Node, rest: Bytes, isDocument: bool, sofar: seq<Node>,
                  depth: Depth)
    requires Identify(s) == Some((kind, text)) && kind != ElementKind && ParseLeaf(kind, text) == Leaf(n, rest)
    requires n.Declaration? ==> WellLocated(isDocument, sofar)
    ensures |rest| < |s|
    ensures ParseLevel(s, isDocument, sofar, depth) == ParseLevel(rest, isDocument, sofar + [n], depth)
  {
  }

  lemma ElementLevel(s: Bytes, text: Bytes, e: Node, closing: ClosingType, endTag: Bytes, rest: Bytes,
                     isDocument: bool, sofar: seq<Node>, depth: Depth)
    requires Identify(s) == Some((ElementKind, text)) && ParseElement(text, depth) == Parsed(e, closing, endTag, rest)
    ensures closing == Closing ==> ParseLevel(s, isDocument, sofar, depth) == AtEndTag(sofar, e.name, rest)
    ensures closing != Closing && !Mismatch(e, closing, endTag) ==>
              ParseLevel(s, isDocument, sofar, depth) == ParseLevel(rest, isDocument, sofar + [e], depth)
  {
  }

  lemma EndOfText(s: Bytes, isDocument: bool, sofar: seq<Node>, depth: Depth)
    requires Identify(s).None?
    ensures ParseLevel(s, isDocument, sofar, depth) == AtEnd(sofar)
  {
  }

  /** A tag that opens nothing is the whole element. */
  lemma TagAlone(text: Bytes, e: Node, closing: ClosingType, rest: Bytes, depth: Depth)
    requires ParseTag(text) == Tag(e, closing, rest) && (closing != Open || rest == [])
    ensures ParseElement(text, depth) == Parsed(e, closing, [], rest)
  {
  }

  /** An open tag takes the level that follows it. */
  lemma TagWithLevel(text: Bytes, e: Node, inner: Bytes, children: seq<Node>, endTag: Bytes, rest: Bytes, depth: Depth)
    requires ParseTag(text) == Tag(e, Open, inner) && inner != [] && depth + 1 != MAX_ELEMENT_DEPTH
    requires ParseLevel(inner, false, [], depth + 1) == AtEndTag(children, endTag, rest)
    ensures ParseElement(text, depth) == Parsed(e.(children := children), Open, endTag, rest)
  {
  }

  /** Those are the only ways an element is read. */
  lemma ElementHasTag(text: Bytes, depth: Depth) returns (head: Node, closing: ClosingType, inner: Bytes)
    requires ParseElement(text, depth).Parsed?
    ensures ParseTag(text) == Tag(head, closing, inner)
    ensures inner != [] && closing == Open ==> depth + 1 != MAX_ELEMENT_DEPTH
  {
    hide ParseAttributes, ParseText, SkipWs, ParseName, Value;
    var t := ParseTag(text);
    head, closing, inner := t.element, t.closing, t.rest;
  }

  lemma OpenTagHasLevel(text: Bytes, head: Node, inner: Bytes, depth: Depth)
    returns (children: seq<Node>, endTag: Bytes, rest: Bytes)
    requires ParseTag(text) == Tag(head, Open, inner) && inner != [] && ParseElement(text, depth).Parsed?
    ensures ParseLevel(inner, false, [], depth + 1) == AtEndTag(children, endTag, rest)
  {
    hide ParseAttributes, ParseText, SkipWs, ParseName, Value;
    var l := ParseLevel(inner, false, [], depth + 1);
    children, endTag, rest := l.children, l.endTag, l.rest;
  }

  datatype ParseResult = Ok(document: Document) | Err(error: Error)

  function ReadBom(s: Bytes): (r: (bool, Bytes))
    ensures |r.1| <= |s|
  {
    if BOM <= s then (true, s[3..]) else (false, s)
  }

  /** XMLDocument::Parse. An end tag directly in the document ends parsing without an error. */
  function Parse(xml: Bytes): ParseResult {
    var s := CStr(xml);
    var (bom, text) := ReadBom(SkipWs(s));
    if text == [] then Err(EmptyDocument)
    else match ParseLevel(text, true, [], 1)
      case LevelFail(e) => Err(e)
      case AtEndTag(children, _, _) => Ok(Document(bom, children))
      case AtEnd(children) => Ok(Document(bom, children))
  }
}
