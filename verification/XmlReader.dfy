/** The parser as the loops of the program (external/tinyxml2/tinyxml2.cpp lines 1085-1199,
    1972-2036 and 2088-2113): each method is proved to compute what the function of XmlParser
    says, and every round of a loop stops or consumes text. */
module XmlReader {
  import opened Common
  import opened XmlChars
  import opened XmlScan
  import opened XmlParser

  // ---- attributes ----

  method FindAttribute(attributes: seq<Attribute>, name: Bytes) returns (found: bool)
    ensures found <==> HasAttribute(attributes, name)
  {
    var i := 0;
    while i < |attributes|
      invariant 0 <= i <= |attributes|
      invariant !HasAttribute(attributes[..i], name)
    {
      if attributes[i].name == name {
        return true;
      }
      i := i + 1;
    }
    assert attributes[..i] == attributes;
    return false;
  }

  method ReadAttributes(s: Bytes) returns (r: AttributesResult)
    ensures r == ParseAttributes(s, [])
  {
    var rest, attributes := s, [];
    while true
      invariant ParseAttributes(s, []) == ParseAttributes(rest, attributes)
      decreases |rest|
    {
      var p := SkipWs(rest);
      if p == [] {
        return AttributesFail(ParsingElement);
      }
      if IsNameStart(p[0]) {
        var a := ParseAttribute(p);
        if a.None? {
          return AttributesFail(ParsingAttribute);
        }
        var known := FindAttribute(attributes, a.value.0.name);
        if known {
          return AttributesFail(ParsingAttribute);
        }
        AttributeTaken(rest, p, attributes, a.value.0, a.value.1);
        rest, attributes := a.value.1, attributes + [a.value.0];
      } else if p[0] == GREATER {
        return Attributes(attributes, false, p[1..]);
      } else if [SLASH, GREATER] <= p {
        return Attributes(attributes, true, p[2..]);
      } else {
        return AttributesFail(ParsingElement);
      }
    }
  }

  // ---- elements and levels ----

  lemma TagOf(s: Bytes, p: Bytes, slash: bool, name: Bytes, rest: Bytes)
    requires p == SkipWs(s) && slash == (p != [] && p[0] == SLASH)
    requires ParseName(if slash then p[1..] else p) == Some((name, rest))
    ensures ParseTag(s) == match ParseAttributes(rest, [])
                           case AttributesFail(e) => TagFail(e)
                           case Attributes(attributes, sealed, after) =>
                             Tag(Element(name, attributes, []),
                                 if sealed then Closed else if slash then Closing else Open, after)
  {
  }

  method ReadTag(s: Bytes) returns (r: TagHead)
    ensures r == ParseTag(s)
  {
    var p := SkipWs(s);
    var closing := Open;
    if p != [] && p[0] == SLASH {
      closing := Closing;
      p := p[1..];
    }
    var n := ParseName(p);
    if n.None? {
      return TagFail(Parsing);
    }
    TagOf(s, SkipWs(s), closing == Closing, n.value.0, n.value.1);
    var a := ReadAttributes(n.value.1);
    match a {
      case AttributesFail(e) =>
        return TagFail(e);
      case Attributes(attributes, sealed, rest) =>
        return Tag(Element(n.value.0, attributes, []), if sealed then Closed else closing, rest);
    }
  }

  lemma NoElement(s: Bytes, t: TagHead, depth: Depth)
    requires ParseTag(s) == t
    ensures t.TagFail? ==> ParseElement(s, depth) == ElementFail(t.error)
    ensures t.Tag? && t.rest != [] && t.closing == Open && depth + 1 == MAX_ELEMENT_DEPTH ==>
              ParseElement(s, depth) == ElementFail(ElementDepthExceeded)
    ensures t.Tag? ==> |t.rest| < |s|
  {
  }

  /** What an open tag makes of the level behind it. */
  function WithLevel(e: Node, l: LevelResult): ElementResult
    requires e.Element?
  {
    match l
    case LevelFail(error) => ElementFail(error)
    case AtEnd(_) => ElementFail(Parsing)
    case AtEndTag(children, endTag, rest) => Parsed(e.(children := children), Open, endTag, rest)
  }

  lemma ElementOf(s: Bytes, e: Node, inner: Bytes, depth: Depth, l: LevelResult)
    requires ParseTag(s) == Tag(e, Open, inner) && e.Element? && inner != [] && depth + 1 != MAX_ELEMENT_DEPTH
    requires l == ParseLevel(inner, false, [], depth + 1)
    ensures ParseElement(s, depth) == WithLevel(e, l)
  {
  }

  /** XMLElement::ParseDeep */
  method ReadElement(s: Bytes, depth: Depth) returns (r: ElementResult)
    ensures r == ParseElement(s, depth)
    decreases |s|, 1
  {
    var t := ReadTag(s);
    NoElement(s, t, depth);
    if t.TagFail? {
      return ElementFail(t.error);
    }
    if t.rest == [] || t.closing != Open {
      TagAlone(s, t.element, t.closing, t.rest, depth);
      return Parsed(t.element, t.closing, [], t.rest);
    }
    if depth + 1 == MAX_ELEMENT_DEPTH {
      return ElementFail(ElementDepthExceeded);
    }
    r := ReadContent(s, t.element, t.rest, depth);
  }

  method ReadContent(s: Bytes, e: Node, inner: Bytes, depth: Depth) returns (r: ElementResult)
    requires ParseTag(s) == Tag(e, Open, inner) && e.Element? && inner != [] && depth + 1 != MAX_ELEMENT_DEPTH
    requires |inner| < |s|
    ensures r == ParseElement(s, depth)
    decreases |s|, 0
  {
    var l := ReadLevel(inner, false, depth + 1);
    ElementOf(s, e, inner, depth, l);
    r := WithLevel(e, l);
  }

  lemma ElementFails(s: Bytes, text: Bytes, e: ElementResult, isDocument: bool, sofar: seq<Node>, depth: Depth)
    requires Identify(s) == Some((ElementKind, text)) && ParseElement(text, depth) == e
    ensures e.ElementFail? ==> ParseLevel(s, isDocument, sofar, depth) == LevelFail(e.error)
    ensures e.Parsed? && e.closing != Closing && Mismatch(e.element, e.closing, e.endTag) ==>
              ParseLevel(s, isDocument, sofar, depth) == LevelFail(MismatchedElement)
    ensures e.Parsed? ==> |e.rest| < |s|
  {
  }

  lemma LeafFails(s: Bytes, kind: Kind, text: Bytes, l: LeafResult, isDocument: bool, sofar: seq<Node>, depth: Depth)
    requires Identify(s) == Some((kind, text)) && kind != ElementKind && ParseLeaf(kind, text) == l
    ensures l.LeafFail? ==> ParseLevel(s, isDocument, sofar, depth) == LevelFail(l.error)
    ensures l.Leaf? && l.node.Declaration? && !WellLocated(isDocument, sofar) ==>
              ParseLevel(s, isDocument, sofar, depth) == LevelFail(ParsingDeclaration)
  {
  }

  /** How one round of the loop over children ends. */
  datatype Round = Stop(result: LevelResult) | Go(node: Node, rest: Bytes)

  predicate RoundIs(r: Round, s: Bytes, isDocument: bool, sofar: seq<Node>, depth: Depth) {
    match r
    case Stop(result) => ParseLevel(s, isDocument, sofar, depth) == result
    case Go(node, rest) =>
      && |rest| < |s|
      && ParseLevel(s, isDocument, sofar, depth) == ParseLevel(rest, isDocument, sofar + [node], depth)
  }

  method ReadChildElement(s: Bytes, text: Bytes, isDocument: bool, sofar: seq<Node>, depth: Depth) returns (r: Round)
    requires Identify(s) == Some((ElementKind, text)) && |text| < |s|
    ensures RoundIs(r, s, isDocument, sofar, depth)
    decreases |text|, 2
  {
    var e := ReadElement(text, depth);
    ElementFails(s, text, e, isDocument, sofar, depth);
    if e.ElementFail? {
      return Stop(LevelFail(e.error));
    }
    ElementLevel(s, text, e.element, e.closing, e.endTag, e.rest, isDocument, sofar, depth);
    if e.closing == Closing {
      return Stop(AtEndTag(sofar, e.element.name, e.rest));
    }
    if Mismatch(e.element, e.closing, e.endTag) {
      return Stop(LevelFail(MismatchedElement));
    }
    return Go(e.element, e.rest);
  }

  method ReadChildLeaf(s: Bytes, kind: Kind, text: Bytes, isDocument: bool, sofar: seq<Node>, depth: Depth)
    returns (r: Round)
    requires Identify(s) == Some((kind, text)) && kind != ElementKind
    ensures RoundIs(r, s, isDocument, sofar, depth)
  {
    var l := ParseLeaf(kind, text);
    LeafFails(s, kind, text, l, isDocument, sofar, depth);
    if l.LeafFail? {
      return Stop(LevelFail(l.error));
    }
    if l.node.Declaration? && !WellLocated(isDocument, sofar) {
      return Stop(LevelFail(ParsingDeclaration));
    }
    LeafLevel(s, kind, text, l.node, l.rest, isDocument, sofar, depth);
    return Go(l.node, l.rest);
  }

  /** XMLNode::ParseDeep: children are read and linked one after the other. */
  method ReadLevel(s: Bytes, isDocument: bool, depth: Depth) returns (r: LevelResult)
    ensures r == ParseLevel(s, isDocument, [], depth)
    decreases |s|, 3
  {
    var rest, children := s, [];
    while true
      invariant |rest| <= |s|
      invariant ParseLevel(s, isDocument, [], depth) == ParseLevel(rest, isDocument, children, depth)
      decreases |rest|
    {
      var id := Identify(rest);
      if id.None? {
        EndOfText(rest, isDocument, children, depth);
        return AtEnd(children);
      }
      var round;
      if id.value.0 == ElementKind {
        round := ReadChildElement(rest, id.value.1, isDocument, children, depth);
      } else {
        round := ReadChildLeaf(rest, id.value.0, id.value.1, isDocument, children, depth);
      }
      match round {
        case Stop(result) =>
          return result;
        case Go(node, after) =>
          rest, children := after, children + [node];
      }
    }
  }

  /** XMLDocument::Parse */
  method ReadDocument(xml: Bytes) returns (r: ParseResult)
    ensures r == Parse(xml)
  {
    var (bom, text) := ReadBom(SkipWs(CStr(xml)));
    if text == [] {
      return Err(EmptyDocument);
    }
    var l := ReadLevel(text, true, 1);
    r := match l
      case LevelFail(e) => Err(e)
      case AtEndTag(children, _, _) => Ok(Document(bom, children))
      case AtEnd(children) => Ok(Document(bom, children));
  }
}
