/** The parser accepts exactly the texts of a nested grammar in which every open element is closed
    by a tag of its own name.

    In the code a level of children ends when one of its nodes turns out to be an end tag; the
    name of that tag travels up to the parent, which compares it with the element it has open.
    The grammar says the same without the detour. */
module XmlGrammar {
  import opened Common
  import opened XmlChars
  import opened XmlScan
  import opened XmlParser
  import opened XmlProductions

  /** s starts with an end tag for name. */
  ghost predicate EndTagAt(s: Bytes, name: Bytes, rest: Bytes) {
    exists head :: TagAt(s, head, Closing, rest) && head.Element? && head.name == name
  }

  /** s starts with a text of node n, below depth open levels, and rest follows it: a leaf, a
      sealed element, or an element with a start tag, its children and an end tag of its name. */
  ghost predicate Reads(n: Node, s: Bytes, rest: Bytes, depth: Depth)
    decreases n, 0
  {
    if n.Element? then
      || (n.children == [] && TagAt(s, n, Closed, rest))
      || (exists inner, end ::
            && TagAt(s, n.(children := []), Open, inner) && inner != [] && depth + 1 < MAX_ELEMENT_DEPTH
            && ReadsAll(n.children, inner, end, false, [], depth + 1)
            && EndTagAt(end, n.name, rest))
    else LeafAt(s, n, rest)
  }

  /** s is the nodes ns one after the other, then end; sofar are their older siblings. */
  ghost predicate ReadsAll(ns: seq<Node>, s: Bytes, end: Bytes, isDocument: bool, sofar: seq<Node>, depth: Depth)
    decreases ns
  {
    if ns == [] then s == end
    else
      && (ns[0].Declaration? ==> WellLocated(isDocument, sofar))
      && exists next :: Reads(ns[0], s, next, depth) && ReadsAll(ns[1..], next, end, isDocument, sofar + [ns[0]], depth)
  }

  lemma AllSpaces(s: Bytes)
    ensures SkipWs(s) == [] <==> Spaces(s)
  {
    SpacedIsSkipped(s, []);
    assert s[..|s|] == s && s[|s|..] == [];
  }

  /** Where a level stops: at an end tag, or where only white space is left. */
  ghost predicate StopsAt(end: Bytes, r: LevelResult, children: seq<Node>) {
    match r
    case LevelFail(_) => false
    case AtEndTag(c, name, rest) => c == children && EndTagAt(end, name, rest)
    case AtEnd(c) => c == children && Spaces(end)
  }

  // ---- what the parser accepts is in the grammar ----

  /** A node read at the front of a level joins the nodes read after it. */
  lemma Extend(n: Node, s: Bytes, next: Bytes, ns: seq<Node>, end: Bytes, isDocument: bool, sofar: seq<Node>,
               depth: Depth)
    requires Reads(n, s, next, depth) && (n.Declaration? ==> WellLocated(isDocument, sofar))
    requires ReadsAll(ns, next, end, isDocument, sofar + [n], depth)
    ensures ReadsAll([n] + ns, s, end, isDocument, sofar, depth)
    ensures (sofar + [n]) + ns == sofar + ([n] + ns)
  {
    hide Reads;
    assert ([n] + ns)[1..] == ns && ([n] + ns)[0] == n;
  }

  lemma OpenElementReads(s: Bytes, n: Node, head: Node, inner: Bytes, end: Bytes, rest: Bytes, depth: Depth,
                         below: Depth)
    requires n.Element? && head == n.(children := []) && below == depth + 1 && inner != []
    requires ReadsAll(n.children, inner, end, false, [], below) && EndTagAt(end, n.name, rest)
    requires TagAt(s, head, Open, inner)
    ensures Reads(n, s, rest, depth)
  {
    hide ParseLevel, ParseElement, ParseTag, ParseLeaf, Identify, ReadsAll, EndTagAt, TagAt, LeafAt;
  }

  lemma EndTagRead(s: Bytes, head: Node, rest: Bytes)
    requires TagAt(s, head, Closing, rest) && head.Element?
    ensures EndTagAt(s, head.name, rest)
  {
    hide TagAt;
  }

  lemma TagRead(s: Bytes, text: Bytes, head: Node, closing: ClosingType, rest: Bytes)
    requires Identify(s) == Some((ElementKind, text)) && ParseTag(text) == Tag(head, closing, rest)
    ensures TagAt(s, head, closing, rest) && head.Element? && head.children == [] && head.name != []
    ensures |rest| < |text| < |s|
  {
    hide Identify, ParseTag, TagAt;
    assert TagParsed(s, text, head, closing, rest);
    TagExactlyWhen(s, head, closing, rest);
  }

  /** The text of a tag is one the parser reads. */
  lemma TagText(s: Bytes, head: Node, closing: ClosingType, rest: Bytes) returns (text: Bytes)
    requires TagAt(s, head, closing, rest)
    ensures Identify(s) == Some((ElementKind, text)) && ParseTag(text) == Tag(head, closing, rest)
    ensures head.Element? && head.children == [] && head.name != [] && |rest| < |text| < |s|
  {
    hide Identify, ParseTag, TagAt;
    TagExactlyWhen(s, head, closing, rest);
    text :| TagParsed(s, text, head, closing, rest);
  }

  /** An element the parser links was read by the grammar. */
  lemma {:induction false} ElementIsRead(s: Bytes, text: Bytes, e: Node, closing: ClosingType, endTag: Bytes,
                                         rest: Bytes, depth: Depth)
    requires Identify(s) == Some((ElementKind, text))
    requires ParseElement(text, depth) == Parsed(e, closing, endTag, rest)
    requires closing != Closing && !Mismatch(e, closing, endTag)
    ensures Reads(e, s, rest, depth)
    decreases |s|, 0
  {
    hide ParseLevel, ParseElement, ParseTag, ParseLeaf, Identify, TagAt, LeafAt;
    var head, how, inner := ElementHasTag(text, depth);
    TagRead(s, text, head, how, inner);
    if how != Open || inner == [] {
      TagAlone(text, head, how, inner, depth);
    } else {
      var children, tag, after := OpenTagHasLevel(text, head, inner, depth);
      TagWithLevel(text, head, inner, children, tag, after, depth);
      var ns, end := LevelIsRead(inner, false, [], depth + 1, AtEndTag(children, tag, after));
      assert [] + ns == ns;
      OpenElementReads(s, head.(children := ns), head, inner, end, after, depth, depth + 1);
    }
  }

  /** Soundness: whatever a level links is a sequence of nodes of the grammar, ended by the tag or
      the end of input the parser stopped at. */
  lemma {:induction false} LevelIsRead(s: Bytes, isDocument: bool, sofar: seq<Node>, depth: Depth, r: LevelResult)
    returns (ns: seq<Node>, end: Bytes)
    requires !r.LevelFail? && ParseLevel(s, isDocument, sofar, depth) == r
    ensures ReadsAll(ns, s, end, isDocument, sofar, depth) && StopsAt(end, r, sofar + ns)
    decreases |s|, 2
  {
    hide TagAt, LeafAt;
    var id := Identify(s);
    if id.None? {
      AllSpaces(s);
      ns, end := StopHere(s, isDocument, sofar, depth);
    } else if id.value.0 == ElementKind {
      ns, end := LevelAtTag(s, id.value.1, isDocument, sofar, depth, r);
    } else {
      var leaf := ParseLeaf(id.value.0, id.value.1);
      LeafLevel(s, id.value.0, id.value.1, leaf.node, leaf.rest, isDocument, sofar, depth);
      ns, end := LevelIsRead(leaf.rest, isDocument, sofar + [leaf.node], depth, r);
      LeafRead(s, id.value.0, id.value.1, leaf.node, leaf.rest);
      LeafReads(s, leaf.node, leaf.rest, depth);
      Extend(leaf.node, s, leaf.rest, ns, end, isDocument, sofar, depth);
      ns := [leaf.node] + ns;
    }
  }

  lemma {:induction false} LevelAtTag(s: Bytes, text: Bytes, isDocument: bool, sofar: seq<Node>, depth: Depth,
                                      r: LevelResult)
    returns (ns: seq<Node>, end: Bytes)
    requires !r.LevelFail? && ParseLevel(s, isDocument, sofar, depth) == r
    requires Identify(s) == Some((ElementKind, text))
    ensures ReadsAll(ns, s, end, isDocument, sofar, depth) && StopsAt(end, r, sofar + ns)
    decreases |s|, 1
  {
    hide ParseLevel, ParseElement, ParseTag, ParseLeaf, Identify, TagAt, LeafAt;
    var e, closing, endTag, rest := LevelHasElement(s, text, isDocument, sofar, depth);
    ElementLevel(s, text, e, closing, endTag, rest, isDocument, sofar, depth);
    if closing == Closing {
      ns, end := StopHere(s, isDocument, sofar, depth);
      ClosingTagRead(s, text, e, endTag, rest, depth);
    } else {
      ElementIsRead(s, text, e, closing, endTag, rest, depth);
      ns, end := LevelIsRead(rest, isDocument, sofar + [e], depth, r);
      Extend(e, s, rest, ns, end, isDocument, sofar, depth);
      ns := [e] + ns;
    }
  }

  lemma LevelHasElement(s: Bytes, text: Bytes, isDocument: bool, sofar: seq<Node>, depth: Depth)
    returns (e: Node, closing: ClosingType, endTag: Bytes, rest: Bytes)
    requires !ParseLevel(s, isDocument, sofar, depth).LevelFail? && Identify(s) == Some((ElementKind, text))
    ensures ParseElement(text, depth) == Parsed(e, closing, endTag, rest) && |rest| < |text| < |s|
    ensures closing == Closing || !Mismatch(e, closing, endTag)
  {
    var r := ParseElement(text, depth);
    e, closing, endTag, rest := r.element, r.closing, r.endTag, r.rest;
  }

  lemma LeafRead(s: Bytes, kind: Kind, text: Bytes, n: Node, rest: Bytes)
    requires Identify(s) == Some((kind, text)) && kind != ElementKind && ParseLeaf(kind, text) == Leaf(n, rest)
    ensures LeafAt(s, n, rest)
  {
    hide Identify, ParseLeaf, LeafAt;
    assert LeafParsed(s, kind, text, n, rest);
    LeafExactlyWhen(s, n, rest);
  }

  lemma LeafReads(s: Bytes, n: Node, rest: Bytes, depth: Depth)
    requires LeafAt(s, n, rest) && !n.Element?
    ensures Reads(n, s, rest, depth)
  {
    hide LeafAt;
  }

  lemma StopHere(s: Bytes, isDocument: bool, sofar: seq<Node>, depth: Depth) returns (ns: seq<Node>, end: Bytes)
    ensures ns == [] && end == s && ReadsAll(ns, s, end, isDocument, sofar, depth) && sofar + ns == sofar
  {
    hide ParseLevel, ParseElement, ParseTag, ParseLeaf, Identify, TagAt, LeafAt;
    ns, end := [], s;
  }

  lemma ClosingTagRead(s: Bytes, text: Bytes, e: Node, endTag: Bytes, rest: Bytes, depth: Depth)
    requires Identify(s) == Some((ElementKind, text)) && ParseElement(text, depth) == Parsed(e, Closing, endTag, rest)
    ensures EndTagAt(s, e.name, rest)
  {
    hide ParseLevel, ParseElement, ParseTag, ParseLeaf, Identify, TagAt, LeafAt;
    var head, how, inner := ElementHasTag(text, depth);
    TagRead(s, text, head, how, inner);
    if how != Open || inner == [] {
      TagAlone(text, head, how, inner, depth);
      EndTagRead(s, head, inner);
    } else {
      var children, tag, after := OpenTagHasLevel(text, head, inner, depth);
      TagWithLevel(text, head, inner, children, tag, after, depth);
    }
  }

  // ---- what is in the grammar, the parser accepts ----

  lemma {:induction false} ReadNodeIsLinked(n: Node, s: Bytes, rest: Bytes, isDocument: bool, sofar: seq<Node>,
                                            depth: Depth)
    requires Reads(n, s, rest, depth)
    requires n.Declaration? ==> WellLocated(isDocument, sofar)
    ensures ParseLevel(s, isDocument, sofar, depth) == ParseLevel(rest, isDocument, sofar + [n], depth)
    decreases n, 1
  {
    hide ParseLevel, ParseElement, ParseTag, ParseLeaf, Identify, TagAt, LeafAt;
    if !n.Element? {
      ReadsLeaf(n, s, rest, depth);
      ReadLeafIsLinked(n, s, rest, isDocument, sofar, depth);
    } else if n.children == [] && TagAt(s, n, Closed, rest) {
      SealedElementIsLinked(n, s, rest, isDocument, sofar, depth);
    } else {
      var inner, end := ReadsOpen(n, s, rest, depth);
      ReadOpenIsLinked(n, s, inner, end, rest, isDocument, sofar, depth);
    }
  }

  lemma {:induction false} ReadOpenIsLinked(n: Node, s: Bytes, inner: Bytes, end: Bytes, rest: Bytes,
                                            isDocument: bool, sofar: seq<Node>, depth: Depth)
    requires n.Element? && TagAt(s, n.(children := []), Open, inner) && inner != [] && depth + 1 < MAX_ELEMENT_DEPTH
    requires ReadsAll(n.children, inner, end, false, [], depth + 1) && EndTagAt(end, n.name, rest)
    ensures ParseLevel(s, isDocument, sofar, depth) == ParseLevel(rest, isDocument, sofar + [n], depth)
    decreases n, 0
  {
    hide *;
    ReadNodesAreLinked(n.children, inner, end, false, [], depth + 1);
    OpenElementIsLinked(n, s, inner, end, rest, isDocument, sofar, depth);
  }

  lemma ReadLeafIsLinked(n: Node, s: Bytes, rest: Bytes, isDocument: bool, sofar: seq<Node>, depth: Depth)
    requires LeafAt(s, n, rest) && (n.Declaration? ==> WellLocated(isDocument, sofar))
    ensures ParseLevel(s, isDocument, sofar, depth) == ParseLevel(rest, isDocument, sofar + [n], depth)
  {
    hide Identify, ParseLeaf, ParseLevel, LeafAt;
    LeafExactlyWhen(s, n, rest);
    var kind, text :| LeafParsed(s, kind, text, n, rest);
    LeafLevel(s, kind, text, n, rest, isDocument, sofar, depth);
  }

  lemma ReadsLeaf(n: Node, s: Bytes, rest: Bytes, depth: Depth)
    requires !n.Element? && Reads(n, s, rest, depth)
    ensures LeafAt(s, n, rest)
  {
    hide LeafAt;
  }

  lemma ReadsOpen(n: Node, s: Bytes, rest: Bytes, depth: Depth) returns (inner: Bytes, end: Bytes)
    requires n.Element? && Reads(n, s, rest, depth) && !(n.children == [] && TagAt(s, n, Closed, rest))
    ensures TagAt(s, n.(children := []), Open, inner) && inner != [] && depth + 1 < MAX_ELEMENT_DEPTH
    ensures ReadsAll(n.children, inner, end, false, [], depth + 1) && EndTagAt(end, n.name, rest)
  {
    hide ParseLevel, ParseElement, ParseTag, ParseLeaf, Identify, TagAt, LeafAt;
    inner, end :| && TagAt(s, n.(children := []), Open, inner) && inner != [] && depth + 1 < MAX_ELEMENT_DEPTH
                  && ReadsAll(n.children, inner, end, false, [], depth + 1)
                  && EndTagAt(end, n.name, rest);
  }

  lemma SealedElementIsLinked(n: Node, s: Bytes, rest: Bytes, isDocument: bool, sofar: seq<Node>, depth: Depth)
    requires n.Element? && TagAt(s, n, Closed, rest)
    ensures ParseLevel(s, isDocument, sofar, depth) == ParseLevel(rest, isDocument, sofar + [n], depth)
  {
    hide ParseLevel, ParseElement, ParseTag, ParseLeaf, Identify, TagAt, LeafAt;
    var text := TagText(s, n, Closed, rest);
    TagAlone(text, n, Closed, rest, depth);
    ElementLevel(s, text, n, Closed, [], rest, isDocument, sofar, depth);
  }

  lemma ElementIsParsed(n: Node, text: Bytes, inner: Bytes, end: Bytes, rest: Bytes, depth: Depth)
    requires n.Element? && ParseTag(text) == Tag(n.(children := []), Open, inner)
    requires inner != [] && depth + 1 < MAX_ELEMENT_DEPTH
    requires ParseLevel(inner, false, [], depth + 1) == ParseLevel(end, false, [] + n.children, depth + 1)
    requires ParseLevel(end, false, n.children, depth + 1) == AtEndTag(n.children, n.name, rest)
    ensures ParseElement(text, depth) == Parsed(n, Open, n.name, rest)
  {
    hide ParseLevel, ParseElement, ParseTag;
    assert [] + n.children == n.children;
    TagWithLevel(text, n.(children := []), inner, n.children, n.name, rest, depth);
    assert n.(children := []).(children := n.children) == n;
  }

  lemma OpenElementIsLinked(n: Node, s: Bytes, inner: Bytes, end: Bytes, rest: Bytes, isDocument: bool,
                            sofar: seq<Node>, depth: Depth)
    requires n.Element? && TagAt(s, n.(children := []), Open, inner) && inner != [] && depth + 1 < MAX_ELEMENT_DEPTH
    requires ParseLevel(inner, false, [], depth + 1) == ParseLevel(end, false, [] + n.children, depth + 1)
    requires EndTagAt(end, n.name, rest)
    ensures ParseLevel(s, isDocument, sofar, depth) == ParseLevel(rest, isDocument, sofar + [n], depth)
  {
    hide ParseLevel, ParseElement, ParseTag, ParseLeaf, Identify, TagAt, LeafAt;
    EndTagStops(end, n.name, rest, false, n.children, depth + 1);
    var text := TagText(s, n.(children := []), Open, inner);
    ElementIsParsed(n, text, inner, end, rest, depth);
    ElementLevel(s, text, n, Open, n.name, rest, isDocument, sofar, depth);
  }

  lemma EndTagStops(end: Bytes, name: Bytes, rest: Bytes, isDocument: bool, sofar: seq<Node>, depth: Depth)
    requires EndTagAt(end, name, rest)
    ensures ParseLevel(end, isDocument, sofar, depth) == AtEndTag(sofar, name, rest)
    ensures name != []
  {
    hide ParseLevel, ParseElement, ParseTag, ParseLeaf, Identify, TagAt, LeafAt;
    var head :| TagAt(end, head, Closing, rest) && head.Element? && head.name == name;
    var text := TagText(end, head, Closing, rest);
    TagAlone(text, head, Closing, rest, depth);
    ElementLevel(end, text, head, Closing, [], rest, isDocument, sofar, depth);
  }

  /** Completeness: a sequence of nodes of the grammar is linked, and the level goes on after it. */
  lemma {:induction false} ReadNodesAreLinked(ns: seq<Node>, s: Bytes, end: Bytes, isDocument: bool, sofar: seq<Node>,
                                              depth: Depth)
    requires ReadsAll(ns, s, end, isDocument, sofar, depth)
    ensures ParseLevel(s, isDocument, sofar, depth) == ParseLevel(end, isDocument, sofar + ns, depth)
    decreases ns, 2
  {
    hide ParseLevel, ParseElement, ParseTag, ParseLeaf, Identify, TagAt, LeafAt;
    if ns == [] {
      assert sofar + ns == sofar;
    } else {
      var next :| Reads(ns[0], s, next, depth) && ReadsAll(ns[1..], next, end, isDocument, sofar + [ns[0]], depth);
      ReadNodeIsLinked(ns[0], s, next, isDocument, sofar, depth);
      ReadNodesAreLinked(ns[1..], next, end, isDocument, sofar + [ns[0]], depth);
      FirstAndRest(sofar, ns);
    }
  }

  // ---- depth ----

  /** Whatever is read below depth levels stays within the limit. */
  lemma {:induction false} ReadNodeIsShallow(n: Node, s: Bytes, rest: Bytes, depth: Depth)
    requires Reads(n, s, rest, depth)
    ensures depth + Height(n) < MAX_ELEMENT_DEPTH
    decreases n, 1
  {
    hide ParseLevel, ParseElement, ParseTag, ParseLeaf, Identify, TagAt, LeafAt;
    if n.Element? && n.children != [] {
      var inner, end := ReadsOpen(n, s, rest, depth);
      OpenIsShallow(n, inner, end, depth);
    }
  }

  lemma {:induction false} OpenIsShallow(n: Node, inner: Bytes, end: Bytes, depth: Depth)
    requires n.Element? && n.children != []
    requires depth + 1 < MAX_ELEMENT_DEPTH && ReadsAll(n.children, inner, end, false, [], depth + 1)
    ensures depth + Height(n) < MAX_ELEMENT_DEPTH
    decreases n, 0
  {
    hide ParseLevel, ParseElement, ParseTag, ParseLeaf, Identify, TagAt, LeafAt;
    ReadNodesAreShallow(n.children, inner, end, false, [], depth + 1);
  }

  lemma {:induction false} ReadNodesAreShallow(ns: seq<Node>, s: Bytes, end: Bytes, isDocument: bool,
                                               sofar: seq<Node>, depth: Depth)
    requires ReadsAll(ns, s, end, isDocument, sofar, depth)
    ensures depth + HeightOf(ns) < MAX_ELEMENT_DEPTH
    decreases ns, 2
  {
    hide ParseLevel, ParseElement, ParseTag, ParseLeaf, Identify, TagAt, LeafAt;
    if ns != [] {
      var next :| Reads(ns[0], s, next, depth) && ReadsAll(ns[1..], next, end, isDocument, sofar + [ns[0]], depth);
      ReadNodeIsShallow(ns[0], s, next, depth);
      ReadNodesAreShallow(ns[1..], next, end, isDocument, sofar + [ns[0]], depth);
    }
  }

  // ---- documents ----

  /** The text a document is read from: behind leading white space and a byte order mark. */
  function Body(xml: Bytes): Bytes {
    ReadBom(SkipWs(CStr(xml))).1
  }

  /** xml is the nodes of the document one after the other, and behind them either only white
      space, or an end tag that closes nothing. */
  ghost predicate IsText(xml: Bytes, d: Document) {
    && d.bom == ReadBom(SkipWs(CStr(xml))).0
    && Body(xml) != []
    && exists end :: ReadsAll(d.children, Body(xml), end, true, [], 1)
                     && (Spaces(end) || exists name, rest :: EndTagAt(end, name, rest))
  }

  lemma ParseOfLevel(xml: Bytes, d: Document)
    ensures Parse(xml) == Ok(d) <==>
              && Body(xml) != [] && d.bom == ReadBom(SkipWs(CStr(xml))).0
              && var r := ParseLevel(Body(xml), true, [], 1); !r.LevelFail? && r.children == d.children
  {
  }

  /** Tag matching: for every input and every document, the parser returns that document exactly
      when the grammar reads the input as it; in particular every element of a document that was
      parsed is sealed or closed by a tag of its own name, and no input has two readings. */
  lemma ParserIsGrammar(xml: Bytes, d: Document)
    ensures Parse(xml) == Ok(d) <==> IsText(xml, d)
  {
    hide ParseLevel, ParseElement, ParseTag, ParseLeaf, Identify, TagAt, LeafAt;
    ParseOfLevel(xml, d);
    if Parse(xml) == Ok(d) {
      ParsedIsText(xml, d);
    }
    if IsText(xml, d) {
      TextIsParsed(xml, d);
    }
  }

  lemma ParsedIsText(xml: Bytes, d: Document)
    requires Parse(xml) == Ok(d)
    ensures IsText(xml, d)
  {
    hide ParseLevel, ParseElement, ParseTag, ParseLeaf, Identify, TagAt, LeafAt;
    ParseOfLevel(xml, d);
    var r := ParseLevel(Body(xml), true, [], 1);
    var ns, end := LevelIsRead(Body(xml), true, [], 1, r);
    assert [] + ns == ns;
    assert ns == d.children;
  }

  lemma TextIsParsed(xml: Bytes, d: Document)
    requires IsText(xml, d)
    ensures Parse(xml) == Ok(d)
  {
    hide ParseLevel, ParseElement, ParseTag, ParseLeaf, Identify, TagAt, LeafAt;
    var end :| ReadsAll(d.children, Body(xml), end, true, [], 1)
               && (Spaces(end) || exists name, rest :: EndTagAt(end, name, rest));
    var r := LevelOfText(Body(xml), d.children, end);
    ParseFromLevel(xml, d, r);
  }

  lemma LevelOfText(body: Bytes, children: seq<Node>, end: Bytes) returns (r: LevelResult)
    requires ReadsAll(children, body, end, true, [], 1)
    requires Spaces(end) || exists name, rest :: EndTagAt(end, name, rest)
    ensures ParseLevel(body, true, [], 1) == r && !r.LevelFail? && r.children == children
  {
    hide ParseLevel, ParseElement, ParseTag, ParseLeaf, Identify, TagAt, LeafAt;
    r := EndOfDocument(end, children);
    ReadNodesFill(children, body, end, true, 1);
  }

  lemma ReadNodesFill(ns: seq<Node>, s: Bytes, end: Bytes, isDocument: bool, depth: Depth)
    requires ReadsAll(ns, s, end, isDocument, [], depth)
    ensures ParseLevel(s, isDocument, [], depth) == ParseLevel(end, isDocument, ns, depth)
  {
    hide ParseLevel, ParseElement, ParseTag, ParseLeaf, Identify, TagAt, LeafAt;
    ReadNodesAreLinked(ns, s, end, isDocument, [], depth);
    assert [] + ns == ns;
  }

  lemma ParseFromLevel(xml: Bytes, d: Document, r: LevelResult)
    requires Body(xml) != [] && d.bom == ReadBom(SkipWs(CStr(xml))).0
    requires ParseLevel(Body(xml), true, [], 1) == r && !r.LevelFail? && r.children == d.children
    ensures Parse(xml) == Ok(d)
  {
    hide ParseLevel, ParseElement, ParseTag, ParseLeaf, Identify, TagAt, LeafAt;
    ParseOfLevel(xml, d);
  }

  lemma EndOfDocument(end: Bytes, children: seq<Node>) returns (r: LevelResult)
    requires Spaces(end) || exists name, rest :: EndTagAt(end, name, rest)
    ensures ParseLevel(end, true, children, 1) == r && !r.LevelFail? && r.children == children
  {
    hide ParseLevel, ParseElement, ParseTag, ParseLeaf, Identify, TagAt, LeafAt;
    r := ParseLevel(end, true, children, 1);
    if Spaces(end) {
      AllSpaces(end);
      EndOfText(end, true, children, 1);
    } else {
      var name, rest :| EndTagAt(end, name, rest);
      EndTagStops(end, name, rest, true, children, 1);
    }
  }

  /** Depth: no document that was parsed is nested as deep as the limit. */
  lemma ParsedIsShallow(xml: Bytes, d: Document)
    requires Parse(xml) == Ok(d)
    ensures 1 + HeightOf(d.children) < MAX_ELEMENT_DEPTH
  {
    hide ParseLevel, ParseElement, ParseTag, ParseLeaf, Identify, TagAt, LeafAt;
    ParsedIsText(xml, d);
    var end :| ReadsAll(d.children, Body(xml), end, true, [], 1);
    ReadNodesAreShallow(d.children, Body(xml), end, true, [], 1);
  }
}
