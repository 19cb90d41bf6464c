/** When a printed document reads back as itself. */
module XmlDocument {
  import opened Common
  import opened XmlChars
  import opened XmlScan
  import opened XmlParser
  import opened XmlProductions
  import opened XmlReader
  import opened XmlPrinter
  import opened XmlValues
  import opened XmlRoundTrip
  import opened XmlGrammar

  predicate AllDeclarations(ns: seq<Node>) {
    forall i :: 0 <= i < |ns| ==> ns[i].Declaration? && NodeOk(ns[i])
  }

  /** Declarations first, and then nodes that can be written down. */
  predicate WellFormed(d: Document, declarations: nat) {
    && declarations <= |d.children|
    && AllDeclarations(d.children[..declarations]) && NodesOk(d.children[declarations..])
  }

  /** Nothing that reading would change: no CR in text or attribute values and no blank text. */
  predicate NodeKept(n: Node)
    decreases n, 1
  {
    match n
    case Element(_, attributes, children) =>
      (forall i :: 0 <= i < |attributes| ==> NoCr(attributes[i].value)) && NodesKept(children)
    case Text(v, cdata) => cdata || (NoCr(v) && !Blank(v))
    case _ => true
  }

  predicate NodesKept(ns: seq<Node>)
    decreases ns, 0
  {
    ns != [] ==> NodeKept(ns[0]) && NodesKept(ns[1..])
  }

  lemma {:induction false} NodeKeptIsNormal(n: Node)
    requires NodeKept(n)
    ensures Normal(n) == n && !BlankText(n)
    decreases n, 1
  {
    match n
    case Element(name, attributes, children) =>
      NodesKeptAreNormal(children);
      AttributesKept(attributes);
    case Text(v, cdata) => LineEndsChange(v);
    case _ =>
  }

  lemma AttributesKept(attributes: seq<Attribute>)
    requires forall i :: 0 <= i < |attributes| ==> NoCr(attributes[i].value)
    ensures NormalAttributes(attributes) == attributes
  {
    hide LineEnds;
    forall i | 0 <= i < |attributes| ensures NormalAttributes(attributes)[i] == attributes[i] {
      LineEndsChange(attributes[i].value);
    }
  }

  lemma {:induction false} NodesKeptAreNormal(ns: seq<Node>)
    requires NodesKept(ns)
    ensures NormalAll(ns) == ns
    decreases ns, 0
  {
    hide NodeKept, Normal, BlankText;
    if ns != [] {
      NodeKeptIsNormal(ns[0]);
      NodesKeptAreNormal(ns[1..]);
    }
  }

  /** What has been read once is not changed by reading it again. */
  lemma {:induction false} NormalIsKept(n: Node)
    requires !BlankText(n)
    ensures NodeKept(Normal(n))
    decreases n, 1
  {
    match n
    case Element(name, attributes, children) =>
      NormalAllAreKept(children);
      NormalAttributesKept(attributes);
    case Text(v, cdata) =>
      LineEndsClean(v);
      if !cdata {
        LineEndsNotBlank(v);
      }
    case _ =>
  }

  lemma NormalAttributesKept(attributes: seq<Attribute>)
    ensures forall i :: 0 <= i < |attributes| ==> NoCr(NormalAttributes(attributes)[i].value)
  {
    hide LineEnds;
    forall i | 0 <= i < |attributes| ensures NoCr(NormalAttributes(attributes)[i].value) {
      LineEndsClean(attributes[i].value);
    }
  }

  lemma {:induction false} LineEndsNotBlank(v: Bytes)
    requires !Blank(v)
    ensures !Blank(LineEnds(v))
    decreases |v|
  {
    var w := LineEnds(v);
    if IsWhiteSpace(v[0]) {
      assert !Blank(v[Width(v)..]) by {
        var i :| 0 <= i < |v| && !IsWhiteSpace(v[i]);
        assert v[Width(v)..][i - Width(v)] == v[i];
      }
      LineEndsNotBlank(v[Width(v)..]);
      var i :| 0 <= i < |LineEnds(v[Width(v)..])| && !IsWhiteSpace(LineEnds(v[Width(v)..])[i]);
      assert w[i + 1] == LineEnds(v[Width(v)..])[i];
    } else {
      assert w[0] == v[0];
    }
  }

  lemma {:induction false} NormalAllAreKept(ns: seq<Node>)
    ensures NodesKept(NormalAll(ns))
    decreases ns, 0
  {
    hide NodeKept, Normal, BlankText;
    if ns != [] {
      NormalAllAreKept(ns[1..]);
      if BlankText(ns[0]) {
        assert NormalAll(ns) == NormalAll(ns[1..]);
      } else {
        NormalIsKept(ns[0]);
        assert NormalAll(ns)[1..] == NormalAll(ns[1..]);
      }
    }
  }

  predicate EndsInText(d: Document) {
    d.children != [] && PlainText(d.children[|d.children| - 1])
  }

  /** Without a byte order mark, text at the very start loses its leading white space, and must
      not look like a byte order mark itself. */
  predicate StartIsKept(d: Document) {
    d.children != [] && PlainText(d.children[0]) && !d.bom ==>
      var v := d.children[0].value;
      v != [] && !IsWhiteSpace(v[0]) && !(BOM <= v)
  }

  lemma {:induction false} DeclarationsRoundTrip(ns: seq<Node>, tail: Bytes, sofar: seq<Node>)
    requires AllDeclarations(ns) && AllDeclarations(sofar)
    ensures ParseLevel(PrintNodes(ns) + tail, true, sofar, 1) == ParseLevel(tail, true, sofar + ns, 1)
    decreases |ns|
  {
    hide ParseLevel, PrintNode, EndsAt, NodeOk;
    if ns == [] {
      EmptyLevel(tail, sofar);
    } else {
      Assoc(PrintNode(ns[0]), PrintNodes(ns[1..]), tail);
      LeafStep(ns[0], PrintNodes(ns[1..]) + tail, true, sofar, 1);
      assert Normal(ns[0]) == ns[0];
      DeclarationsRoundTrip(ns[1..], tail, sofar + [ns[0]]);
      FirstAndRest(sofar, ns);
    }
  }

  lemma {:induction false} PrintNodesAppend(a: seq<Node>, b: seq<Node>)
    ensures PrintNodes(a + b) == PrintNodes(a) + PrintNodes(b)
    decreases |a|
  {
    if a == [] {
      assert a + b == b && PrintNodes(a) + PrintNodes(b) == PrintNodes(b);
    } else {
      PrintNodesAppend(a[1..], b);
      assert (a + b)[1..] == a[1..] + b && (a + b)[0] == a[0];
      Assoc(PrintNode(a[0]), PrintNodes(a[1..]), PrintNodes(b));
    }
  }

  // ---- no NUL is ever printed ----

  lemma NoNulConcat(a: Bytes, b: Bytes)
    requires NoNul(a) && NoNul(b)
    ensures NoNul(a + b)
  {
  }

  lemma {:induction false} EscapeNoNul(v: Bytes, restricted: bool)
    requires NoNul(v)
    ensures NoNul(Escape(v, restricted))
  {
    if v != [] {
      EscapeNoNul(v[1..], restricted);
      EscapeByteNoNul(v[0], restricted);
      NoNulConcat(EscapeByte(v[0], restricted), Escape(v[1..], restricted));
    }
  }

  lemma EscapeByteNoNul(b: Byte, restricted: bool)
    requires b != 0
    ensures NoNul(EscapeByte(b, restricted))
  {
  }

  lemma AttributeNoNul(a: Attribute)
    requires AttributeOk(a)
    ensures NoNul(PrintAttribute(a))
  {
    EscapeNoNul(a.value, false);
    NoNulConcat([SPACE], a.name);
    NoNulConcat([SPACE] + a.name, [EQUALS, DOUBLE_QUOTE]);
    NoNulConcat([SPACE] + a.name + [EQUALS, DOUBLE_QUOTE], Escape(a.value, false));
    NoNulConcat([SPACE] + a.name + [EQUALS, DOUBLE_QUOTE] + Escape(a.value, false), [DOUBLE_QUOTE]);
  }

  lemma {:induction false} AttributesNoNul(attributes: seq<Attribute>)
    requires forall i :: 0 <= i < |attributes| ==> AttributeOk(attributes[i])
    ensures NoNul(PrintAttributes(attributes))
  {
    if attributes != [] {
      AttributeNoNul(attributes[0]);
      AttributesNoNul(attributes[1..]);
      NoNulConcat(PrintAttribute(attributes[0]), PrintAttributes(attributes[1..]));
    }
  }

  lemma {:induction false} NodeNoNul(n: Node)
    requires NodeOk(n)
    ensures NoNul(PrintNode(n))
    decreases n, 1
  {
    match n
    case Element(name, attributes, children) =>
      AttributesNoNul(attributes);
      NodesNoNul(children);
      var head := [LESS] + name + PrintAttributes(attributes);
      NoNulConcat([LESS] + name, PrintAttributes(attributes));
      NoNulConcat([GREATER], PrintNodes(children));
      NoNulConcat([GREATER] + PrintNodes(children), EndTag(name));
      if children == [] {
        NoNulConcat(head, [SLASH, GREATER]);
      } else {
        NoNulConcat(head, [GREATER] + PrintNodes(children) + EndTag(name));
      }
    case Text(v, cdata) =>
      if !cdata {
        EscapeNoNul(v, true);
      }
    case _ =>
  }

  lemma {:induction false} NodesNoNul(ns: seq<Node>)
    requires NodesOk(ns) || AllDeclarations(ns)
    ensures NoNul(PrintNodes(ns))
    decreases ns, 0
  {
    if ns != [] {
      NodeNoNul(ns[0]);
      NodesNoNul(ns[1..]);
      NoNulConcat(PrintNode(ns[0]), PrintNodes(ns[1..]));
    }
  }

  // ---- how a printed document starts ----

  /** Bytes outside ASCII are printed as they are, so a run of them at the front of printed text
      is one at the front of the text. */
  lemma {:induction false} HighBytesPrinted(x: Bytes, v: Bytes, more: Bytes)
    requires forall i :: 0 <= i < |x| ==> x[i] >= 128
    requires more == [] || more[0] == LESS
    ensures x <= Escape(v, true) + more <==> x <= v
    decreases |x|
  {
    var s := Escape(v, true) + more;
    if x != [] {
      if v == [] {
        assert s == more;
      } else {
        var e := EscapeByte(v[0], true);
        Assoc(e, Escape(v[1..], true), more);
        EntityOrByte(v[0]);
        assert s[0] == e[0];
        if x[0] == v[0] {
          HighBytesPrinted(x[1..], v[1..], more);
          ConsPrefix(x, s);
          ConsPrefix(x, v);
          assert s[1..] == Escape(v[1..], true) + more;
        }
      }
    }
  }

  lemma BomPrinted(v: Bytes, more: Bytes)
    requires more == [] || more[0] == LESS
    ensures BOM <= Escape(v, true) + more <==> BOM <= v
  {
    assert forall i :: 0 <= i < |BOM| ==> BOM[i] >= 128;
    HighBytesPrinted(BOM, v, more);
  }

  lemma EntityOrByte(b: Byte)
    ensures EscapeByte(b, true) == [b] || (EscapeByte(b, true) != [] && EscapeByte(b, true)[0] == AMP && b < 128)
    ensures b >= 128 || IsWhiteSpace(b) ==> EscapeByte(b, true) == [b]
  {
  }

  lemma ConsPrefix(x: Bytes, s: Bytes)
    requires x != [] && s != [] && x[0] == s[0]
    ensures x <= s <==> x[1..] <= s[1..]
  {
  }

  /** White space is printed as it is too. */
  lemma {:induction false} LeadingSpacePrinted(v: Bytes, more: Bytes)
    requires !Blank(v)
    ensures SkipWs(Escape(v, true) + more) == Escape(SkipWs(v), true) + more
    ensures SkipWs(v) != [] && !IsWhiteSpace(SkipWs(v)[0])
  {
    if IsWhiteSpace(v[0]) {
      SpacePrinted(v, more);
      NotBlankBehind(v);
      LeadingSpacePrinted(v[1..], more);
    } else {
      NoSpacePrinted(v, more);
    }
  }

  lemma SpacePrinted(v: Bytes, more: Bytes)
    requires v != [] && IsWhiteSpace(v[0])
    ensures SkipWs(Escape(v, true) + more) == SkipWs(Escape(v[1..], true) + more)
  {
    var s := Escape(v, true) + more;
    EntityOrByte(v[0]);
    Assoc(EscapeByte(v[0], true), Escape(v[1..], true), more);
    assert s[0] == v[0] && s[1..] == Escape(v[1..], true) + more;
  }

  lemma NoSpacePrinted(v: Bytes, more: Bytes)
    requires v != [] && !IsWhiteSpace(v[0])
    ensures SkipWs(Escape(v, true) + more) == Escape(v, true) + more
  {
  }

  lemma NotBlankBehind(v: Bytes)
    requires !Blank(v) && v != [] && IsWhiteSpace(v[0])
    ensures !Blank(v[1..])
  {
  }

  /** What follows a text at the start of a document is a tag, or nothing. */
  lemma BehindFirstText(ns: seq<Node>)
    requires NodesOk(ns) && ns != [] && PlainText(ns[0])
    ensures PrintNodes(ns) == Escape(ns[0].value, true) + PrintNodes(ns[1..])
    ensures TagOrEnd(PrintNodes(ns[1..])) && NoNul(ns[0].value)
  {
    assert PrintNodes(ns[1..]) + [] == PrintNodes(ns[1..]);
    NextIsTag(ns[1..], []);
  }

  lemma FirstTextIsContent(d: Document, declarations: nat)
    requires WellFormed(d, declarations) && d.children != [] && PlainText(d.children[0])
    ensures declarations == 0 && NodesOk(d.children)
  {
  }

  lemma FirstNodeOk(d: Document, declarations: nat)
    requires WellFormed(d, declarations) && d.children != []
    ensures NodeOk(d.children[0])
  {
  }

  lemma StartBytes(d: Document, declarations: nat)
    requires WellFormed(d, declarations) && d.children != [] && StartIsKept(d) && NodesKept(d.children)
    ensures var s := PrintNodes(d.children);
            s != [] && (d.bom || (!IsWhiteSpace(s[0]) && !(BOM <= s)))
  {
    FirstNodeOk(d, declarations);
    if PlainText(d.children[0]) {
      FirstTextIsContent(d, declarations);
      BehindFirstText(d.children);
      TextStart(d.children[0].value, PrintNodes(d.children[1..]));
    } else {
      PrintStartsTag(d.children[0]);
    }
  }

  lemma TextStart(v: Bytes, more: Bytes)
    requires !Blank(v) && (more == [] || more[0] == LESS)
    ensures var s := Escape(v, true) + more;
            && s != [] && (BOM <= s <==> BOM <= v)
            && v != [] && (!IsWhiteSpace(v[0]) ==> !IsWhiteSpace(s[0]))
  {
    EntityOrByte(v[0]);
    BomPrinted(v, more);
    Assoc(EscapeByte(v[0], true), Escape(v[1..], true), more);
  }

  lemma PrintsNoNul(d: Document, declarations: nat)
    requires WellFormed(d, declarations)
    ensures NoNul(PrintNodes(d.children)) && NoNul(PrintDocument(d))
  {
    var head, content := d.children[..declarations], d.children[declarations..];
    assert d.children == head + content;
    PrintNodesAppend(head, content);
    NodesNoNul(head);
    NodesNoNul(content);
    NoNulConcat(PrintNodes(head), PrintNodes(content));
    NoNulConcat(if d.bom then BOM else [], PrintNodes(d.children));
  }

  lemma BomAtFront(bom: bool, s: Bytes)
    requires s != [] && (bom || (!IsWhiteSpace(s[0]) && !(BOM <= s)))
    ensures ReadBom(SkipWs((if bom then BOM else []) + s)) == (bom, s)
  {
  }

  // ---- the children ----

  lemma {:induction false} DeclarationsAreFlat(head: seq<Node>, content: seq<Node>)
    requires AllDeclarations(head)
    ensures HeightOf(head + content) == HeightOf(content)
  {
    if head == [] {
      assert head + content == content;
    } else {
      assert (head + content)[1..] == head[1..] + content && (head + content)[0] == head[0];
      DeclarationsAreFlat(head[1..], content);
    }
  }

  /** Without a '<' behind it, text cannot be read. */
  lemma TextAtEndFails(v: Bytes, sofar: seq<Node>)
    requires !Blank(v)
    ensures ParseLevel(Escape(v, true), true, sofar, 1) == LevelFail(ParsingText)
  {
    var s := Escape(v, true);
    assert s + [] == s;
    TextIdentified(v, []);
    EscapeHidesDelimiter(v, true, LESS);
    NoTagInside(s, LESS);
    LeafFails(s, TextKind, s, LeafFail(ParsingText), true, sofar, 1);
  }

  lemma {:induction false} NoTagInside(s: Bytes, b: Byte)
    requires Absent(b, s)
    ensures ParseText(s, [b]).None?
  {
    if s != [] {
      assert Absent(b, s[1..]);
      NoTagInside(s[1..], b);
      assert s[..1] == [s[0]];
    }
  }

  lemma {:induction false} DeclarationsAreNormal(head: seq<Node>, content: seq<Node>)
    requires AllDeclarations(head)
    ensures NormalAll(head + content) == head + NormalAll(content)
  {
    if head == [] {
      assert head + content == content && head + NormalAll(content) == NormalAll(content);
    } else {
      assert (head + content)[1..] == head[1..] + content && (head + content)[0] == head[0];
      DeclarationsAreNormal(head[1..], content);
      assert Normal(head[0]) == head[0] && !BlankText(head[0]);
      assert head == [head[0]] + head[1..];
    }
  }

  /** The level that content makes behind what has been read, up to a tail. */
  lemma ContentThen(head: seq<Node>, content: seq<Node>, tail: Bytes)
    requires AllDeclarations(head) && NodesOk(content) && 1 + HeightOf(content) < MAX_ELEMENT_DEPTH
    requires MayFollow(content, tail)
    ensures ParseLevel(PrintNodes(head + content) + tail, true, [], 1)
            == ParseLevel(tail, true, NormalAll(head + content), 1)
  {
    hide ParseLevel, PrintNodes, NormalAll, NodesOk, HeightOf, MayFollow;
    PrintNodesAppend(head, content);
    Assoc(PrintNodes(head), PrintNodes(content), tail);
    DeclarationsRoundTrip(head, PrintNodes(content) + tail, []);
    assert [] + head == head;
    LevelRoundTrip(content, tail, true, head, 1);
    DeclarationsAreNormal(head, content);
  }

  predicate EndsInRealText(ns: seq<Node>) {
    ns != [] && PlainText(ns[|ns| - 1]) && !BlankText(ns[|ns| - 1])
  }

  /** What parsing makes of the children's text. */
  function Expected(ns: seq<Node>): LevelResult {
    if EndsInRealText(ns) then LevelFail(ParsingText) else AtEnd(NormalAll(ns))
  }

  lemma ChildrenRead(head: seq<Node>, content: seq<Node>)
    requires AllDeclarations(head) && NodesOk(content) && 1 + HeightOf(content) < MAX_ELEMENT_DEPTH
    ensures ParseLevel(PrintNodes(head + content), true, [], 1) == Expected(head + content)
  {
    hide ParseLevel, PrintNodes, NormalAll, NodesOk, HeightOf;
    LastChild(head, content);
    if EndsInRealText(content) {
      LastText(head, content);
    } else {
      ContentThen(head, content, []);
      assert PrintNodes(head + content) + [] == PrintNodes(head + content);
      assert Identify([]).None?;
      EndOfText([], true, NormalAll(head + content), 1);
    }
  }

  lemma LastChild(head: seq<Node>, content: seq<Node>)
    requires AllDeclarations(head)
    ensures EndsInRealText(head + content) <==> EndsInRealText(content)
  {
    var ns := head + content;
    assert content != [] ==> ns[|ns| - 1] == content[|content| - 1];
    assert content == [] && head != [] ==> ns[|ns| - 1] == head[|head| - 1];
  }

  lemma LastText(head: seq<Node>, content: seq<Node>)
    requires AllDeclarations(head) && NodesOk(content) && 1 + HeightOf(content) < MAX_ELEMENT_DEPTH
    requires EndsInRealText(content)
    ensures ParseLevel(PrintNodes(head + content), true, [], 1) == LevelFail(ParsingText)
  {
    hide ParseLevel, PrintNodes, NormalAll, NodesOk, HeightOf, AllDeclarations;
    var init, last := content[..|content| - 1], content[|content| - 1];
    InitOk(content);
    ContentThen(head, init, PrintNode(last));
    LastPrinted(head, content);
    TextAtEndFails(last.value, NormalAll(head + init));
  }

  lemma LastPrinted(head: seq<Node>, content: seq<Node>)
    requires content != []
    ensures PrintNodes(head + content)
            == PrintNodes(head + content[..|content| - 1]) + PrintNode(content[|content| - 1])
  {
    var init, last := content[..|content| - 1], content[|content| - 1];
    assert head + content == (head + init) + [last];
    PrintNodesAppend(head + init, [last]);
    OneNode(last);
  }

  lemma OneNode(n: Node)
    ensures PrintNodes([n]) == PrintNode(n)
  {
  }

  /** The nodes before the last one are fine, and if the last is plain text they do not end in
      plain text. */
  lemma {:induction false} InitOk(ns: seq<Node>)
    requires NodesOk(ns) && ns != []
    ensures var init, last := ns[..|ns| - 1], ns[|ns| - 1];
            && NodesOk(init) && NodeOk(last) && HeightOf(init) <= HeightOf(ns)
            && (PlainText(last) ==> init == [] || !PlainText(init[|init| - 1]))
  {
    if |ns| > 1 {
      InitOk(ns[1..]);
      InitOfTail(ns);
    }
  }

  lemma InitOfTail(ns: seq<Node>)
    requires |ns| > 1
    ensures ns[..|ns| - 1][1..] == ns[1..][..|ns[1..]| - 1] && ns[..|ns| - 1][0] == ns[0]
    ensures ns[1..][|ns[1..]| - 1] == ns[|ns| - 1]
    ensures |ns| > 2 ==> ns[..|ns| - 1][1] == ns[1] && ns[1..][..|ns[1..]| - 1][|ns| - 3] == ns[..|ns| - 1][|ns| - 2]
  {
  }

  // ---- the theorem ----

  lemma ParsedFrom(xml: Bytes, bom: bool, text: Bytes, r: LevelResult)
    requires NoNul(xml) && ReadBom(SkipWs(xml)) == (bom, text) && text != [] && ParseLevel(text, true, [], 1) == r
    ensures Parse(xml) == match r
                          case LevelFail(e) => Err(e)
                          case AtEndTag(children, _, _) => Ok(Document(bom, children))
                          case AtEnd(children) => Ok(Document(bom, children))
  {
  }

  /** The children's text, read from its start. */
  lemma DocumentRead(d: Document, declarations: nat)
    requires WellFormed(d, declarations) && 1 + HeightOf(d.children) < MAX_ELEMENT_DEPTH
    ensures ParseLevel(PrintNodes(d.children), true, [], 1) == Expected(d.children)
  {
    hide ParseLevel, PrintNodes, NodesOk, HeightOf, Expected;
    var head, content := d.children[..declarations], d.children[declarations..];
    assert d.children == head + content;
    DeclarationsAreFlat(head, content);
    ChildrenRead(head, content);
  }

  /** A document that reading does not change reads back. */
  lemma KeptDocument(d: Document, declarations: nat)
    requires WellFormed(d, declarations) && d.children != [] && StartIsKept(d) && NodesKept(d.children)
    requires !EndsInText(d)
    requires 1 + HeightOf(d.children) < MAX_ELEMENT_DEPTH
    ensures Parse(PrintDocument(d)) == Ok(d)
  {
    hide ParseLevel, PrintNodes, NormalAll, NodesOk, HeightOf, NodesKept, StartIsKept, Parse, SkipWs;
    StartBytes(d, declarations);
    PrintsNoNul(d, declarations);
    BomAtFront(d.bom, PrintNodes(d.children));
    DocumentRead(d, declarations);
    NodesKeptAreNormal(d.children);
    ParsedFrom(PrintDocument(d), d.bom, PrintNodes(d.children), AtEnd(d.children));
  }

  lemma BomIsReported(xml: Bytes)
    requires NoNul(xml) && BOM <= SkipWs(xml)
    ensures Parse(xml).Ok? ==> Parse(xml).document.bom
  {
    hide ParseLevel, SkipWs;
  }

  lemma BomIsNotInvented(xml: Bytes)
    requires NoNul(xml) && !(BOM <= SkipWs(xml)) && SkipWs(xml) == []
    ensures Parse(xml) == Err(EmptyDocument)
  {
    hide ParseLevel, SkipWs;
  }

  /** What comes back is a normal form: of the children, or, where text at the start loses its
      leading white space, of the children with that text trimmed. */
  predicate ComesBack(d: Document, ns: seq<Node>) {
    || ns == d.children
    || (&& d.children != [] && PlainText(d.children[0]) && !BlankText(d.children[0]) && !d.bom
        && ns == [Text(SkipWs(d.children[0].value), false)] + d.children[1..])
  }

  /** If a printed document reads back as itself, its children are a normal form of something that
      comes back and does not end in text. */
  lemma ReadBack(d: Document, declarations: nat) returns (ns: seq<Node>)
    requires WellFormed(d, declarations) && d.children != [] && 1 + HeightOf(d.children) < MAX_ELEMENT_DEPTH
    requires Parse(PrintDocument(d)) == Ok(d)
    ensures ComesBack(d, ns) && !EndsInRealText(ns) && d.children == NormalAll(ns)
    ensures !d.bom ==> !(BOM <= SkipWs(PrintNodes(d.children)))
    ensures !d.bom && PlainText(d.children[0]) && !BlankText(d.children[0]) ==>
              ns == [Text(SkipWs(d.children[0].value), false)] + d.children[1..]
  {
    hide ParseLevel, PrintNodes, NormalAll, NodesOk, HeightOf, Parse, SkipWs, WellFormed;
    var s := PrintNodes(d.children);
    PrintsNoNul(d, declarations);
    DocumentRead(d, declarations);
    if d.bom {
      ns := d.children;
      WithBom(d, s);
    } else {
      assert PrintDocument(d) == s by { assert [] + s == s; }
      WithoutBom(s, d);
      FirstNodeOk(d, declarations);
      if PlainText(d.children[0]) {
        FirstTextIsContent(d, declarations);
        ns := ReadBackText(d);
      } else {
        ns := d.children;
        TagAtStart(d.children);
      }
    }
  }

  lemma WithBom(d: Document, s: Bytes)
    requires d.bom && s == PrintNodes(d.children) && NoNul(PrintDocument(d)) && Parse(PrintDocument(d)) == Ok(d)
    requires ParseLevel(s, true, [], 1) == Expected(d.children)
    ensures !EndsInRealText(d.children) && d.children == NormalAll(d.children)
  {
    hide ParseLevel, PrintNodes, NormalAll;
    if s == [] {
      assert PrintDocument(d) == BOM;
      OnlyBom();
    } else {
      BomAtFront(true, s);
      ParsedFrom(PrintDocument(d), true, s, Expected(d.children));
    }
  }

  lemma OnlyBom()
    ensures Parse(BOM) == Err(EmptyDocument)
  {
    hide ParseLevel;
    NoSpaceToSkip(BOM);
    assert BOM[3..] == [] && NoNul(BOM);
  }

  lemma WithoutBom(s: Bytes, d: Document)
    requires NoNul(s) && !d.bom && Parse(s) == Ok(d)
    ensures !(BOM <= SkipWs(s)) && SkipWs(s) != []
    ensures var r := ParseLevel(SkipWs(s), true, [], 1); !r.LevelFail? && r.children == d.children
  {
    hide ParseLevel, SkipWs;
    var p := SkipWs(s);
    if BOM <= p {
      BomIsReported(s);
    } else if p == [] {
      BomIsNotInvented(s);
    } else {
      ParsedFrom(s, false, p, ParseLevel(p, true, [], 1));
    }
  }

  lemma TagAtStart(ns: seq<Node>)
    requires ns != [] && NodeOk(ns[0]) && !PlainText(ns[0])
    ensures SkipWs(PrintNodes(ns)) == PrintNodes(ns)
  {
    PrintStartsTag(ns[0]);
    Headers(PrintNodes(ns));
  }

  lemma ReadBackText(d: Document) returns (ns: seq<Node>)
    requires NodesOk(d.children) && d.children != [] && PlainText(d.children[0]) && !d.bom
    requires 1 + HeightOf(d.children) < MAX_ELEMENT_DEPTH
    requires ParseLevel(PrintNodes(d.children), true, [], 1) == Expected(d.children)
    requires var r := ParseLevel(SkipWs(PrintNodes(d.children)), true, [], 1); !r.LevelFail? && r.children == d.children
    ensures ComesBack(d, ns) && !EndsInRealText(ns) && d.children == NormalAll(ns)
    ensures !BlankText(d.children[0]) ==> ns == [Text(SkipWs(d.children[0].value), false)] + d.children[1..]
  {
    hide ParseLevel, PrintNodes, NormalAll, NodesOk, HeightOf, SkipWs, Escape, Identify;
    var v, more := d.children[0].value, PrintNodes(d.children[1..]);
    BehindFirstText(d.children);
    if Blank(v) {
      ns := d.children;
      BlankAtStart(v, more);
      SameLevel(PrintNodes(ns), SkipWs(PrintNodes(ns)), true, [], 1);
    } else {
      ns := [Text(SkipWs(v), false)] + d.children[1..];
      LeadingSpacePrinted(v, more);
      TrimmedRead(d.children, SkipWs(v));
    }
  }

  lemma TrimmedRead(ns: seq<Node>, w: Bytes)
    requires NodesOk(ns) && ns != [] && PlainText(ns[0]) && w == SkipWs(ns[0].value)
    requires 1 + HeightOf(ns) < MAX_ELEMENT_DEPTH
    ensures var ms := [Text(w, false)] + ns[1..];
            ParseLevel(Escape(w, true) + PrintNodes(ns[1..]), true, [], 1) == Expected(ms)
  {
    hide ParseLevel, PrintNodes, NodesOk, HeightOf, Expected, SkipWs, Escape;
    var ms := [Text(w, false)] + ns[1..];
    TrimmedOk(ns, w);
    assert ms[..0] == [] && ms[0..] == ms;
    DocumentRead(Document(false, ms), 0);
  }

  lemma BlankAtStart(v: Bytes, more: Bytes)
    requires Blank(v) && TagOrEnd(more)
    ensures var s := Escape(v, true) + more; Identify(s) == Identify(SkipWs(s))
  {
    hide Identify;
    SpaceIsPrinted(v);
    SpaceIsSkipped(v, more);
    if more != [] {
      Headers(more);
    }
    SameIdentity(v + more, SkipWs(v + more));
  }

  lemma TrimmedOk(ns: seq<Node>, w: Bytes)
    requires NodesOk(ns) && ns != [] && PlainText(ns[0]) && w == SkipWs(ns[0].value)
    ensures var ms := [Text(w, false)] + ns[1..];
            && NodesOk(ms) && HeightOf(ms) == HeightOf(ns) && PrintNodes(ms) == Escape(w, true) + PrintNodes(ns[1..])
  {
    hide SkipWs, Escape;
    var ms := [Text(w, false)] + ns[1..];
    assert ms[1..] == ns[1..] && ms[0] == Text(w, false);
    assert |ns| > 1 ==> ms[1] == ns[1];
    assert NoNul(w);
  }

  /** A trimmed text that comes back as it was had nothing to trim. */
  lemma NothingTrimmed(v: Bytes, w: Bytes)
    requires w == SkipWs(v) && LineEnds(w) == v && NoCr(v) && !Blank(v)
    ensures v != [] && !IsWhiteSpace(v[0])
  {
    hide LineEnds;
    assert NoCr(w);
    LineEndsChange(w);
  }

  lemma NoDocument(d: Document)
    requires d.children == []
    ensures Parse(PrintDocument(d)) == Err(EmptyDocument)
  {
    hide Parse;
    if d.bom {
      assert PrintDocument(d) == BOM;
      OnlyBom();
    } else {
      assert PrintDocument(d) == [];
      NothingAtAll();
    }
  }

  lemma NothingAtAll()
    ensures Parse([]) == Err(EmptyDocument)
  {
    hide ParseLevel;
  }

  /** Whatever reads back as itself is kept by reading, from its first text on, and does not end
      in text. */
  lemma ReadBackIsKept(d: Document, declarations: nat)
    requires WellFormed(d, declarations) && d.children != [] && 1 + HeightOf(d.children) < MAX_ELEMENT_DEPTH
    requires Parse(PrintDocument(d)) == Ok(d)
    ensures NodesKept(d.children) && !EndsInText(d) && StartIsKept(d)
  {
    hide PrintNodes, NodesOk, HeightOf, Parse, SkipWs, PrintDocument, LineEnds, Normal, NodeKept, NodesKept, NormalAll,
         WellFormed;
    var ns := ReadBack(d, declarations);
    NormalAllAreKept(ns);
    LastIsKept(d.children);
    LastNormal(ns);
    if PlainText(d.children[0]) && !d.bom {
      KeptFirst(d, declarations, ns);
    }
  }

  lemma {:induction false} LastIsKept(ns: seq<Node>)
    requires NodesKept(ns) && ns != []
    ensures NodeKept(ns[0]) && NodeKept(ns[|ns| - 1])
  {
    if |ns| > 1 {
      LastIsKept(ns[1..]);
    }
  }

  /** Unless it was skipped, the last node comes back last. */
  lemma {:induction false} LastNormal(ns: seq<Node>)
    requires ns != []
    ensures !BlankText(ns[|ns| - 1]) ==>
              NormalAll(ns) != [] && NormalAll(ns)[|NormalAll(ns)| - 1] == Normal(ns[|ns| - 1])
  {
    hide Normal, BlankText;
    if |ns| > 1 {
      LastNormal(ns[1..]);
    } else {
      assert ns[1..] == [];
    }
  }

  lemma KeptFirst(d: Document, declarations: nat, ns: seq<Node>)
    requires WellFormed(d, declarations) && d.children != [] && PlainText(d.children[0]) && !d.bom
    requires NodesKept(d.children) && d.children == NormalAll(ns)
    requires ns == [Text(SkipWs(d.children[0].value), false)] + d.children[1..]
    requires !(BOM <= SkipWs(PrintNodes(d.children)))
    ensures StartIsKept(d)
  {
    hide PrintNodes, NodesOk, SkipWs;
    var v := d.children[0].value;
    assert NoCr(v) && !Blank(v);
    FirstTextIsContent(d, declarations);
    BehindFirstText(d.children);
    LeadingSpacePrinted(v, PrintNodes(d.children[1..]));
    assert ns[0] == Text(SkipWs(v), false);
    assert !BlankText(ns[0]);
    assert NormalAll(ns)[0] == Normal(ns[0]);
    NothingTrimmed(v, SkipWs(v));
    NoSpacePrinted(v, PrintNodes(d.children[1..]));
    BomPrinted(v, PrintNodes(d.children[1..]));
  }

  /** Document round trip: for every document whose nodes can be written down, parsing its compact
      print gives back the same tree, byte order mark included, if and only if the document is not
      empty, stays below the depth limit, does not end in plain text, keeps its start, and has no CR
      in text or attribute values and no blank text. */
  lemma DocumentRoundTrip(d: Document, declarations: nat)
    requires WellFormed(d, declarations)
    ensures Parse(PrintDocument(d)) == Ok(d) <==>
              && d.children != [] && 1 + HeightOf(d.children) < MAX_ELEMENT_DEPTH
              && !EndsInText(d) && StartIsKept(d) && NodesKept(d.children)
  {
    hide PrintDocument, Parse, HeightOf, NodesKept, StartIsKept, EndsInText, WellFormed;
    if d.children == [] {
      NoDocument(d);
    } else if Parse(PrintDocument(d)) == Ok(d) {
      ParsedIsShallow(PrintDocument(d), d);
      ReadBackIsKept(d, declarations);
    } else if 1 + HeightOf(d.children) < MAX_ELEMENT_DEPTH
              && !EndsInText(d) && StartIsKept(d) && NodesKept(d.children) {
      KeptDocument(d, declarations);
    }
  }
}
