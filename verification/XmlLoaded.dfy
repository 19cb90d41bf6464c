/** What every parsed document is like, and when loading, printing and loading again changes it. */
module XmlLoaded {
  import opened Common
  import opened XmlChars
  import opened XmlText
  import opened XmlScan
  import opened XmlParser
  import opened XmlProductions
  import opened XmlReader
  import opened XmlPrinter
  import opened XmlValues
  import opened XmlRoundTrip
  import opened XmlGrammar
  import opened XmlDocument

  // ---- values ----

  lemma NoNulParts(a: Bytes, b: Bytes, c: Bytes)
    requires NoNul(a + b + c)
    ensures NoNul(a) && NoNul(b) && NoNul(c)
  {
    var s := a + b + c;
    assert forall i :: 0 <= i < |a| ==> s[i] == a[i];
    assert forall i :: 0 <= i < |b| ==> s[|a| + i] == b[i];
    assert forall i :: 0 <= i < |c| ==> s[|a| + |b| + i] == c[i];
  }

  lemma NoNulBehind(s: Bytes, k: nat)
    requires NoNul(s) && k <= |s|
    ensures NoNul(s[k..])
  {
  }

  lemma NoNulSkipped(s: Bytes)
    requires NoNul(s)
    ensures NoNul(SkipWs(s))
  {
    NoNulBehind(s, |s| - |SkipWs(s)|);
  }

  lemma NameIsLegal(s: Bytes)
    requires ParseName(s).Some? && NoNul(s)
    ensures LegalName(ParseName(s).value.0) && NoNul(ParseName(s).value.1)
  {
    var (name, rest) := ParseName(s).value;
    assert name[0] == s[0];
    NoNulBehind(s, |name|);
  }

  lemma TextHasNoNul(s: Bytes, tag: Bytes)
    requires tag != [] && NoNul(s) && ParseText(s, tag).Some?
    ensures NoNul(ParseText(s, tag).value.0) && NoNul(ParseText(s, tag).value.1)
  {
    var (v, rest) := ParseText(s, tag).value;
    NoNulParts(v, tag, rest);
  }

  lemma ValueHasNoNul(raw: Bytes, f: Flags)
    ensures NoNul(Value(raw, f))
  {
    hide InPlace;
  }

  /** A delimited value that is not entity-processed: its line ends are normalised, and its
      terminator comes only at the end. */
  lemma MarkupValue(s: Bytes, tag: Bytes)
    requires tag != [] && NoNul(s) && ParseText(s, tag).Some?
    requires forall i :: 0 <= i < |tag| ==> tag[i] != CR && tag[i] != LF
    ensures var raw := ParseText(s, tag).value.0;
            && Value(raw, RAW_FLAGS) == LineEnds(raw) && Clean(LineEnds(raw)) && EndsAt(LineEnds(raw), tag)
    ensures NoNul(ParseText(s, tag).value.1)
  {
    hide Value, LineEnds, ParseText, EndsAt;
    var raw := ParseText(s, tag).value.0;
    TextHasNoNul(s, tag);
    ParseTextIsFirst(s, tag);
    RawValue(raw);
    LineEndsClean(raw);
    LineEndsEndAt(raw, tag);
  }

  // ---- leaves ----

  lemma UnknownIsNoOther(s: Bytes, text: Bytes)
    requires Identify(s) == Some((UnknownKind, text))
    ensures !([DASH, DASH] <= text) && !(CDATA_HEADER[2..] <= text)
  {
    var p := SkipWs(s);
    assert UNKNOWN_HEADER <= p && text == p[2..] && p == UNKNOWN_HEADER + text;
    HeaderThen([DASH, DASH], p, text);
    HeaderThen(CDATA_HEADER[2..], p, text);
    assert UNKNOWN_HEADER + [DASH, DASH] == COMMENT_HEADER && UNKNOWN_HEADER + CDATA_HEADER[2..] == CDATA_HEADER;
  }

  lemma HeaderThen(x: Bytes, p: Bytes, text: Bytes)
    requires p == UNKNOWN_HEADER + text
    ensures x <= text ==> UNKNOWN_HEADER + x <= p
  {
    if x <= text {
      assert p[..2 + |x|] == UNKNOWN_HEADER + text[..|x|];
    }
  }

  lemma UnknownLeaf(s: Bytes, text: Bytes, n: Node, rest: Bytes)
    requires NoNul(text) && Identify(s) == Some((UnknownKind, text)) && ParseLeaf(UnknownKind, text) == Leaf(n, rest)
    ensures NodeOk(n) && NoNul(rest)
  {
    hide Identify, ParseText, LineEnds, Value, EndsAt;
    var raw := ParseText(text, [GREATER]).value.0;
    MarkupValue(text, [GREATER]);
    AbsentEndsAt(GREATER, LineEnds(raw));
    UnknownIsNoOther(s, text);
    NotInUnknown([DASH, DASH], raw, rest);
    NotInUnknown(CDATA_HEADER[2..], raw, rest);
  }

  lemma NotInUnknown(x: Bytes, raw: Bytes, rest: Bytes)
    requires forall i :: 0 <= i < |x| ==> x[i] != CR && x[i] != LF
    requires !(x <= raw + [GREATER] + rest)
    ensures !(x <= LineEnds(raw))
  {
    hide LineEnds;
    if x <= LineEnds(raw) {
      assert LineEnds(raw) + [] == LineEnds(raw) && raw + [] == raw;
      PrefixOfLineEnds(x, raw, []);
    }
  }

  lemma MarkupLeaf(kind: Kind, text: Bytes, n: Node, rest: Bytes)
    requires NoNul(text) && kind != ElementKind && kind != TextKind && kind != UnknownKind
    requires ParseLeaf(kind, text) == Leaf(n, rest)
    ensures NodeOk(n) && NoNul(rest) && !PlainText(n)
  {
    hide ParseText, LineEnds, Value, EndsAt;
    match kind
    case CDataKind => MarkupValue(text, CDATA_END);
    case CommentKind => MarkupValue(text, COMMENT_END);
    case DeclarationKind => MarkupValue(text, DECLARATION_END);
  }

  lemma TextLeafOk(text: Bytes, n: Node, rest: Bytes)
    requires NoNul(text) && ParseLeaf(TextKind, text) == Leaf(n, rest)
    ensures NodeOk(n) && NoNul(rest) && PlainText(n) && rest != [] && rest[0] == LESS
  {
    hide ParseText, Value;
    TextHasNoNul(text, [LESS]);
    ValueHasNoNul(ParseText(text, [LESS]).value.0, TEXT_FLAGS);
    NoNulConcat([LESS], ParseText(text, [LESS]).value.1);
  }

  lemma IdentifiedHasNoNul(s: Bytes)
    requires NoNul(s) && Identify(s).Some?
    ensures NoNul(Identify(s).value.1)
  {
    NoNulSkipped(s);
    var p := SkipWs(s);
    if |p| >= 9 { NoNulBehind(p, 9); }
    if |p| >= 4 { NoNulBehind(p, 4); }
    if |p| >= 2 { NoNulBehind(p, 2); }
    if |p| >= 1 { NoNulBehind(p, 1); }
  }

  /** A leaf that was read can be written down, and text was followed by a tag. */
  lemma LeafIsOk(n: Node, s: Bytes, rest: Bytes)
    requires NoNul(s) && LeafAt(s, n, rest)
    ensures NodeOk(n) && NoNul(rest)
    ensures PlainText(n) ==> s != [] && s[0] != LESS && rest != [] && rest[0] == LESS
  {
    hide ParseLeaf, Identify, NodeOk, LeafAt;
    LeafExactlyWhen(s, n, rest);
    var kind, text :| LeafParsed(s, kind, text, n, rest);
    IdentifiedHasNoNul(s);
    if kind == TextKind {
      TextLeafOk(text, n, rest);
    } else if kind == UnknownKind {
      UnknownLeaf(s, text, n, rest);
      UnknownNode(text, n, rest);
    } else {
      MarkupLeaf(kind, text, n, rest);
    }
  }

  lemma UnknownNode(text: Bytes, n: Node, rest: Bytes)
    requires ParseLeaf(UnknownKind, text) == Leaf(n, rest)
    ensures n.Unknown?
  {
  }

  // ---- tags ----

  lemma AttributeIsOk(s: Bytes)
    requires NoNul(s) && ParseAttribute(s).Some?
    ensures AttributeOk(ParseAttribute(s).value.0) && NoNul(ParseAttribute(s).value.1)
  {
    hide ParseText, ParseName, SkipWs, Value, LegalName;
    NameIsLegal(s);
    var a := SkipWs(ParseName(s).value.1);
    NoNulSkipped(ParseName(s).value.1);
    NoNulBehind(a, 1);
    var b := SkipWs(a[1..]);
    NoNulSkipped(a[1..]);
    NoNulBehind(b, 1);
    TextHasNoNul(b[1..], [b[0]]);
    ValueHasNoNul(ParseText(b[1..], [b[0]]).value.0, TEXT_FLAGS);
  }

  lemma OneMoreAttribute(sofar: seq<Attribute>, a: Attribute)
    requires AttributesOk(sofar) && AttributeOk(a) && !HasAttribute(sofar, a.name)
    ensures AttributesOk(sofar + [a])
  {
  }

  lemma {:induction false} AttributesAreOk(s: Bytes, sofar: seq<Attribute>)
    requires NoNul(s) && AttributesOk(sofar) && ParseAttributes(s, sofar).Attributes?
    ensures AttributesOk(ParseAttributes(s, sofar).attributes) && NoNul(ParseAttributes(s, sofar).rest)
    decreases |s|
  {
    hide ParseAttribute, SkipWs, AttributesOk, HasAttribute, AttributeOk;
    var p := SkipWs(s);
    NoNulSkipped(s);
    if IsNameStart(p[0]) {
      AttributeIsOk(p);
      var (a, rest) := ParseAttribute(p).value;
      OneMoreAttribute(sofar, a);
      AttributesAreOk(rest, sofar + [a]);
    } else {
      NoNulBehind(p, 1);
      if |p| >= 2 {
        NoNulBehind(p, 2);
      }
    }
  }

  lemma TagIsOk(s: Bytes)
    requires NoNul(s) && ParseTag(s).Tag?
    ensures var t := ParseTag(s); LegalName(t.element.name) && AttributesOk(t.element.attributes) && NoNul(t.rest)
  {
    hide ParseName, ParseAttributes, SkipWs, LegalName, AttributesOk;
    var p := SkipWs(s);
    NoNulSkipped(s);
    var q := if p != [] && p[0] == SLASH then p[1..] else p;
    if p != [] {
      NoNulBehind(p, 1);
    }
    NameIsLegal(q);
    NoAttributesOk();
    AttributesAreOk(ParseName(q).value.1, []);
  }

  lemma NoAttributesOk()
    ensures AttributesOk([])
  {
  }

  predicate HeadOk(head: Node) {
    head.Element? && LegalName(head.name) && AttributesOk(head.attributes)
  }

  lemma TagAtIsOk(s: Bytes, head: Node, closing: ClosingType, rest: Bytes)
    requires NoNul(s) && TagAt(s, head, closing, rest)
    ensures HeadOk(head) && NoNul(rest)
  {
    hide Identify, ParseTag, LegalName, AttributesOk, TagAt, NoNul;
    var text := TagText(s, head, closing, rest);
    IdentifiedHasNoNul(s);
    TagIsOk(text);
  }

  // ---- nodes ----

  /** Whatever the grammar reads can be written down. */
  lemma {:induction false} ReadNodeIsOk(n: Node, s: Bytes, rest: Bytes, depth: Depth)
    requires NoNul(s) && Reads(n, s, rest, depth)
    ensures NodeOk(n) && NoNul(rest)
    ensures PlainText(n) ==> s != [] && s[0] != LESS && rest != [] && rest[0] == LESS
    decreases n, 0
  {
    hide TagAt, LeafAt, EndTagAt, ReadsAll, LegalName, AttributesOk;
    if !n.Element? {
      ReadsLeaf(n, s, rest, depth);
      LeafIsOk(n, s, rest);
    } else if n.children == [] && TagAt(s, n, Closed, rest) {
      TagAtIsOk(s, n, Closed, rest);
    } else {
      var inner, end := ReadsOpen(n, s, rest, depth);
      TagAtIsOk(s, n.(children := []), Open, inner);
      ReadLevelIsOk(n.children, inner, end, false, [], depth + 1);
      EndTagIsOk(end, n.name, rest);
    }
  }

  lemma EndTagIsOk(s: Bytes, name: Bytes, rest: Bytes)
    requires NoNul(s) && EndTagAt(s, name, rest)
    ensures NoNul(rest)
  {
    hide TagAt;
    var head :| TagAt(s, head, Closing, rest) && head.Element? && head.name == name;
    TagAtIsOk(s, head, Closing, rest);
  }

  /** A level in which declarations have no place. */
  lemma {:induction false} ReadLevelIsOk(ns: seq<Node>, s: Bytes, end: Bytes, isDocument: bool, sofar: seq<Node>,
                                         depth: Depth)
    requires NoNul(s) && ReadsAll(ns, s, end, isDocument, sofar, depth) && !WellLocated(isDocument, sofar)
    ensures NodesOk(ns) && NoNul(end)
    ensures s != [] && s[0] == LESS && ns != [] ==> !PlainText(ns[0])
    decreases ns, 1
  {
    hide Reads, NodeOk;
    if ns != [] {
      var next := FirstRead(ns, s, end, isDocument, sofar, depth);
      ReadNodeIsOk(ns[0], s, next, depth);
      StillUnlocated(isDocument, sofar, ns[0]);
      ReadLevelIsOk(ns[1..], next, end, isDocument, sofar + [ns[0]], depth);
    }
  }

  lemma FirstRead(ns: seq<Node>, s: Bytes, end: Bytes, isDocument: bool, sofar: seq<Node>, depth: Depth)
    returns (next: Bytes)
    requires ns != [] && ReadsAll(ns, s, end, isDocument, sofar, depth)
    ensures ns[0].Declaration? ==> WellLocated(isDocument, sofar)
    ensures Reads(ns[0], s, next, depth) && ReadsAll(ns[1..], next, end, isDocument, sofar + [ns[0]], depth)
  {
    hide Reads;
    next :| Reads(ns[0], s, next, depth) && ReadsAll(ns[1..], next, end, isDocument, sofar + [ns[0]], depth);
  }

  lemma StillUnlocated(isDocument: bool, sofar: seq<Node>, n: Node)
    requires !n.Declaration?
    ensures !WellLocated(isDocument, sofar + [n])
  {
    assert (sofar + [n])[|sofar|] == n;
  }

  /** The level of the document: first declarations, then the rest. */
  lemma {:induction false} ReadDocumentIsOk(ns: seq<Node>, s: Bytes, end: Bytes, sofar: seq<Node>) returns (k: nat)
    requires NoNul(s) && ReadsAll(ns, s, end, true, sofar, 1)
    ensures k <= |ns| && AllDeclarations(ns[..k]) && NodesOk(ns[k..])
    decreases ns
  {
    hide Reads, NodeOk;
    if ns == [] {
      k := 0;
    } else {
      var next := FirstRead(ns, s, end, true, sofar, 1);
      ReadNodeIsOk(ns[0], s, next, 1);
      if ns[0].Declaration? {
        k := ReadDocumentIsOk(ns[1..], next, end, sofar + [ns[0]]);
        OneMoreDeclaration(ns, k);
        k := k + 1;
      } else {
        k := 0;
        StillUnlocated(true, sofar, ns[0]);
        ReadLevelIsOk(ns[1..], next, end, true, sofar + [ns[0]], 1);
        assert ns[0..] == ns;
      }
    }
  }

  lemma OneMoreDeclaration(ns: seq<Node>, k: nat)
    requires ns != [] && k <= |ns[1..]| && AllDeclarations(ns[1..][..k]) && ns[0].Declaration? && NodeOk(ns[0])
    ensures AllDeclarations(ns[..k + 1]) && ns[k + 1..] == ns[1..][k..]
  {
    hide NodeOk;
    var first := ns[..k + 1];
    forall i | 0 <= i < |first| ensures first[i].Declaration? && NodeOk(first[i]) {
      assert i > 0 ==> first[i] == ns[1..][..k][i - 1];
    }
  }

  lemma BodyHasNoNul(xml: Bytes)
    ensures NoNul(Body(xml))
  {
    var p := SkipWs(CStr(xml));
    NoNulSkipped(CStr(xml));
    if BOM <= p {
      NoNulBehind(p, 3);
    }
  }

  /** Every parsed document can be written down. */
  lemma LoadedIsWellFormed(xml: Bytes, d: Document) returns (declarations: nat)
    requires Parse(xml) == Ok(d)
    ensures WellFormed(d, declarations)
  {
    hide Parse, ReadsAll, EndTagAt, SkipWs, Body, NodesOk, AllDeclarations;
    ParsedIsText(xml, d);
    BodyHasNoNul(xml);
    var end :| ReadsAll(d.children, Body(xml), end, true, [], 1);
    declarations := ReadDocumentIsOk(d.children, Body(xml), end, []);
  }

  /** The documents that survive printing and loading. */
  ghost predicate Survives(d: Document) {
    && (exists declarations: nat :: WellFormed(d, declarations))
    && d.children != [] && 1 + HeightOf(d.children) < MAX_ELEMENT_DEPTH
    && !EndsInText(d) && StartIsKept(d) && NodesKept(d.children)
  }

  /** The round trip, exactly: for every document, whatever its strings and nodes are, parsing its
      compact print gives it back if and only if its nodes can be written down, it is not empty,
      stays below the depth limit, does not end in plain text, keeps its start, and has no CR in
      text or attribute values and no blank text. */
  lemma RoundTripExactlyWhen(d: Document)
    ensures Parse(PrintDocument(d)) == Ok(d) <==> Survives(d)
  {
    hide Parse, PrintDocument, NodesKept, StartIsKept, EndsInText, WellFormed, HeightOf;
    if Parse(PrintDocument(d)) == Ok(d) {
      var declarations := LoadedIsWellFormed(PrintDocument(d), d);
      DocumentRoundTrip(d, declarations);
    } else if exists declarations: nat :: WellFormed(d, declarations) {
      var declarations: nat :| WellFormed(d, declarations);
      DocumentRoundTrip(d, declarations);
    }
  }

  method PrintToBytes(d: Document) returns (s: Bytes)
    ensures s == PrintDocument(d)
  {
    var printer := new XMLPrinter();
    printer.Print(d);
    s := printer.buffer;
    assert [] + PrintDocument(d) == PrintDocument(d);
  }

  /** The printer and the parser, one after the other. */
  method PrintThenRead(d: Document) returns (r: ParseResult)
    ensures r == Ok(d) <==> Survives(d)
  {
    hide *;
    RoundTripExactlyWhen(d);
    var s := PrintToBytes(d);
    r := ReadDocument(s);
  }

  /** Loading, printing and loading again: for every input that parses, the second document is the
      first if and only if there is something in it, it does not end in plain text (which an end
      tag that closes nothing can bring about), text at the very start neither begins with white
      space nor with a byte order mark, and references have put no CR into text or attribute values
      and have produced no blank text. */
  lemma LoadPrintLoad(xml: Bytes, d: Document)
    requires Parse(xml) == Ok(d)
    ensures Parse(PrintDocument(d)) == Ok(d) <==>
              d.children != [] && !EndsInText(d) && StartIsKept(d) && NodesKept(d.children)
  {
    hide Parse, PrintDocument, NodesKept, StartIsKept, EndsInText, WellFormed, HeightOf;
    var declarations := LoadedIsWellFormed(xml, d);
    ParsedIsShallow(xml, d);
    DocumentRoundTrip(d, declarations);
  }
}
