/** Exactly which inputs are refused, and with which error. A level fails where its first faulty
    node begins; everything before that is in the grammar. */
module XmlErrors {
  import opened Common
  import opened XmlChars
  import opened XmlScan
  import opened XmlParser
  import opened XmlProductions
  import opened XmlReader
  import opened XmlGrammar

  // ---- faults of leaves ----

  /** end does not occur in the text. */
  predicate Missing(text: Bytes, end: Bytes) {
    forall i :: 0 <= i <= |text| ==> !(end <= text[i..])
  }

  function ErrorOf(kind: Kind): Error {
    match kind
    case DeclarationKind => ParsingDeclaration
    case CommentKind => ParsingComment
    case CDataKind => ParsingCData
    case TextKind => ParsingText
    case _ => ParsingUnknown
  }

  /** Markup of this kind that does not end. */
  ghost predicate OpenMarkup(s: Bytes, kind: Kind, text: Bytes) {
    && IsMarkup(kind) && Spaced(s, HeaderOf(kind) + text) && (kind == UnknownKind ==> NoOtherMarkup(text))
    && Missing(text, EndOf(kind))
  }

  /** Text that no tag follows, or only the first byte of one. */
  predicate OpenText(s: Bytes, raw: Bytes, e: Error) {
    && Absent(LESS, raw) && !Spaces(raw)
    && ((s == raw && e == ParsingText) || (s == raw + [LESS] && e == Parsing))
  }

  ghost predicate LeafFault(s: Bytes, e: Error) {
    || (exists kind, text :: OpenMarkup(s, kind, text) && e == ErrorOf(kind))
    || (exists raw :: OpenText(s, raw, e))
  }

  lemma {:induction false} MissingText(s: Bytes, tag: Bytes)
    requires tag != []
    ensures ParseText(s, tag).None? <==> Missing(s, tag)
    decreases |s|
  {
    if s == [] {
      assert s[0..] == [];
    } else {
      assert s[0..] == s;
      MissingText(s[1..], tag);
      assert forall i :: 0 <= i <= |s[1..]| ==> s[1..][i..] == s[i + 1..];
      assert forall i :: 1 <= i <= |s| ==> s[i..] == s[1..][i - 1..];
    }
  }

  lemma MarkupFails(kind: Kind, text: Bytes, e: Error)
    requires IsMarkup(kind)
    ensures ParseLeaf(kind, text) == LeafFail(e) <==> ParseText(text, EndOf(kind)).None? && e == ErrorOf(kind)
  {
    hide ParseText, Value;
  }

  lemma TextFails(s: Bytes, e: Error)
    ensures ParseLeaf(TextKind, s) == LeafFail(e) <==>
              var t := ParseText(s, [LESS]);
              (t.None? && e == ParsingText) || (t.Some? && t.value.1 == [] && e == Parsing)
  {
    hide ParseText, Value;
  }

  /** The parser finds a leaf there that does not end. */
  predicate LeafFailed(s: Bytes, kind: Kind, text: Bytes, e: Error) {
    Identify(s) == Some((kind, text)) && kind != ElementKind && ParseLeaf(kind, text) == LeafFail(e)
  }

  lemma OpenTextIs(s: Bytes, e: Error)
    ensures (exists raw :: OpenText(s, raw, e)) <==> LeafFailed(s, TextKind, s, e)
  {
    hide Identify, ParseLeaf, ParseText, SkipWs, OpenText;
    PlainTextIdentified(s);
    TextFails(s, e);
    if exists raw :: OpenText(s, raw, e) {
      var raw :| OpenText(s, raw, e);
      OpenTextFails(s, raw, e);
    }
    if LeafFailed(s, TextKind, s, e) {
      FailedTextIsOpen(s, e);
    }
  }

  lemma MissingLess(s: Bytes)
    ensures Missing(s, [LESS]) <==> Absent(LESS, s)
  {
    forall i | 0 <= i < |s| ensures [LESS] <= s[i..] <==> s[i] == LESS {
      assert s[i..][0] == s[i];
      assert s[i..][..1] == [s[i]];
    }
  }

  lemma OpenTextFails(s: Bytes, raw: Bytes, e: Error)
    requires OpenText(s, raw, e)
    ensures SkipWs(s) != [] && SkipWs(s)[0] != LESS
    ensures var t := ParseText(s, [LESS]);
            (t.None? && e == ParsingText) || (t.Some? && t.value.1 == [] && e == Parsing)
  {
    hide ParseText, SkipWs;
    if s == raw {
      NonBlankStart(s);
      MissingLess(s);
      MissingText(s, [LESS]);
    } else {
      NotBlank(s, raw, [LESS]);
      AbsentEndsAt(LESS, raw);
      assert raw + [LESS] + [] == s;
      TextIsRead(s, [LESS], raw, []);
    }
  }

  lemma NonBlankStart(s: Bytes)
    requires !Spaces(s) && Absent(LESS, s)
    ensures SkipWs(s) != [] && SkipWs(s)[0] != LESS
  {
    hide SkipWs;
    var p := SkipWs(s);
    assert p != [] ==> p[0] == s[|s| - |p|];
  }

  lemma FailedTextIsOpen(s: Bytes, e: Error)
    requires SkipWs(s) != [] && SkipWs(s)[0] != LESS
    requires var t := ParseText(s, [LESS]);
             (t.None? && e == ParsingText) || (t.Some? && t.value.1 == [] && e == Parsing)
    ensures exists raw :: OpenText(s, raw, e)
  {
    hide ParseText, SkipWs;
    var t := ParseText(s, [LESS]);
    if t.None? {
      MissingText(s, [LESS]);
      MissingLess(s);
      var p := SkipWs(s);
      assert p[0] == s[|s| - |p|];
      assert OpenText(s, s, e);
    } else {
      var raw := t.value.0;
      TextIsRead(s, [LESS], raw, []);
      AbsentEndsAt(LESS, raw);
      assert raw + [LESS] + [] == raw + [LESS];
      NotBlank(s, raw, [LESS]);
      assert OpenText(s, raw, e);
    }
  }

  lemma OpenMarkupFails(s: Bytes, kind: Kind, text: Bytes)
    requires OpenMarkup(s, kind, text)
    ensures LeafFailed(s, kind, text, ErrorOf(kind))
  {
    hide Identify, ParseLeaf, Missing, Spaced;
    MarkupIdentified(s, kind, text);
    MissingText(text, EndOf(kind));
    MarkupFails(kind, text, ErrorOf(kind));
  }

  lemma FailedMarkupIsOpen(s: Bytes, kind: Kind, text: Bytes, e: Error)
    requires IsMarkup(kind) && LeafFailed(s, kind, text, e)
    ensures OpenMarkup(s, kind, text) && e == ErrorOf(kind)
  {
    hide Identify, ParseLeaf, Missing, Spaced;
    MarkupIdentified(s, kind, text);
    MarkupFails(kind, text, e);
    MissingText(text, EndOf(kind));
  }

  lemma FaultyLeafFails(s: Bytes, e: Error)
    requires LeafFault(s, e)
    ensures exists kind, text :: LeafFailed(s, kind, text, e)
  {
    hide LeafFailed, OpenText, OpenMarkup;
    OpenTextIs(s, e);
    if !exists raw :: OpenText(s, raw, e) {
      var kind, text :| OpenMarkup(s, kind, text) && e == ErrorOf(kind);
      OpenMarkupFails(s, kind, text);
    }
  }

  lemma FailedLeafIsFaulty(s: Bytes, kind: Kind, text: Bytes, e: Error)
    requires LeafFailed(s, kind, text, e)
    ensures LeafFault(s, e)
  {
    hide LeafFailed, OpenText, OpenMarkup;
    NotAnElement(s, kind, text, e);
    if kind == TextKind {
      OpenTextIs(s, e);
    } else {
      FailedMarkupIsOpen(s, kind, text, e);
    }
  }

  lemma NotAnElement(s: Bytes, kind: Kind, text: Bytes, e: Error)
    requires LeafFailed(s, kind, text, e)
    ensures kind == TextKind ==> text == s
    ensures kind != TextKind ==> IsMarkup(kind)
  {
    hide SkipWs, ParseLeaf;
  }

  /** A leaf fails exactly if it does not end. */
  lemma LeafFaultExactlyWhen(s: Bytes, e: Error)
    ensures LeafFault(s, e) <==> exists kind, text :: LeafFailed(s, kind, text, e)
  {
    hide LeafFailed, LeafFault;
    if LeafFault(s, e) {
      FaultyLeafFails(s, e);
    }
    if exists kind, text :: LeafFailed(s, kind, text, e) {
      var kind, text :| LeafFailed(s, kind, text, e);
      FailedLeafIsFaulty(s, kind, text, e);
    }
  }

  // ---- faults of tags ----

  /** What can stand at t is neither an attribute nor the end of a tag. */
  predicate NoAttributeNorEnd(t: Bytes) {
    t == [] || (!IsNameStart(t[0]) && t[0] != GREATER && !([SLASH, GREATER] <= t))
  }

  /** t starts like an attribute, but is none or repeats a name. */
  ghost predicate BadAttribute(t: Bytes, sofar: seq<Attribute>) {
    && t != [] && IsNameStart(t[0])
    && forall a, next :: AttributeAt(t, a, next) ==> HasAttribute(sofar, a.name)
  }

  /** Behind attributes that are good comes a fault. */
  ghost predicate AttributesFault(s: Bytes, sofar: seq<Attribute>, e: Error)
    decreases |s|
  {
    var t := SkipWs(s);
    || (NoAttributeNorEnd(t) && e == ParsingElement)
    || (BadAttribute(t, sofar) && e == ParsingAttribute)
    || (exists a, next :: AttributeAt(t, a, next) && !HasAttribute(sofar, a.name) && |next| < |s|
                          && AttributesFault(next, sofar + [a], e))
  }

  lemma OneAttributeOnly(t: Bytes, sofar: seq<Attribute>)
    requires t != [] && IsNameStart(t[0])
    ensures var r := ParseAttribute(t);
            && (BadAttribute(t, sofar) <==> r.None? || HasAttribute(sofar, r.value.0.name))
            && (r.Some? ==> AttributeAt(t, r.value.0, r.value.1))
            && forall a, next :: AttributeAt(t, a, next) ==> r == Some((a, next))
  {
    hide AttributeAt, ParseAttribute, HasAttribute;
    var r := ParseAttribute(t);
    forall a, next ensures AttributeAt(t, a, next) <==> r == Some((a, next)) {
      AttributeExactlyWhen(t, a, next);
    }
    if r.Some? {
      AttributeExactlyWhen(t, r.value.0, r.value.1);
    }
  }

  lemma {:induction false} AttributesFaultExactlyWhen(s: Bytes, sofar: seq<Attribute>, e: Error)
    ensures ParseAttributes(s, sofar) == AttributesFail(e) <==> AttributesFault(s, sofar, e)
    decreases |s|
  {
    hide AttributeAt, ParseAttribute, HasAttribute, SkipWs, BadAttribute;
    var t := SkipWs(s);
    if t != [] && IsNameStart(t[0]) {
      OneAttributeOnly(t, sofar);
      var r := ParseAttribute(t);
      if r.Some? && !HasAttribute(sofar, r.value.0.name) {
        AttributesFaultExactlyWhen(r.value.1, sofar + [r.value.0], e);
      }
    } else {
      NotAnAttribute(t);
    }
  }

  lemma NotAnAttribute(t: Bytes)
    requires t == [] || !IsNameStart(t[0])
    ensures forall sofar :: !BadAttribute(t, sofar)
    ensures forall a, next :: !AttributeAt(t, a, next)
  {
    forall a, next ensures !AttributeAt(t, a, next) {
      if AttributeAt(t, a, next) {
        AttributeStarts(t, a, next);
      }
    }
  }

  /** A legal name at the front of a tag, behind white space and an optional slash. */
  ghost predicate NameInTag(text: Bytes, slash: bool, name: Bytes, behind: Bytes) {
    && Spaced(text, Slash(slash) + (name + behind)) && LegalName(name)
    && (behind == [] || !IsNameChar(behind[0]))
  }

  /** No name, or a fault behind the name. */
  ghost predicate TagFault(text: Bytes, e: Error) {
    || (e == Parsing && !exists slash, name, behind :: NameInTag(text, slash, name, behind))
    || (exists slash, name, behind :: NameInTag(text, slash, name, behind) && AttributesFault(behind, [], e))
  }

  /** The name that ParseTag finds. */
  function NameFound(text: Bytes): Option<(Bytes, Bytes)> {
    var p := SkipWs(text);
    ParseName(if p != [] && p[0] == SLASH then p[1..] else p)
  }

  lemma NameInTagIsFound(text: Bytes, slash: bool, name: Bytes, behind: Bytes)
    requires NameInTag(text, slash, name, behind)
    ensures NameFound(text) == Some((name, behind))
  {
    hide SkipWs, ParseName, Spaced;
    var x := Slash(slash) + (name + behind);
    TagStarts(name, behind, slash);
    SpacedIsSkipped(text, x);
    NameIsRead(name + behind, name, behind);
    assert slash ==> x[0] == SLASH && x[1..] == name + behind;
    assert !slash ==> x == name + behind;
  }

  lemma FoundIsInTag(text: Bytes) returns (slash: bool)
    requires NameFound(text).Some?
    ensures NameInTag(text, slash, NameFound(text).value.0, NameFound(text).value.1)
  {
    hide SkipWs, ParseName, Spaced;
    var p := SkipWs(text);
    slash := p != [] && p[0] == SLASH;
    var (name, behind) := NameFound(text).value;
    NameIsRead(if slash then p[1..] else p, name, behind);
    SlashThen(p, slash, name, behind);
    TagStarts(name, behind, slash);
    SpacedIsSkipped(text, p);
  }

  lemma TagFails(text: Bytes, e: Error)
    ensures ParseTag(text) == TagFail(e) <==>
              var n := NameFound(text);
              (n.None? && e == Parsing) || (n.Some? && ParseAttributes(n.value.1, []) == AttributesFail(e))
  {
    hide SkipWs, ParseName, ParseAttributes;
  }

  lemma TagFaultExactlyWhen(text: Bytes, e: Error)
    ensures ParseTag(text) == TagFail(e) <==> TagFault(text, e)
  {
    hide NameInTag, NameFound, AttributesFault, ParseTag, ParseAttributes;
    TagFails(text, e);
    var n := NameFound(text);
    forall slash, name, behind | NameInTag(text, slash, name, behind) ensures n == Some((name, behind)) {
      NameInTagIsFound(text, slash, name, behind);
    }
    if n.Some? {
      var slash := FoundIsInTag(text);
      AttributesFaultExactlyWhen(n.value.1, [], e);
    }
  }

  // ---- faults of levels ----

  /** s starts with a tag that cannot be read. */
  ghost predicate BrokenTag(s: Bytes, text: Bytes, e: Error) {
    && Spaced(s, [LESS] + text) && (text != [] ==> text[0] != QUESTION && text[0] != BANG)
    && TagFault(text, e)
  }

  /** The level inside an element ends without an end tag. */
  ghost predicate NeverClosed(inner: Bytes, depth: Depth) {
    exists ns, end :: ReadsAll(ns, inner, end, false, [], depth) && Spaces(end)
  }

  /** The level inside an element ends with the end tag of another. */
  ghost predicate ClosedByOther(inner: Bytes, name: Bytes, depth: Depth) {
    exists ns, end, other, rest ::
      ReadsAll(ns, inner, end, false, [], depth) && EndTagAt(end, other, rest) && other != name
  }

  /** What is wrong behind the start tag of an element. */
  ghost predicate ContentFault(head: Node, inner: Bytes, depth: Depth, e: Error)
    requires head.Element?
    decreases MAX_ELEMENT_DEPTH - depth, 0
  {
    if inner == [] then e == MismatchedElement
    else if depth + 1 == MAX_ELEMENT_DEPTH then e == ElementDepthExceeded
    else
      || (e == Parsing && NeverClosed(inner, depth + 1))
      || (e == MismatchedElement && ClosedByOther(inner, head.name, depth + 1))
      || Fails(inner, false, [], depth + 1, e)
  }

  /** The node at the front of s is faulty. */
  ghost predicate FaultAt(s: Bytes, isDocument: bool, sofar: seq<Node>, depth: Depth, e: Error)
    decreases MAX_ELEMENT_DEPTH - depth, 1
  {
    || LeafFault(s, e)
    || (e == ParsingDeclaration && !WellLocated(isDocument, sofar) && exists v, rest :: LeafAt(s, Declaration(v), rest))
    || (exists text :: BrokenTag(s, text, e))
    || (exists head, inner :: TagAt(s, head, Open, inner) && head.Element? && ContentFault(head, inner, depth, e))
  }

  /** Some nodes of the grammar, and then a faulty one. */
  ghost predicate Fails(s: Bytes, isDocument: bool, sofar: seq<Node>, depth: Depth, e: Error)
    decreases MAX_ELEMENT_DEPTH - depth, 2
  {
    exists ns, next ::
      ReadsAll(ns, s, next, isDocument, sofar, depth) && FaultAt(next, isDocument, sofar + ns, depth, e)
  }

  // ---- what fails is faulty ----

  lemma FaultHere(s: Bytes, isDocument: bool, sofar: seq<Node>, depth: Depth, e: Error)
    requires FaultAt(s, isDocument, sofar, depth, e)
    ensures Fails(s, isDocument, sofar, depth, e)
  {
    hide FaultAt, ReadsAll;
    var ns, end := StopHere(s, isDocument, sofar, depth);
  }

  /** A node in front changes nothing. */
  lemma FaultBehind(n: Node, s: Bytes, rest: Bytes, isDocument: bool, sofar: seq<Node>, depth: Depth, e: Error)
    requires Reads(n, s, rest, depth) && (n.Declaration? ==> WellLocated(isDocument, sofar))
    requires Fails(rest, isDocument, sofar + [n], depth, e)
    ensures Fails(s, isDocument, sofar, depth, e)
  {
    hide FaultAt, Reads, ReadsAll;
    var ns, next :| ReadsAll(ns, rest, next, isDocument, sofar + [n], depth)
                    && FaultAt(next, isDocument, sofar + [n] + ns, depth, e);
    Extend(n, s, rest, ns, next, isDocument, sofar, depth);
    assert ReadsAll([n] + ns, s, next, isDocument, sofar, depth);
  }

  lemma BrokenTagIs(s: Bytes, text: Bytes, e: Error)
    ensures BrokenTag(s, text, e) <==> Identify(s) == Some((ElementKind, text)) && ParseTag(text) == TagFail(e)
  {
    hide SkipWs, Spaced, TagFault, ParseTag;
    TagFaultExactlyWhen(text, e);
    SpacedIsSkipped(s, [LESS] + text);
    if SkipWs(s) == [LESS] + text && (text != [] ==> text[0] != QUESTION && text[0] != BANG) {
      ElementHere(s, text);
    }
    if Identify(s) == Some((ElementKind, text)) {
      ElementThere(s, text);
      NoOtherStart(s, text);
    }
  }

  lemma NoOtherStart(s: Bytes, text: Bytes)
    requires Identify(s) == Some((ElementKind, text)) && SkipWs(s) == [LESS] + text
    ensures text != [] ==> text[0] != QUESTION && text[0] != BANG
  {
    hide SkipWs;
    var p := SkipWs(s);
    if text != [] {
      assert p[..2] == [LESS, text[0]];
    }
  }

  /** An element that fails, or that no end tag of its own closes. */
  lemma ElementFault(s: Bytes, text: Bytes, isDocument: bool, sofar: seq<Node>, depth: Depth, e: Error)
    returns (head: Node, inner: Bytes)
    requires ParseLevel(s, isDocument, sofar, depth) == LevelFail(e) && Identify(s) == Some((ElementKind, text))
    requires !ParseTag(text).TagFail?
    requires var r := ParseElement(text, depth);
             r.ElementFail? || (r.closing != Closing && Mismatch(r.element, r.closing, r.endTag))
    ensures TagParsed(s, text, head, Open, inner) && head.Element?
    ensures inner != [] && depth + 1 < MAX_ELEMENT_DEPTH ==>
              var r := ParseLevel(inner, false, [], depth + 1);
              && (r.LevelFail? ==> r.error == e) && (r.AtEnd? ==> e == Parsing)
              && (r.AtEndTag? ==> r.endTag != head.name && e == MismatchedElement)
    ensures inner != [] && depth + 1 == MAX_ELEMENT_DEPTH ==> e == ElementDepthExceeded
    ensures inner == [] ==> e == MismatchedElement
  {
    hide Identify, ParseTag;
    var t := ParseTag(text);
    head, inner := t.element, t.rest;
  }

  /** How a level that fails goes on. */
  lemma FailingTurn(s: Bytes, isDocument: bool, sofar: seq<Node>, depth: Depth, e: Error)
    requires ParseLevel(s, isDocument, sofar, depth) == LevelFail(e)
    ensures Identify(s).Some?
    ensures Identify(s).value.0 == ElementKind ==>
              var r := ParseElement(Identify(s).value.1, depth);
              && (r.ElementFail? ==> r.error == e)
              && (r.Parsed? ==> r.closing != Closing)
              && (r.Parsed? && !Mismatch(r.element, r.closing, r.endTag) ==>
                    ParseLevel(r.rest, isDocument, sofar + [r.element], depth) == LevelFail(e))
    ensures Identify(s).value.0 != ElementKind ==>
              var r := ParseLeaf(Identify(s).value.0, Identify(s).value.1);
              && (r.LeafFail? ==> r.error == e)
              && (r.Leaf? && r.node.Declaration? && !WellLocated(isDocument, sofar) ==> e == ParsingDeclaration)
              && (r.Leaf? && !(r.node.Declaration? && !WellLocated(isDocument, sofar)) ==>
                    ParseLevel(r.rest, isDocument, sofar + [r.node], depth) == LevelFail(e))
  {
    hide ParseElement, ParseTag, ParseLeaf, Identify;
  }

  lemma InnerEnds(inner: Bytes, depth: Depth, name: Bytes)
    requires !ParseLevel(inner, false, [], depth).LevelFail?
    ensures var r := ParseLevel(inner, false, [], depth);
            && (r.AtEnd? ==> NeverClosed(inner, depth))
            && (r.AtEndTag? && r.endTag != name ==> ClosedByOther(inner, name, depth))
  {
    hide ParseLevel, ReadsAll, EndTagAt;
    var r := ParseLevel(inner, false, [], depth);
    var ns, end := LevelIsRead(inner, false, [], depth, r);
  }

  lemma LeafTurn(s: Bytes, kind: Kind, text: Bytes, isDocument: bool, sofar: seq<Node>, depth: Depth, e: Error)
    requires ParseLevel(s, isDocument, sofar, depth) == LevelFail(e)
    requires Identify(s) == Some((kind, text)) && kind != ElementKind
    ensures var r := ParseLeaf(kind, text);
            || FaultAt(s, isDocument, sofar, depth, e)
            || (&& r.Leaf? && Reads(r.node, s, r.rest, depth) && |r.rest| < |s|
                && (r.node.Declaration? ==> WellLocated(isDocument, sofar))
                && ParseLevel(r.rest, isDocument, sofar + [r.node], depth) == LevelFail(e))
  {
    hide ParseLevel, ParseElement, ParseTag, ParseLeaf, Identify, LeafFault, LeafAt, BrokenTag, TagAt, ContentFault;
    FailingTurn(s, isDocument, sofar, depth, e);
    match ParseLeaf(kind, text)
    case LeafFail(x) =>
      assert LeafFailed(s, kind, text, e);
      LeafFaultExactlyWhen(s, e);
    case Leaf(node, rest) =>
      LeafRead(s, kind, text, node, rest);
      if node.Declaration? && !WellLocated(isDocument, sofar) {
        assert node == Declaration(node.value) && LeafAt(s, Declaration(node.value), rest);
      } else {
        LeafLevel(s, kind, text, node, rest, isDocument, sofar, depth);
        LeafReads(s, node, rest, depth);
      }
  }

  lemma TagFaultHere(s: Bytes, text: Bytes, isDocument: bool, sofar: seq<Node>, depth: Depth, e: Error)
    requires Identify(s) == Some((ElementKind, text)) && ParseTag(text) == TagFail(e)
    ensures FaultAt(s, isDocument, sofar, depth, e)
  {
    hide LeafFault, LeafAt, BrokenTag, TagAt, ContentFault;
    BrokenTagIs(s, text, e);
  }

  lemma ContentFaultHere(s: Bytes, head: Node, inner: Bytes, isDocument: bool, sofar: seq<Node>, depth: Depth, e: Error)
    requires TagAt(s, head, Open, inner) && head.Element? && ContentFault(head, inner, depth, e)
    ensures FaultAt(s, isDocument, sofar, depth, e)
  {
    hide LeafFault, LeafAt, BrokenTag, TagAt, ContentFault;
  }

  lemma {:induction false} FailureIsFault(s: Bytes, isDocument: bool, sofar: seq<Node>, depth: Depth, e: Error)
    requires ParseLevel(s, isDocument, sofar, depth) == LevelFail(e)
    ensures Fails(s, isDocument, sofar, depth, e)
    decreases |s|, 2
  {
    hide ParseLevel, ParseElement, ParseTag, ParseLeaf, Identify, Fails, FaultAt, Reads;
    FailingTurn(s, isDocument, sofar, depth, e);
    var (kind, text) := Identify(s).value;
    if kind != ElementKind {
      LeafTurn(s, kind, text, isDocument, sofar, depth, e);
      var r := ParseLeaf(kind, text);
      if FaultAt(s, isDocument, sofar, depth, e) {
        FaultHere(s, isDocument, sofar, depth, e);
      } else {
        FailureIsFault(r.rest, isDocument, sofar + [r.node], depth, e);
        FaultBehind(r.node, s, r.rest, isDocument, sofar, depth, e);
      }
    } else {
      FailureAtTag(s, text, isDocument, sofar, depth, e);
    }
  }

  lemma {:induction false} FailureAtTag(s: Bytes, text: Bytes, isDocument: bool, sofar: seq<Node>, depth: Depth,
                                        e: Error)
    requires ParseLevel(s, isDocument, sofar, depth) == LevelFail(e) && Identify(s) == Some((ElementKind, text))
    ensures Fails(s, isDocument, sofar, depth, e)
    decreases |s|, 1
  {
    hide ParseLevel, ParseElement, ParseTag, ParseLeaf, Identify, Fails, FaultAt, Reads;
    FailingTurn(s, isDocument, sofar, depth, e);
    var r := ParseElement(text, depth);
    if ParseTag(text).TagFail? {
      NoElement(text, ParseTag(text), depth);
      TagFaultHere(s, text, isDocument, sofar, depth, e);
      FaultHere(s, isDocument, sofar, depth, e);
    } else if r.ElementFail? || Mismatch(r.element, r.closing, r.endTag) {
      FailureInside(s, text, isDocument, sofar, depth, e);
      FaultHere(s, isDocument, sofar, depth, e);
    } else {
      ElementLevel(s, text, r.element, r.closing, r.endTag, r.rest, isDocument, sofar, depth);
      ElementIsRead(s, text, r.element, r.closing, r.endTag, r.rest, depth);
      ElementFails(s, text, r, isDocument, sofar, depth);
      FailureIsFault(r.rest, isDocument, sofar + [r.element], depth, e);
      FaultBehind(r.element, s, r.rest, isDocument, sofar, depth, e);
    }
  }

  lemma {:induction false} FailureInside(s: Bytes, text: Bytes, isDocument: bool, sofar: seq<Node>, depth: Depth,
                                         e: Error)
    requires ParseLevel(s, isDocument, sofar, depth) == LevelFail(e) && Identify(s) == Some((ElementKind, text))
    requires !ParseTag(text).TagFail?
    requires var r := ParseElement(text, depth);
             r.ElementFail? || (r.closing != Closing && Mismatch(r.element, r.closing, r.endTag))
    ensures FaultAt(s, isDocument, sofar, depth, e)
    decreases |s|, 0
  {
    hide ParseLevel, ParseElement, ParseTag, ParseLeaf, Identify, Fails, FaultAt, TagAt, NeverClosed, ClosedByOther;
    var head, inner := ElementFault(s, text, isDocument, sofar, depth, e);
    TagRead(s, text, head, Open, inner);
    if inner != [] && depth + 1 < MAX_ELEMENT_DEPTH {
      var l := ParseLevel(inner, false, [], depth + 1);
      if l.LevelFail? {
        FailureIsFault(inner, false, [], depth + 1, e);
      } else {
        InnerEnds(inner, depth + 1, head.name);
      }
    }
    ContentFaultHere(s, head, inner, isDocument, sofar, depth, e);
  }

  // ---- what is faulty fails ----

  lemma LeafFaultFails(s: Bytes, isDocument: bool, sofar: seq<Node>, depth: Depth, e: Error)
    requires LeafFault(s, e)
    ensures ParseLevel(s, isDocument, sofar, depth) == LevelFail(e)
  {
    hide ParseLevel, ParseLeaf, Identify, LeafFault;
    LeafFaultExactlyWhen(s, e);
    var kind, text :| LeafFailed(s, kind, text, e);
    LeafFails(s, kind, text, LeafFail(e), isDocument, sofar, depth);
  }

  lemma MisplacedFails(s: Bytes, v: Bytes, rest: Bytes, isDocument: bool, sofar: seq<Node>, depth: Depth)
    requires LeafAt(s, Declaration(v), rest) && !WellLocated(isDocument, sofar)
    ensures ParseLevel(s, isDocument, sofar, depth) == LevelFail(ParsingDeclaration)
  {
    hide ParseLevel, ParseLeaf, Identify, LeafAt;
    LeafExactlyWhen(s, Declaration(v), rest);
    var kind, text :| LeafParsed(s, kind, text, Declaration(v), rest);
    LeafFails(s, kind, text, Leaf(Declaration(v), rest), isDocument, sofar, depth);
  }

  lemma BrokenTagFails(s: Bytes, text: Bytes, isDocument: bool, sofar: seq<Node>, depth: Depth, e: Error)
    requires BrokenTag(s, text, e)
    ensures ParseLevel(s, isDocument, sofar, depth) == LevelFail(e)
  {
    hide ParseLevel, ParseElement, ParseTag, Identify, BrokenTag;
    BrokenTagIs(s, text, e);
    NoElement(text, TagFail(e), depth);
    ElementFails(s, text, ElementFail(e), isDocument, sofar, depth);
  }

  lemma NeverClosedEnds(inner: Bytes, depth: Depth)
    requires NeverClosed(inner, depth)
    ensures ParseLevel(inner, false, [], depth).AtEnd?
  {
    hide ParseLevel, ReadsAll;
    var ns, end :| ReadsAll(ns, inner, end, false, [], depth) && Spaces(end);
    ReadNodesFill(ns, inner, end, false, depth);
    AllSpaces(end);
    EndOfText(end, false, ns, depth);
  }

  lemma ClosedByOtherEnds(inner: Bytes, name: Bytes, depth: Depth)
    requires ClosedByOther(inner, name, depth)
    ensures var r := ParseLevel(inner, false, [], depth); r.AtEndTag? && r.endTag != name && r.endTag != []
  {
    hide ParseLevel, ReadsAll, EndTagAt;
    var ns, end, other, rest :|
      ReadsAll(ns, inner, end, false, [], depth) && EndTagAt(end, other, rest) && other != name;
    ReadNodesFill(ns, inner, end, false, depth);
    EndTagStops(end, other, rest, false, ns, depth);
  }

  /** What becomes of an element, by the level inside it. */
  lemma ContentFails(s: Bytes, text: Bytes, head: Node, inner: Bytes, isDocument: bool, sofar: seq<Node>, depth: Depth,
                     e: Error)
    requires Identify(s) == Some((ElementKind, text)) && ParseTag(text) == Tag(head, Open, inner) && head.Element?
    requires inner == [] ==> e == MismatchedElement
    requires inner != [] && depth + 1 == MAX_ELEMENT_DEPTH ==> e == ElementDepthExceeded
    requires inner != [] && depth + 1 < MAX_ELEMENT_DEPTH ==>
               var r := ParseLevel(inner, false, [], depth + 1);
               || (r.AtEnd? && e == Parsing)
               || (r.AtEndTag? && r.endTag != head.name && r.endTag != [] && e == MismatchedElement)
               || (r.LevelFail? && r.error == e)
    ensures ParseLevel(s, isDocument, sofar, depth) == LevelFail(e)
  {
    hide ParseLevel, ParseElement, ParseTag, Identify;
    if inner == [] {
      TagAlone(text, head, Open, inner, depth);
    } else if depth + 1 == MAX_ELEMENT_DEPTH {
      NoElement(text, Tag(head, Open, inner), depth);
    } else {
      ElementOf(text, head, inner, depth, ParseLevel(inner, false, [], depth + 1));
    }
    ElementFails(s, text, ParseElement(text, depth), isDocument, sofar, depth);
  }

  lemma {:induction false} FaultFails(s: Bytes, isDocument: bool, sofar: seq<Node>, depth: Depth, e: Error)
    requires FaultAt(s, isDocument, sofar, depth, e)
    ensures ParseLevel(s, isDocument, sofar, depth) == LevelFail(e)
    decreases MAX_ELEMENT_DEPTH - depth, 1
  {
    hide ParseLevel, LeafFault, LeafAt, BrokenTag, TagAt, Fails, NeverClosed, ClosedByOther;
    if LeafFault(s, e) {
      LeafFaultFails(s, isDocument, sofar, depth, e);
    } else if e == ParsingDeclaration && !WellLocated(isDocument, sofar)
              && exists v, rest :: LeafAt(s, Declaration(v), rest) {
      var v, rest :| LeafAt(s, Declaration(v), rest);
      MisplacedFails(s, v, rest, isDocument, sofar, depth);
    } else if exists text :: BrokenTag(s, text, e) {
      var text :| BrokenTag(s, text, e);
      BrokenTagFails(s, text, isDocument, sofar, depth, e);
    } else {
      var head, inner :| TagAt(s, head, Open, inner) && head.Element? && ContentFault(head, inner, depth, e);
      ContentFaultFails(s, head, inner, isDocument, sofar, depth, e);
    }
  }

  lemma {:induction false} ContentFaultFails(s: Bytes, head: Node, inner: Bytes, isDocument: bool, sofar: seq<Node>,
                                             depth: Depth, e: Error)
    requires TagAt(s, head, Open, inner) && head.Element? && ContentFault(head, inner, depth, e)
    ensures ParseLevel(s, isDocument, sofar, depth) == LevelFail(e)
    decreases MAX_ELEMENT_DEPTH - depth, 0
  {
    hide ParseLevel, ParseTag, Identify, TagAt, Fails, NeverClosed, ClosedByOther;
    var text := TagText(s, head, Open, inner);
    if inner != [] && depth + 1 < MAX_ELEMENT_DEPTH {
      if e == Parsing && NeverClosed(inner, depth + 1) {
        NeverClosedEnds(inner, depth + 1);
      } else if e == MismatchedElement && ClosedByOther(inner, head.name, depth + 1) {
        ClosedByOtherEnds(inner, head.name, depth + 1);
      } else {
        FaultsFail(inner, false, [], depth + 1, e);
      }
    }
    ContentFails(s, text, head, inner, isDocument, sofar, depth, e);
  }

  lemma {:induction false} FaultsFail(s: Bytes, isDocument: bool, sofar: seq<Node>, depth: Depth, e: Error)
    requires Fails(s, isDocument, sofar, depth, e)
    ensures ParseLevel(s, isDocument, sofar, depth) == LevelFail(e)
    decreases MAX_ELEMENT_DEPTH - depth, 2
  {
    hide ParseLevel, ReadsAll, FaultAt;
    var ns, next :| ReadsAll(ns, s, next, isDocument, sofar, depth)
                    && FaultAt(next, isDocument, sofar + ns, depth, e);
    FaultFails(next, isDocument, sofar + ns, depth, e);
    ReadNodesAreLinked(ns, s, next, isDocument, sofar, depth);
  }

  // ---- documents ----

  /** Errors, exactly: for every input and every error, parsing fails with that error if and only if
      the input holds nothing and the error says so, or some nodes of the grammar are followed by
      a fault of that kind. */
  lemma ErrorExactlyWhen(xml: Bytes, e: Error)
    ensures Parse(xml) == Err(e) <==>
              || (Body(xml) == [] && e == EmptyDocument)
              || (Body(xml) != [] && Fails(Body(xml), true, [], 1, e))
  {
    hide ParseLevel, Fails;
    ErrorOfLevel(xml, e);
    if ParseLevel(Body(xml), true, [], 1) == LevelFail(e) {
      FailureIsFault(Body(xml), true, [], 1, e);
    }
    if Fails(Body(xml), true, [], 1, e) {
      FaultsFail(Body(xml), true, [], 1, e);
    }
  }

  lemma ErrorOfLevel(xml: Bytes, e: Error)
    ensures Parse(xml) == Err(e) <==>
              if Body(xml) == [] then e == EmptyDocument else ParseLevel(Body(xml), true, [], 1) == LevelFail(e)
  {
    hide ParseLevel, SkipWs, CStr;
  }

  // ---- too deep ----

  /** Some nodes, then a start tag with something behind it, and so on inside that element until the
      next level would be the one at the limit. What comes behind the last start tag is arbitrary. */
  ghost predicate GoesTooDeep(s: Bytes, isDocument: bool, sofar: seq<Node>, depth: Depth)
    decreases MAX_ELEMENT_DEPTH - depth
  {
    exists ns, next, head, inner ::
      && ReadsAll(ns, s, next, isDocument, sofar, depth)
      && TagAt(next, head, Open, inner) && inner != []
      && (depth + 1 == MAX_ELEMENT_DEPTH || GoesTooDeep(inner, false, [], depth + 1))
  }

  lemma {:induction false} NoDepthInAttributes(s: Bytes, sofar: seq<Attribute>)
    ensures !AttributesFault(s, sofar, ElementDepthExceeded)
    decreases |s|
  {
    hide AttributeAt, SkipWs, BadAttribute, HasAttribute;
    forall a, next | AttributeAt(SkipWs(s), a, next) && |next| < |s|
      ensures !AttributesFault(next, sofar + [a], ElementDepthExceeded)
    {
      NoDepthInAttributes(next, sofar + [a]);
    }
  }

  lemma OnlyContentIsDeep(s: Bytes, isDocument: bool, sofar: seq<Node>, depth: Depth) returns (head: Node, inner: Bytes)
    requires FaultAt(s, isDocument, sofar, depth, ElementDepthExceeded)
    ensures TagAt(s, head, Open, inner) && head.Element? && ContentFault(head, inner, depth, ElementDepthExceeded)
  {
    hide TagAt, LeafAt, ContentFault, OpenMarkup, AttributesFault, NameInTag;
    forall behind ensures !AttributesFault(behind, [], ElementDepthExceeded) {
      NoDepthInAttributes(behind, []);
    }
    head, inner :|
      TagAt(s, head, Open, inner) && head.Element? && ContentFault(head, inner, depth, ElementDepthExceeded);
  }

  lemma DeepContent(head: Node, inner: Bytes, depth: Depth)
    requires head.Element?
    ensures ContentFault(head, inner, depth, ElementDepthExceeded) <==>
              && inner != []
              && (depth + 1 == MAX_ELEMENT_DEPTH || Fails(inner, false, [], depth + 1, ElementDepthExceeded))
  {
    hide Fails, NeverClosed, ClosedByOther;
  }

  lemma {:induction false} FailsTooDeep(s: Bytes, isDocument: bool, sofar: seq<Node>, depth: Depth)
    requires Fails(s, isDocument, sofar, depth, ElementDepthExceeded)
    ensures GoesTooDeep(s, isDocument, sofar, depth)
    decreases MAX_ELEMENT_DEPTH - depth
  {
    hide ReadsAll, TagAt, FaultAt, ContentFault;
    var ns, next :| ReadsAll(ns, s, next, isDocument, sofar, depth)
                    && FaultAt(next, isDocument, sofar + ns, depth, ElementDepthExceeded);
    var head, inner := OnlyContentIsDeep(next, isDocument, sofar + ns, depth);
    DeepContent(head, inner, depth);
    if depth + 1 < MAX_ELEMENT_DEPTH {
      FailsTooDeep(inner, false, [], depth + 1);
    }
  }

  lemma {:induction false} TooDeepFails(s: Bytes, isDocument: bool, sofar: seq<Node>, depth: Depth)
    requires GoesTooDeep(s, isDocument, sofar, depth)
    ensures Fails(s, isDocument, sofar, depth, ElementDepthExceeded)
    decreases MAX_ELEMENT_DEPTH - depth
  {
    hide ReadsAll, TagAt, FaultAt, ContentFault, Identify, ParseTag;
    var ns, next, head, inner :|
      && ReadsAll(ns, s, next, isDocument, sofar, depth)
      && TagAt(next, head, Open, inner) && inner != []
      && (depth + 1 == MAX_ELEMENT_DEPTH || GoesTooDeep(inner, false, [], depth + 1));
    var text := TagText(next, head, Open, inner);
    if depth + 1 < MAX_ELEMENT_DEPTH {
      TooDeepFails(inner, false, [], depth + 1);
    }
    DeepContent(head, inner, depth);
    ContentFaultHere(next, head, inner, isDocument, sofar + ns, depth, ElementDepthExceeded);
  }

  lemma GoesDeeper(s: Bytes, head: Node, inner: Bytes, isDocument: bool, sofar: seq<Node>, depth: Depth)
    requires TagAt(s, head, Open, inner) && inner != []
    requires depth + 1 == MAX_ELEMENT_DEPTH || GoesTooDeep(inner, false, [], depth + 1)
    ensures GoesTooDeep(s, isDocument, sofar, depth)
  {
    hide TagAt, Reads;
    assert ReadsAll([], s, s, isDocument, sofar, depth);
  }

  /** The depth error, exactly: for every input, parsing fails with it if and only if start tags are
      nested in it down to the limit, with any nodes of the grammar before each of them, and
      something follows the last. */
  lemma TooDeepExactlyWhen(xml: Bytes)
    ensures Parse(xml) == Err(ElementDepthExceeded) <==> GoesTooDeep(Body(xml), true, [], 1)
  {
    hide Parse, Fails, GoesTooDeep;
    ErrorExactlyWhen(xml, ElementDepthExceeded);
    if Fails(Body(xml), true, [], 1, ElementDepthExceeded) {
      FailsTooDeep(Body(xml), true, [], 1);
    }
    if GoesTooDeep(Body(xml), true, [], 1) {
      TooDeepFails(Body(xml), true, [], 1);
      NothingIsNotDeep(Body(xml));
    }
  }

  lemma NothingIsNotDeep(s: Bytes)
    requires Fails(s, true, [], 1, ElementDepthExceeded)
    ensures s != []
  {
    hide Fails;
    FaultsFail(s, true, [], 1, ElementDepthExceeded);
  }
}