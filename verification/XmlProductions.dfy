/** Tags, attributes and leaves as productions: what a piece of text must look like to be read as one
    of them, said without the functions that read it. */
module XmlProductions {
  import opened Common
  import opened XmlChars
  import opened XmlScan
  import opened XmlParser

  predicate Spaces(ws: Bytes) {
    forall i :: 0 <= i < |ws| ==> IsWhiteSpace(ws[i])
  }

  predicate Absent(b: Byte, s: Bytes) {
    forall i :: 0 <= i < |s| ==> s[i] != b
  }

  predicate LegalName(name: Bytes) {
    name != [] && IsNameStart(name[0]) && forall i :: 0 <= i < |name| ==> IsNameChar(name[i])
  }

  predicate UniqueNames(attributes: seq<Attribute>) {
    forall i, j :: 0 <= i < j < |attributes| ==> attributes[i].name != attributes[j].name
  }

  // ---- white space, names and delimited text ----

  /** s is white space and then t. */
  ghost predicate Spaced(s: Bytes, t: Bytes) {
    |t| <= |s| && s[|s| - |t|..] == t && Spaces(s[..|s| - |t|])
  }

  lemma NoSpaceToSkip(s: Bytes)
    requires s != [] && !IsWhiteSpace(s[0])
    ensures SkipWs(s) == s
  {
  }

  /** Skipping white space finds t exactly if t follows white space and does not start with any. */
  lemma SpacedIsSkipped(s: Bytes, t: Bytes)
    requires t != [] ==> !IsWhiteSpace(t[0])
    ensures Spaced(s, t) <==> SkipWs(s) == t
  {
    if Spaced(s, t) {
      var k := |s| - |t|;
      assert forall i :: 0 <= i < k ==> s[..k][i] == s[i];
      assert k < |s| ==> s[k] == t[0];
      SkipWsIs(s, k);
    }
  }

  lemma SpacedConcat(ws: Bytes, t: Bytes)
    requires Spaces(ws)
    ensures Spaced(ws + t, t)
  {
    assert (ws + t)[|ws|..] == t && (ws + t)[..|ws|] == ws;
  }

  lemma {:induction false} NameRunOf(name: Bytes, rest: Bytes)
    requires forall i :: 0 <= i < |name| ==> IsNameChar(name[i])
    requires rest == [] || !IsNameChar(rest[0])
    ensures NameRun(name + rest) == name
  {
    if name == [] {
      assert name + rest == rest;
    } else {
      NameRunOf(name[1..], rest);
      assert (name + rest)[1..] == name[1..] + rest;
      assert name == [name[0]] + name[1..];
    }
  }

  lemma NameRoundTrip(name: Bytes, rest: Bytes)
    requires LegalName(name) && (rest == [] || !IsNameChar(rest[0]))
    ensures ParseName(name + rest) == Some((name, rest))
    ensures SkipWs(name + rest) == name + rest && (name + rest)[0] == name[0] != SLASH
  {
    hide SkipWs, NameRun;
    NameRunOf(name, rest);
    assert (name + rest)[|name|..] == rest && (name + rest)[0] == name[0];
    NoSpaceToSkip(name + rest);
  }

  /** A name is read exactly if a legal one is there and ends there. */
  lemma NameIsRead(s: Bytes, name: Bytes, rest: Bytes)
    ensures ParseName(s) == Some((name, rest)) <==>
              s == name + rest && LegalName(name) && (rest == [] || !IsNameChar(rest[0]))
  {
    if ParseName(s) == Some((name, rest)) {
      assert name[0] == s[0] && name == NameRun(s);
      assert rest != [] ==> rest[0] == s[|name|];
    } else if s == name + rest && LegalName(name) && (rest == [] || !IsNameChar(rest[0])) {
      NameRoundTrip(name, rest);
    }
  }

  lemma AbsentEndsAt(b: Byte, s: Bytes)
    ensures EndsAt(s, [b]) <==> Absent(b, s)
  {
    forall i | 0 <= i < |s| ensures [b] <= (s + [b])[i..] <==> s[i] == b {
      assert (s + [b])[i..][0] == s[i];
      assert (s + [b])[i..][..1] == [s[i]];
    }
  }

  /** Text up to a tag is read exactly if the tag follows it and does not occur before. */
  lemma TextIsRead(s: Bytes, tag: Bytes, v: Bytes, rest: Bytes)
    requires tag != []
    ensures ParseText(s, tag) == Some((v, rest)) <==> s == v + tag + rest && EndsAt(v, tag)
  {
    if ParseText(s, tag) == Some((v, rest)) {
      ParseTextIsFirst(s, tag);
    } else if s == v + tag + rest && EndsAt(v, tag) {
      ParseTextFindsFirst(v, tag, rest);
    }
  }

  // ---- attributes ----

  /** How an attribute is written: the white space around the equals sign, the quote, and the value
      between the quotes. */
  datatype AttributeForm = AttributeForm(before: Bytes, after: Bytes, quote: Byte, raw: Bytes)

  predicate IsQuote(b: Byte) {
    b == DOUBLE_QUOTE || b == SINGLE_QUOTE
  }

  predicate AttributeIs(s: Bytes, a: Attribute, rest: Bytes, form: AttributeForm) {
    && LegalName(a.name) && Spaces(form.before) && Spaces(form.after)
    && IsQuote(form.quote) && Absent(form.quote, form.raw) && a.value == Value(form.raw, TEXT_FLAGS)
    && s == a.name + (form.before + ([EQUALS] + (form.after + ([form.quote] + (form.raw + [form.quote] + rest)))))
  }

  /** s starts with a text of the attribute a, and rest follows it. */
  ghost predicate AttributeAt(s: Bytes, a: Attribute, rest: Bytes) {
    exists form :: AttributeIs(s, a, rest, form)
  }

  lemma SpacesSkipped(ws: Bytes, t: Bytes)
    requires Spaces(ws) && t != [] && !IsWhiteSpace(t[0])
    ensures SkipWs(ws + t) == t
  {
    SpacedConcat(ws, t);
    SpacedIsSkipped(ws + t, t);
  }

  /** One attribute, scanner by scanner. */
  predicate AttributeSteps(s: Bytes, a: Attribute, rest: Bytes, tail: Bytes, equals: Bytes, quoted: Bytes, raw: Bytes) {
    && ParseName(s) == Some((a.name, tail)) && tail != []
    && SkipWs(tail) == equals && equals != [] && equals[0] == EQUALS
    && SkipWs(equals[1..]) == quoted && quoted != [] && IsQuote(quoted[0])
    && ParseText(quoted[1..], [quoted[0]]) == Some((raw, rest)) && a.value == Value(raw, TEXT_FLAGS)
  }

  lemma StepsRead(s: Bytes, a: Attribute, rest: Bytes, tail: Bytes, equals: Bytes, quoted: Bytes, raw: Bytes)
    requires AttributeSteps(s, a, rest, tail, equals, quoted, raw)
    ensures ParseAttribute(s) == Some((a, rest))
  {
    hide SkipWs, ParseName, ParseText, Value;
  }

  lemma ReadInSteps(s: Bytes, a: Attribute, rest: Bytes) returns (tail: Bytes, equals: Bytes, quoted: Bytes, raw: Bytes)
    requires ParseAttribute(s) == Some((a, rest))
    ensures AttributeSteps(s, a, rest, tail, equals, quoted, raw)
  {
    hide SkipWs, ParseName, ParseText, Value;
    tail := ParseName(s).value.1;
    equals := SkipWs(tail);
    quoted := SkipWs(equals[1..]);
    raw := ParseText(quoted[1..], [quoted[0]]).value.0;
  }

  lemma AttributeIsRead(s: Bytes, a: Attribute, rest: Bytes, form: AttributeForm)
    requires AttributeIs(s, a, rest, form)
    ensures ParseAttribute(s) == Some((a, rest))
  {
    hide SkipWs, ParseName, ParseText, Value, LegalName, ParseAttribute, EndsAt, Absent, Spaces;
    var quoted := [form.quote] + (form.raw + [form.quote] + rest);
    var equals := [EQUALS] + (form.after + quoted);
    var tail := form.before + equals;
    NameThenEquals(s, a.name, form.before, equals);
    SpacesSkipped(form.before, equals);
    assert equals[1..] == form.after + quoted;
    SpacesSkipped(form.after, quoted);
    assert quoted[1..] == form.raw + [form.quote] + rest;
    AbsentEndsAt(form.quote, form.raw);
    TextIsRead(quoted[1..], [form.quote], form.raw, rest);
    StepsRead(s, a, rest, tail, equals, quoted, form.raw);
  }

  lemma NameThenEquals(s: Bytes, name: Bytes, ws: Bytes, equals: Bytes)
    requires LegalName(name) && Spaces(ws) && equals != [] && equals[0] == EQUALS && s == name + (ws + equals)
    ensures ParseName(s) == Some((name, ws + equals)) && ws + equals != []
  {
    assert (ws + equals)[0] == if ws == [] then EQUALS else ws[0];
    NameIsRead(s, name, ws + equals);
  }

  lemma SkippedSpaces(s: Bytes)
    ensures var ws := s[..|s| - |SkipWs(s)|]; Spaces(ws) && s == ws + SkipWs(s)
  {
    hide SkipWs;
  }

  lemma ReadAttributeIs(s: Bytes, a: Attribute, rest: Bytes) returns (form: AttributeForm)
    requires ParseAttribute(s) == Some((a, rest))
    ensures AttributeIs(s, a, rest, form)
  {
    hide SkipWs, ParseName, ParseText, Value, LegalName, ParseAttribute, EndsAt, Absent, Spaces;
    var tail, equals, quoted, raw := ReadInSteps(s, a, rest);
    NameIsRead(s, a.name, tail);
    SkippedSpaces(tail);
    SkippedSpaces(equals[1..]);
    TextIsRead(quoted[1..], [quoted[0]], raw, rest);
    AbsentEndsAt(quoted[0], raw);
    var before, after := tail[..|tail| - |equals|], equals[1..][..|equals[1..]| - |quoted|];
    form := AttributeForm(before, after, quoted[0], raw);
    assert quoted == [quoted[0]] + quoted[1..] && equals == [EQUALS] + equals[1..];
  }

  /** An attribute is read exactly if it is a legal name, an equals sign with any white space around
      it, and a value between two quotes of either kind that does not contain that quote. */
  lemma AttributeExactlyWhen(s: Bytes, a: Attribute, rest: Bytes)
    ensures ParseAttribute(s) == Some((a, rest)) <==> AttributeAt(s, a, rest)
  {
    hide AttributeIs, ParseAttribute;
    if ParseAttribute(s) == Some((a, rest)) {
      var form := ReadAttributeIs(s, a, rest);
    }
    if AttributeAt(s, a, rest) {
      var form :| AttributeIs(s, a, rest, form);
      AttributeIsRead(s, a, rest, form);
    }
  }

  function TagEnd(sealed: bool): Bytes {
    if sealed then [SLASH, GREATER] else [GREATER]
  }

  /** s starts with these attributes, white space optional before each, and the end of the tag. */
  ghost predicate AttributesAt(s: Bytes, attributes: seq<Attribute>, sealed: bool, rest: Bytes)
    decreases |attributes|
  {
    if attributes == [] then Spaced(s, TagEnd(sealed) + rest)
    else exists t, next :: Spaced(s, t) && AttributeAt(t, attributes[0], next)
                           && AttributesAt(next, attributes[1..], sealed, rest)
  }

  lemma AttributeStarts(t: Bytes, a: Attribute, next: Bytes)
    requires AttributeAt(t, a, next)
    ensures t != [] && IsNameStart(t[0]) && !IsWhiteSpace(t[0])
  {
    var form :| AttributeIs(t, a, next, form);
    assert t[0] == a.name[0];
  }

  lemma EndIsRead(s: Bytes, sofar: seq<Attribute>, sealed: bool, rest: Bytes)
    ensures SkipWs(s) == TagEnd(sealed) + rest <==> Spaced(s, TagEnd(sealed) + rest)
    ensures SkipWs(s) == TagEnd(sealed) + rest ==> ParseAttributes(s, sofar) == Attributes(sofar, sealed, rest)
  {
    hide SkipWs, Spaced;
    var t := TagEnd(sealed) + rest;
    SpacedIsSkipped(s, t);
    assert t[..|TagEnd(sealed)|] == TagEnd(sealed) && t[|TagEnd(sealed)|..] == rest;
  }

  /** How reading attributes goes on: at the end of the tag, or with one more. */
  lemma AttributesStep(s: Bytes, sofar: seq<Attribute>, all: seq<Attribute>, sealed: bool, rest: Bytes)
    requires ParseAttributes(s, sofar) == Attributes(all, sealed, rest)
    ensures var p := SkipWs(s);
            || (p == TagEnd(sealed) + rest && all == sofar)
            || (var r := ParseAttribute(p);
                && p != [] && r.Some? && !HasAttribute(sofar, r.value.0.name)
                && ParseAttributes(r.value.1, sofar + [r.value.0]) == Attributes(all, sealed, rest))
  {
    hide SkipWs, ParseAttribute;
    var p := SkipWs(s);
    assert [SLASH, GREATER] <= p ==> p == [SLASH, GREATER] + p[2..];
    assert p != [] && p[0] == GREATER ==> p == [GREATER] + p[1..];
  }

  /** No attribute has the name of an earlier one or of one in sofar. */
  predicate NewNames(sofar: seq<Attribute>, attributes: seq<Attribute>)
    decreases |attributes|
  {
    attributes == [] ||
    (!HasAttribute(sofar, attributes[0].name) && NewNames(sofar + [attributes[0]], attributes[1..]))
  }

  lemma {:induction false} ReadAttributesAre(s: Bytes, sofar: seq<Attribute>, all: seq<Attribute>, sealed: bool,
                                             rest: Bytes)
    returns (attributes: seq<Attribute>)
    requires ParseAttributes(s, sofar) == Attributes(all, sealed, rest)
    ensures all == sofar + attributes && AttributesAt(s, attributes, sealed, rest) && NewNames(sofar, attributes)
    decreases |s|
  {
    hide ParseAttributes, ParseAttribute, SkipWs, Spaced, AttributeAt, HasAttribute;
    AttributesStep(s, sofar, all, sealed, rest);
    var p := SkipWs(s);
    if p == TagEnd(sealed) + rest && all == sofar {
      EndIsRead(s, sofar, sealed, rest);
      attributes := [];
    } else {
      var (a, next) := ParseAttribute(p).value;
      AttributeExactlyWhen(p, a, next);
      AttributeStarts(p, a, next);
      SpacedIsSkipped(s, p);
      var more := ReadAttributesAre(next, sofar + [a], all, sealed, rest);
      attributes := [a] + more;
      assert attributes[1..] == more && (sofar + [a]) + more == sofar + attributes;
    }
  }

  lemma {:induction false} AttributesAreRead(s: Bytes, sofar: seq<Attribute>, attributes: seq<Attribute>, sealed: bool,
                                             rest: Bytes)
    requires AttributesAt(s, attributes, sealed, rest) && NewNames(sofar, attributes)
    ensures ParseAttributes(s, sofar) == Attributes(sofar + attributes, sealed, rest)
    decreases |attributes|
  {
    hide ParseAttributes, ParseAttribute, SkipWs, Spaced, AttributeAt, HasAttribute;
    if attributes == [] {
      EndIsRead(s, sofar, sealed, rest);
      assert sofar + attributes == sofar;
    } else {
      var a := attributes[0];
      var t, next :| Spaced(s, t) && AttributeAt(t, a, next) && AttributesAt(next, attributes[1..], sealed, rest);
      AttributeExactlyWhen(t, a, next);
      AttributeStarts(t, a, next);
      SpacedIsSkipped(s, t);
      AttributeTaken(s, t, sofar, a, next);
      AttributesAreRead(next, sofar + [a], attributes[1..], sealed, rest);
      assert (sofar + [a]) + attributes[1..] == sofar + attributes;
    }
  }

  lemma {:induction false} NewNamesAreUnique(sofar: seq<Attribute>, attributes: seq<Attribute>)
    requires UniqueNames(sofar)
    ensures NewNames(sofar, attributes) <==> UniqueNames(sofar + attributes)
    decreases |attributes|
  {
    if attributes == [] {
      assert sofar + attributes == sofar;
    } else {
      var a, more := attributes[0], attributes[1..];
      assert (sofar + [a]) + more == sofar + attributes;
      if HasAttribute(sofar, a.name) {
        var i :| 0 <= i < |sofar| && sofar[i].name == a.name;
        assert (sofar + attributes)[i].name == (sofar + attributes)[|sofar|].name;
      } else {
        NewNamesAreUnique(sofar + [a], more);
      }
    }
  }

  lemma NoneIsUnique()
    ensures UniqueNames([])
  {
  }

  /** The attributes of a tag are read exactly if they are there, no name twice, up to the end of the
      tag. */
  lemma AttributesExactlyWhen(s: Bytes, attributes: seq<Attribute>, sealed: bool, rest: Bytes)
    ensures ParseAttributes(s, []) == Attributes(attributes, sealed, rest) <==>
              AttributesAt(s, attributes, sealed, rest) && UniqueNames(attributes)
  {
    hide ParseAttributes, AttributesAt, NewNames, UniqueNames;
    assert [] + attributes == attributes;
    NoneIsUnique();
    NewNamesAreUnique([], attributes);
    if ParseAttributes(s, []) == Attributes(attributes, sealed, rest) {
      var more := ReadAttributesAre(s, [], attributes, sealed, rest);
      assert [] + more == more;
    } else if AttributesAt(s, attributes, sealed, rest) && UniqueNames(attributes) {
      AttributesAreRead(s, [], attributes, sealed, rest);
    }
  }

  // ---- tags ----

  /** How a tag is written: with a slash before the name, with one before the closing bracket, what
      follows the opening bracket, and what follows the name. */
  datatype TagForm = TagForm(slash: bool, sealed: bool, inside: Bytes, behind: Bytes)

  function Slash(slash: bool): Bytes {
    if slash then [SLASH] else []
  }

  ghost predicate TagIs(s: Bytes, head: Node, closing: ClosingType, rest: Bytes, form: TagForm) {
    && head.Element? && head.children == [] && LegalName(head.name) && UniqueNames(head.attributes)
    && Spaced(s, [LESS] + form.inside) && Spaced(form.inside, Slash(form.slash) + (head.name + form.behind))
    && form.behind != [] && !IsNameChar(form.behind[0])
    && AttributesAt(form.behind, head.attributes, form.sealed, rest)
    && closing == if form.sealed then Closed else if form.slash then Closing else Open
  }

  /** Behind white space s starts with the tag of head, and rest follows it. */
  ghost predicate TagAt(s: Bytes, head: Node, closing: ClosingType, rest: Bytes) {
    exists form :: TagIs(s, head, closing, rest, form)
  }

  /** The parser reads this tag there. */
  predicate TagParsed(s: Bytes, text: Bytes, head: Node, closing: ClosingType, rest: Bytes) {
    Identify(s) == Some((ElementKind, text)) && ParseTag(text) == Tag(head, closing, rest)
  }

  lemma ElementHere(s: Bytes, text: Bytes)
    requires SkipWs(s) == [LESS] + text && (text != [] ==> text[0] != QUESTION && text[0] != BANG)
    ensures Identify(s) == Some((ElementKind, text))
  {
    hide SkipWs;
    var p := SkipWs(s);
    assert p[1..] == text && (|p| > 1 ==> p[1] == text[0]);
  }

  lemma ElementThere(s: Bytes, text: Bytes)
    requires Identify(s) == Some((ElementKind, text))
    ensures SkipWs(s) == [LESS] + text
  {
    hide SkipWs;
    assert SkipWs(s) == [LESS] + SkipWs(s)[1..];
  }

  /** One tag, scanner by scanner. */
  predicate TagSteps(text: Bytes, head: Node, closing: ClosingType, rest: Bytes, form: TagForm) {
    && head.Element? && head.children == []
    && SkipWs(text) == Slash(form.slash) + (head.name + form.behind)
    && (form.slash || (head.name + form.behind != [] && (head.name + form.behind)[0] != SLASH))
    && ParseName(head.name + form.behind) == Some((head.name, form.behind))
    && ParseAttributes(form.behind, []) == Attributes(head.attributes, form.sealed, rest)
    && closing == if form.sealed then Closed else if form.slash then Closing else Open
  }

  lemma StepsReadTag(text: Bytes, head: Node, closing: ClosingType, rest: Bytes, form: TagForm)
    requires TagSteps(text, head, closing, rest, form)
    ensures ParseTag(text) == Tag(head, closing, rest)
  {
    hide SkipWs, ParseName, ParseAttributes;
    var p := SkipWs(text);
    assert form.slash ==> p[0] == SLASH && p[1..] == head.name + form.behind;
    assert !form.slash ==> p == head.name + form.behind;
    assert head == Element(head.name, head.attributes, []);
  }

  lemma TagReadInSteps(text: Bytes, head: Node, closing: ClosingType, rest: Bytes) returns (form: TagForm)
    requires ParseTag(text) == Tag(head, closing, rest)
    ensures form.inside == text && TagSteps(text, head, closing, rest, form)
  {
    hide SkipWs, ParseName, ParseAttributes;
    var p := SkipWs(text);
    var slash := p != [] && p[0] == SLASH;
    var (name, behind) := ParseName(if slash then p[1..] else p).value;
    form := TagForm(slash, ParseAttributes(behind, []).sealed, text, behind);
    SlashThen(p, slash, name, behind);
  }

  lemma SlashThen(p: Bytes, slash: bool, name: Bytes, behind: Bytes)
    requires slash <==> p != [] && p[0] == SLASH
    requires (if slash then p[1..] else p) == name + behind && name != []
    ensures p == Slash(slash) + (name + behind)
    ensures slash || (name + behind != [] && (name + behind)[0] != SLASH)
  {
    assert slash ==> p == [SLASH] + p[1..];
    assert !slash ==> [] + p == p;
  }

  lemma TagIsParsed(s: Bytes, head: Node, closing: ClosingType, rest: Bytes, form: TagForm)
    requires TagIs(s, head, closing, rest, form)
    ensures TagParsed(s, form.inside, head, closing, rest)
  {
    hide SkipWs, ParseTag, ParseName, ParseAttributes, Identify, AttributesAt, UniqueNames, Spaced;
    var x := Slash(form.slash) + (head.name + form.behind);
    NameIsRead(head.name + form.behind, head.name, form.behind);
    AttributesExactlyWhen(form.behind, head.attributes, form.sealed, rest);
    TagStarts(head.name, form.behind, form.slash);
    SpacedIsSkipped(form.inside, x);
    StepsReadTag(form.inside, head, closing, rest, form);
    SpacedIsSkipped(s, [LESS] + form.inside);
    SpacedStarts(form.inside, x);
    ElementHere(s, form.inside);
  }

  lemma TagStarts(name: Bytes, behind: Bytes, slash: bool)
    requires LegalName(name)
    ensures var x := Slash(slash) + (name + behind);
            x != [] && !IsWhiteSpace(x[0]) && x[0] != QUESTION && x[0] != BANG && (!slash ==> x[0] != SLASH)
    ensures (name + behind)[0] != SLASH
  {
    assert (name + behind)[0] == name[0];
    assert (Slash(slash) + (name + behind))[0] == if slash then SLASH else name[0];
  }

  lemma SpacedStarts(s: Bytes, t: Bytes)
    requires Spaced(s, t) && t != [] && t[0] != QUESTION && t[0] != BANG
    ensures s != [] && s[0] != QUESTION && s[0] != BANG
  {
    assert |s| > |t| ==> IsWhiteSpace(s[..|s| - |t|][0]);
    assert |s| == |t| ==> s[0..] == s;
  }

  lemma ParsedTagIs(s: Bytes, text: Bytes, head: Node, closing: ClosingType, rest: Bytes) returns (form: TagForm)
    requires TagParsed(s, text, head, closing, rest)
    ensures TagIs(s, head, closing, rest, form) && form.inside == text
  {
    hide SkipWs, ParseTag, ParseName, ParseAttributes, Identify, AttributesAt, UniqueNames, Spaced;
    form := TagReadInSteps(text, head, closing, rest);
    NameIsRead(head.name + form.behind, head.name, form.behind);
    AttributesExactlyWhen(form.behind, head.attributes, form.sealed, rest);
    AttributesNotEmpty(form.behind);
    TagStarts(head.name, form.behind, form.slash);
    SpacedIsSkipped(text, Slash(form.slash) + (head.name + form.behind));
    ElementThere(s, text);
    SpacedIsSkipped(s, [LESS] + text);
  }

  lemma AttributesNotEmpty(s: Bytes)
    requires ParseAttributes(s, []).Attributes?
    ensures s != []
  {
  }

  /** A tag is read exactly if it is a legal name behind an opening bracket and an optional slash, with
      its attributes and the end of the tag behind it. */
  lemma TagExactlyWhen(s: Bytes, head: Node, closing: ClosingType, rest: Bytes)
    ensures TagAt(s, head, closing, rest) <==> exists text :: TagParsed(s, text, head, closing, rest)
  {
    hide TagIs, TagParsed;
    if TagAt(s, head, closing, rest) {
      var form :| TagIs(s, head, closing, rest, form);
      TagIsParsed(s, head, closing, rest, form);
    }
    if exists text :: TagParsed(s, text, head, closing, rest) {
      var text :| TagParsed(s, text, head, closing, rest);
      var form := ParsedTagIs(s, text, head, closing, rest);
    }
  }

  // ---- leaves ----

  /** Behind white space s is header, raw and end, the first end behind the header, and then rest. */
  ghost predicate Between(s: Bytes, header: Bytes, raw: Bytes, end: Bytes, rest: Bytes) {
    Spaced(s, header + (raw + end + rest)) && EndsAt(raw, end)
  }

  /** s starts with raw text, which is not blank and ends before a tag. */
  predicate TextIs(s: Bytes, raw: Bytes, rest: Bytes) {
    s == raw + rest && Absent(LESS, raw) && !Spaces(raw) && |rest| > 1 && rest[0] == LESS
  }

  /** Neither a comment nor a CDATA section. */
  predicate NoOtherMarkup(text: Bytes) {
    !([DASH, DASH] <= text) && !(CDATA_HEADER[2..] <= text)
  }

  /** s starts with the text, comment, declaration or unknown node n. */
  ghost predicate LeafAt(s: Bytes, n: Node, rest: Bytes) {
    match n
    case Element(_, _, _) => false
    case Text(v, cdata) =>
      if cdata then exists raw :: Between(s, CDATA_HEADER, raw, CDATA_END, rest) && v == Value(raw, RAW_FLAGS)
      else exists raw :: TextIs(s, raw, rest) && v == Value(raw, TEXT_FLAGS)
    case Comment(v) => exists raw :: Between(s, COMMENT_HEADER, raw, COMMENT_END, rest) && v == Value(raw, RAW_FLAGS)
    case Declaration(v) =>
      exists raw :: Between(s, DECLARATION_HEADER, raw, DECLARATION_END, rest) && v == Value(raw, RAW_FLAGS)
    case Unknown(v) =>
      exists raw :: Between(s, UNKNOWN_HEADER, raw, [GREATER], rest) && v == Value(raw, RAW_FLAGS)
                    && NoOtherMarkup(raw + [GREATER] + rest)
  }

  /** The parser reads this leaf there. */
  predicate LeafParsed(s: Bytes, kind: Kind, text: Bytes, n: Node, rest: Bytes) {
    Identify(s) == Some((kind, text)) && kind != ElementKind && ParseLeaf(kind, text) == Leaf(n, rest)
  }

  function HeaderOf(kind: Kind): Bytes {
    match kind
    case DeclarationKind => DECLARATION_HEADER
    case CommentKind => COMMENT_HEADER
    case CDataKind => CDATA_HEADER
    case UnknownKind => UNKNOWN_HEADER
    case _ => []
  }

  predicate IsMarkup(kind: Kind) {
    kind != ElementKind && kind != TextKind
  }

  lemma HeaderStarts(kind: Kind, text: Bytes)
    requires IsMarkup(kind)
    ensures var p := HeaderOf(kind) + text; p != [] && p[0] == LESS && !IsWhiteSpace(p[0]) && |p| > 1
    ensures (HeaderOf(kind) + text)[1] == if kind == DeclarationKind then QUESTION else BANG
  {
  }

  /** Which header is at the front. */
  lemma FrontHeader(p: Bytes, kind: Kind, text: Bytes)
    requires IsMarkup(kind)
    ensures HeaderOf(kind) <= p && text == p[|HeaderOf(kind)|..] <==> p == HeaderOf(kind) + text
  {
    var h := HeaderOf(kind);
    if p == h + text {
      assert p[..|h|] == h;
    }
  }

  lemma UnknownHeader(p: Bytes, text: Bytes)
    requires p == UNKNOWN_HEADER + text
    ensures COMMENT_HEADER <= p <==> [DASH, DASH] <= text
    ensures CDATA_HEADER <= p <==> CDATA_HEADER[2..] <= text
  {
    LongHeader(COMMENT_HEADER, [DASH, DASH], p, text);
    LongHeader(CDATA_HEADER, CDATA_HEADER[2..], p, text);
  }

  lemma LongHeader(header: Bytes, x: Bytes, p: Bytes, text: Bytes)
    requires header == UNKNOWN_HEADER + x && p == UNKNOWN_HEADER + text
    ensures header <= p <==> x <= text
  {
    assert forall i :: 0 <= i < |x| ==> header[i + 2] == x[i];
    assert forall i :: 0 <= i < |text| ==> p[i + 2] == text[i];
    if x <= text {
      assert forall i :: 0 <= i < |header| ==> header[i] == p[i];
    }
  }

  /** Markup is identified by its header. */
  lemma MarkupIdentified(s: Bytes, kind: Kind, text: Bytes)
    requires IsMarkup(kind)
    ensures Identify(s) == Some((kind, text)) <==>
              Spaced(s, HeaderOf(kind) + text) && (kind == UnknownKind ==> NoOtherMarkup(text))
  {
    hide SkipWs, Spaced;
    var p := SkipWs(s);
    HeaderStarts(kind, text);
    SpacedIsSkipped(s, HeaderOf(kind) + text);
    FrontHeader(p, kind, text);
    HeadersApart(p);
    if kind == UnknownKind && p == UNKNOWN_HEADER + text {
      UnknownHeader(p, text);
    }
  }

  /** No text starts with two of the headers, the short one aside. */
  lemma HeadersApart(p: Bytes)
    ensures DECLARATION_HEADER <= p ==> !(COMMENT_HEADER <= p) && !(CDATA_HEADER <= p) && !(UNKNOWN_HEADER <= p)
    ensures COMMENT_HEADER <= p ==> !(CDATA_HEADER <= p)
  {
    assert DECLARATION_HEADER <= p ==> p[1] == DECLARATION_HEADER[1];
    assert COMMENT_HEADER <= p ==> p[1] == COMMENT_HEADER[1] && p[2] == COMMENT_HEADER[2];
    assert CDATA_HEADER <= p ==> p[1] == CDATA_HEADER[1] && p[2] == CDATA_HEADER[2];
    assert UNKNOWN_HEADER <= p ==> p[1] == UNKNOWN_HEADER[1];
  }

  lemma PlainTextIdentified(s: Bytes)
    ensures Identify(s) == Some((TextKind, s)) <==> SkipWs(s) != [] && SkipWs(s)[0] != LESS
  {
    hide SkipWs;
  }

  lemma MarkupIsRead(s: Bytes, kind: Kind, text: Bytes, end: Bytes, raw: Bytes, rest: Bytes)
    requires IsMarkup(kind) && end != []
    ensures Identify(s) == Some((kind, text)) && ParseText(text, end) == Some((raw, rest)) <==>
              && text == raw + end + rest && Between(s, HeaderOf(kind), raw, end, rest)
              && (kind == UnknownKind ==> NoOtherMarkup(raw + end + rest))
  {
    hide Identify, ParseText, Spaced, EndsAt, NoOtherMarkup;
    MarkupIdentified(s, kind, text);
    TextIsRead(text, end, raw, rest);
  }

  lemma PlainTextIsRead(s: Bytes, raw: Bytes, rest: Bytes)
    ensures TextIs(s, raw, rest) <==>
              Identify(s) == Some((TextKind, s)) && rest != [] && rest[0] == LESS && |rest| > 1
              && ParseText(s, [LESS]) == Some((raw, rest[1..]))
  {
    hide Identify, ParseText, SkipWs, EndsAt;
    PlainTextIdentified(s);
    AbsentEndsAt(LESS, raw);
    if rest != [] && rest[0] == LESS {
      assert raw + rest == raw + [LESS] + rest[1..];
      TextIsRead(s, [LESS], raw, rest[1..]);
      if s == raw + rest && Absent(LESS, raw) {
        NotBlank(s, raw, rest);
      }
    }
  }

  lemma NotBlank(s: Bytes, raw: Bytes, rest: Bytes)
    requires s == raw + rest && Absent(LESS, raw) && rest != [] && rest[0] == LESS
    ensures SkipWs(s) != []
    ensures SkipWs(s)[0] != LESS <==> !Spaces(raw)
  {
    hide SkipWs;
    var p := SkipWs(s);
    var k := |s| - |p|;
    assert p != [] by { assert s[|raw|] == LESS; }
    assert p[0] == s[k];
    assert k <= |raw| by { assert s[|raw|] == LESS && !IsWhiteSpace(s[|raw|]); }
    if k < |raw| {
      assert raw[k] == s[k];
    } else {
      assert forall i :: 0 <= i < |raw| ==> raw[i] == s[i];
    }
  }

  function EndOf(kind: Kind): Bytes {
    match kind
    case DeclarationKind => DECLARATION_END
    case CommentKind => COMMENT_END
    case CDataKind => CDATA_END
    case _ => [GREATER]
  }

  function MarkupNode(kind: Kind, v: Bytes): Node {
    match kind
    case DeclarationKind => Declaration(v)
    case CommentKind => Comment(v)
    case CDataKind => Text(v, true)
    case _ => Unknown(v)
  }

  lemma MarkupLeafIs(kind: Kind, text: Bytes, n: Node, rest: Bytes)
    requires IsMarkup(kind)
    ensures ParseLeaf(kind, text) == Leaf(n, rest) <==>
              var t := ParseText(text, EndOf(kind));
              t.Some? && t.value.1 == rest && n == MarkupNode(kind, Value(t.value.0, RAW_FLAGS))
  {
    hide ParseText, Value;
  }

  /** The markup node of this kind is there. */
  ghost predicate MarkupAt(s: Bytes, kind: Kind, raw: Bytes, n: Node, rest: Bytes) {
    && Between(s, HeaderOf(kind), raw, EndOf(kind), rest) && n == MarkupNode(kind, Value(raw, RAW_FLAGS))
    && (kind == UnknownKind ==> NoOtherMarkup(raw + EndOf(kind) + rest))
  }

  lemma MarkupExactlyWhen(s: Bytes, kind: Kind, n: Node, rest: Bytes)
    requires IsMarkup(kind)
    ensures (exists raw :: MarkupAt(s, kind, raw, n, rest)) <==> exists text :: LeafParsed(s, kind, text, n, rest)
  {
    hide Identify, ParseLeaf, ParseText, Between, NoOtherMarkup, Value, HeaderOf, MarkupNode;
    var end := EndOf(kind);
    if exists raw :: MarkupAt(s, kind, raw, n, rest) {
      var raw :| MarkupAt(s, kind, raw, n, rest);
      var text := raw + end + rest;
      MarkupIsRead(s, kind, text, end, raw, rest);
      MarkupLeafIs(kind, text, n, rest);
      assert LeafParsed(s, kind, text, n, rest);
    }
    if exists text :: LeafParsed(s, kind, text, n, rest) {
      var text :| LeafParsed(s, kind, text, n, rest);
      MarkupLeafIs(kind, text, n, rest);
      var raw := ParseText(text, end).value.0;
      MarkupIsRead(s, kind, text, end, raw, rest);
      assert MarkupAt(s, kind, raw, n, rest);
    }
  }

  lemma TextLeafIs(s: Bytes, n: Node, rest: Bytes)
    ensures ParseLeaf(TextKind, s) == Leaf(n, rest) <==>
              var t := ParseText(s, [LESS]);
              && t.Some? && t.value.1 != [] && rest == [LESS] + t.value.1
              && n == Text(Value(t.value.0, TEXT_FLAGS), false)
  {
    hide ParseText, Value;
  }

  lemma TextExactlyWhen(s: Bytes, n: Node, rest: Bytes)
    ensures (exists raw :: TextIs(s, raw, rest) && n == Text(Value(raw, TEXT_FLAGS), false)) <==>
              exists text :: LeafParsed(s, TextKind, text, n, rest)
  {
    hide Identify, ParseLeaf, ParseText, TextIs, Value;
    TextLeafIs(s, n, rest);
    if exists raw :: TextIs(s, raw, rest) && n == Text(Value(raw, TEXT_FLAGS), false) {
      var raw :| TextIs(s, raw, rest) && n == Text(Value(raw, TEXT_FLAGS), false);
      PlainTextIsRead(s, raw, rest);
      assert [LESS] + rest[1..] == rest;
      assert LeafParsed(s, TextKind, s, n, rest);
    }
    if exists text :: LeafParsed(s, TextKind, text, n, rest) {
      var text :| LeafParsed(s, TextKind, text, n, rest);
      assert text == s;
      var raw := ParseText(s, [LESS]).value.0;
      assert rest[1..] == ParseText(s, [LESS]).value.1;
      PlainTextIsRead(s, raw, rest);
      assert TextIs(s, raw, rest);
    }
  }

  /** What kind of leaf a node is. */
  function KindOf(n: Node): Kind {
    match n
    case Element(_, _, _) => ElementKind
    case Text(_, cdata) => if cdata then CDataKind else TextKind
    case Comment(_) => CommentKind
    case Declaration(_) => DeclarationKind
    case Unknown(_) => UnknownKind
  }

  lemma LeafHasKind(kind: Kind, text: Bytes, n: Node, rest: Bytes)
    requires kind != ElementKind && ParseLeaf(kind, text) == Leaf(n, rest)
    ensures kind == KindOf(n)
  {
    hide ParseText, Value;
  }

  lemma MarkupIsLeaf(s: Bytes, n: Node, rest: Bytes)
    requires IsMarkup(KindOf(n))
    ensures LeafAt(s, n, rest) <==> exists raw :: MarkupAt(s, KindOf(n), raw, n, rest)
  {
    hide Between, NoOtherMarkup, Value;
    var kind := KindOf(n);
    forall raw ensures MarkupAt(s, kind, raw, n, rest) <==>
                         && Between(s, HeaderOf(kind), raw, EndOf(kind), rest) && n.value == Value(raw, RAW_FLAGS)
                         && (kind == UnknownKind ==> NoOtherMarkup(raw + EndOf(kind) + rest))
    {
    }
    if LeafAt(s, n, rest) {
      var raw :| Between(s, HeaderOf(kind), raw, EndOf(kind), rest) && n.value == Value(raw, RAW_FLAGS)
                 && (kind == UnknownKind ==> NoOtherMarkup(raw + EndOf(kind) + rest));
      assert MarkupAt(s, kind, raw, n, rest);
    }
  }

  /** A leaf is read exactly if its delimiters are there and, for markup, its end does not come
      earlier. */
  lemma LeafExactlyWhen(s: Bytes, n: Node, rest: Bytes)
    ensures LeafAt(s, n, rest) <==> exists kind, text :: LeafParsed(s, kind, text, n, rest)
  {
    hide Identify, ParseLeaf, MarkupAt, TextIs, Value, Between;
    var k := KindOf(n);
    if exists kind, text :: LeafParsed(s, kind, text, n, rest) {
      var kind, text :| LeafParsed(s, kind, text, n, rest);
      LeafHasKind(kind, text, n, rest);
      assert LeafParsed(s, k, text, n, rest);
    }
    if k == TextKind {
      TextExactlyWhen(s, n, rest);
      assert LeafAt(s, n, rest) <==> exists raw :: TextIs(s, raw, rest) && n == Text(Value(raw, TEXT_FLAGS), false);
    } else if k != ElementKind {
      MarkupIsLeaf(s, n, rest);
      MarkupExactlyWhen(s, k, n, rest);
    }
  }
}
