/** The printer (external/tinyxml2/tinyxml2.cpp lines 2592-2617, 2676-2883, 2942-3029) in compact
    mode, writing to memory. */
module XmlPrinter {
  import opened Common
  import opened XmlChars
  import opened XmlParser

  // ---- what is printed, as a function of the tree ----

  /** The bytes an entity stands for in text (restricted) and in attribute values. */
  predicate NeedsEntity(b: Byte, restricted: bool) {
    b == AMP || b == LESS || b == GREATER || (!restricted && (b == DOUBLE_QUOTE || b == SINGLE_QUOTE))
  }

  /** The entity table read from value to name. */
  function EntityFor(b: Byte, i: nat): (r: Option<Entity>)
    requires i <= |ENTITIES|
    ensures r.Some? ==> r.value in ENTITIES && r.value.value == b
    ensures r.None? ==> forall j :: i <= j < |ENTITIES| ==> ENTITIES[j].value != b
    decreases |ENTITIES| - i
  {
    if i == |ENTITIES| then None
    else if ENTITIES[i].value == b then Some(ENTITIES[i])
    else EntityFor(b, i + 1)
  }

  function EntityText(e: Entity): Bytes {
    [AMP] + e.pattern + [SEMICOLON]
  }

  lemma EveryFlaggedByteHasEntity(b: Byte, restricted: bool)
    requires NeedsEntity(b, restricted)
    ensures EntityFor(b, 0).Some?
  {
  }

  function EscapeByte(b: Byte, restricted: bool): Bytes {
    if NeedsEntity(b, restricted)
    then EveryFlaggedByteHasEntity(b, restricted); EntityText(EntityFor(b, 0).value)
    else [b]
  }

  function Escape(v: Bytes, restricted: bool): Bytes {
    if v == [] then [] else EscapeByte(v[0], restricted) + Escape(v[1..], restricted)
  }

  lemma {:induction false} EscapeAppend(v: Bytes, b: Byte, restricted: bool)
    ensures Escape(v + [b], restricted) == Escape(v, restricted) + EscapeByte(b, restricted)
  {
    var last := EscapeByte(b, restricted);
    if v == [] {
      assert v + [b] == [b] && [b][1..] == [];
      assert last + [] == last == [] + last;
    } else {
      EscapeAppend(v[1..], b, restricted);
      assert (v + [b])[1..] == v[1..] + [b] && (v + [b])[0] == v[0];
      Assoc(EscapeByte(v[0], restricted), Escape(v[1..], restricted), last);
    }
  }

  /** A run of bytes that need no entity is printed as it is. */
  lemma {:induction false} EscapeRun(s: Bytes, p: nat, q: nat, restricted: bool)
    requires p <= q <= |s| && forall i :: p <= i < q ==> !NeedsEntity(s[i], restricted)
    ensures Escape(s[..q], restricted) == Escape(s[..p], restricted) + s[p..q]
    decreases q - p
  {
    if p < q {
      EscapeRun(s, p, q - 1, restricted);
      EscapeAppend(s[..q - 1], s[q - 1], restricted);
      assert s[..q - 1] + [s[q - 1]] == s[..q];
      assert s[p..q - 1] + [s[q - 1]] == s[p..q];
    }
  }

  function PrintAttribute(a: Attribute): Bytes {
    [SPACE] + a.name + [EQUALS, DOUBLE_QUOTE] + Escape(a.value, false) + [DOUBLE_QUOTE]
  }

  lemma NextAttribute(attributes: seq<Attribute>, i: nat, before: Bytes)
    requires i < |attributes|
    ensures before + PrintAttributes(attributes[i..])
            == before + PrintAttribute(attributes[i]) + PrintAttributes(attributes[i + 1..])
  {
  }

  function PrintAttributes(attributes: seq<Attribute>): Bytes {
    if attributes == [] then [] else PrintAttribute(attributes[0]) + PrintAttributes(attributes[1..])
  }

  function EndTag(name: Bytes): Bytes {
    [LESS, SLASH] + name + [GREATER]
  }

  function PrintNode(n: Node): Bytes
    decreases n, 1
  {
    match n
    case Element(name, attributes, children) =>
      [LESS] + name + PrintAttributes(attributes) +
      (if children == [] then [SLASH, GREATER] else [GREATER] + PrintNodes(children) + EndTag(name))
    case Text(value, cdata) => if cdata then CDATA_HEADER + value + CDATA_END else Escape(value, true)
    case Comment(value) => COMMENT_HEADER + value + COMMENT_END
    case Declaration(value) => DECLARATION_HEADER + value + DECLARATION_END
    case Unknown(value) => UNKNOWN_HEADER + value + [GREATER]
  }

  function PrintNodes(ns: seq<Node>): Bytes
    decreases ns, 0
  {
    if ns == [] then [] else PrintNode(ns[0]) + PrintNodes(ns[1..])
  }

  function PrintDocument(d: Document): Bytes {
    (if d.bom then BOM else []) + PrintNodes(d.children)
  }

  // ---- the printer object ----

  lemma FirstNode(base: Bytes, ns: seq<Node>)
    requires ns != []
    ensures base + PrintNodes(ns) == base + PrintNode(ns[0]) + PrintNodes(ns[1..])
    ensures ns[1..] == [] ==> base + PrintNodes(ns) == base + PrintNode(ns[0])
  {
    Assoc(base, PrintNode(ns[0]), PrintNodes(ns[1..]));
    assert ns[1..] == [] ==> PrintNode(ns[0]) + PrintNodes(ns[1..]) == PrintNode(ns[0]);
  }

  /** A run of bytes that need no entity, printed behind what has been printed of s. */
  lemma RunPrinted(base: Bytes, s: Bytes, p: nat, q: nat, restricted: bool)
    requires p <= q <= |s| && forall i :: p <= i < q ==> !NeedsEntity(s[i], restricted)
    ensures base + Escape(s[..p], restricted) + s[p..q] == base + Escape(s[..q], restricted)
  {
    EscapeRun(s, p, q, restricted);
    Assoc(base, Escape(s[..p], restricted), s[p..q]);
  }

  lemma BytePrinted(base: Bytes, s: Bytes, q: nat, restricted: bool)
    requires q < |s|
    ensures base + Escape(s[..q], restricted) + EscapeByte(s[q], restricted) == base + Escape(s[..q + 1], restricted)
  {
    EscapeAppend(s[..q], s[q], restricted);
    assert s[..q] + [s[q]] == s[..q + 1];
    Assoc(base, Escape(s[..q], restricted), EscapeByte(s[q], restricted));
  }

  /** The printer writes a start tag before it knows whether the element has content;
      elementJustOpened says the closing bracket is still owed. The stack holds the names of the
      open elements and depth counts them. */
  class XMLPrinter {
    var buffer: Bytes
    var elementJustOpened: bool
    var stack: seq<Bytes>
    var depth: int

    constructor ()
      ensures buffer == [] && !elementJustOpened && stack == [] && depth == 0
    {
      buffer, elementJustOpened, stack, depth := [], false, [], 0;
    }

    /** The output with the owed bracket paid. */
    ghost function Sealed(): Bytes
      reads this
    {
      buffer + if elementJustOpened then [GREATER] else []
    }

    method Write(data: Bytes)
      modifies this`buffer
      ensures buffer == old(buffer) + data
    {
      buffer := buffer + data;
    }

    method SealElementIfJustOpened()
      modifies this`buffer, this`elementJustOpened
      ensures buffer == old(Sealed()) && !elementJustOpened
    {
      if !elementJustOpened {
        assert buffer + [] == buffer;
        return;
      }
      elementJustOpened := false;
      Write([GREATER]);
    }

    /** The entity loop of PrintString. */
    method WriteEntity(b: Byte, restricted: bool)
      requires NeedsEntity(b, restricted)
      modifies this`buffer
      ensures buffer == old(buffer) + EscapeByte(b, restricted)
    {
      EveryFlaggedByteHasEntity(b, restricted);
      var i := 0;
      while ENTITIES[i].value != b
        invariant 0 <= i < |ENTITIES| && EntityFor(b, 0) == EntityFor(b, i)
        decreases |ENTITIES| - i
      {
        i := i + 1;
      }
      Write([AMP]);
      Write(ENTITIES[i].pattern);
      Write([SEMICOLON]);
    }

    /** PrintString looks for runs of bytes between entities and writes each run at once. */
    method PrintString(s: Bytes, restricted: bool)
      modifies this`buffer
      ensures buffer == old(buffer) + Escape(s, restricted)
    {
      var p, q := 0, 0;
      ghost var base := buffer;
      assert Escape(s[..0], restricted) == [];
      while q < |s|
        invariant 0 <= p <= q <= |s|
        invariant forall i :: p <= i < q ==> !NeedsEntity(s[i], restricted)
        invariant buffer == base + Escape(s[..p], restricted)
      {
        if NeedsEntity(s[q], restricted) {
          RunPrinted(base, s, p, q, restricted);
          Write(s[p..q]);
          BytePrinted(base, s, q, restricted);
          WriteEntity(s[q], restricted);
          p := q + 1;
        }
        q := q + 1;
      }
      RunPrinted(base, s, p, q, restricted);
      assert s[..q] == s;
      Write(s[p..q]);
    }

    method OpenElement(name: Bytes)
      modifies this
      ensures buffer == old(Sealed()) + [LESS] + name
      ensures elementJustOpened && stack == old(stack) + [name] && depth == old(depth) + 1
    {
      SealElementIfJustOpened();
      stack := stack + [name];
      Write([LESS]);
      Write(name);
      elementJustOpened := true;
      depth := depth + 1;
    }

    method PushAttribute(a: Attribute)
      modifies this`buffer
      ensures buffer == old(buffer) + PrintAttribute(a)
    {
      ghost var base := buffer;
      Write([SPACE]);
      Write(a.name);
      Assoc(base, [SPACE], a.name);
      Write([EQUALS, DOUBLE_QUOTE]);
      Assoc(base, [SPACE] + a.name, [EQUALS, DOUBLE_QUOTE]);
      PrintString(a.value, false);
      Assoc(base, [SPACE] + a.name + [EQUALS, DOUBLE_QUOTE], Escape(a.value, false));
      Write([DOUBLE_QUOTE]);
      Assoc(base, [SPACE] + a.name + [EQUALS, DOUBLE_QUOTE] + Escape(a.value, false), [DOUBLE_QUOTE]);
    }

    method CloseElement()
      requires stack != []
      modifies this
      ensures buffer == old(buffer) + if old(elementJustOpened) then [SLASH, GREATER]
                                      else EndTag(old(stack)[|old(stack)| - 1])
      ensures !elementJustOpened && stack == old(stack)[..|old(stack)| - 1] && depth == old(depth) - 1
    {
      depth := depth - 1;
      var name := stack[|stack| - 1];
      stack := stack[..|stack| - 1];
      if elementJustOpened {
        Write([SLASH, GREATER]);
      } else {
        Write([LESS, SLASH]);
        Write(name);
        Write([GREATER]);
      }
      elementJustOpened := false;
    }

    method PushText(value: Bytes, cdata: bool)
      modifies this`buffer, this`elementJustOpened
      ensures buffer == old(Sealed()) + PrintNode(Text(value, cdata)) && !elementJustOpened
    {
      SealElementIfJustOpened();
      if cdata {
        Write(CDATA_HEADER);
        Write(value);
        Write(CDATA_END);
      } else {
        PrintString(value, true);
      }
    }

    /** PushComment, PushDeclaration and PushUnknown. */
    method PushMarkup(n: Node)
      requires n.Comment? || n.Declaration? || n.Unknown?
      modifies this`buffer, this`elementJustOpened
      ensures buffer == old(Sealed()) + PrintNode(n) && !elementJustOpened
    {
      SealElementIfJustOpened();
      Write(if n.Comment? then COMMENT_HEADER else if n.Declaration? then DECLARATION_HEADER else UNKNOWN_HEADER);
      Write(n.value);
      Write(if n.Comment? then COMMENT_END else if n.Declaration? then DECLARATION_END else [GREATER]);
    }

    method PushAttributes(attributes: seq<Attribute>)
      modifies this`buffer
      ensures buffer == old(buffer) + PrintAttributes(attributes)
    {
      var i := 0;
      assert attributes[0..] == attributes;
      while i < |attributes|
        invariant 0 <= i <= |attributes|
        invariant buffer + PrintAttributes(attributes[i..]) == old(buffer) + PrintAttributes(attributes)
      {
        NextAttribute(attributes, i, buffer);
        PushAttribute(attributes[i]);
        i := i + 1;
      }
    }

    /** XMLNode::Accept with this printer as the visitor: whatever the printer still owed, the
        node comes out as PrintNode says and the printer is left as balanced as it was. */
    method Accept(n: Node)
      modifies this
      ensures buffer == old(Sealed()) + PrintNode(n) && !elementJustOpened
      ensures stack == old(stack) && depth == old(depth)
      decreases n, 1
    {
      match n
      case Element(name, attributes, children) =>
        AcceptElement(n);
      case Text(value, cdata) => PushText(value, cdata);
      case Comment(_) => PushMarkup(n);
      case Declaration(_) => PushMarkup(n);
      case Unknown(_) => PushMarkup(n);
    }

    /** VisitEnter, the children, VisitExit. */
    method AcceptElement(n: Node)
      requires n.Element?
      modifies this
      ensures buffer == old(Sealed()) + PrintNode(n) && !elementJustOpened
      ensures stack == old(stack) && depth == old(depth)
      decreases n, 0
    {
      ghost var base := Sealed();
      OpenElement(n.name);
      Assoc(base, [LESS], n.name);
      PushAttributes(n.attributes);
      ghost var head := [LESS] + n.name + PrintAttributes(n.attributes);
      Assoc(base, [LESS] + n.name, PrintAttributes(n.attributes));
      assert buffer == base + head && stack[|stack| - 1] == n.name;
      AcceptAll(n.children);
      CloseElement();
      if n.children == [] {
        Assoc(base, head, [SLASH, GREATER]);
      } else {
        Assoc(base + head, [GREATER], PrintNodes(n.children));
        Assoc(base + head, [GREATER] + PrintNodes(n.children), EndTag(n.name));
        Assoc(base, head, [GREATER] + PrintNodes(n.children) + EndTag(n.name));
      }
    }

    method AcceptAll(ns: seq<Node>)
      modifies this
      ensures ns == [] ==> buffer == old(buffer) && elementJustOpened == old(elementJustOpened)
      ensures ns != [] ==> buffer == old(Sealed()) + PrintNodes(ns) && !elementJustOpened
      ensures stack == old(stack) && depth == old(depth)
      decreases ns, 0
    {
      hide PrintNode, PrintNodes;
      if ns != [] {
        ghost var base := Sealed();
        Accept(ns[0]);
        AcceptAll(ns[1..]);
        FirstNode(base, ns);
      }
    }

    /** XMLDocument::Accept, with the byte order mark written first. */
    method Print(d: Document)
      requires !elementJustOpened
      modifies this
      ensures buffer == old(buffer) + PrintDocument(d)
      ensures !elementJustOpened && stack == old(stack) && depth == old(depth)
    {
      if d.bom {
        Write(BOM);
      }
      AcceptAll(d.children);
    }
  }
}
