/** The byte constants, byte classes, digits and entities of the model, told in characters: nothing
    here depends on how the code compares or computes them. */
module XmlLiterals {
  import opened Common
  import opened XmlChars
  import opened XmlText
  import opened XmlParser
  import opened XmlPrinter
  import opened XmlValues

  predicate IsAscii(s: string) {
    forall i :: 0 <= i < |s| ==> s[i] < 128 as char
  }

  /** The bytes of a text in ASCII. */
  function Ascii(s: string): (r: Bytes)
    requires IsAscii(s)
    ensures |r| == |s| && forall i :: 0 <= i < |s| ==> r[i] == s[i] as int as Byte
  {
    seq(|s|, i requires 0 <= i < |s| => s[i] as int as Byte)
  }

  // ---- digits ----

  /** The character for a digit. */
  function DigitChar(k: nat, upper: bool): char
    requires k < 16
  {
    if upper then "0123456789ABCDEF"[k] else "0123456789abcdef"[k]
  }

  lemma DigitChars(k: nat)
    requires k < 16
    ensures k < 10 ==> DigitChar(k, true) as int == DigitChar(k, false) as int == 48 + k
    ensures k >= 10 ==> DigitChar(k, true) as int == 55 + k && DigitChar(k, false) as int == 87 + k
  {
  }

  /** The digits are those characters, upper and lower case alike, and no others. */
  lemma DigitsAre(b: Byte, hex: bool, k: nat)
    requires k < 16
    ensures DigitValue(b, hex) == Some(k) <==>
              (hex || k < 10) && (b as int == DigitChar(k, true) as int || b as int == DigitChar(k, false) as int)
  {
    DigitChars(k);
  }

  /** A number written down by repeated division, in either case of the letters. */
  function Numeral(n: nat, hex: bool, upper: bool): (r: Bytes)
    ensures r != []
  {
    var base := if hex then 16 else 10;
    (if n < base then [] else Numeral(n / base, hex, upper)) + [NumeralDigit(n % base, upper)]
  }

  function NumeralDigit(k: nat, upper: bool): Byte
    requires k < 16
  {
    DigitChars(k);
    DigitChar(k, upper) as int as Byte
  }

  lemma {:induction false} NumeralIsRead(n: nat, hex: bool, upper: bool)
    ensures AllDigits(Numeral(n, hex, upper), hex) && Positional(Numeral(n, hex, upper), hex) == n
    decreases n
  {
    hide DigitValue, NumeralDigit, Positional;
    var base := if hex then 16 else 10;
    var d := NumeralDigit(n % base, upper);
    var init := if n < base then [] else Numeral(n / base, hex, upper);
    assert Numeral(n, hex, upper) == init + [d];
    DigitIsRead(n % base, hex, upper);
    if n < base {
      NothingIsZero(hex);
    } else {
      NumeralIsRead(n / base, hex, upper);
    }
    DigitBehind(init, d, hex, n % base);
  }

  lemma NothingIsZero(hex: bool)
    ensures AllDigits([], hex) && Positional([], hex) == 0
  {
  }

  lemma DigitIsRead(k: nat, hex: bool, upper: bool)
    requires k < if hex then 16 else 10
    ensures DigitValue(NumeralDigit(k, upper), hex) == Some(k)
  {
    DigitChars(k);
    DigitsAre(NumeralDigit(k, upper), hex, k);
  }

  lemma DigitBehind(init: Bytes, d: Byte, hex: bool, k: nat)
    requires AllDigits(init, hex) && DigitValue(d, hex) == Some(k)
    ensures AllDigits(init + [d], hex)
    ensures Positional(init + [d], hex) == Positional(init, hex) * (if hex then 16 else 10) + k
  {
    hide DigitValue;
    var ds := init + [d];
    assert ds[..|ds| - 1] == init && ds[|ds| - 1] == d;
  }

  /** "&#" or "&#x", a numeral and ";". */
  function NumeralRef(n: nat, hex: bool, upper: bool): (r: Bytes)
    ensures |r| > 2
  {
    (if hex then Ascii("&#x") else Ascii("&#")) + Numeral(n, hex, upper) + Ascii(";")
  }

  lemma NumeralRefIs(n: nat, hex: bool, upper: bool, rest: Bytes)
    ensures NumeralRef(n, hex, upper) + rest == Intro(hex) + Numeral(n, hex, upper) + ([SEMICOLON] + rest)
    ensures |NumeralRef(n, hex, upper)| == |Intro(hex)| + |Numeral(n, hex, upper)| + 1
  {
    hide Numeral;
    assert Ascii("&#x") == Intro(true) && Ascii("&#") == Intro(false) && Ascii(";") == [SEMICOLON];
  }

  /** XML 1.0 section 4.1: a reference that holds a number below 2^32, written in decimal or in
      hexadecimal with letters of either case, stands for the UTF-8 encoding of that number. */
  lemma NumeralReference(n: nat, hex: bool, upper: bool, rest: Bytes)
    requires n < 0x1_0000_0000
    ensures NextPiece(NumeralRef(n, hex, upper) + rest, TEXT_FLAGS) == Piece(|NumeralRef(n, hex, upper)|, Utf8(n))
  {
    hide Numeral, Ascii, NumeralRef, CharacterRef, Positional, Utf8;
    NumeralIsRead(n, hex, upper);
    NumeralRefIs(n, hex, upper, rest);
    CharacterRefMeaning(Numeral(n, hex, upper), hex, rest);
  }

  // ---- byte classes and delimiters ----

  function Char(b: Byte): char {
    b as int as char
  }

  /** isspace and isalpha of the C locale; bytes from 128 on belong to names. */
  lemma ByteClasses(b: Byte)
    ensures IsWhiteSpace(b) <==>
              Char(b) == ' ' || Char(b) == '\t' || Char(b) == '\n' || Char(b) == '\r' || b == 11 || b == 12
    ensures IsNameStart(b) <==>
              'A' <= Char(b) <= 'Z' || 'a' <= Char(b) <= 'z' || Char(b) == ':' || Char(b) == '_' || b >= 128
    ensures IsNameChar(b) <==> IsNameStart(b) || '0' <= Char(b) <= '9' || Char(b) == '.' || Char(b) == '-'
  {
  }

  lemma Delimiters()
    ensures DECLARATION_HEADER == Ascii("<?") && DECLARATION_END == Ascii("?>")
    ensures COMMENT_HEADER == Ascii("<!--") && COMMENT_END == Ascii("-->")
    ensures CDATA_HEADER == Ascii("<![CDATA[") && CDATA_END == Ascii("]]>")
    ensures UNKNOWN_HEADER == Ascii("<!") && BOM == Utf8(0xFEFF)
    ensures [LESS] == Ascii("<") && [GREATER] == Ascii(">") && [SLASH] == Ascii("/") && [EQUALS] == Ascii("=")
    ensures [DOUBLE_QUOTE] == Ascii("\"") && [SINGLE_QUOTE] == Ascii("'") && [AMP] == Ascii("&")
    ensures [SEMICOLON] == Ascii(";") && [SPACE] == Ascii(" ") && [CR] == Ascii("\r") && [LF] == Ascii("\n")
  {
  }

  // ---- the predefined entities ----

  /** The five predefined entities of XML 1.0 section 4.6. */
  function Predefined(k: nat): (string, char)
    requires k < 5
  {
    [("&lt;", '<'), ("&gt;", '>'), ("&amp;", '&'), ("&apos;", '\''), ("&quot;", '"')][k]
  }

  /** Where each of them stands in the table. */
  function Place(k: nat): nat
    requires k < 5
  {
    [3, 4, 1, 2, 0][k]
  }

  lemma TableEntry(k: nat)
    requires k < 5
    ensures IsAscii(Predefined(k).0) && Place(k) < |ENTITIES| && (Predefined(k).1 as int) < 128
    ensures EntityText(ENTITIES[Place(k)]) == Ascii(Predefined(k).0)
    ensures ENTITIES[Place(k)].value == Predefined(k).1 as int as Byte
  {
    hide EntityText, Ascii;
    match k
    case 0 => TextOfLess();
    case 1 => TextOfGreater();
    case 2 => TextOfAmp();
    case 3 => TextOfApos();
    case _ => TextOfQuot();
  }

  lemma TextOfLess()
    ensures EntityText(ENTITIES[3]) == Ascii("&lt;")
  {
  }

  lemma TextOfGreater()
    ensures EntityText(ENTITIES[4]) == Ascii("&gt;")
  {
  }

  lemma TextOfAmp()
    ensures EntityText(ENTITIES[1]) == Ascii("&amp;")
  {
  }

  lemma TextOfApos()
    ensures EntityText(ENTITIES[2]) == Ascii("&apos;")
  {
  }

  lemma TextOfQuot()
    ensures EntityText(ENTITIES[0]) == Ascii("&quot;")
  {
  }

  /** Each of them is decoded to its character, whatever follows. */
  lemma PredefinedIsDecoded(k: nat, rest: Bytes)
    requires k < 5
    ensures IsAscii(Predefined(k).0) && (Predefined(k).1 as int) < 128
    ensures var text := Ascii(Predefined(k).0);
            text + rest != [] && NextPiece(text + rest, TEXT_FLAGS) == Piece(|text|, [Predefined(k).1 as int as Byte])
  {
    hide NextPiece, Predefined, Place;
    TableEntry(k);
    EntityTextPiece(Place(k), ENTITIES[Place(k)], rest);
  }

  lemma EveryPlace(i: nat)
    requires i < |ENTITIES|
    ensures exists k: nat :: k < 5 && Place(k) == i
  {
    assert Place(0) == 3 && Place(1) == 4 && Place(2) == 1 && Place(3) == 2 && Place(4) == 0;
  }

  lemma NamesIsPrefix(e: Entity, s: Bytes)
    requires s != [] && s[0] == AMP
    ensures Names(e, s[1..]) <==> EntityText(e) <= s
  {
    var t := EntityText(e);
    assert t[1..] == e.pattern + [SEMICOLON] && t == [AMP] + t[1..] && s == [AMP] + s[1..];
    if t <= s {
      assert forall i :: 0 <= i < |t| - 1 ==> t[1..][i] == t[i + 1] == s[i + 1] == s[1..][i];
    }
  }

  /** And no other name is an entity: an ampersand that begins neither one of the five nor a
      character reference is skipped. */
  lemma NothingElseIsDecoded(s: Bytes)
    requires |s| > 1 && s[0] == AMP && s[1] != HASH
    requires forall k: nat :: k < 5 ==> IsAscii(Predefined(k).0) && !(Ascii(Predefined(k).0) <= s)
    ensures NextPiece(s, TEXT_FLAGS) == Skipped
  {
    hide Predefined, Place;
    var e := FindEntity(s[1..], 0);
    if e.Some? {
      var i: nat :| i < |ENTITIES| && ENTITIES[i] == e.value;
      EveryPlace(i);
      var k: nat :| k < 5 && Place(k) == i;
      TableEntry(k);
      NamesIsPrefix(e.value, s);
      assert false;
    }
  }

  /** The printer writes them for `<`, `>` and `&`, and in attribute values for both quotes, and
      every other byte as it is. */
  lemma PredefinedIsPrinted(b: Byte, restricted: bool)
    ensures forall k: nat :: k < 5 && b as int == Predefined(k).1 as int && (k < 3 || !restricted) ==>
              IsAscii(Predefined(k).0) && EscapeByte(b, restricted) == Ascii(Predefined(k).0)
    ensures (forall k: nat :: k < 5 && b as int == Predefined(k).1 as int ==> k >= 3 && restricted) ==>
              EscapeByte(b, restricted) == [b]
  {
    forall k: nat | k < 5 && b as int == Predefined(k).1 as int && (k < 3 || !restricted)
      ensures IsAscii(Predefined(k).0) && EscapeByte(b, restricted) == Ascii(Predefined(k).0)
    {
      TableEntry(k);
      EntityOf(Place(k));
      NeedsOne(b, k, restricted);
    }
    assert Predefined(0).1 == '<' && Predefined(1).1 == '>' && Predefined(2).1 == '&';
    assert Predefined(3).1 == '\'' && Predefined(4).1 == '"';
  }

  lemma EntityOf(i: nat)
    requires i < |ENTITIES|
    ensures EntityFor(ENTITIES[i].value, 0) == Some(ENTITIES[i])
  {
  }

  lemma NeedsOne(b: Byte, k: nat, restricted: bool)
    requires k < 5 && b as int == Predefined(k).1 as int && (k < 3 || !restricted)
    ensures NeedsEntity(b, restricted)
  {
  }

  // ---- what the printer writes ----

  lemma PrintedAttribute(a: Attribute)
    ensures PrintAttribute(a) == Ascii(" ") + a.name + Ascii("=\"") + Escape(a.value, false) + Ascii("\"")
  {
    assert Ascii(" ") == [SPACE] && Ascii("=\"") == [EQUALS, DOUBLE_QUOTE] && Ascii("\"") == [DOUBLE_QUOTE];
  }

  lemma PrintedElement(n: Node)
    requires n.Element?
    ensures n.children == [] ==> PrintNode(n) == Ascii("<") + n.name + PrintAttributes(n.attributes) + Ascii("/>")
    ensures n.children != [] ==>
              PrintNode(n) == Ascii("<") + n.name + PrintAttributes(n.attributes)
                              + (Ascii(">") + PrintNodes(n.children) + (Ascii("</") + n.name + Ascii(">")))
  {
    assert Ascii("<") == [LESS] && Ascii("/>") == [SLASH, GREATER] && Ascii(">") == [GREATER];
    assert Ascii("</") == [LESS, SLASH];
  }

  lemma PrintedLeaf(v: Bytes)
    ensures PrintNode(Text(v, false)) == Escape(v, true)
    ensures PrintNode(Text(v, true)) == Ascii("<![CDATA[") + v + Ascii("]]>")
    ensures PrintNode(Comment(v)) == Ascii("<!--") + v + Ascii("-->")
    ensures PrintNode(Declaration(v)) == Ascii("<?") + v + Ascii("?>")
    ensures PrintNode(Unknown(v)) == Ascii("<!") + v + Ascii(">")
  {
    hide Ascii;
    Delimiters();
  }
}
