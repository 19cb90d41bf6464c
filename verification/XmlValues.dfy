/** What becomes of values that are printed and read again. */
module XmlValues {
  import opened Common
  import opened XmlChars
  import opened XmlText
  import opened XmlScan
  import opened XmlParser
  import opened XmlProductions
  import opened XmlPrinter

  predicate NoCr(v: Bytes) {
    forall i :: 0 <= i < |v| ==> v[i] != CR
  }

  /** No NUL, which would end the string, and no CR, which parsing turns into LF. */
  predicate Clean(v: Bytes) {
    NoNul(v) && NoCr(v)
  }

  // ---- line ends ----

  /** How many bytes one line end or other byte takes. */
  function Width(v: Bytes): (n: nat)
    requires v != []
    ensures 1 <= n <= |v|
  {
    if |v| > 1 && ((v[0] == CR && v[1] == LF) || (v[0] == LF && v[1] == CR)) then 2 else 1
  }

  function LineByte(b: Byte): Byte {
    if b == CR then LF else b
  }

  /** XML 1.0 section 2.11, as the code has it: every line end becomes one LF. */
  function LineEnds(v: Bytes): Bytes
    decreases |v|
  {
    if v == [] then [] else [LineByte(v[0])] + LineEnds(v[Width(v)..])
  }

  lemma {:induction false} LineEndsClean(v: Bytes)
    ensures NoCr(LineEnds(v)) && (NoNul(v) ==> Clean(LineEnds(v)))
    decreases |v|
  {
    if v != [] {
      LineEndsClean(v[Width(v)..]);
    }
  }

  lemma {:induction false} LineEndsFixed(v: Bytes)
    requires NoCr(v)
    ensures LineEnds(v) == v
    decreases |v|
  {
    if v != [] {
      LineEndsFixed(v[1..]);
      assert Width(v) == 1 && v == [v[0]] + v[1..];
    }
  }

  /** Line ends are the only thing that changes, so what has none is unchanged. */
  lemma LineEndsChange(v: Bytes)
    ensures LineEnds(v) == v <==> NoCr(v)
  {
    LineEndsClean(v);
    if NoCr(v) {
      LineEndsFixed(v);
    }
  }

  /** A text without line ends starts the normalised value only if it starts the value. */
  lemma {:induction false} PrefixOfLineEnds(x: Bytes, v: Bytes, t: Bytes)
    requires forall i :: 0 <= i < |x| ==> x[i] != CR && x[i] != LF
    requires x <= LineEnds(v) + t
    ensures x <= v + t
    decreases |v|
  {
    if v == [] || x == [] {
      assert v == [] ==> LineEnds(v) + t == t && v + t == t;
    } else {
      var s := LineEnds(v) + t;
      assert s[0] == LineByte(v[0]) && x[0] == s[0];
      assert Width(v) == 1;
      assert s[1..] == LineEnds(v[1..]) + t;
      PrefixTail(x, s);
      PrefixOfLineEnds(x[1..], v[1..], t);
      PrefixCons(x, v, t);
    }
  }

  lemma PrefixTail(x: Bytes, s: Bytes)
    requires x <= s && x != []
    ensures x[1..] <= s[1..]
  {
    assert s[1..][..|x| - 1] == s[..|x|][1..];
  }

  lemma PrefixCons(x: Bytes, v: Bytes, t: Bytes)
    requires x != [] && v != [] && x[0] == v[0] && x[1..] <= v[1..] + t
    ensures x <= v + t
  {
    assert (v + t)[1..] == v[1..] + t && x == [x[0]] + x[1..];
    assert (v + t)[..|x|] == [v[0]] + (v[1..] + t)[..|x| - 1];
  }

  /** Normalising line ends brings no terminator about. */
  lemma {:induction false} LineEndsEndAt(v: Bytes, tag: Bytes)
    requires EndsAt(v, tag) && forall i :: 0 <= i < |tag| ==> tag[i] != CR && tag[i] != LF
    ensures EndsAt(LineEnds(v), tag)
    decreases |v|
  {
    if v != [] {
      var w := LineEnds(v);
      EndsAtBehind(v, tag, Width(v));
      LineEndsEndAt(v[Width(v)..], tag);
      forall i | 0 <= i < |w| ensures !(tag <= (w + tag)[i..]) {
        if i == 0 {
          assert (w + tag)[0..] == w + tag && (v + tag)[0..] == v + tag;
          if tag <= w + tag {
            PrefixOfLineEnds(tag, v, tag);
          }
        } else {
          assert (w + tag)[i..] == (LineEnds(v[Width(v)..]) + tag)[i - 1..];
        }
      }
    }
  }

  lemma EndsAtBehind(v: Bytes, tag: Bytes, k: nat)
    requires EndsAt(v, tag) && k <= |v|
    ensures EndsAt(v[k..], tag)
  {
    forall i | 0 <= i < |v[k..]| ensures !(tag <= (v[k..] + tag)[i..]) {
      assert (v[k..] + tag)[i..] == (v + tag)[k + i..];
    }
  }

  // ---- escaped values ----

  lemma EntityAtFront(i: nat, rest: Bytes)
    requires i < |ENTITIES|
    ensures FindEntity(ENTITIES[i].pattern + [SEMICOLON] + rest, 0) == Some(ENTITIES[i])
  {
    var s := ENTITIES[i].pattern + [SEMICOLON] + rest;
    assert Names(ENTITIES[i], s);
    forall j | 0 <= j < i ensures !Names(ENTITIES[j], s) {
      PatternsDiffer(j, i, rest);
    }
    FirstMatch(s, i, 0);
  }

  /** No entity name with its semicolon is a prefix of a later one. */
  lemma PatternsDiffer(j: nat, i: nat, rest: Bytes)
    requires j < i < |ENTITIES|
    ensures !Names(ENTITIES[j], ENTITIES[i].pattern + [SEMICOLON] + rest)
  {
    var a, b := ENTITIES[j].pattern, ENTITIES[i].pattern;
    var s := b + [SEMICOLON] + rest;
    assert a[0] != b[0] || a[1] != b[1];
    assert s[0] == b[0] && s[1] == b[1];
    assert (a + [SEMICOLON])[0] == a[0] && (a + [SEMICOLON])[1] == a[1];
  }

  lemma {:induction false} FirstMatch(s: Bytes, i: nat, from: nat)
    requires from <= i < |ENTITIES| && Names(ENTITIES[i], s)
    requires forall j :: from <= j < i ==> !Names(ENTITIES[j], s)
    ensures FindEntity(s, from) == Some(ENTITIES[i])
    decreases i - from
  {
    if from < i {
      FirstMatch(s, i, from + 1);
    }
  }

  lemma EscapedEntityPiece(b: Byte, restricted: bool, rest: Bytes)
    requires NeedsEntity(b, restricted)
    ensures NextPiece(EscapeByte(b, restricted) + rest, TEXT_FLAGS) == Piece(|EscapeByte(b, restricted)|, [b])
  {
    EveryFlaggedByteHasEntity(b, restricted);
    var e := EntityFor(b, 0).value;
    var i :| 0 <= i < |ENTITIES| && ENTITIES[i] == e;
    EntityTextPiece(i, e, rest);
  }

  lemma EntityTextPiece(i: nat, e: Entity, rest: Bytes)
    requires i < |ENTITIES| && ENTITIES[i] == e
    ensures NextPiece(EntityText(e) + rest, TEXT_FLAGS) == Piece(|e.pattern| + 2, [e.value])
  {
    var s := EntityText(e) + rest;
    assert s[1..] == e.pattern + [SEMICOLON] + rest;
    EntityAtFront(i, rest);
    assert s[0] == AMP && s[1] == e.pattern[0] != HASH;
    NamedPiece(s, e);
  }

  lemma NamedPiece(s: Bytes, e: Entity)
    requires |s| > 1 && s[0] == AMP && s[1] != HASH && FindEntity(s[1..], 0) == Some(e)
    ensures NextPiece(s, TEXT_FLAGS) == Piece(|e.pattern| + 2, [e.value])
  {
  }

  /** The piece at the front of an escaped value. */
  function FrontOfEscape(v: Bytes, restricted: bool): Piece
    requires v != []
  {
    Piece(if Width(v) == 2 then 2 else |EscapeByte(v[0], restricted)|, [LineByte(v[0])])
  }

  lemma EscapedFirst(v: Bytes, restricted: bool)
    requires v != []
    ensures Escape(v, restricted) != []
    ensures Escape(v, restricted)[0] == v[0] || (Escape(v, restricted)[0] == AMP && NeedsEntity(v[0], restricted))
  {
    EveryFlaggedByteHasEntityIf(v[0], restricted);
  }

  lemma EveryFlaggedByteHasEntityIf(b: Byte, restricted: bool)
    ensures EscapeByte(b, restricted) != []
    ensures EscapeByte(b, restricted)[0] == b || (EscapeByte(b, restricted)[0] == AMP && NeedsEntity(b, restricted))
  {
  }

  lemma EscapedFront(v: Bytes, restricted: bool)
    requires v != []
    ensures NextPiece(Escape(v, restricted), TEXT_FLAGS) == FrontOfEscape(v, restricted)
  {
    var rest := Escape(v[1..], restricted);
    if NeedsEntity(v[0], restricted) {
      EscapedEntityPiece(v[0], restricted, rest);
    } else {
      if |v| > 1 {
        EscapedFirst(v[1..], restricted);
      }
      PlainFront([v[0]] + rest, v, restricted);
    }
  }

  /** The front piece, from the first two bytes of what was printed. */
  lemma PlainFront(s: Bytes, v: Bytes, restricted: bool)
    requires v != [] && !NeedsEntity(v[0], restricted) && s != [] && s[0] == v[0]
    requires |v| == 1 ==> |s| == 1
    requires |v| > 1 ==> |s| > 1 && (s[1] == v[1] || (s[1] == AMP && NeedsEntity(v[1], restricted)))
    ensures NextPiece(s, TEXT_FLAGS) == FrontOfEscape(v, restricted)
  {
  }

  lemma EscapedRest(v: Bytes, restricted: bool)
    requires v != []
    ensures var n := Used(FrontOfEscape(v, restricted));
            n <= |Escape(v, restricted)| && Escape(v, restricted)[n..] == Escape(v[Width(v)..], restricted)
  {
    if Width(v) == 2 {
      EscapedPair(v, restricted);
    } else {
      Behind(EscapeByte(v[0], restricted), Escape(v[1..], restricted));
    }
  }

  lemma EscapedPair(v: Bytes, restricted: bool)
    requires |v| > 1 && Width(v) == 2
    ensures Escape(v, restricted) == [v[0], v[1]] + Escape(v[2..], restricted)
    ensures |Escape(v, restricted)| >= 2 && Escape(v, restricted)[2..] == Escape(v[2..], restricted)
  {
    EscapedPlain(v, restricted);
    assert v[1..][0] == v[1] && v[1..][1..] == v[2..];
    EscapedPlain(v[1..], restricted);
    hide Escape;
    Assoc([v[0]], [v[1]], Escape(v[2..], restricted));
    assert [v[0]] + [v[1]] == [v[0], v[1]];
    Behind([v[0], v[1]], Escape(v[2..], restricted));
  }

  lemma EscapedPlain(v: Bytes, restricted: bool)
    requires v != [] && !NeedsEntity(v[0], restricted)
    ensures Escape(v, restricted) == [v[0]] + Escape(v[1..], restricted)
  {
  }

  lemma Behind(a: Bytes, b: Bytes)
    ensures (a + b)[|a|..] == b
  {
  }

  function TextPieces(v: Bytes, restricted: bool): seq<Piece>
    decreases |v|
  {
    if v == [] then [] else [FrontOfEscape(v, restricted)] + TextPieces(v[Width(v)..], restricted)
  }

  lemma {:induction false} EscapePieces(v: Bytes, restricted: bool)
    ensures Pieces(Escape(v, restricted), TEXT_FLAGS) == TextPieces(v, restricted)
    decreases |v|
  {
    if v != [] {
      hide NextPiece;
      EscapedFirst(v, restricted);
      EscapedFront(v, restricted);
      EscapedRest(v, restricted);
      EscapePieces(v[Width(v)..], restricted);
      FrontPiece(Escape(v, restricted), TEXT_FLAGS, FrontOfEscape(v, restricted), Escape(v[Width(v)..], restricted),
                 Pieces(Escape(v, restricted), TEXT_FLAGS), TextPieces(v[Width(v)..], restricted));
    }
  }

  lemma {:induction false} TextPiecesPlain(v: Bytes, restricted: bool)
    ensures AllRecognised(TextPieces(v, restricted))
    ensures Plain(TextPieces(v, restricted)) == LineEnds(v)
    decreases |v|
  {
    if v != [] {
      TextPiecesPlain(v[Width(v)..], restricted);
      assert TextPieces(v, restricted)[1..] == TextPieces(v[Width(v)..], restricted);
    }
  }

  /** What escaping wrote, decoding in place reads: for every string without NUL and both entity
      sets, the string with its line ends normalised. */
  lemma EscapeThenDecode(v: Bytes, restricted: bool)
    requires NoNul(v)
    ensures Value(Escape(v, restricted), TEXT_FLAGS) == LineEnds(v)
  {
    hide Pieces, InPlace, TextPieces, Escape, LineEnds;
    EscapePieces(v, restricted);
    TextPiecesPlain(v, restricted);
    RecognisedDecodesFaithfully(Escape(v, restricted), TEXT_FLAGS);
    LineEndsClean(v);
    assert NoNul(LineEnds(v));
  }

  // ---- values as they are ----

  /** One piece per line end or other byte. */
  function RawPiecesOf(v: Bytes): seq<Piece>
    decreases |v|
  {
    if v == [] then [] else [Piece(Width(v), [LineByte(v[0])])] + RawPiecesOf(v[Width(v)..])
  }

  lemma {:induction false} RawPieces(v: Bytes)
    ensures Pieces(v, RAW_FLAGS) == RawPiecesOf(v)
    decreases |v|
  {
    if v != [] {
      RawPieces(v[Width(v)..]);
      RawPiece(v);
      FrontPiece(v, RAW_FLAGS, Piece(Width(v), [LineByte(v[0])]), v[Width(v)..],
                 Pieces(v, RAW_FLAGS), RawPiecesOf(v[Width(v)..]));
    }
  }

  lemma RawPiece(v: Bytes)
    requires v != []
    ensures NextPiece(v, RAW_FLAGS) == Piece(Width(v), [LineByte(v[0])])
  {
  }

  lemma {:induction false} RawPiecesPlain(v: Bytes)
    ensures AllRecognised(RawPiecesOf(v)) && Plain(RawPiecesOf(v)) == LineEnds(v)
    decreases |v|
  {
    if v != [] {
      RawPiecesPlain(v[Width(v)..]);
      assert RawPiecesOf(v)[1..] == RawPiecesOf(v[Width(v)..]);
    }
  }

  /** Values that are not entity-processed only have their line ends normalised. */
  lemma RawValue(v: Bytes)
    requires NoNul(v)
    ensures Value(v, RAW_FLAGS) == LineEnds(v)
  {
    hide Pieces, InPlace, RawPiecesOf, LineEnds;
    RawPieces(v);
    RawPiecesPlain(v);
    RecognisedDecodesFaithfully(v, RAW_FLAGS);
    LineEndsClean(v);
    assert NoNul(LineEnds(v));
  }

  lemma CleanValue(v: Bytes)
    requires Clean(v)
    ensures Value(v, RAW_FLAGS) == v
  {
    RawValue(v);
    LineEndsChange(v);
  }

  // ---- delimiters ----

  /** Escaped text never shows its delimiter: '<' in text, either quote in attribute values. */
  lemma {:induction false} EscapeHidesDelimiter(v: Bytes, restricted: bool, b: Byte)
    requires b == LESS || (!restricted && (b == DOUBLE_QUOTE || b == SINGLE_QUOTE))
    ensures Absent(b, Escape(v, restricted))
  {
    if v != [] {
      EscapeHidesDelimiter(v[1..], restricted, b);
      EscapedByteHidesDelimiter(v[0], restricted, b);
    }
  }

  lemma EscapedByteHidesDelimiter(c: Byte, restricted: bool, b: Byte)
    requires b == LESS || (!restricted && (b == DOUBLE_QUOTE || b == SINGLE_QUOTE))
    ensures Absent(b, EscapeByte(c, restricted))
  {
  }

  /** Escape round trip with delimiter: followed by its delimiter, an escaped string is cut exactly
      there and decodes to the original with its line ends normalised; so to the original if and
      only if it contains no CR. */
  lemma EscapeRoundTrip(v: Bytes, restricted: bool, b: Byte, rest: Bytes)
    requires NoNul(v)
    requires b == LESS || (!restricted && (b == DOUBLE_QUOTE || b == SINGLE_QUOTE))
    ensures ParseText(Escape(v, restricted) + [b] + rest, [b]) == Some((Escape(v, restricted), rest))
    ensures Value(Escape(v, restricted), TEXT_FLAGS) == LineEnds(v)
    ensures Value(Escape(v, restricted), TEXT_FLAGS) == v <==> NoCr(v)
  {
    hide Escape, Value, LineEnds, ParseText;
    EscapeHidesDelimiter(v, restricted, b);
    AbsentEndsAt(b, Escape(v, restricted));
    ParseTextFindsFirst(Escape(v, restricted), [b], rest);
    EscapeThenDecode(v, restricted);
    LineEndsChange(v);
  }
}
