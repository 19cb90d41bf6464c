/** StrPair: cutting values out of the parse buffer and decoding them in place
    (external/tinyxml2/tinyxml2.cpp lines 212-384). */
module XmlText {
  import opened Common
  import opened XmlChars

  /** NEEDS_ENTITY_PROCESSING and NEEDS_NEWLINE_NORMALIZATION. */
  datatype Flags = Flags(entities: bool, newlines: bool)

  // ---- decoding, as a function of the text ----

  /** What the next step of decoding consumes and yields. Skipped is the branch for an unknown
      entity: both pointers move over one byte and nothing is written. */
  datatype Piece = Piece(used: nat, out: Bytes) | Skipped

  function NextPiece(s: Bytes, f: Flags): (r: Piece)
    requires s != []
    ensures r.Piece? ==> 1 <= r.used <= |s| && |r.out| <= r.used
    ensures r.Skipped? ==> s[0] == AMP
  {
    if f.newlines && s[0] == CR then
      Piece(if |s| > 1 && s[1] == LF then 2 else 1, [LF])
    else if f.newlines && s[0] == LF then
      Piece(if |s| > 1 && s[1] == CR then 2 else 1, [LF])
    else if f.entities && s[0] == AMP then
      if |s| > 1 && s[1] == HASH then
        var r := CharacterRef(s);
        if r.None? then Piece(1, [AMP]) else Piece(r.value.0, r.value.1)
      else
        var e := FindEntity(s[1..], 0);
        if e.None? then Skipped else Piece(|e.value.pattern| + 2, [e.value.value])
    else
      Piece(1, [s[0]])
  }

  /** How far a piece moves the read pointer. */
  function Used(p: Piece): nat {
    if p.Skipped? then 1 else p.used
  }

  /** The bytes a piece stands for, an unknown reference standing for its ampersand. */
  function Meaning(p: Piece): Bytes {
    if p.Skipped? then [AMP] else p.out
  }

  /** No piece writes more than it reads. */
  predicate Fits(ps: seq<Piece>) {
    forall i :: 0 <= i < |ps| ==> |Meaning(ps[i])| <= Used(ps[i])
  }

  function TotalUsed(ps: seq<Piece>): nat {
    if ps == [] then 0 else Used(ps[0]) + TotalUsed(ps[1..])
  }

  /** The pieces decoding cuts a text into. */
  function Pieces(s: Bytes, f: Flags): (ps: seq<Piece>)
    ensures Fits(ps) && TotalUsed(ps) == |s|
    decreases |s|
  {
    if s == [] then []
    else
      var p := NextPiece(s, f);
      [p] + Pieces(s[Used(p)..], f)
  }

  /** The meanings of the pieces, one after the other. */
  function Plain(ps: seq<Piece>): Bytes {
    if ps == [] then [] else Meaning(ps[0]) + Plain(ps[1..])
  }

  /** Decoding read from left to right. */
  function Decode(s: Bytes, f: Flags): Bytes {
    Plain(Pieces(s, f))
  }

  /** What writing the pieces over their own text t leaves, when out has been written already.
      A skipped write keeps what the buffer shows there, which is the original byte. */
  function Overwrite(ps: seq<Piece>, t: Bytes, out: Bytes): (r: Bytes)
    requires Fits(ps) && |out| + TotalUsed(ps) <= |t|
    ensures out <= r && |r| <= |t|
    decreases |ps|
  {
    if ps == [] then out
    else Overwrite(ps[1..], t, out + if ps[0].Skipped? then [t[|out|]] else ps[0].out)
  }

  /** What GetStr leaves in the buffer. */
  function InPlace(t: Bytes, f: Flags): Bytes {
    Overwrite(Pieces(t, f), t, [])
  }

  /** From write position q on, the original text shows an ampersand wherever an unknown
      reference makes the decoder skip a write. */
  predicate SkipsOverAmpersands(ps: seq<Piece>, t: Bytes, q: nat)
    requires Fits(ps) && q + TotalUsed(ps) <= |t|
    decreases |ps|
  {
    ps == [] ||
    ((ps[0].Skipped? ==> t[q] == AMP) && SkipsOverAmpersands(ps[1..], t, q + |Meaning(ps[0])|))
  }

  /** Every ampersand met begins a recognised reference. */
  predicate AllRecognised(ps: seq<Piece>) {
    forall i :: 0 <= i < |ps| ==> ps[i].Piece?
  }

  /** What one piece leaves at write position q of a buffer showing t there. */
  function Written(p: Piece, t: Bytes, q: nat): Bytes
    requires q < |t|
  {
    if p.Skipped? then [t[q]] else p.out
  }

  lemma {:induction false} OverwriteIsPlain(ps: seq<Piece>, t: Bytes, out: Bytes)
    requires Fits(ps) && |out| + TotalUsed(ps) <= |t|
    ensures |Overwrite(ps, t, out)| == |out| + |Plain(ps)|
    ensures Overwrite(ps, t, out)[|out|..] == Plain(ps) <==> SkipsOverAmpersands(ps, t, |out|)
    decreases |ps|
  {
    hide NextPiece;
    if ps != [] {
      var wrote := if ps[0].Skipped? then [t[|out|]] else ps[0].out;
      OverwriteIsPlain(ps[1..], t, out + wrote);
      SplitAfter(Overwrite(ps, t, out), out, wrote, Meaning(ps[0]), Plain(ps[1..]));
    }
  }

  /** r is out, then what was written, then the rest; compare it with what was meant. */
  lemma SplitAfter(r: Bytes, out: Bytes, wrote: Bytes, meant: Bytes, rest: Bytes)
    requires out + wrote <= r && |wrote| == |meant|
    ensures r[|out|..] == meant + rest <==> wrote == meant && r[|out + wrote|..] == rest
  {
    hide NextPiece;
    var tail := r[|out + wrote|..];
    assert r[|out|..] == wrote + tail;
    if wrote + tail == meant + rest {
      assert wrote == (wrote + tail)[..|wrote|] == meant;
      assert tail == (wrote + tail)[|wrote|..] == rest;
    }
  }

  /** The in-place result is the left-to-right decode if and only if every skipped write falls
      on an ampersand of the original text. */
  lemma InPlaceIsDecode(t: Bytes, f: Flags)
    ensures InPlace(t, f) == Decode(t, f) <==> SkipsOverAmpersands(Pieces(t, f), t, 0)
    ensures |InPlace(t, f)| == |Decode(t, f)|
  {
    hide NextPiece;
    OverwriteIsPlain(Pieces(t, f), t, []);
    assert InPlace(t, f)[0..] == InPlace(t, f);
  }

  lemma {:induction false} RecognisedNeverSkips(ps: seq<Piece>, t: Bytes, q: nat)
    requires Fits(ps) && q + TotalUsed(ps) <= |t| && AllRecognised(ps)
    ensures SkipsOverAmpersands(ps, t, q)
    decreases |ps|
  {
    hide NextPiece;
    if ps != [] {
      RecognisedNeverSkips(ps[1..], t, q + |Meaning(ps[0])|);
    }
  }

  /** Text in which every ampersand begins a recognised reference is decoded faithfully. */
  lemma RecognisedDecodesFaithfully(t: Bytes, f: Flags)
    requires AllRecognised(Pieces(t, f))
    ensures InPlace(t, f) == Decode(t, f)
  {
    hide NextPiece;
    RecognisedNeverSkips(Pieces(t, f), t, 0);
    InPlaceIsDecode(t, f);
  }

  /** "&lt;&b;" loses its second ampersand: the decoder leaves "<lb;", not "<&b;". */
  lemma UnknownReferenceIsGarbled()
    ensures var t := [AMP, 108, 116, SEMICOLON, AMP, 98, SEMICOLON];
            && InPlace(t, Flags(true, true)) == [LESS, 108, 98, SEMICOLON]
            && Decode(t, Flags(true, true)) == [LESS, AMP, 98, SEMICOLON]
  {
    hide NextPiece;
    var t: Bytes := [AMP, 108, 116, SEMICOLON, AMP, 98, SEMICOLON];
    var ps := [Piece(4, [LESS]), Skipped, Piece(1, [98]), Piece(1, [SEMICOLON])];
    GarbledPieces(t);
    GarbledPlain(ps);
    GarbledOverwrite(ps, t);
  }

  lemma GarbledPlain(ps: seq<Piece>)
    requires ps == [Piece(4, [LESS]), Skipped, Piece(1, [98]), Piece(1, [SEMICOLON])]
    ensures Plain(ps) == [LESS, AMP, 98, SEMICOLON]
  {
    hide NextPiece;
    assert ps[1..][1..] == ps[2..] && ps[2..][1..] == ps[3..] && ps[3..][1..] == [];
    assert Plain(ps[3..]) == [SEMICOLON];
    assert Plain(ps[2..]) == [98, SEMICOLON];
    assert Plain(ps[1..]) == [AMP, 98, SEMICOLON];
  }

  lemma GarbledOverwrite(ps: seq<Piece>, t: Bytes)
    requires ps == [Piece(4, [LESS]), Skipped, Piece(1, [98]), Piece(1, [SEMICOLON])]
    requires Fits(ps) && TotalUsed(ps) <= |t| && |t| >= 4 && t[1] == 108
    ensures Overwrite(ps, t, []) == [LESS, 108, 98, SEMICOLON]
  {
    hide Overwrite, TotalUsed, Fits, Meaning, NextPiece;
    var p1, p2 := [Skipped, Piece(1, [98]), Piece(1, [SEMICOLON])], [Piece(1, [98]), Piece(1, [SEMICOLON])];
    assert ps[1..] == p1 && p1[1..] == p2;
    OverwriteFirst(ps, t, []);
    assert [] + [LESS] == [LESS];
    OverwriteFirst(p1, t, [LESS]);
    assert [LESS] + [t[1]] == [LESS, 108];
    OverwriteTwo(p2, t, [LESS, 108], 98, SEMICOLON);
    assert [LESS, 108] + [98] + [SEMICOLON] == [LESS, 108, 98, SEMICOLON];
  }

  lemma OverwriteTwo(ps: seq<Piece>, t: Bytes, out: Bytes, a: Byte, b: Byte)
    requires ps == [Piece(1, [a]), Piece(1, [b])] && Fits(ps) && |out| + TotalUsed(ps) <= |t|
    ensures Overwrite(ps, t, out) == out + [a] + [b]
  {
    hide Overwrite, Meaning, NextPiece;
    var last := [Piece(1, [b])];
    assert ps[1..] == last && last[1..] == [];
    OverwriteFirst(ps, t, out);
    OverwriteFirst(last, t, out + [a]);
    NothingWritten([], t, out + [a] + [b]);
  }

  /** Writing the first piece. */
  lemma OverwriteFirst(ps: seq<Piece>, t: Bytes, out: Bytes)
    requires ps != [] && Fits(ps) && |out| + TotalUsed(ps) <= |t| && Used(ps[0]) > 0
    ensures Fits(ps[1..]) && |out| < |t|
    ensures var w := if ps[0].Skipped? then [t[|out|]] else ps[0].out;
            |out + w| + TotalUsed(ps[1..]) <= |t| && Overwrite(ps, t, out) == Overwrite(ps[1..], t, out + w)
  {
    hide NextPiece;
    assert |Meaning(ps[0])| <= Used(ps[0]);
  }

  lemma GarbledPieces(t: Bytes)
    requires t == [AMP, 108, 116, SEMICOLON, AMP, 98, SEMICOLON]
    ensures Pieces(t, Flags(true, true)) == [Piece(4, [LESS]), Skipped, Piece(1, [98]), Piece(1, [SEMICOLON])]
  {
    hide NextPiece;
    FirstGarbledPiece(t);
    SecondGarbledPiece(t[4..]);
    PieceThen(t, Piece(4, [LESS]), t[4..]);
    PieceThen(t[4..], Skipped, t[5..]);
    PlainPiece(t[5..]);
    PieceThen(t[5..], Piece(1, [98]), t[6..]);
    PlainPiece(t[6..]);
    PieceThen(t[6..], Piece(1, [SEMICOLON]), []);
    assert Pieces([], Flags(true, true)) == [];
  }

  lemma PieceThen(s: Bytes, p: Piece, u: Bytes)
    requires s != [] && NextPiece(s, Flags(true, true)) == p && Used(p) <= |s| && s[Used(p)..] == u
    ensures Pieces(s, Flags(true, true)) == [p] + Pieces(u, Flags(true, true))
  {
  }

  lemma PlainPiece(s: Bytes)
    requires s != [] && s[0] != AMP && s[0] != CR && s[0] != LF
    ensures NextPiece(s, Flags(true, true)) == Piece(1, [s[0]])
  {
  }

  lemma FirstGarbledPiece(t: Bytes)
    requires |t| >= 4 && t[..4] == [AMP, 108, 116, SEMICOLON]
    ensures NextPiece(t, Flags(true, true)) == Piece(4, [LESS])
  {
    assert t[0] == t[..4][0] && t[1] == t[..4][1] && t[2] == t[..4][2] && t[3] == t[..4][3];
    assert Names(ENTITIES[3], t[1..]) by { assert [108, 116] + [SEMICOLON] == t[1..][..3]; }
    forall i | 0 <= i < 3 ensures !Names(ENTITIES[i], t[1..]) {
      assert (ENTITIES[i].pattern + [SEMICOLON])[0] != 108;
    }
    assert !Names(ENTITIES[0], t[1..]) && !Names(ENTITIES[1], t[1..]) && !Names(ENTITIES[2], t[1..]);
    assert FindEntity(t[1..], 3) == Some(ENTITIES[3]);
    assert FindEntity(t[1..], 2) == FindEntity(t[1..], 3);
    assert FindEntity(t[1..], 1) == FindEntity(t[1..], 2);
  }

  lemma SecondGarbledPiece(u: Bytes)
    requires u == [AMP, 98, SEMICOLON]
    ensures NextPiece(u, Flags(true, true)) == Skipped
  {
    forall i | 0 <= i < 5 ensures !Names(ENTITIES[i], u[1..]) {
      assert (ENTITIES[i].pattern + [SEMICOLON])[0] != 98;
    }
  }

  // ---- decoding, in the buffer ----

  /** strchr(q, ';') and the digit loop of GetCharacterRef, on the NUL-terminated buffer. */
  method GetCharacterRef(buf: array<Byte>, p: nat, end: nat) returns (r: Option<(nat, Bytes)>)
    requires p + 2 <= end < buf.Length && buf[end] == 0 && NoNul(buf[p..end])
    requires buf[p] == AMP && buf[p + 1] == HASH
    ensures r == CharacterRef(buf[p..end])
  {
    ghost var s := buf[p..end];
    assert forall i :: 0 <= i < |s| ==> s[i] == buf[p + i];
    assert forall i :: p <= i < end ==> buf[i] == s[i - p] && buf[i] != 0;
    if buf[p + 2] == 0 {
      return Some((1, []));
    }
    var hex := buf[p + 2] == LOWER_X;
    var from := if hex then p + 3 else p + 2;
    if buf[from] == 0 {
      return None;
    }
    var k := from;
    while buf[k] != 0 && buf[k] != SEMICOLON
      invariant from <= k <= end
      invariant forall j :: from <= j < k ==> buf[j] != SEMICOLON
      decreases end - k
    {
      k := k + 1;
    }
    if buf[k] == 0 {
      return None;
    }
    var ucs := SumDigits(buf, p, end, k, hex);
    if ucs.None? {
      return None;
    }
    return Some((k - p + 1, Utf8(ucs.value)));
  }

  method SumDigits(buf: array<Byte>, p: nat, end: nat, semi: nat, hex: bool) returns (ucs: Option<nat>)
    requires p + 2 <= semi < end < buf.Length
    requires hex ==> p + 3 <= semi && buf[p + 2] == LOWER_X
    requires !hex ==> buf[p + 1] == HASH
    ensures ucs == ScanBack(buf[p..end], semi - p - 1, if hex then 2 else 1, hex, 1)
  {
    ghost var s := buf[p..end];
    ghost var stopAt := if hex then 2 else 1;
    assert forall i :: 0 <= i < |s| ==> s[i] == buf[p + i];
    ghost var whole := ScanBack(s, semi - p - 1, stopAt, hex, 1);
    var q, mult, sum := semi - 1, 1, 0;
    while buf[q] != Stop(hex)
      invariant p + stopAt <= q < semi && mult >= 0
      invariant var rest := ScanBack(s, q - p, stopAt, hex, mult);
                whole == if rest.None? then None else Some(sum + rest.value)
      decreases q
    {
      var d := DigitValue(buf[q], hex);
      if d.None? {
        return None;
      }
      sum := sum + mult * d.value % UINT_RANGE;
      mult := mult * Base(hex) % UINT_RANGE;
      q := q - 1;
    }
    return Some(sum);
  }

  /** memcpy(q, bytes, |bytes|) */
  method Store(buf: array<Byte>, q: nat, bytes: Bytes)
    requires q + |bytes| <= buf.Length
    modifies buf
    ensures buf[..] == Stored(old(buf[..]), q, bytes)
  {
    ghost var b := buf[..];
    var i := 0;
    assert Stored(b, q, bytes[..0]) == b;
    while i < |bytes|
      invariant 0 <= i <= |bytes|
      invariant buf[..] == Stored(b, q, bytes[..i])
    {
      StoredOneMore(b, q, bytes, i);
      ghost var before := buf[..];
      buf[q + i] := bytes[i];
      assert buf[..] == before[q + i := bytes[i]];
      i := i + 1;
    }
    assert bytes[..i] == bytes;
  }

  lemma StoredOneMore(b: Bytes, q: nat, bytes: Bytes, i: nat)
    requires q + |bytes| <= |b| && i < |bytes|
    ensures |Stored(b, q, bytes[..i])| == |b|
    ensures Stored(b, q, bytes[..i])[q + i := bytes[i]] == Stored(b, q, bytes[..i + 1])
  {
  }

  /** The entity loop: compare the text after the ampersand with each entity in turn. */
  method LookUpEntity(buf: array<Byte>, p: nat, end: nat) returns (e: Option<Entity>)
    requires p < end < buf.Length
    ensures e == FindEntity(buf[p + 1..end], 0)
  {
    var s := buf[p + 1..end];
    var i := 0;
    while i < |ENTITIES|
      invariant 0 <= i <= |ENTITIES|
      invariant FindEntity(s, 0) == FindEntity(s, i)
    {
      if ENTITIES[i].pattern + [SEMICOLON] <= s {
        return Some(ENTITIES[i]);
      }
      i := i + 1;
    }
    return None;
  }

  /** A numeric reference at p; one that does not parse is kept. */
  method DecodeNumeric(buf: array<Byte>, p0: nat, q0: nat, end: nat) returns (p: nat, q: nat)
    requires q0 <= p0 && p0 + 2 <= end < buf.Length && buf[end] == 0 && NoNul(buf[p0..end]) && buf[p0] == AMP
    requires buf[p0 + 1] == HASH
    modifies buf
    ensures match CharacterRef(old(buf[p0..end]))
            case Some(r) => p == p0 + r.0 && q == q0 + |r.1| && q <= buf.Length
               && buf[..] == Stored(old(buf[..]), q0, r.1)
            case None => p == p0 + 1 && q == q0 + 1 && buf[..] == Stored(old(buf[..]), q0, [AMP])
  {
    var r := GetCharacterRef(buf, p0, end);
    if r.None? {
      Store(buf, q0, [AMP]);
      p, q := p0 + 1, q0 + 1;
    } else {
      Store(buf, q0, r.value.1);
      p, q := p0 + r.value.0, q0 + |r.value.1|;
    }
  }

  /** A named reference; an unknown one advances both pointers and writes nothing. */
  method DecodeNamed(buf: array<Byte>, p0: nat, q0: nat, end: nat) returns (p: nat, q: nat)
    requires q0 <= p0 < end < buf.Length
    modifies buf
    ensures match FindEntity(old(buf[p0 + 1..end]), 0)
            case Some(e) => p == p0 + |e.pattern| + 2 && q == q0 + 1 && buf[..] == Stored(old(buf[..]), q0, [e.value])
            case None => p == p0 + 1 && q == q0 + 1 && buf[..] == old(buf[..])
  {
    var e := LookUpEntity(buf, p0, end);
    if e.Some? {
      Store(buf, q0, [e.value.value]);
      p, q := p0 + |e.value.pattern| + 2, q0 + 1;
    } else {
      p, q := p0 + 1, q0 + 1;
    }
  }

  /** The reference branch of the loop, for an ampersand at p. */
  method DecodeReference(buf: array<Byte>, p0: nat, q0: nat, end: nat, ghost s: Bytes, ghost r: Piece)
    returns (p: nat, q: nat)
    requires q0 <= p0 < end < buf.Length && buf[end] == 0 && s == buf[p0..end] && NoNul(s) && buf[p0] == AMP
    requires r == NextPiece(s, Flags(true, false))
    modifies buf
    ensures p == p0 + Used(r)
    ensures r.Skipped? ==> q == q0 + 1 && buf[..] == old(buf[..])
    ensures r.Piece? ==> q == q0 + |r.out| && q <= buf.Length && buf[..] == Stored(old(buf[..]), q0, r.out)
  {
    if buf[p0 + 1] == HASH {
      assert s[0] == AMP && s[1] == HASH;
      p, q := DecodeNumeric(buf, p0, q0, end);
    } else {
      assert buf[p0 + 1..end] == s[1..];
      assert |s| > 1 ==> s[1] == buf[p0 + 1];
      p, q := DecodeNamed(buf, p0, q0, end);
    }
  }

  lemma ReferenceIgnoresNewlines(s: Bytes, f: Flags)
    requires s != [] && s[0] == AMP && f.entities
    ensures NextPiece(s, f) == NextPiece(s, Flags(true, false))
  {
  }

  /** One turn of the decoding loop, for the unread text s. */
  method DecodeOne(buf: array<Byte>, p0: nat, q0: nat, end: nat, f: Flags, ghost s: Bytes, ghost r: Piece)
    returns (p: nat, q: nat)
    requires q0 <= p0 < end < buf.Length && buf[end] == 0 && s == buf[p0..end] && NoNul(s)
    requires r == NextPiece(s, f)
    modifies buf
    ensures p == p0 + Used(r)
    ensures r.Skipped? ==> q == q0 + 1 && buf[..] == old(buf[..])
    ensures r.Piece? ==> q == q0 + |r.out| && q <= buf.Length && buf[..] == Stored(old(buf[..]), q0, r.out)
  {
    assert s[0] == buf[p0];
    if f.entities && buf[p0] == AMP {
      ReferenceIgnoresNewlines(s, f);
      p, q := DecodeReference(buf, p0, q0, end, s, r);
    } else {
      assert buf[p0 + 1] == if |s| > 1 then s[1] else 0;
      var n, c := PlainByte(buf[p0], buf[p0 + 1], f, s);
      Store(buf, q0, [c]);
      p, q := p0 + n, q0 + 1;
    }
  }

  /** A byte that starts no reference: line ends are normalised. next is the byte behind it. */
  method PlainByte(b: Byte, next: Byte, f: Flags, ghost s: Bytes) returns (n: nat, c: Byte)
    requires s != [] && s[0] == b && next == (if |s| > 1 then s[1] else 0) && !(f.entities && b == AMP)
    ensures NextPiece(s, f) == Piece(n, [c])
  {
    n, c := 1, b;
    if f.newlines && c == CR {
      n := if next == LF then 2 else 1;
      c := LF;
    } else if f.newlines && c == LF {
      n := if next == CR then 2 else 1;
    }
  }

  /** Decoding is under way: nothing from the write position on has been touched, and writing
      the remaining pieces gives the result of the whole. */
  ghost predicate UnderWay(b: Bytes, t: Bytes, start: nat, end: nat, p: nat, q: nat, ps: seq<Piece>, goal: Bytes) {
    && start <= q <= p <= end < |b| && |t| == end - start && b[end] == 0
    && (forall i :: q <= i < end ==> b[i] == t[i - start])
    && Fits(ps) && TotalUsed(ps) == end - p
    && Overwrite(ps, t, b[start..q]) == goal
  }

  lemma StillUnderWay(b: Bytes, t: Bytes, start: nat, end: nat, p: nat, q: nat, ps: seq<Piece>, goal: Bytes)
    requires UnderWay(b, t, start, end, p, q, ps, goal) && p < end
    ensures var w := Written(ps[0], t, q - start);
            q + |w| <= p + Used(ps[0]) &&
            UnderWay(Stored(b, q, w), t, start, end, p + Used(ps[0]), q + |w|, ps[1..], goal)
  {
    hide NextPiece;
    var w := Written(ps[0], t, q - start);
    assert |w| == |Meaning(ps[0])|;
    assert Stored(b, q, w)[start..q + |w|] == b[start..q] + w;
  }

  /** A turn of the loop keeps decoding under way and stays inside the text. */
  method Turn(buf: array<Byte>, start: nat, end: nat, p0: nat, q0: nat, f: Flags,
              ghost t: Bytes, ghost k: nat, ghost ps: seq<Piece>, ghost goal: Bytes) returns (p: nat, q: nat)
    requires UnderWay(buf[..], t, start, end, p0, q0, ps, goal) && NoNul(t)
    requires p0 < end && p0 == start + k && ps != [] && ps[0] == NextPiece(t[k..], f)
    modifies buf
    ensures p == p0 + Used(ps[0]) && UnderWay(buf[..], t, start, end, p, q, ps[1..], goal)
    ensures forall i :: 0 <= i < start || end < i < buf.Length ==> buf[i] == old(buf[i])
  {
    UnreadIs(buf[..], t, start, end, p0, q0, k);
    assert buf[p0..end] == buf[..][p0..end];
    p, q := DecodeOne(buf, p0, q0, end, f, t[k..], ps[0]);
    AfterTurn(old(buf[..]), buf[..], t, start, end, p0, q0, ps, goal);
    assert forall i :: 0 <= i < buf.Length ==> buf[i] == buf[..][i];
  }

  lemma AfterTurn(b: Bytes, c: Bytes, t: Bytes, start: nat, end: nat, p: nat, q: nat, ps: seq<Piece>, goal: Bytes)
    requires UnderWay(b, t, start, end, p, q, ps, goal) && p < end && ps != []
    requires ps[0].Skipped? ==> c == b
    requires ps[0].Piece? ==> q + |ps[0].out| <= |b| && c == Stored(b, q, ps[0].out)
    ensures var n := if ps[0].Skipped? then 1 else |ps[0].out|;
            UnderWay(c, t, start, end, p + Used(ps[0]), q + n, ps[1..], goal)
    ensures |c| == |b| && forall i :: 0 <= i < start || end < i < |b| ==> c[i] == b[i]
  {
    hide NextPiece;
    WrittenIs(b, c, t, q, q - start, ps[0]);
    TurnKeeps(b, c, t, start, end, p, q, ps, goal);
  }

  lemma UnreadIs(b: Bytes, t: Bytes, start: nat, end: nat, p: nat, q: nat, k: nat)
    requires start <= q <= p < end < |b| && |t| == end - start && NoNul(t) && p == start + k
    requires forall i :: q <= i < end ==> b[i] == t[i - start]
    ensures b[p..end] == t[k..] && NoNul(t[k..])
  {
  }

  lemma WrittenIs(b: Bytes, c: Bytes, t: Bytes, q: nat, i: nat, r: Piece)
    requires i < |t| && q < |b| && b[q] == t[i]
    requires r.Skipped? ==> c == b
    requires r.Piece? ==> q + |r.out| <= |b| && c == Stored(b, q, r.out)
    ensures q + |Written(r, t, i)| <= |b| && c == Stored(b, q, Written(r, t, i))
  {
  }

  lemma TurnKeeps(b: Bytes, c: Bytes, t: Bytes, start: nat, end: nat, p: nat, q: nat, ps: seq<Piece>, goal: Bytes)
    requires UnderWay(b, t, start, end, p, q, ps, goal) && p < end
    requires var w := Written(ps[0], t, q - start); q + |w| <= |b| && c == Stored(b, q, w)
    ensures UnderWay(c, t, start, end, p + Used(ps[0]), q + |Written(ps[0], t, q - start)|, ps[1..], goal)
    ensures |c| == |b| && forall i :: 0 <= i < start || end < i < |b| ==> c[i] == b[i]
  {
    hide NextPiece;
    StillUnderWay(b, t, start, end, p, q, ps, goal);
    StoredElsewhere(b, q, Written(ps[0], t, q - start));
  }

  /** tails[k] are the pieces of the text from k on. */
  ghost predicate ArePieces(t: Bytes, f: Flags, tails: seq<seq<Piece>>) {
    && |tails| == |t| + 1
    && forall k :: 0 <= k < |t| ==> FrontOf(t, f, k, tails)
  }

  ghost predicate FrontOf(t: Bytes, f: Flags, k: nat, tails: seq<seq<Piece>>)
    requires k < |t| && |tails| == |t| + 1
  {
    && tails[k] != [] && tails[k][0] == NextPiece(t[k..], f)
    && var n := Used(tails[k][0]); 0 < n <= |t| - k && tails[k][1..] == tails[k + n]
  }

  lemma PiecesFrom(t: Bytes, f: Flags) returns (tails: seq<seq<Piece>>)
    ensures ArePieces(t, f, tails) && tails[0] == Pieces(t, f)
  {
    hide Pieces, NextPiece, FrontOf;
    tails := seq(|t| + 1, i requires 0 <= i <= |t| => Pieces(t[i..], f));
    assert t[0..] == t;
    forall k | 0 <= k < |t| ensures FrontOf(t, f, k, tails) {
      var p := NextPiece(t[k..], f);
      FrontAt(t, f, k, p, t[k..], t[k + Used(p)..], tails);
    }
  }

  lemma FrontAt(t: Bytes, f: Flags, k: nat, p: Piece, s: Bytes, u: Bytes, tails: seq<seq<Piece>>)
    requires k < |t| && |tails| == |t| + 1 && s == t[k..] && p == NextPiece(s, f)
    requires 0 < Used(p) <= |t| - k && u == t[k + Used(p)..]
    requires tails[k] == Pieces(s, f) && tails[k + Used(p)] == Pieces(u, f)
    ensures FrontOf(t, f, k, tails)
  {
    hide NextPiece;
    Suffixes(t, k, Used(p));
    FrontPiece(s, f, p, u, tails[k], tails[k + Used(p)]);
    FrontIs(t, f, k, p, tails);
  }

  lemma Suffixes(t: Bytes, k: nat, n: nat)
    requires k + n <= |t|
    ensures t[k + n..] == t[k..][n..]
  {
  }

  lemma FrontIs(t: Bytes, f: Flags, k: nat, p: Piece, tails: seq<seq<Piece>>)
    requires k < |t| && |tails| == |t| + 1 && p == NextPiece(t[k..], f) && 0 < Used(p) <= |t| - k
    requires tails[k] == [p] + tails[k + Used(p)]
    ensures FrontOf(t, f, k, tails)
  {
  }

  lemma FrontPiece(s: Bytes, f: Flags, p: Piece, u: Bytes, ps: seq<Piece>, rest: seq<Piece>)
    requires s != [] && p == NextPiece(s, f) && Used(p) <= |s| && u == s[Used(p)..]
    requires ps == Pieces(s, f) && rest == Pieces(u, f)
    ensures ps == [p] + rest
  {
  }

  /** The decoding loop of GetStr: it terminates the text, rewrites it in place with the write
      pointer never ahead of the read pointer, and touches nothing outside it. */
  method DecodeInPlace(buf: array<Byte>, start: nat, end: nat, f: Flags) returns (q: nat)
    requires start <= end < buf.Length && NoNul(buf[start..end])
    modifies buf
    ensures start <= q <= end
    ensures buf[start..q] == InPlace(old(buf[start..end]), f)
    ensures buf[q] == 0
    ensures forall i :: 0 <= i < start || end < i < buf.Length ==> buf[i] == old(buf[i])
  {
    hide *;
    ghost var t, goal := buf[start..end], InPlace(buf[start..end], f);
    buf[end] := 0;
    StartUnderWay(buf[..], t, start, end, f, goal);
    ghost var tails := PiecesFrom(t, f);
    q := DecodeLoop(buf, start, end, f, t, tails, goal);
    buf[q] := 0;
  }

  lemma StartUnderWay(b: Bytes, t: Bytes, start: nat, end: nat, f: Flags, goal: Bytes)
    requires start <= end < |b| && t == b[start..end] && b[end] == 0 && goal == InPlace(t, f)
    ensures UnderWay(b, t, start, end, start, start, Pieces(t, f), goal)
  {
  }

  method DecodeLoop(buf: array<Byte>, start: nat, end: nat, f: Flags, ghost t: Bytes, ghost tails: seq<seq<Piece>>,
                    ghost goal: Bytes)
    returns (q: nat)
    requires ArePieces(t, f, tails) && NoNul(t) && UnderWay(buf[..], t, start, end, start, start, tails[0], goal)
    modifies buf
    ensures start <= q <= end < buf.Length && buf[start..q] == goal
    ensures forall i :: 0 <= i < start || end < i < buf.Length ==> buf[i] == old(buf[i])
  {
    ghost var k := 0;
    var p := start;
    q := start;
    while p < end
      invariant p == start + k && k <= |t| && UnderWay(buf[..], t, start, end, p, q, tails[k], goal)
      invariant forall i :: 0 <= i < start || end < i < buf.Length ==> buf[i] == old(buf[i])
    {
      assert FrontOf(t, f, k, tails);
      p, q := Turn(buf, start, end, p, q, f, t, k, tails[k], goal);
      k := k + Used(tails[k][0]);
    }
    Finished(buf[..], t, start, end, q, tails[k], goal);
    assert buf[..][start..q] == buf[start..q];
  }

  lemma Finished(b: Bytes, t: Bytes, start: nat, end: nat, q: nat, ps: seq<Piece>, goal: Bytes)
    requires UnderWay(b, t, start, end, end, q, ps, goal)
    ensures goal == b[start..q]
  {
    hide NextPiece;
    NothingWritten(ps, t, b[start..q]);
  }

  /** Pieces that consume nothing write nothing. */
  lemma {:induction false} NothingWritten(ps: seq<Piece>, t: Bytes, out: Bytes)
    requires Fits(ps) && TotalUsed(ps) == 0 && |out| <= |t|
    ensures Overwrite(ps, t, out) == out
    decreases |ps|
  {
    hide NextPiece;
    if ps != [] {
      assert |Meaning(ps[0])| == 0 && out + ps[0].out == out;
      NothingWritten(ps[1..], t, out);
    }
  }
}
