/** Byte classes, entities and character references of tinyxml2
    (external/tinyxml2/tinyxml2.h, external/tinyxml2/tinyxml2.cpp). */
module XmlChars {
  import opened Common

  type Bytes = seq<Byte>

  const LF: Byte := 10
  const CR: Byte := 13
  const SPACE: Byte := 32
  const BANG: Byte := 33
  const DOUBLE_QUOTE: Byte := 34
  const HASH: Byte := 35
  const AMP: Byte := 38
  const SINGLE_QUOTE: Byte := 39
  const DASH: Byte := 45
  const DOT: Byte := 46
  const SLASH: Byte := 47
  const COLON: Byte := 58
  const SEMICOLON: Byte := 59
  const LESS: Byte := 60
  const EQUALS: Byte := 61
  const GREATER: Byte := 62
  const QUESTION: Byte := 63
  const UNDERSCORE: Byte := 95
  const LOWER_X: Byte := 120

  predicate IsDigit(b: Byte) { 48 <= b <= 57 }

  /** isspace on bytes below 128; continuation bytes are never white space. */
  predicate IsWhiteSpace(b: Byte) { b == SPACE || 9 <= b <= 13 }

  predicate IsNameStart(b: Byte) {
    b >= 128 || 65 <= b <= 90 || 97 <= b <= 122 || b == COLON || b == UNDERSCORE
  }

  predicate IsNameChar(b: Byte) {
    IsNameStart(b) || IsDigit(b) || b == DOT || b == DASH
  }

  predicate NoNul(s: Bytes) {
    forall i :: 0 <= i < |s| ==> s[i] != 0
  }

  /** The bytes a C string shows: everything before the first NUL. */
  function CStr(s: Bytes): (r: Bytes)
    ensures r <= s && NoNul(r)
    ensures |r| < |s| ==> s[|r|] == 0
    ensures NoNul(s) ==> r == s
  {
    if s == [] || s[0] == 0 then []
    else
      var rest := CStr(s[1..]);
      assert |rest| < |s[1..]| ==> s[1 + |rest|] == 0;
      [s[0]] + rest
  }

  // ---- the entity table ----

  datatype Entity = Entity(pattern: Bytes, value: Byte)

  const ENTITIES: seq<Entity> := [
    Entity([113, 117, 111, 116], DOUBLE_QUOTE),   // quot
    Entity([97, 109, 112], AMP),                  // amp
    Entity([97, 112, 111, 115], SINGLE_QUOTE),    // apos
    Entity([108, 116], LESS),                     // lt
    Entity([103, 116], GREATER)]                  // gt

  /** The text after the ampersand starts with this entity's name and a semicolon. */
  predicate Names(e: Entity, s: Bytes) {
    e.pattern + [SEMICOLON] <= s
  }

  /** The first entity from index i on whose name the text shows. */
  function FindEntity(s: Bytes, i: nat): (r: Option<Entity>)
    requires i <= |ENTITIES|
    ensures r.Some? ==> r.value in ENTITIES[i..] && Names(r.value, s)
    ensures r.None? ==> forall j :: i <= j < |ENTITIES| ==> !Names(ENTITIES[j], s)
    decreases |ENTITIES| - i
  {
    if i == |ENTITIES| then None
    else if Names(ENTITIES[i], s) then Some(ENTITIES[i])
    else FindEntity(s, i + 1)
  }

  // ---- UTF-8 ----

  /** ConvertUTF32ToUTF8; code points from 0x200000 on yield nothing. */
  function Utf8(c: nat): (r: Bytes)
    ensures |r| <= 4
    ensures c < 0x200000 ==> 1 <= |r|
    ensures 0 < c < 0x200000 ==> NoNul(r)
  {
    if c < 0x80 then [c as Byte]
    else if c < 0x800 then [(0xC0 + c / 64) as Byte, (0x80 + c % 64) as Byte]
    else if c < 0x10000 then [(0xE0 + c / 4096) as Byte, (0x80 + c / 64 % 64) as Byte, (0x80 + c % 64) as Byte]
    else if c < 0x200000 then
      [(0xF0 + c / 262144) as Byte, (0x80 + c / 4096 % 64) as Byte,
       (0x80 + c / 64 % 64) as Byte, (0x80 + c % 64) as Byte]
    else []
  }

  predicate IsContinuation(b: Byte) { 0x80 <= b < 0xC0 }

  /** Read one UTF-8 sequence by the bit layout of RFC 3629 section 3. */
  function ReadUtf8(s: Bytes): Option<(nat, nat)> {
    if |s| >= 1 && s[0] < 0x80 then Some((s[0] as nat, 1))
    else if |s| >= 2 && 0xC0 <= s[0] < 0xE0 && IsContinuation(s[1]) then
      Some(((s[0] as nat - 0xC0) * 64 + (s[1] as nat - 0x80), 2))
    else if |s| >= 3 && 0xE0 <= s[0] < 0xF0 && IsContinuation(s[1]) && IsContinuation(s[2]) then
      Some(((s[0] as nat - 0xE0) * 4096 + (s[1] as nat - 0x80) * 64 + (s[2] as nat - 0x80), 3))
    else if |s| >= 4 && 0xF0 <= s[0] < 0xF8 && IsContinuation(s[1]) && IsContinuation(s[2]) && IsContinuation(s[3]) then
      Some(((s[0] as nat - 0xF0) * 262144 + (s[1] as nat - 0x80) * 4096
             + (s[2] as nat - 0x80) * 64 + (s[3] as nat - 0x80), 4))
    else None
  }

  /** The encoding of every code point below 0x200000 reads back as that code point, whatever
      follows it, and no shorter encoding of it exists. */
  lemma Utf8RoundTrip(c: nat, rest: Bytes)
    requires c < 0x200000
    ensures ReadUtf8(Utf8(c) + rest) == Some((c, |Utf8(c)|))
    ensures forall s: Bytes :: ReadUtf8(s).Some? && ReadUtf8(s).value.0 == c ==> |Utf8(c)| <= ReadUtf8(s).value.1
  {
    ReadBack(c, rest);
    forall s: Bytes | ReadUtf8(s).Some? && ReadUtf8(s).value.0 == c
      ensures |Utf8(c)| <= ReadUtf8(s).value.1
    {
      ReadLimit(s);
    }
  }

  lemma SixBitGroups(c: nat)
    ensures c == (c / 64) * 64 + c % 64
    ensures c == (c / 4096) * 4096 + (c / 64 % 64) * 64 + c % 64
    ensures c == (c / 262144) * 262144 + (c / 4096 % 64) * 4096 + (c / 64 % 64) * 64 + c % 64
  {
    var c1 := c / 64;
    var c2 := c1 / 64;
    assert c1 == c2 * 64 + c1 % 64 && c2 == (c2 / 64) * 64 + c2 % 64;
    assert c / 4096 == c2 && c / 262144 == c2 / 64;
  }

  lemma ReadBack(c: nat, rest: Bytes)
    requires c < 0x200000
    ensures ReadUtf8(Utf8(c) + rest) == Some((c, |Utf8(c)|))
  {
    SixBitGroups(c);
    var u := Utf8(c) + rest;
    var n := |Utf8(c)|;
    assert u[..n] == Utf8(c);
    assert forall i :: 0 <= i < n ==> u[i] == Utf8(c)[i];
  }

  /** A sequence of n bytes reads as a number too small to need more. */
  lemma ReadLimit(s: Bytes)
    requires ReadUtf8(s).Some?
    ensures var (c, n) := ReadUtf8(s).value;
            (n == 1 ==> c < 0x80) && (n == 2 ==> c < 0x800) && (n == 3 ==> c < 0x10000) && 1 <= n <= 4
  {
  }

  // ---- character references ----

  const UINT_RANGE: nat := 0x1_0000_0000

  /** The first semicolon at or after index i. */
  function FindSemicolon(s: Bytes, i: nat): (r: Option<nat>)
    ensures r.Some? ==> i <= r.value < |s| && s[r.value] == SEMICOLON
    ensures r.Some? ==> forall j :: i <= j < r.value ==> s[j] != SEMICOLON
    ensures r.None? ==> forall j :: i <= j < |s| ==> s[j] != SEMICOLON
    decreases |s| - i
  {
    if i >= |s| then None else if s[i] == SEMICOLON then Some(i) else FindSemicolon(s, i + 1)
  }

  function DigitValue(b: Byte, hex: bool): (r: Option<nat>)
    ensures r.Some? ==> r.value < if hex then 16 else 10
  {
    if IsDigit(b) then Some(b as nat - 48)
    else if hex && 97 <= b <= 102 then Some(b as nat - 97 + 10)
    else if hex && 65 <= b <= 70 then Some(b as nat - 65 + 10)
    else None
  }

  function Base(hex: bool): nat { if hex then 16 else 10 }

  /** The byte that ends the backward scan for digits. */
  function Stop(hex: bool): Byte { if hex then LOWER_X else HASH }

  /** Sum the digits from index j back to the stop byte, in 32-bit scales that wrap around. */
  function ScanBack(s: Bytes, j: nat, stopAt: nat, hex: bool, mult: nat): Option<nat>
    requires stopAt <= j < |s| && s[stopAt] == Stop(hex)
    decreases j
  {
    if s[j] == Stop(hex) then Some(0)
    else
      var d := DigitValue(s[j], hex);
      if d.None? then None
      else
        var r := ScanBack(s, j - 1, stopAt, hex, mult * Base(hex) % UINT_RANGE);
        if r.None? then None else Some(mult * d.value % UINT_RANGE + r.value)
  }

  /** GetCharacterRef on text that starts with "&#": how many bytes it consumes and what they
      stand for, or None if it is not a reference. A text of just "&#" consumes the ampersand
      and stands for nothing. */
  function CharacterRef(s: Bytes): (r: Option<(nat, Bytes)>)
    requires |s| >= 2 && s[0] == AMP && s[1] == HASH
    ensures r.Some? ==> 1 <= r.value.0 <= |s|
    ensures r.Some? ==> |r.value.1| <= r.value.0
  {
    if |s| == 2 then Some((1, []))
    else
      var hex := s[2] == LOWER_X;
      var from := if hex then 3 else 2;
      if from >= |s| then None
      else
        var semi := FindSemicolon(s, from);
        if semi.None? then None
        else
          var k := semi.value;
          var ucs := ScanBack(s, k - 1, from - 1, hex, 1);
          if ucs.None? then None
          else
            // three bytes are consumed only by "&#;", which stands for one byte
            assert k == 2 ==> ucs.value == 0;
            Some((k + 1, Utf8(ucs.value)))
  }

  predicate AllDigits(ds: Bytes, hex: bool) {
    forall i :: 0 <= i < |ds| ==> DigitValue(ds[i], hex).Some?
  }

  /** The value of a digit string, most significant digit first. */
  function Positional(ds: Bytes, hex: bool): nat
    requires AllDigits(ds, hex)
  {
    if ds == [] then 0
    else Positional(ds[..|ds| - 1], hex) * Base(hex) + DigitValue(ds[|ds| - 1], hex).value
  }

  /** What the code sums instead: each digit in a scale kept in 32 bits, the last one in mult. */
  function Summed(ds: Bytes, hex: bool, mult: nat): nat
    requires AllDigits(ds, hex)
  {
    if ds == [] then 0
    else
      mult * DigitValue(ds[|ds| - 1], hex).value % UINT_RANGE
      + Summed(ds[..|ds| - 1], hex, mult * Base(hex) % UINT_RANGE)
  }

  lemma {:induction false} ScanBackSums(pre: Bytes, ds: Bytes, post: Bytes, hex: bool, mult: nat)
    requires pre != [] && pre[|pre| - 1] == Stop(hex) && AllDigits(ds, hex)
    ensures ScanBack(pre + ds + post, |pre| + |ds| - 1, |pre| - 1, hex, mult) == Some(Summed(ds, hex, mult))
    decreases |ds|
  {
    var s := pre + ds + post;
    if ds == [] {
      assert s[|pre| - 1] == pre[|pre| - 1];
    } else {
      var init, last := ds[..|ds| - 1], ds[|ds| - 1];
      assert s[|pre| + |ds| - 1] == last;
      assert s == pre + init + ([last] + post);
      ScanBackSums(pre, init, [last] + post, hex, mult * Base(hex) % UINT_RANGE);
    }
  }

  /** Reducing a factor first does not change the reduced product. */
  lemma ReducedFactor(x: nat, y: nat)
    ensures (x % UINT_RANGE) * y % UINT_RANGE == x * y % UINT_RANGE
  {
    var q, r := x / UINT_RANGE, x % UINT_RANGE;
    assert x == q * UINT_RANGE + r;
    assert x * y == (q * y) * UINT_RANGE + r * y;
    WholeTurns(q * y, r * y);
  }

  lemma WholeTurns(k: nat, a: nat)
    ensures (k * UINT_RANGE + a) % UINT_RANGE == a % UINT_RANGE
  {
  }

  /** One digit more, in scale m. */
  lemma OneDigitMore(m: nat, v: nat, b: nat, d: nat)
    ensures m * (v * b + d) == (m * b) * v + m * d
    ensures (m * b) * v <= m * (v * b + d) && m * d <= m * (v * b + d)
  {
    assert m * (v * b + d) == m * (v * b) + m * d;
    assert m * (v * b) == (m * b) * v;
  }

  lemma SmallStep(m: nat, v: nat, b: nat, d: nat)
    requires m * (v * b + d) < UINT_RANGE
    ensures (m % UINT_RANGE) * d % UINT_RANGE == m * d
    ensures (m % UINT_RANGE) * b % UINT_RANGE == m * b % UINT_RANGE
    ensures (m * b) * v < UINT_RANGE && m * (v * b + d) == m * d + (m * b) * v
  {
    OneDigitMore(m, v, b, d);
    ReducedFactor(m, d);
    ReducedFactor(m, b);
  }

  /** A sum whose true value fits 32 bits is that value: digits that count are in a scale that
      fits, and leading zeros count for nothing in any scale. */
  lemma {:induction false} SmallSumsAreExact(ds: Bytes, hex: bool, m: nat)
    requires AllDigits(ds, hex) && m * Positional(ds, hex) < UINT_RANGE
    ensures Summed(ds, hex, m % UINT_RANGE) == m * Positional(ds, hex)
    decreases |ds|
  {
    if ds != [] {
      var init, b, d := ds[..|ds| - 1], Base(hex), DigitValue(ds[|ds| - 1], hex).value;
      SmallStep(m, Positional(init, hex), b, d);
      SmallSumsAreExact(init, hex, m * b);
    } else {
      assert m * Positional(ds, hex) == 0;
    }
  }

  function Intro(hex: bool): Bytes {
    if hex then [AMP, HASH, LOWER_X] else [AMP, HASH]
  }

  lemma DigitsThenSemicolon(intro: Bytes, ds: Bytes, rest: Bytes)
    ensures var s := intro + ds + ([SEMICOLON] + rest);
            && (forall j :: |intro| <= j < |intro| + |ds| ==> s[j] == ds[j - |intro|])
            && s[|intro| + |ds|] == SEMICOLON
  {
  }

  /** For every string of digits: the reference consumes exactly its own text and stands for the
      encoding of the sum. */
  lemma ReferenceSums(ds: Bytes, hex: bool, rest: Bytes)
    requires ds != [] && AllDigits(ds, hex)
    ensures CharacterRef(Intro(hex) + ds + ([SEMICOLON] + rest))
            == Some((|Intro(hex)| + |ds| + 1, Utf8(Summed(ds, hex, 1))))
  {
    var intro := Intro(hex);
    var s := intro + ds + ([SEMICOLON] + rest);
    assert s[0] == AMP && s[1] == HASH && s[2] == if hex then LOWER_X else ds[0];
    DigitsThenSemicolon(intro, ds, rest);
    ScanBackSums(intro, ds, [SEMICOLON] + rest, hex, 1);
    SemicolonFound(s, |intro|, |intro| + |ds|);
  }

  lemma SemicolonFound(s: Bytes, i: nat, k: nat)
    requires i <= k < |s| && s[k] == SEMICOLON && forall j :: i <= j < k ==> s[j] != SEMICOLON
    ensures FindSemicolon(s, i) == Some(k)
  {
    var r := FindSemicolon(s, i);
    assert r.Some? && r.value == k;
  }

  /** XML 1.0 section 4.1: a reference whose number fits 32 bits, however many digits it is written
      with, stands for the UTF-8 encoding of that number. */
  lemma CharacterRefMeaning(ds: Bytes, hex: bool, rest: Bytes)
    requires ds != [] && AllDigits(ds, hex) && Positional(ds, hex) < UINT_RANGE
    ensures CharacterRef(Intro(hex) + ds + ([SEMICOLON] + rest))
            == Some((|Intro(hex)| + |ds| + 1, Utf8(Positional(ds, hex))))
  {
    ReferenceSums(ds, hex, rest);
    SmallSumsAreExact(ds, hex, 1);
  }

  // ---- numbers beyond 32 bits ----

  /** XML 1.0 section 4.1, exactly: in both bases a reference stands for the encoding of its number
      if and only if the number fits 32 bits, or neither it nor the sum has an encoding. */
  lemma ReferenceExactlyWhen(ds: Bytes, hex: bool, rest: Bytes)
    requires ds != [] && AllDigits(ds, hex)
    ensures CharacterRef(Intro(hex) + ds + ([SEMICOLON] + rest))
            == Some((|Intro(hex)| + |ds| + 1, Utf8(Positional(ds, hex))))
            <==> Positional(ds, hex) < UINT_RANGE || Summed(ds, hex, 1) >= 0x200000
  {
    hide CharacterRef, Positional, Summed;
    ReferenceSums(ds, hex, rest);
    if Positional(ds, hex) < UINT_RANGE {
      SmallSumsAreExact(ds, hex, 1);
    } else {
      assert Utf8(Positional(ds, hex)) == [];
    }
  }

  /** In both bases, what is lost are multiples of 2^32. */
  lemma {:induction false} SumIsCongruent(ds: Bytes, hex: bool, m: nat)
    requires AllDigits(ds, hex)
    ensures Summed(ds, hex, m % UINT_RANGE) % UINT_RANGE == m * Positional(ds, hex) % UINT_RANGE
    decreases |ds|
  {
    if ds == [] {
      assert m * Positional(ds, hex) == 0;
    } else {
      var init, b, d := ds[..|ds| - 1], Base(hex), DigitValue(ds[|ds| - 1], hex).value;
      SumIsCongruent(init, hex, m * b);
      ReducedFactor(m, d);
      ReducedFactor(m, b);
      OneDigitMore(m, Positional(init, hex), b, d);
      ReducedSum(m * d, Summed(init, hex, m * b % UINT_RANGE), (m * b) * Positional(init, hex));
    }
  }

  lemma ReducedSum(x: nat, y: nat, z: nat)
    requires y % UINT_RANGE == z % UINT_RANGE
    ensures (x % UINT_RANGE + y) % UINT_RANGE == (z + x) % UINT_RANGE
  {
    var a, b, c := x / UINT_RANGE, y / UINT_RANGE, z / UINT_RANGE;
    WholeTurns(b, x % UINT_RANGE + y % UINT_RANGE);
    WholeTurns(a + c, x % UINT_RANGE + z % UINT_RANGE);
  }

  /** 10^k */
  function Power(k: nat): (r: nat)
    ensures r >= 1
  {
    if k == 0 then 1 else 10 * Power(k - 1)
  }

  lemma {:induction false} PowerSum(j: nat, k: nat)
    ensures Power(j + k) == Power(j) * Power(k)
  {
    if j > 0 {
      PowerSum(j - 1, k);
      assert 10 * (Power(j - 1) * Power(k)) == (10 * Power(j - 1)) * Power(k);
    }
  }

  lemma Power5()
    ensures Power(5) == 100_000
  {
    assert Power(1) == 10 * Power(0) && Power(2) == 10 * Power(1) && Power(3) == 10 * Power(2);
    assert Power(4) == 10 * Power(3) && Power(5) == 10 * Power(4);
  }

  /** 10^32 is a multiple of 2^32. */
  lemma Power30()
    ensures Power(30) == 1_000_000_000_000_000_000_000_000_000_000 && 100 * Power(30) % UINT_RANGE == 0
  {
    hide Power;
    Power5();
    PowerSum(5, 5);
    PowerSum(10, 10);
    PowerSum(10, 20);
  }

  /** One decimal digit more. */
  lemma DecimalDigit(high: Bytes, b: Byte, m: nat)
    requires AllDigits(high, false) && IsDigit(b)
    ensures var ds := high + [b];
            && AllDigits(ds, false) && Positional(ds, false) == Positional(high, false) * 10 + (b as nat - 48)
            && Summed(ds, false, m) == m * (b as nat - 48) % UINT_RANGE + Summed(high, false, m * 10 % UINT_RANGE)
  {
    var ds := high + [b];
    assert ds[..|ds| - 1] == high && ds[|ds| - 1] == b && DigitValue(b, false) == Some(b as nat - 48);
  }

  /** A one and k zeros. */
  function OneAndZeros(k: nat): (r: Bytes)
    ensures |r| == k + 1 && AllDigits(r, false)
  {
    if k == 0 then [] + [49] else OneAndZeros(k - 1) + [48]
  }

  lemma {:induction false} OneAndZerosValue(k: nat, m: nat)
    ensures Positional(OneAndZeros(k), false) == Power(k)
    ensures Summed(OneAndZeros(k), false, m % UINT_RANGE) == m * Power(k) % UINT_RANGE
  {
    hide Positional, Summed, OneAndZeros, Power;
    PowerStep(k, m);
    if k == 0 {
      OneValue(m % UINT_RANGE);
    } else {
      ZeroBehind(k, m);
      OneAndZerosValue(k - 1, m * 10);
    }
  }

  lemma PowerStep(k: nat, m: nat)
    ensures k == 0 ==> Power(k) == 1 && m * Power(k) == m
    ensures k > 0 ==> Power(k) == 10 * Power(k - 1) && (m * 10) * Power(k - 1) == m * Power(k)
  {
  }

  lemma OneValue(m: nat)
    requires m < UINT_RANGE
    ensures Positional(OneAndZeros(0), false) == 1 && Summed(OneAndZeros(0), false, m) == m
  {
    DecimalDigit([], 49, m);
  }

  lemma ZeroBehind(k: nat, m: nat)
    requires k > 0
    ensures Positional(OneAndZeros(k), false) == 10 * Positional(OneAndZeros(k - 1), false)
    ensures Summed(OneAndZeros(k), false, m % UINT_RANGE) == Summed(OneAndZeros(k - 1), false, m * 10 % UINT_RANGE)
  {
    hide Positional, Summed;
    DecimalDigit(OneAndZeros(k - 1), 48, m % UINT_RANGE);
    ReducedFactor(m, 10);
  }

  /** A one, thirty zeros and 65 is a decimal reference that stands for 'A'. */
  lemma WrappedDecimalReference()
    ensures var ds := OneAndZeros(30) + [54] + [53];
            && AllDigits(ds, false) && Positional(ds, false) == 100_000_000_000_000_000_000_000_000_000_065
            && CharacterRef(Intro(false) + ds + [SEMICOLON]) == Some((36, [65]))
  {
    hide CharacterRef, OneAndZeros, Positional, Summed, Power;
    var ds := OneAndZeros(30) + [54] + [53];
    DecimalTail(OneAndZeros(30));
    Power30();
    OneAndZerosValue(30, 100);
    assert [SEMICOLON] + [] == [SEMICOLON];
    ReferenceSums(ds, false, []);
  }

  lemma DecimalTail(high: Bytes)
    requires AllDigits(high, false)
    ensures var ds := high + [54] + [53];
            && AllDigits(ds, false) && Positional(ds, false) == Positional(high, false) * 100 + 65
            && Summed(ds, false, 1) == 65 + Summed(high, false, 100)
  {
    hide Positional, Summed;
    DecimalDigit(high, 54, 10);
    DecimalDigit(high + [54], 53, 1);
  }

  /** 16^k */
  function Scale(k: nat): (r: nat)
    ensures r >= 1
  {
    if k == 0 then 1 else 16 * Scale(k - 1)
  }

  lemma ScaleValues()
    ensures Scale(0) == 1 && Scale(1) == 0x10 && Scale(2) == 0x100 && Scale(3) == 0x1000 && Scale(4) == 0x1_0000
    ensures Scale(5) == 0x10_0000 && Scale(6) == 0x100_0000 && Scale(7) == 0x1000_0000 && Scale(8) == 0x1_0000_0000
  {
    assert Scale(0) == 1 && Scale(1) == 16 * Scale(0) && Scale(2) == 16 * Scale(1);
    assert Scale(3) == 16 * Scale(2) && Scale(4) == 16 * Scale(3) && Scale(5) == 16 * Scale(4);
    assert Scale(6) == 16 * Scale(5) && Scale(7) == 16 * Scale(6) && Scale(8) == 16 * Scale(7);
  }

  lemma {:induction false} ZeroScale(ds: Bytes)
    requires AllDigits(ds, true)
    ensures Summed(ds, true, 0) == 0
  {
    if ds != [] {
      ZeroScale(ds[..|ds| - 1]);
    }
  }

  lemma HexStep(k: nat, d: nat, v: nat)
    requires k < 8 && d < 16
    ensures Scale(k) % UINT_RANGE == Scale(k) && Scale(k) * d % UINT_RANGE == Scale(k) * d
    ensures Scale(k) * 16 == Scale(k + 1)
    ensures Scale(k) * (v * 16 + d) == Scale(k) * d + Scale(k + 1) * v
  {
    ScaleValues();
    OneDigitMore(Scale(k), v, 16, d);
  }

  /** Only the low eight hexadecimal digits reach the sum. */
  lemma {:induction false} HexSum(high: Bytes, low: Bytes, k: nat)
    requires AllDigits(high, true) && AllDigits(low, true) && |low| + k == 8
    ensures Summed(high + low, true, Scale(k) % UINT_RANGE) == Scale(k) * Positional(low, true)
    decreases |low|
  {
    if low == [] {
      ScaleValues();
      assert high + low == high;
      ZeroScale(high);
    } else {
      var init, d := low[..|low| - 1], DigitValue(low[|low| - 1], true).value;
      assert (high + low)[..|high + low| - 1] == high + init;
      HexSum(high, init, k + 1);
      HexStep(k, d, Positional(init, true));
    }
  }

  lemma {:induction false} HexValue(high: Bytes, low: Bytes)
    requires AllDigits(high, true) && AllDigits(low, true)
    ensures Positional(high + low, true) == Positional(high, true) * Scale(|low|) + Positional(low, true)
    ensures Positional(low, true) < Scale(|low|)
    decreases |low|
  {
    if low == [] {
      assert high + low == high;
    } else {
      var init, d := low[..|low| - 1], DigitValue(low[|low| - 1], true).value;
      assert (high + low)[..|high + low| - 1] == high + init;
      HexValue(high, init);
      HexValueStep(Positional(high, true), Scale(|init|), Positional(init, true), d);
    }
  }

  lemma HexValueStep(p: nat, s: nat, v: nat, d: nat)
    requires v < s && d < 16
    ensures (p * s + v) * 16 + d == p * (16 * s) + (v * 16 + d) && v * 16 + d < 16 * s
  {
    assert (p * s) * 16 == p * (16 * s);
  }

  /** In hexadecimal, what the scales lose are exactly the multiples of 2^32. */
  lemma HexSumIsRemainder(ds: Bytes)
    requires AllDigits(ds, true)
    ensures Summed(ds, true, 1) == Positional(ds, true) % UINT_RANGE
  {
    if |ds| < 8 {
      ShortHexSum(ds);
    } else {
      var high, low := ds[..|ds| - 8], ds[|ds| - 8..];
      assert ds == high + low;
      LongHexSum(high, low);
    }
  }

  lemma ShortHexSum(ds: Bytes)
    requires AllDigits(ds, true) && |ds| < 8
    ensures Summed(ds, true, 1) == Positional(ds, true) % UINT_RANGE
  {
    hide Positional, Summed;
    ShortHexValue(ds);
    SmallSumsAreExact(ds, true, 1);
  }

  lemma ShortHexValue(ds: Bytes)
    requires AllDigits(ds, true) && |ds| < 8
    ensures Positional(ds, true) < UINT_RANGE
  {
    assert [] + ds == ds;
    HexValue([], ds);
    ShortValue(|ds|);
  }

  lemma LongHexSum(high: Bytes, low: Bytes)
    requires AllDigits(high, true) && AllDigits(low, true) && |low| == 8
    ensures Summed(high + low, true, 1) == Positional(high + low, true) % UINT_RANGE
  {
    hide Positional, Summed;
    EightDigitsSummed(high, low);
    EightDigitsValue(high, low);
    WholeTurns(Positional(high, true), Positional(low, true));
  }

  lemma EightDigitsSummed(high: Bytes, low: Bytes)
    requires AllDigits(high, true) && AllDigits(low, true) && |low| == 8
    ensures Summed(high + low, true, 1) == Positional(low, true)
  {
    ScaleValues();
    HexSum(high, low, 0);
  }

  lemma EightDigitsValue(high: Bytes, low: Bytes)
    requires AllDigits(high, true) && AllDigits(low, true) && |low| == 8
    ensures Positional(high + low, true) == Positional(high, true) * UINT_RANGE + Positional(low, true)
    ensures Positional(low, true) < UINT_RANGE
  {
    ScaleValues();
    HexValue(high, low);
  }

  lemma ShortValue(n: nat)
    requires n < 8
    ensures Scale(n) < UINT_RANGE
  {
    ScaleValues();
  }

  /** A hexadecimal reference of any length stands for its number modulo 2^32, and so for what
      section 4.1 says if and only if the number fits 32 bits or both encode to nothing. */
  lemma HexReferenceWraps(ds: Bytes, rest: Bytes)
    requires ds != [] && AllDigits(ds, true)
    ensures var n, r := Positional(ds, true), CharacterRef(Intro(true) + ds + ([SEMICOLON] + rest));
            && r == Some((|ds| + 4, Utf8(n % UINT_RANGE)))
            && (r == Some((|ds| + 4, Utf8(n))) <==> n < UINT_RANGE || n % UINT_RANGE >= 0x200000)
  {
    ReferenceSums(ds, true, rest);
    HexSumIsRemainder(ds);
    EncodedAlike(Positional(ds, true));
  }

  lemma EncodedAlike(n: nat)
    ensures Utf8(n % UINT_RANGE) == Utf8(n) <==> n < UINT_RANGE || n % UINT_RANGE >= 0x200000
  {
    if n >= UINT_RANGE {
      assert Utf8(n) == [];
    }
  }

  /** "&#x100000041;" stands for 'A'. */
  lemma WrappedReference()
    ensures var ds: Bytes := [49, 48, 48, 48, 48, 48, 48, 52, 49];
            && AllDigits(ds, true) && Positional(ds, true) == 0x1_0000_0041
            && CharacterRef(Intro(true) + ds + [SEMICOLON]) == Some((13, [65]))
  {
    var ds: Bytes := [49, 48, 48, 48, 48, 48, 48, 52, 49];
    WrappedValue(ds);
    assert [SEMICOLON] + [] == [SEMICOLON];
    HexReferenceWraps(ds, []);
  }

  lemma WrappedValue(ds: Bytes)
    requires ds == [49, 48, 48, 48, 48, 48, 48, 52, 49]
    ensures AllDigits(ds, true) && Positional(ds, true) == 0x1_0000_0041
  {
    LeadingOne(ds, 7);
    ScaleValues();
    assert ds[..8][..7] == ds[..7] && Positional(ds[..8], true) == 268435460;
  }

  lemma {:induction false} LeadingOne(ds: Bytes, n: nat)
    requires 1 <= n <= 8 && n <= |ds| && ds[0] == 49 && (forall i :: 0 < i < n ==> ds[i] == 48)
    ensures AllDigits(ds[..n], true) && Positional(ds[..n], true) == Scale(n - 1)
  {
    if n == 1 {
      assert ds[..1] == [49] && [49][..0] == [];
    } else {
      LeadingOne(ds, n - 1);
      assert ds[..n][..n - 1] == ds[..n - 1];
    }
  }

  // ---- byte sequences ----

  lemma Assoc(a: Bytes, b: Bytes, c: Bytes)
    ensures (a + b) + c == a + (b + c)
  {
  }

  /** b with the bytes w stored at q. */
  function Stored(b: Bytes, q: nat, w: Bytes): Bytes
    requires q + |w| <= |b|
  {
    b[..q] + w + b[q + |w|..]
  }

  lemma StoredElsewhere(b: Bytes, q: nat, w: Bytes)
    requires q + |w| <= |b|
    ensures |Stored(b, q, w)| == |b|
    ensures forall i :: 0 <= i < q || q + |w| <= i < |b| ==> Stored(b, q, w)[i] == b[i]
  {
  }
}
