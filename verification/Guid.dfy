/** Message identifiers (src/LetsTalk/Guid.hpp, src/LetsTalk/Guid.cpp). */
module Guids {
  import opened Common

  const HALF: nat := 0x1_0000_0000
  const WORD: nat := 0x1_0000_0000_0000_0000

  /** The 16 bytes that name host, participant and writer. */
  type Writer = w: seq<Byte> | |w| == 16 witness [0, 0, 0, 0, 0, 0, 0, 0, 0, 0, 0, 0, 0, 0, 0, 0]

  /** A 64-bit unsigned counter. */
  type Counter = n: nat | n < WORD

  const NO_WRITER: Writer := [0, 0, 0, 0, 0, 0, 0, 0, 0, 0, 0, 0, 0, 0, 0, 0]

  datatype Guid = Guid(writer: Writer, sequence: Counter)

  /** The identifier of unknown data. */
  const UNKNOWN: Guid := Guid(NO_WRITER, 0)

  /** A request under its id. */
  type Request = (Guid, Sample)

  /** No two requests have the same id. */
  predicate DistinctIds(log: seq<Request>) {
    forall i, j :: 0 <= i < j < |log| ==> log[i].0 != log[j].0
  }

  /** `increment`: add one modulo 2^64, skipping zero. */
  function Increment(g: Guid): (r: Guid)
    ensures r.writer == g.writer
    ensures r != UNKNOWN && r.sequence != 0
    ensures g.sequence < WORD - 1 ==> r.sequence == g.sequence + 1
  {
    var next := (g.sequence + 1) % WORD;
    Guid(g.writer, if next == 0 then 1 else next)
  }

  // ---- the failure encoding ----

  /** Bitwise or, one binary digit at a time. */
  function BitOr(a: nat, b: nat): nat
    decreases a + b
  {
    if a == 0 then b
    else if b == 0 then a
    else (if a % 2 == 1 || b % 2 == 1 then 1 else 0) + 2 * BitOr(a / 2, b / 2)
  }

  function Pow2(k: nat): (r: nat)
    ensures r >= 1
  {
    if k == 0 then 1 else 2 * Pow2(k - 1)
  }

  /** Or of numbers whose binary digits do not overlap is their sum. */
  lemma {:induction false} OrOfDisjoint(hi: nat, lo: nat, k: nat)
    requires lo < Pow2(k)
    ensures BitOr(hi * Pow2(k), lo) == hi * Pow2(k) + lo
    decreases k
  {
    if k > 0 && lo > 0 && hi > 0 {
      var h := hi * Pow2(k - 1);
      DoublePower(hi, k);
      OrOfDisjoint(hi, lo / 2, k - 1);
      OrStep(h, lo);
    } else if hi == 0 {
      assert hi * Pow2(k) == 0;
    }
  }

  lemma DoublePower(hi: nat, k: nat)
    requires k > 0 && hi > 0
    ensures hi * Pow2(k) == 2 * (hi * Pow2(k - 1)) && hi * Pow2(k - 1) > 0 && Pow2(k) == 2 * Pow2(k - 1)
  {
  }

  /** The last binary digit of a sum of an even number and another. */
  lemma OrStep(h: nat, lo: nat)
    requires h > 0 && lo > 0
    ensures BitOr(2 * h, lo) == lo % 2 + 2 * BitOr(h, lo / 2)
  {
  }

  lemma PowerHalf()
    ensures Pow2(32) == HALF
  {
    assert Pow2(8) == 256;
    assert Pow2(16) == 65536 by { assert Pow2(12) == 4096; }
    assert Pow2(20) == 1048576;
    assert Pow2(24) == 16777216;
    assert Pow2(28) == 268435456;
  }

  /** `makeBadVersion` computes (s << 32) | (s >> 32) on 64-bit words. */
  function SwapHalves(s: Counter): (r: nat)
  {
    BitOr((s * HALF) % WORD, s / HALF)
  }

  lemma SwapHalvesMeaning(s: Counter)
    ensures SwapHalves(s) == (s % HALF) * HALF + s / HALF
    ensures SwapHalves(s) < WORD
  {
    var hi, lo := s / HALF, s % HALF;
    assert s == hi * HALF + lo;
    assert lo <= HALF - 1 && hi <= HALF - 1;
    assert (s * HALF) % WORD == lo * HALF by {
      assert s * HALF == hi * WORD + lo * HALF;
    }
    PowerHalf();
    OrOfDisjoint(lo, hi, 32);
  }

  /** The identifier that announces failure of request g. */
  function MakeBadVersion(g: Guid): (r: Guid)
    ensures r.writer == g.writer
    ensures r.sequence == (g.sequence % HALF) * HALF + g.sequence / HALF
  {
    SwapHalvesMeaning(g.sequence);
    Guid(g.writer, SwapHalves(g.sequence))
  }

  predicate IsBadVersionOf(g: Guid, other: Guid) {
    MakeBadVersion(other) == g
  }

  /** Swapping halves twice is the identity, and IsBadVersionOf is symmetric. */
  lemma BadVersionInvolution(g: Guid)
    ensures MakeBadVersion(MakeBadVersion(g)) == g
    ensures forall h: Guid :: IsBadVersionOf(g, h) <==> IsBadVersionOf(h, g)
  {
    BadVersionTwice(g);
    forall h: Guid
      ensures IsBadVersionOf(g, h) <==> IsBadVersionOf(h, g)
    {
      BadVersionTwice(h);
    }
  }

  lemma BadVersionTwice(g: Guid)
    ensures MakeBadVersion(MakeBadVersion(g)) == g
  {
    HalvesOfSwap(g.sequence);
  }

  lemma HalvesOfSwap(s: Counter)
    ensures var t := (s % HALF) * HALF + s / HALF; t / HALF == s % HALF && t % HALF == s / HALF
  {
  }

  /** A Guid is its own bad version exactly when the two halves of its sequence agree. */
  lemma BadVersionFixedPoints(g: Guid)
    ensures MakeBadVersion(g) == g <==> g.sequence / HALF == g.sequence % HALF
  {
  }

  /** Sequences a well-behaved requester uses. */
  predicate Small(g: Guid) {
    1 <= g.sequence < HALF
  }

  /** The failure announcement of a small id is never small, so the two never collide. */
  lemma BadVersionOfSmall(g: Guid)
    requires Small(g)
    ensures !Small(MakeBadVersion(g))
    ensures MakeBadVersion(g).sequence == g.sequence * HALF
  {
  }

  // ---- the ordering that keys std::map ----

  /** memcmp(a, b) < 0 */
  predicate BytesBelow(a: seq<Byte>, b: seq<Byte>)
    requires |a| == |b|
  {
    |a| > 0 && (a[0] < b[0] || (a[0] == b[0] && BytesBelow(a[1..], b[1..])))
  }

  /** operator< on Guid */
  predicate Below(g: Guid, h: Guid) {
    BytesBelow(g.writer, h.writer) || (g.writer == h.writer && g.sequence < h.sequence)
  }

  lemma {:induction false} BytesTrichotomy(a: seq<Byte>, b: seq<Byte>)
    requires |a| == |b|
    ensures BytesBelow(a, b) ==> a != b && !BytesBelow(b, a)
    ensures BytesBelow(a, b) || a == b || BytesBelow(b, a)
  {
    if |a| > 0 {
      BytesTrichotomy(a[1..], b[1..]);
      assert a == [a[0]] + a[1..] && b == [b[0]] + b[1..];
    }
  }

  lemma {:induction false} BytesTransitive(a: seq<Byte>, b: seq<Byte>, c: seq<Byte>)
    requires |a| == |b| == |c|
    requires BytesBelow(a, b) && BytesBelow(b, c)
    ensures BytesBelow(a, c)
  {
    if a[0] == b[0] && b[0] == c[0] {
      BytesTransitive(a[1..], b[1..], c[1..]);
    }
  }

  /** operator< is a strict total order whose equivalence is operator==. A std::map keyed
      by Guid is therefore a finite map on Guid values, which is how the models represent it. */
  lemma GuidOrderIsTotal(f: Guid, g: Guid, h: Guid)
    ensures !Below(g, g)
    ensures Below(g, h) ==> !Below(h, g)
    ensures !Below(g, h) && !Below(h, g) <==> g == h
    ensures Below(f, g) && Below(g, h) ==> Below(f, h)
  {
    BytesTrichotomy(g.writer, g.writer);
    BytesTrichotomy(g.writer, h.writer);
    if Below(f, g) && Below(g, h) && f.writer != g.writer && g.writer != h.writer {
      BytesTransitive(f.writer, g.writer, h.writer);
    }
  }
}
