/** The scanners under the parser: white space, names, delimited text, and white space collapsing
    (external/tinyxml2/tinyxml2.h lines 551-589, external/tinyxml2/tinyxml2.cpp lines 212-283). */
module XmlScan {
  import opened Common
  import opened XmlChars

  /** The text from its first byte that is not white space on. */
  function SkipWs(s: Bytes): (r: Bytes)
    ensures |r| <= |s| && r == s[|s| - |r|..]
    ensures r != [] ==> !IsWhiteSpace(r[0])
    ensures forall i :: 0 <= i < |s| - |r| ==> IsWhiteSpace(s[i])
  {
    if s != [] && IsWhiteSpace(s[0]) then SkipWs(s[1..]) else s
  }

  /** The longest run of name bytes. */
  function NameRun(s: Bytes): (r: Bytes)
    ensures r <= s
    ensures forall i :: 0 <= i < |r| ==> IsNameChar(r[i])
    ensures |r| < |s| ==> !IsNameChar(s[|r|])
  {
    if s == [] || !IsNameChar(s[0]) then []
    else
      var r := NameRun(s[1..]);
      assert |r| < |s[1..]| ==> s[1 + |r|] == s[1..][|r|];
      [s[0]] + r
  }

  /** ParseName: the name at the front and the text after it. */
  function ParseName(s: Bytes): (r: Option<(Bytes, Bytes)>)
    ensures r.Some? ==> r.value.0 != [] && s == r.value.0 + r.value.1 && |r.value.1| < |s|
  {
    if s == [] || !IsNameStart(s[0]) then None
    else
      var name := NameRun(s);
      assert name != [] by { assert IsNameChar(s[0]); }
      Some((name, s[|name|..]))
  }

  /** ParseText: the text before the first occurrence of tag, and the text after that tag. */
  function ParseText(s: Bytes, tag: Bytes): (r: Option<(Bytes, Bytes)>)
    requires tag != []
    ensures r.Some? ==> s == r.value.0 + tag + r.value.1 && |r.value.1| < |s|
    decreases |s|
  {
    if s == [] then None
    else if tag <= s then Some(([], s[|tag|..]))
    else
      var r := ParseText(s[1..], tag);
      if r.None? then None
      else
        assert s == [s[0]] + s[1..];
        Some(([s[0]] + r.value.0, r.value.1))
  }

  /** tag does not start inside v, even counting the tag that follows v. */
  predicate EndsAt(v: Bytes, tag: Bytes) {
    forall i :: 0 <= i < |v| ==> !(tag <= (v + tag)[i..])
  }

  /** ParseText finds the first occurrence: it returns v exactly when v ends where tag starts and
      no earlier occurrence exists. */
  lemma {:induction false} ParseTextFindsFirst(v: Bytes, tag: Bytes, rest: Bytes)
    requires tag != [] && EndsAt(v, tag)
    ensures ParseText(v + tag + rest, tag) == Some((v, rest))
    decreases |v|
  {
    var s := v + tag + rest;
    if v == [] {
      assert s == tag + rest && s[|tag|..] == rest;
    } else {
      assert s[1..] == v[1..] + tag + rest;
      assert (v + tag)[0..] == v + tag;
      assert s == (v + tag) + rest;
      assert s[..|tag|] == (v + tag)[..|tag|];
      forall i | 0 <= i < |v[1..]| ensures !(tag <= (v[1..] + tag)[i..]) {
        assert (v[1..] + tag)[i..] == (v + tag)[i + 1..];
      }
      ParseTextFindsFirst(v[1..], tag, rest);
      assert [v[0]] + v[1..] == v;
    }
  }

  lemma {:induction false} ParseTextIsFirst(s: Bytes, tag: Bytes)
    requires tag != [] && ParseText(s, tag).Some?
    ensures EndsAt(ParseText(s, tag).value.0, tag)
    decreases |s|
  {
    if !(tag <= s) {
      ParseTextIsFirst(s[1..], tag);
      var (v, rest) := ParseText(s, tag).value;
      var w := ParseText(s[1..], tag).value.0;
      assert v == [s[0]] + w;
      forall i | 0 <= i < |v| ensures !(tag <= (v + tag)[i..]) {
        if i == 0 {
          assert (v + tag)[0..] + rest == s;
          assert tag <= v + tag ==> tag <= s;
        } else {
          assert (v + tag)[i..] == (w + tag)[i - 1..];
        }
      }
    }
  }

  // ---- the loops ----

  method SkipWhiteSpace(s: Bytes) returns (p: nat)
    ensures p <= |s| && s[p..] == SkipWs(s)
  {
    p := 0;
    while p < |s| && IsWhiteSpace(s[p])
      invariant 0 <= p <= |s|
      invariant SkipWs(s) == SkipWs(s[p..])
    {
      assert s[p..][1..] == s[p + 1..];
      p := p + 1;
    }
  }

  method ScanName(s: Bytes) returns (end: Option<nat>)
    ensures end.None? <==> ParseName(s).None?
    ensures end.Some? ==> end.value <= |s| && ParseName(s).value == (s[..end.value], s[end.value..])
  {
    if s == [] || !IsNameStart(s[0]) {
      return None;
    }
    var p := 1;
    assert s[..1] == [s[0]] && NameRun(s) == s[..1] + NameRun(s[1..]);
    while p < |s| && IsNameChar(s[p])
      invariant 1 <= p <= |s|
      invariant NameRun(s) == s[..p] + NameRun(s[p..])
    {
      NameRunStep(s, p);
      p := p + 1;
    }
    return Some(p);
  }

  lemma NameRunStep(s: Bytes, p: nat)
    requires p < |s| && IsNameChar(s[p])
    ensures s[..p] + NameRun(s[p..]) == s[..p + 1] + NameRun(s[p + 1..])
  {
  }

  lemma MoveOne(s: Bytes, p: nat, r: Bytes)
    requires p < |s|
    ensures s[..p] + ([s[p]] + r) == s[..p + 1] + r
  {
  }

  function Prepend(a: Bytes, r: Option<(Bytes, Bytes)>): Option<(Bytes, Bytes)> {
    if r.None? then None else Some((a + r.value.0, r.value.1))
  }

  lemma ParseTextStep(s: Bytes, tag: Bytes, p: nat)
    requires tag != [] && p < |s| && !(tag <= s[p..])
    ensures Prepend(s[..p], ParseText(s[p..], tag)) == Prepend(s[..p + 1], ParseText(s[p + 1..], tag))
  {
    assert s[p..][1..] == s[p + 1..];
    var r := ParseText(s[p + 1..], tag);
    if r.Some? {
      MoveOne(s, p, r.value.0);
    }
  }

  lemma StartScan(s: Bytes, tag: Bytes)
    requires tag != []
    ensures ParseText(s, tag) == Prepend(s[..0], ParseText(s[0..], tag))
  {
    assert s[0..] == s;
    var r := ParseText(s, tag);
    assert r.Some? ==> s[..0] + r.value.0 == r.value.0;
  }

  lemma TagFound(s: Bytes, tag: Bytes, p: nat)
    requires tag != [] && p < |s| && tag <= s[p..]
    ensures Prepend(s[..p], ParseText(s[p..], tag)) == Some((s[..p], s[p + |tag|..]))
  {
    assert s[..p] + [] == s[..p] && s[p..][|tag|..] == s[p + |tag|..];
  }

  method ScanText(s: Bytes, tag: Bytes) returns (end: Option<nat>)
    requires tag != []
    ensures end.None? <==> ParseText(s, tag).None?
    ensures end.Some? ==> end.value + |tag| <= |s|
                          && ParseText(s, tag).value == (s[..end.value], s[end.value + |tag|..])
  {
    var p := 0;
    StartScan(s, tag);
    while p < |s|
      invariant 0 <= p <= |s|
      invariant ParseText(s, tag) == Prepend(s[..p], ParseText(s[p..], tag))
    {
      if tag <= s[p..] {
        TagFound(s, tag, p);
        return Some(p);
      }
      ParseTextStep(s, tag, p);
      p := p + 1;
    }
    return None;
  }

  // ---- collapsing white space ----

  /** The text after leading white space: runs become one space, trailing white space vanishes. */
  function CollapseTail(s: Bytes): Bytes
    decreases |s|
  {
    if s == [] then []
    else if IsWhiteSpace(s[0]) then
      var r := SkipWs(s);
      if r == [] then [] else [SPACE, r[0]] + CollapseTail(r[1..])
    else [s[0]] + CollapseTail(s[1..])
  }

  function Collapse(s: Bytes): Bytes {
    CollapseTail(SkipWs(s))
  }

  function NonSpace(s: Bytes): Bytes {
    if s == [] then [] else (if IsWhiteSpace(s[0]) then [] else [s[0]]) + NonSpace(s[1..])
  }

  /** Single spaces only, none at the end. */
  predicate Tidy(s: Bytes) {
    forall i :: 0 <= i < |s| && IsWhiteSpace(s[i]) ==>
      s[i] == SPACE && i + 1 < |s| && !IsWhiteSpace(s[i + 1])
  }

  lemma TidyAfter(c: Byte, tail: Bytes)
    requires Tidy(tail) && !IsWhiteSpace(c)
    ensures Tidy([c] + tail) && Tidy([SPACE, c] + tail)
  {
  }

  lemma {:induction false} CollapseTailTidies(s: Bytes)
    ensures Tidy(CollapseTail(s))
    ensures s != [] && !IsWhiteSpace(s[0]) ==> CollapseTail(s) != [] && !IsWhiteSpace(CollapseTail(s)[0])
    decreases |s|
  {
    if s != [] {
      var r := SkipWs(s);
      if r != [] {
        CollapseTailTidies(r[1..]);
        TidyAfter(r[0], CollapseTail(r[1..]));
      }
    }
  }

  lemma NonSpaceCons(c: Byte, tail: Bytes)
    requires !IsWhiteSpace(c)
    ensures NonSpace([c] + tail) == [c] + NonSpace(tail)
    ensures NonSpace([SPACE, c] + tail) == [c] + NonSpace(tail)
  {
  }

  lemma {:induction false} CollapseTailKeepsText(s: Bytes)
    ensures NonSpace(CollapseTail(s)) == NonSpace(s)
    decreases |s|
  {
    if s != [] {
      var r := SkipWs(s);
      NonSpaceSkips(s);
      assert NonSpace(s) == NonSpace(r);
      if r != [] {
        CollapseTailKeepsText(r[1..]);
        NonSpaceCons(r[0], CollapseTail(r[1..]));
      }
    }
  }

  lemma {:induction false} NonSpaceSkips(s: Bytes)
    ensures NonSpace(SkipWs(s)) == NonSpace(s)
  {
    if s != [] && IsWhiteSpace(s[0]) {
      NonSpaceSkips(s[1..]);
    }
  }

  lemma {:induction false} TidyIsFixed(s: Bytes)
    requires Tidy(s)
    ensures CollapseTail(s) == s
    decreases |s|
  {
    if s != [] {
      if IsWhiteSpace(s[0]) {
        assert s[1..][0] == s[1];
        assert SkipWs(s[1..]) == s[1..];
        assert s[1..][1..] == s[2..];
        assert Tidy(s[2..]) by { assert forall i :: 0 <= i < |s[2..]| ==> s[2..][i] == s[i + 2]; }
        TidyIsFixed(s[2..]);
        assert s == [SPACE, s[1]] + s[2..];
      } else {
        assert Tidy(s[1..]) by { assert forall i :: 0 <= i < |s[1..]| ==> s[1..][i] == s[i + 1]; }
        TidyIsFixed(s[1..]);
        assert s == [s[0]] + s[1..];
      }
    }
  }

  /** Collapsing leaves no leading, trailing, doubled or unusual white space, keeps every other
      byte in order, and changes nothing the second time. */
  lemma CollapseNormalises(s: Bytes)
    ensures Tidy(Collapse(s)) && (Collapse(s) != [] ==> !IsWhiteSpace(Collapse(s)[0]))
    ensures NonSpace(Collapse(s)) == NonSpace(s)
    ensures Collapse(Collapse(s)) == Collapse(s)
  {
    NonSpaceSkips(s);
    CollapseTailTidies(SkipWs(s));
    CollapseTailKeepsText(SkipWs(s));
    TidyIsFixed(Collapse(s));
  }

  // ---- collapsing, word by word ----

  predicate IsWord(w: Bytes) {
    forall i :: 0 <= i < |w| ==> !IsWhiteSpace(w[i])
  }

  /** The bytes up to the next white space. */
  function FirstWord(s: Bytes): (w: Bytes)
    ensures w <= s && IsWord(w)
    ensures |w| < |s| ==> IsWhiteSpace(s[|w|])
    ensures s != [] && !IsWhiteSpace(s[0]) ==> w != []
  {
    if s == [] || IsWhiteSpace(s[0]) then []
    else
      var w := FirstWord(s[1..]);
      assert s == [s[0]] + s[1..];
      [s[0]] + w
  }

  /** The words of a text. */
  function Words(s: Bytes): seq<Bytes>
    decreases |s|
  {
    var t := SkipWs(s);
    if t == [] then [] else
    var w := FirstWord(t);
    assert w != [] && |t[|w|..]| < |s|;
    [w] + Words(t[|w|..])
  }

  lemma {:induction false} WordsAreWords(s: Bytes)
    ensures forall i :: 0 <= i < |Words(s)| ==> Words(s)[i] != [] && IsWord(Words(s)[i])
    decreases |s|
  {
    hide SkipWs, FirstWord, IsWord;
    var t := SkipWs(s);
    if t != [] {
      WordsAreWords(t[|FirstWord(t)|..]);
    }
  }

  /** Words with a space between any two of them. */
  function Joined(ws: seq<Bytes>): Bytes {
    if ws == [] then [] else if |ws| == 1 then ws[0] else ws[0] + [SPACE] + Joined(ws[1..])
  }

  lemma {:induction false} WordStays(w: Bytes, u: Bytes)
    requires IsWord(w)
    ensures CollapseTail(w + u) == w + CollapseTail(u)
  {
    if w == [] {
      assert w + u == u;
    } else {
      WordStays(w[1..], u);
      assert (w + u)[1..] == w[1..] + u && w == [w[0]] + w[1..];
    }
  }

  lemma GapBecomesSpace(u: Bytes)
    requires u == [] || IsWhiteSpace(u[0])
    ensures CollapseTail(u) == if SkipWs(u) == [] then [] else [SPACE] + CollapseTail(SkipWs(u))
  {
  }

  lemma {:induction false} TailJoinsWords(s: Bytes)
    ensures CollapseTail(SkipWs(s)) == Joined(Words(s))
    decreases |s|
  {
    hide CollapseTail, SkipWs, FirstWord;
    var t := SkipWs(s);
    if t == [] {
      WordStays([], []);
      GapBecomesSpace([]);
    } else {
      var w := FirstWord(t);
      var u := t[|w|..];
      assert t == w + u;
      WordStays(w, u);
      GapBecomesSpace(u);
      TailJoinsWords(u);
      if SkipWs(u) == [] {
        assert Words(s) == [w];
      } else {
        assert Words(s)[1..] == Words(u);
        assert w + ([SPACE] + Joined(Words(u))) == w + [SPACE] + Joined(Words(u));
      }
    }
  }

  /** Collapsing keeps the words of a text and puts exactly one space between any two. */
  lemma CollapseJoinsWords(s: Bytes)
    ensures Collapse(s) == Joined(Words(s))
    ensures forall i :: 0 <= i < |Words(s)| ==> Words(s)[i] != [] && IsWord(Words(s)[i])
  {
    hide Words, IsWord;
    TailJoinsWords(s);
    WordsAreWords(s);
  }

  // ---- collapsing in place ----

  /** The text t from k on is still unread in the buffer b, which shows it from first on and ends
      it with a NUL; what has been written up to q needs only todo to be goal. */
  ghost predicate Collapsing(b: Bytes, t: Bytes, first: nat, k: nat, q: nat, todo: Bytes, goal: Bytes) {
    && k <= |t| && first <= q <= first + k && first + |t| < |b| && b[first + |t|] == 0
    && (forall i :: k <= i < |t| ==> b[first + i] == t[i])
    && goal == b[first..q] + todo
  }

  /** Writing the first part of what is still to do, while reading up to n. */
  lemma Wrote(b: Bytes, t: Bytes, first: nat, k: nat, q: nat, w: Bytes, rest: Bytes, goal: Bytes, n: nat)
    requires Collapsing(b, t, first, k, q, w + rest, goal) && k <= n <= |t| && q + |w| <= first + n
    ensures Collapsing(Stored(b, q, w), t, first, n, q + |w|, rest, goal)
  {
  }

  lemma {:induction false} SkipWsIs(s: Bytes, k: nat)
    requires k <= |s| && (forall i :: 0 <= i < k ==> IsWhiteSpace(s[i])) && (k < |s| ==> !IsWhiteSpace(s[k]))
    ensures SkipWs(s) == s[k..]
  {
  }

  /** White space in t from k to n, and something else there. */
  predicate SpacesTo(t: Bytes, k: nat, n: nat) {
    k <= n <= |t| && (forall i :: k <= i < n ==> IsWhiteSpace(t[i])) && (n < |t| ==> !IsWhiteSpace(t[n]))
  }

  lemma SkipWsTo(t: Bytes, k: nat, n: nat)
    requires SpacesTo(t, k, n)
    ensures SkipWs(t[k..]) == t[n..]
  {
    SkipWsIs(t[k..], n - k);
    assert t[k..][n - k..] == t[n..];
  }

  /** What white space from k to n and then one other byte collapse to. */
  function SpacedByte(t: Bytes, k: nat, n: nat): Bytes
    requires k <= n < |t|
  {
    if n > k then [SPACE, t[n]] else [t[n]]
  }

  lemma PieceCollapses(t: Bytes, k: nat, n: nat)
    requires SpacesTo(t, k, n) && n < |t|
    ensures CollapseTail(t[k..]) == SpacedByte(t, k, n) + CollapseTail(t[n + 1..])
  {
    SkipWsTo(t, k, n);
    assert t[k..][0] == t[k];
    assert t[n..][0] == t[n] && t[n..][1..] == t[n + 1..];
  }

  lemma NothingLeft(t: Bytes, k: nat)
    requires SpacesTo(t, k, |t|)
    ensures CollapseTail(t[k..]) == []
  {
  }

  /** A NUL at end stops the scan. */
  method SkipWhiteSpaceAt(buf: array<Byte>, p: nat, end: nat) returns (n: nat)
    requires p <= end < buf.Length && buf[end] == 0
    ensures p <= n <= end && (forall i :: p <= i < n ==> IsWhiteSpace(buf[i])) && !IsWhiteSpace(buf[n])
  {
    n := p;
    while IsWhiteSpace(buf[n])
      invariant p <= n <= end && forall i :: p <= i < n ==> IsWhiteSpace(buf[i])
      decreases end - n
    {
      n := n + 1;
    }
  }

  method WritePiece(buf: array<Byte>, p: nat, q: nat, n: nat, ghost w: Bytes) returns (r: nat)
    requires q <= p <= n < buf.Length && w == if n > p then [SPACE, buf[n]] else [buf[n]]
    modifies buf
    ensures r == q + |w| <= n + 1 && buf[..] == Stored(old(buf[..]), q, w)
  {
    r := q;
    if n > p {
      buf[r] := SPACE;
      r := r + 1;
    }
    buf[r] := buf[n];
    r := r + 1;
  }

  /** One round of the loop: the white space and the byte behind it, from k to n in the text. */
  method CollapseRound(buf: array<Byte>, first: nat, ghost t: Bytes, p: nat, q: nat, n: nat, ghost k: nat, ghost m: nat,
                       ghost rest: Bytes, ghost goal: Bytes) returns (r: nat)
    requires p == first + k && n == first + m && k <= m < |t|
    requires Collapsing(buf[..], t, first, k, q, SpacedByte(t, k, m) + rest, goal)
    modifies buf
    ensures Collapsing(buf[..], t, first, m + 1, r, rest, goal)
    ensures forall i :: 0 <= i < first || n < i < buf.Length ==> buf[i] == old(buf[i])
  {
    ghost var b := buf[..];
    assert b[first + m] == t[m];
    r := WritePiece(buf, p, q, n, SpacedByte(t, k, m));
    Wrote(b, t, first, k, q, SpacedByte(t, k, m), rest, goal, m + 1);
    StoredElsewhere(b, q, SpacedByte(t, k, m));
    assert forall i :: 0 <= i < buf.Length ==> buf[i] == buf[..][i];
  }

  lemma ScannedTo(b: Bytes, t: Bytes, first: nat, k: nat, n: nat)
    requires k <= |t| && first + k <= n <= first + |t| < |b| && (forall i :: k <= i < |t| ==> b[first + i] == t[i])
    requires (forall i :: first + k <= i < n ==> IsWhiteSpace(b[i])) && !IsWhiteSpace(b[n])
    ensures SpacesTo(t, k, n - first)
  {
  }

  /** tails[k] is what the text from k on collapses to. */
  ghost predicate AreTails(t: Bytes, tails: seq<Bytes>) {
    && |tails| == |t| + 1
    && forall k: nat, m: nat :: SpacesTo(t, k, m) ==>
         tails[k] == if m < |t| then SpacedByte(t, k, m) + tails[m + 1] else []
  }

  lemma TailsOf(t: Bytes) returns (tails: seq<Bytes>)
    ensures AreTails(t, tails) && tails[0] == CollapseTail(t)
  {
    tails := seq(|t| + 1, i requires 0 <= i <= |t| => CollapseTail(t[i..]));
    assert t[0..] == t;
    forall k: nat, m: nat | SpacesTo(t, k, m)
      ensures tails[k] == if m < |t| then SpacedByte(t, k, m) + tails[m + 1] else []
    {
      if m < |t| {
        PieceCollapses(t, k, m);
      } else {
        NothingLeft(t, k);
      }
    }
  }

  lemma AtNul(b: Bytes, t: Bytes, first: nat, k: nat, p: nat)
    requires first + |t| < |b| && b[first + |t|] == 0 && NoNul(t) && k <= |t| && p == first + k
    requires forall i :: k <= i < |t| ==> b[first + i] == t[i]
    ensures b[p] == 0 <==> k == |t|
  {
    assert k < |t| ==> b[first + k] == t[k];
  }

  /** The loop of CollapseWhitespace, with a read and a write pointer. */
  method CollapseFrom(buf: array<Byte>, first: nat, end: nat, ghost t: Bytes, ghost tails: seq<Bytes>) returns (q: nat)
    requires first + |t| == end < buf.Length && NoNul(t) && AreTails(t, tails)
    requires Collapsing(buf[..], t, first, 0, first, tails[0], tails[0])
    modifies buf
    ensures first <= q <= end && buf[..][first..q] + [] == tails[0]
    ensures forall i :: 0 <= i < first || end < i < buf.Length ==> buf[i] == old(buf[i])
  {
    hide IsWhiteSpace, SpacedByte, NoNul;
    var p := first;
    q := first;
    ghost var k := 0;
    AtNul(buf[..], t, first, k, p);
    while buf[p] != 0
      invariant p == first + k && k <= |t| && Collapsing(buf[..], t, first, k, q, tails[k], tails[0])
      invariant buf[p] == 0 <==> k == |t|
      invariant forall i :: 0 <= i < first || end < i < buf.Length ==> buf[i] == old(buf[i])
      decreases end - p
    {
      var n := SkipWhiteSpaceAt(buf, p, end);
      ghost var m := n - first;
      ScannedTo(buf[..], t, first, k, n);
      AtNul(buf[..], t, first, m, n);
      if buf[n] == 0 {
        return;
      }
      q := CollapseRound(buf, first, t, p, q, n, k, m, tails[m + 1], tails[0]);
      p, k := n + 1, m + 1;
      AtNul(buf[..], t, first, k, p);
    }
    assert SpacesTo(t, k, |t|);
  }

  /** CollapseWhitespace on the text that ends with the NUL at end: the new text starts at first,
      and nothing outside the old one is touched. */
  method CollapseWhitespace(buf: array<Byte>, start: nat, end: nat) returns (first: nat, q: nat)
    requires start <= end < buf.Length && buf[end] == 0 && NoNul(buf[start..end])
    modifies buf
    ensures start <= first <= q <= end && buf[q] == 0
    ensures buf[first..q] == Collapse(old(buf[start..end]))
    ensures forall i :: 0 <= i < start || end < i < buf.Length ==> buf[i] == old(buf[i])
  {
    hide *;
    first := SkipWhiteSpaceAt(buf, start, end);
    ghost var t, tails := StartCollapsing(buf[..], buf[start..end], start, first);
    q := first;
    if buf[first] == 0 {
      return;
    }
    q := CollapseFrom(buf, first, end, t, tails);
    buf[q] := 0;
  }

  lemma StartCollapsing(b: Bytes, s: Bytes, start: nat, first: nat) returns (t: Bytes, tails: seq<Bytes>)
    requires start <= first <= start + |s| < |b| && s == b[start..start + |s|] && b[start + |s|] == 0 && NoNul(s)
    requires (forall i :: start <= i < first ==> IsWhiteSpace(b[i])) && !IsWhiteSpace(b[first])
    ensures first + |t| == start + |s| && NoNul(t) && AreTails(t, tails) && tails[0] == Collapse(s)
    ensures Collapsing(b, t, first, 0, first, tails[0], tails[0])
    ensures b[first] == 0 ==> tails[0] == []
  {
    LeadingSpace(b, s, start, first);
    t := s[first - start..];
    tails := TailsOf(t);
    StartState(b, s, start, first, t, tails[0]);
  }

  lemma LeadingSpace(b: Bytes, s: Bytes, start: nat, first: nat)
    requires start <= first <= start + |s| < |b| && s == b[start..start + |s|]
    requires (forall i :: start <= i < first ==> IsWhiteSpace(b[i])) && !IsWhiteSpace(b[first])
    ensures SkipWs(s) == s[first - start..]
  {
    hide IsWhiteSpace, SkipWs, SpacesTo;
    ScannedTo(b, s, start, 0, first);
    assert s[0..] == s;
    SkipWsTo(s, 0, first - start);
  }

  lemma StartState(b: Bytes, s: Bytes, start: nat, first: nat, t: Bytes, goal: Bytes)
    requires start <= first <= start + |s| < |b| && s == b[start..start + |s|] && b[start + |s|] == 0
    requires NoNul(s) && t == s[first - start..]
    ensures NoNul(t) && (b[first] == 0 ==> t == [])
    ensures Collapsing(b, t, first, 0, first, goal, goal)
  {
  }
}
