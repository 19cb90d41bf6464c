/** The doubly linked child lists of the document tree (external/tinyxml2/tinyxml2.cpp lines
    887-1032 and 1216-1228).

    The nodes are objects; their links at one moment are a value of type Links per node. The
    methods are proved to change the links as the functions say, and the functions are proved to
    keep every list of children linked in both directions. */
module XmlChildren {
  import opened Common

  // ---- child sequences ----

  /** s without the first occurrence of x. */
  function Remove<T(==)>(s: seq<T>, x: T): (r: seq<T>)
    ensures x !in s ==> r == s
    ensures forall y :: y in r ==> y in s
    ensures forall y :: y in s && y != x ==> y in r
  {
    if s == [] then []
    else if s[0] == x then assert s == [s[0]] + s[1..]; s[1..]
    else assert s == [s[0]] + s[1..]; [s[0]] + Remove(s[1..], x)
  }

  /** s with x put right behind a. */
  function PutAfter<T(==)>(s: seq<T>, a: T, x: T): seq<T> {
    if s == [] then []
    else if s[0] == a then [a, x] + s[1..]
    else [s[0]] + PutAfter(s[1..], a, x)
  }

  lemma {:induction false} RemoveAt<T>(s: seq<T>, i: nat)
    requires Distinct(s) && i < |s|
    ensures Remove(s, s[i]) == s[..i] + s[i + 1..]
  {
    if i > 0 {
      assert s[1..][i - 1] == s[i];
      RemoveAt(s[1..], i - 1);
      assert s[0] != s[i];
      assert [s[0]] + (s[1..][..i - 1] + s[1..][i..]) == s[..i] + s[i + 1..];
    }
  }

  // ---- links as values ----

  datatype Links = Links(
    parent: XMLNode?,
    first: XMLNode?,
    last: XMLNode?,
    prev: XMLNode?,
    next: XMLNode?,
    children: seq<XMLNode>)

  type Web = map<XMLNode, Links>

  /** The child number i of p points back to p and to its neighbours. */
  ghost predicate LinkedAt(h: Web, p: XMLNode, i: nat) {
    && p in h && i < |h[p].children|
    && var s := h[p].children;
       && s[i] in h
       && h[s[i]].parent == p
       && h[s[i]].prev == (if i == 0 then null else s[i - 1])
       && h[s[i]].next == (if i == |s| - 1 then null else s[i + 1])
  }

  /** The chains from both ends of p spell out its children. */
  ghost predicate Linked(h: Web, p: XMLNode) {
    && p in h
    && var s := h[p].children;
       && Distinct(s)
       && (forall i {:trigger LinkedAt(h, p, i)} :: 0 <= i < |s| ==> LinkedAt(h, p, i))
       && h[p].first == (if s == [] then null else s[0])
       && h[p].last == (if s == [] then null else s[|s| - 1])
  }

  /** n's children are linked, and n is among the children of its parent, if it has one. */
  ghost predicate Placed(h: Web, n: XMLNode) {
    && Linked(h, n)
    && (h[n].parent == null ==> h[n].prev == null && h[n].next == null)
    && (h[n].parent != null ==> h[n].parent in h && n in h[h[n].parent].children)
  }

  ghost predicate WellLinked(h: Web) {
    forall n {:trigger Placed(h, n)} :: n in h ==> Placed(h, n)
  }

  /** Where a node is among its siblings, and what its links therefore are. */
  lemma Position(h: Web, p: XMLNode, n: XMLNode) returns (i: nat)
    requires WellLinked(h) && p in h && n in h && h[n].parent == p
    ensures Linked(h, p) && i < |h[p].children| && h[p].children[i] == n && LinkedAt(h, p, i)
    ensures i > 0 ==> LinkedAt(h, p, i - 1)
    ensures i < |h[p].children| - 1 ==> LinkedAt(h, p, i + 1)
    ensures h[p].first == n <==> i == 0
    ensures h[p].last == n <==> i == |h[p].children| - 1
  {
    hide Remove;
    assert Placed(h, p) && Placed(h, n);
    i :| 0 <= i < |h[p].children| && h[p].children[i] == n;
    assert LinkedAt(h, p, i);
    assert i > 0 ==> LinkedAt(h, p, i - 1);
    assert i < |h[p].children| - 1 ==> LinkedAt(h, p, i + 1);
  }

  /** A child is found under no other parent. */
  lemma ChildOf(h: Web, p: XMLNode, i: nat)
    requires WellLinked(h) && p in h && i < |h[p].children|
    ensures LinkedAt(h, p, i) && h[p].children[i] in h && h[h[p].children[i]].parent == p
  {
    hide Remove;
    assert Placed(h, p);
    assert LinkedAt(h, p, i);
  }

  // ---- unlinking ----

  /** Unlink, field by field. */
  ghost function Unlinked(h: Web, p: XMLNode, c: XMLNode): Web
    requires p in h && c in h
  {
    map n | n in h :: Links(
      if n == c then null else h[n].parent,
      if n == p && h[n].first == c then h[c].next else h[n].first,
      if n == p && h[n].last == c then h[c].prev else h[n].last,
      if n == c then null else if h[c].next == n then h[c].prev else h[n].prev,
      if n == c then null else if h[c].prev == n then h[c].next else h[n].next,
      if n == p then Remove(h[n].children, c) else h[n].children)
  }

  lemma UnlinkOtherAt(h: Web, p: XMLNode, c: XMLNode, q: XMLNode, k: nat)
    requires WellLinked(h) && p in h && c in h && h[c].parent == p && q in h && q != p && k < |h[q].children|
    ensures LinkedAt(Unlinked(h, p, c), q, k) && h[q].children[k] != c
  {
    hide Remove;
    var i := Position(h, p, c);
    ChildOf(h, q, k);
  }

  lemma Siblings<T>(s: seq<T>, i: nat, t: seq<T>, k: nat)
    requires i < |s| && t == s[..i] + s[i + 1..] && k < |t|
    ensures k < i ==> t[k] == s[k] && (k > 0 ==> t[k - 1] == s[k - 1])
                      && (k < |t| - 1 ==> t[k + 1] == if k == i - 1 then s[i + 1] else s[k + 1])
    ensures k >= i ==> t[k] == s[k + 1] && (k > 0 ==> t[k - 1] == if k == i then s[i - 1] else s[k])
                       && (k < |t| - 1 ==> t[k + 1] == s[k + 2])
  {
  }

  lemma UnlinkBefore(h: Web, p: XMLNode, c: XMLNode, i: nat, k: nat)
    requires LinkedAt(h, p, i) && h[p].children[i] == c && LinkedAt(h, p, k) && k < i
    requires Distinct(h[p].children) && Remove(h[p].children, c) == h[p].children[..i] + h[p].children[i + 1..]
    ensures LinkedAt(Unlinked(h, p, c), p, k)
  {
  }

  lemma UnlinkBehind(h: Web, p: XMLNode, c: XMLNode, i: nat, k: nat)
    requires LinkedAt(h, p, i) && h[p].children[i] == c && LinkedAt(h, p, k + 1) && k >= i
    requires Distinct(h[p].children) && Remove(h[p].children, c) == h[p].children[..i] + h[p].children[i + 1..]
    ensures LinkedAt(Unlinked(h, p, c), p, k)
  {
    hide Remove;
    Siblings(h[p].children, i, Remove(h[p].children, c), k);
  }

  lemma RemovedEnds<T>(s: seq<T>, i: nat, t: seq<T>)
    requires Distinct(s) && i < |s| && t == s[..i] + s[i + 1..]
    ensures Distinct(t)
    ensures t != [] ==> t[0] == s[if i == 0 then 1 else 0] && t[|t| - 1] == s[if i == |s| - 1 then |s| - 2 else |s| - 1]
  {
  }

  lemma UnlinkEnds(h: Web, p: XMLNode, c: XMLNode, i: nat)
    requires Linked(h, p) && LinkedAt(h, p, i) && h[p].children[i] == c
    requires Remove(h[p].children, c) == h[p].children[..i] + h[p].children[i + 1..]
    ensures var g, s := Unlinked(h, p, c), Remove(h[p].children, c);
            && Distinct(s) && g[p].children == s
            && g[p].first == (if s == [] then null else s[0])
            && g[p].last == (if s == [] then null else s[|s| - 1])
  {
    hide Remove;
    RemovedEnds(h[p].children, i, Remove(h[p].children, c));
  }

  lemma UnlinkKeepsLinked(h: Web, p: XMLNode, c: XMLNode, q: XMLNode)
    requires WellLinked(h) && p in h && c in h && h[c].parent == p && q in h
    ensures Linked(Unlinked(h, p, c), q)
    ensures Unlinked(h, p, c)[q].children == Remove(h[q].children, c)
  {
    hide Remove;
    var g := Unlinked(h, p, c);
    assert Placed(h, q);
    if q == p {
      var i := Position(h, p, c);
      RemoveAt(h[p].children, i);
      UnlinkKeepsOwn(h, p, c, i);
    } else {
      forall k: nat | k < |h[q].children| ensures LinkedAt(g, q, k) && h[q].children[k] != c {
        UnlinkOtherAt(h, p, c, q, k);
      }
    }
  }

  lemma UnlinkKeepsOwn(h: Web, p: XMLNode, c: XMLNode, i: nat)
    requires Linked(h, p) && LinkedAt(h, p, i) && h[p].children[i] == c
    requires Remove(h[p].children, c) == h[p].children[..i] + h[p].children[i + 1..]
    ensures Linked(Unlinked(h, p, c), p)
  {
    hide Remove;
    UnlinkEnds(h, p, c, i);
    forall k: nat | k < |h[p].children| - 1 ensures LinkedAt(Unlinked(h, p, c), p, k) {
      if k < i {
        assert LinkedAt(h, p, k);
        UnlinkBefore(h, p, c, i, k);
      } else {
        assert LinkedAt(h, p, k + 1);
        UnlinkBehind(h, p, c, i, k);
      }
    }
  }

  lemma UnlinkKeepsPlace(h: Web, p: XMLNode, c: XMLNode, n: XMLNode)
    requires WellLinked(h) && p in h && c in h && h[c].parent == p && n in h && Linked(Unlinked(h, p, c), n)
    ensures Placed(Unlinked(h, p, c), n)
  {
    hide Remove;
    assert Placed(h, n);
    var i := Position(h, p, c);
  }

  /** Unlinking takes the node out of its parent's list, leaves every other list as it was, and
      all of them linked. */
  lemma UnlinkKeeps(h: Web, p: XMLNode, c: XMLNode)
    requires WellLinked(h) && p in h && c in h && h[c].parent == p
    ensures WellLinked(Unlinked(h, p, c))
    ensures forall q :: q in h ==> Unlinked(h, p, c)[q].children == Remove(h[q].children, c)
  {
    hide Remove;
    forall q | q in h
      ensures Placed(Unlinked(h, p, c), q) && Unlinked(h, p, c)[q].children == Remove(h[q].children, c)
    {
      UnlinkKeepsLinked(h, p, c, q);
      UnlinkKeepsPlace(h, p, c, q);
    }
  }

  // ---- inserting ----

  /** The sibling number i, if there is one. */
  function At(s: seq<XMLNode>, i: int): XMLNode? {
    if 0 <= i < |s| then s[i] else null
  }

  /** The node n, so far without parent, becomes child number k of p. */
  ghost function Inserted(h: Web, p: XMLNode, n: XMLNode, k: nat): Web
    requires p in h && n in h && k <= |h[p].children|
  {
    var s := h[p].children;
    map m | m in h :: Links(
      if m == n then p else h[m].parent,
      if m == p && k == 0 then n else h[m].first,
      if m == p && k == |s| then n else h[m].last,
      if m == n then At(s, k - 1) else if m == At(s, k) then n else h[m].prev,
      if m == n then At(s, k) else if m == At(s, k - 1) then n else h[m].next,
      if m == p then s[..k] + [n] + s[k..] else h[m].children)
  }

  lemma InsertBefore(h: Web, p: XMLNode, n: XMLNode, k: nat, j: nat)
    requires p in h && n in h && h[n].parent == null && k <= |h[p].children| && Distinct(h[p].children)
    requires j < k && LinkedAt(h, p, j)
    ensures LinkedAt(Inserted(h, p, n, k), p, j)
  {
  }

  lemma InsertHere(h: Web, p: XMLNode, n: XMLNode, k: nat)
    requires p in h && n in h && k <= |h[p].children|
    ensures LinkedAt(Inserted(h, p, n, k), p, k)
  {
  }

  lemma InsertBehind(h: Web, p: XMLNode, n: XMLNode, k: nat, j: nat)
    requires p in h && n in h && h[n].parent == null && k <= |h[p].children| && Distinct(h[p].children)
    requires j > k && LinkedAt(h, p, j - 1)
    ensures LinkedAt(Inserted(h, p, n, k), p, j)
  {
    hide Remove;
    var s := h[p].children;
    var t := s[..k] + [n] + s[k..];
    assert t[j] == s[j - 1] && (j > k + 1 ==> t[j - 1] == s[j - 2]) && t[k] == n;
    assert forall i: nat :: i < |s| && s[i] == s[j - 1] ==> i == j - 1;
  }

  lemma NewIsDistinct<T>(s: seq<T>, k: nat, n: T)
    requires Distinct(s) && k <= |s| && n !in s
    ensures Distinct(s[..k] + [n] + s[k..])
  {
  }

  lemma InsertKeepsOwn(h: Web, p: XMLNode, n: XMLNode, k: nat)
    requires Linked(h, p) && n in h && h[n].parent == null && k <= |h[p].children|
    ensures Linked(Inserted(h, p, n, k), p)
  {
    hide Remove;
    var s := h[p].children;
    forall j: nat | j < |s| + 1 ensures LinkedAt(Inserted(h, p, n, k), p, j) {
      if j < k {
        assert LinkedAt(h, p, j);
        InsertBefore(h, p, n, k, j);
      } else if j == k {
        InsertHere(h, p, n, k);
      } else {
        assert LinkedAt(h, p, j - 1);
        InsertBehind(h, p, n, k, j);
      }
    }
    forall j: nat | j < |s| ensures s[j] != n {
      assert LinkedAt(h, p, j);
    }
    NewIsDistinct(s, k, n);
    InsertEnds(h, p, n, k);
  }

  lemma InsertEnds(h: Web, p: XMLNode, n: XMLNode, k: nat)
    requires Linked(h, p) && n in h && k <= |h[p].children|
    ensures var g := Inserted(h, p, n, k);
            var s := g[p].children;
            g[p].first == s[0] && g[p].last == s[|s| - 1]
  {
  }

  lemma InsertOtherAt(h: Web, p: XMLNode, n: XMLNode, k: nat, q: XMLNode, j: nat)
    requires WellLinked(h) && p in h && n in h && h[n].parent == null && k <= |h[p].children|
    requires q in h && q != p && j < |h[q].children|
    ensures LinkedAt(Inserted(h, p, n, k), q, j)
  {
    hide Remove;
    ChildOf(h, q, j);
    if k > 0 {
      ChildOf(h, p, k - 1);
    }
    if k < |h[p].children| {
      ChildOf(h, p, k);
    }
  }

  lemma InsertKeepsOther(h: Web, p: XMLNode, n: XMLNode, k: nat, q: XMLNode)
    requires WellLinked(h) && p in h && n in h && h[n].parent == null && k <= |h[p].children| && q in h && q != p
    ensures Linked(Inserted(h, p, n, k), q)
  {
    hide Remove;
    assert Placed(h, q);
    forall j: nat | j < |h[q].children| ensures LinkedAt(Inserted(h, p, n, k), q, j) {
      InsertOtherAt(h, p, n, k, q, j);
    }
  }

  lemma InsertKeepsPlace(h: Web, p: XMLNode, n: XMLNode, k: nat, m: XMLNode)
    requires WellLinked(h) && p in h && n in h && h[n].parent == null && k <= |h[p].children| && m in h
    requires Linked(Inserted(h, p, n, k), m)
    ensures Placed(Inserted(h, p, n, k), m)
  {
    hide Remove;
    assert Placed(h, m);
    var g := Inserted(h, p, n, k);
    assert g[p].children[k] == n;
    assert forall c :: c in h[p].children ==> c in g[p].children;
    if k > 0 {
      ChildOf(h, p, k - 1);
    }
    if k < |h[p].children| {
      ChildOf(h, p, k);
    }
  }

  /** Inserting puts the node where it should be, leaves every other list as it was, and all of
      them linked. */
  lemma InsertKeeps(h: Web, p: XMLNode, n: XMLNode, k: nat)
    requires WellLinked(h) && p in h && n in h && h[n].parent == null && k <= |h[p].children|
    ensures WellLinked(Inserted(h, p, n, k))
  {
    hide Remove;
    forall m | m in h ensures Placed(Inserted(h, p, n, k), m) {
      if m == p {
        assert Placed(h, p);
        InsertKeepsOwn(h, p, n, k);
      } else {
        InsertKeepsOther(h, p, n, k, m);
      }
      InsertKeepsPlace(h, p, n, k, m);
    }
  }

  // ---- editing ----

  /** InsertChildPreamble: a node that has a parent is taken out of its list. */
  ghost function Freed(h: Web, n: XMLNode): Web
    requires n in h && (h[n].parent != null ==> h[n].parent in h)
  {
    if h[n].parent == null then h else Unlinked(h, h[n].parent, n)
  }

  lemma FreedKeeps(h: Web, n: XMLNode)
    requires WellLinked(h) && n in h
    ensures h[n].parent != null ==> h[n].parent in h
    ensures WellLinked(Freed(h, n)) && Freed(h, n)[n].parent == null && Freed(h, n).Keys == h.Keys
    ensures forall q :: q in h ==> Freed(h, n)[q].children == Remove(h[q].children, n)
  {
    hide Remove;
    assert Placed(h, n);
    if h[n].parent != null {
      UnlinkKeeps(h, h[n].parent, n);
    } else {
      forall q | q in h ensures n !in h[q].children {
        NotAChild(h, n, q);
      }
    }
  }

  lemma NotAChild(h: Web, n: XMLNode, q: XMLNode)
    requires WellLinked(h) && n in h && h[n].parent != q && q in h
    ensures n !in h[q].children
  {
    hide Remove;
    forall i: nat | i < |h[q].children| ensures h[q].children[i] != n {
      ChildOf(h, q, i);
    }
  }

  /** What the owner of a document can do to its child lists. */
  datatype Edit =
    | Unlinking(n: XMLNode)
    | InsertingEnd(p: XMLNode, n: XMLNode)
    | InsertingFirst(p: XMLNode, n: XMLNode)
    | InsertingAfter(p: XMLNode, a: XMLNode, n: XMLNode)

  type Kids = map<XMLNode, seq<XMLNode>>

  ghost function KidsOf(h: Web): Kids {
    map n | n in h :: h[n].children
  }

  /** The same edit on plain sequences of children. */
  ghost function EditKids(k: Kids, e: Edit): Kids {
    match e
    case Unlinking(n) => map q | q in k :: Remove(k[q], n)
    case InsertingEnd(p, n) => map q | q in k :: if q == p then Remove(k[q], n) + [n] else Remove(k[q], n)
    case InsertingFirst(p, n) => map q | q in k :: if q == p then [n] + Remove(k[q], n) else Remove(k[q], n)
    case InsertingAfter(p, a, n) =>
      if a == n then k
      else map q | q in k :: if q == p then PutAfter(Remove(k[q], n), a, n) else Remove(k[q], n)
  }

  /** The nodes exist, an unlinked node has a parent, and an insertion behind a has a in the list. */
  predicate Possible(h: Web, e: Edit) {
    match e
    case Unlinking(n) => n in h && h[n].parent != null
    case InsertingEnd(p, n) => p in h && n in h
    case InsertingFirst(p, n) => p in h && n in h
    case InsertingAfter(p, a, n) => p in h && a in h && n in h && h[a].parent == p
  }

  /** InsertAfterChild reads the next sibling of a once more after n has left its place. */
  ghost predicate Crashes(h: Web, e: Edit)
    requires WellLinked(h) && Possible(h, e)
  {
    && e.InsertingAfter? && e.a != e.n && h[e.a].next != null
    && (assert Placed(h, e.n); Freed(h, e.n)[e.a].next == null)
  }

  /** The links after an edit that does not crash. */
  ghost function EditWeb(h: Web, e: Edit): Web
    requires WellLinked(h) && Possible(h, e)
  {
    FreedKeeps(h, e.n);
    var g := Freed(h, e.n);
    match e
    case Unlinking(n) => g
    case InsertingEnd(p, n) => Inserted(g, p, n, |g[p].children|)
    case InsertingFirst(p, n) => Inserted(g, p, n, 0)
    case InsertingAfter(p, a, n) =>
      if a == n then h
      else Inserted(g, p, n, Behind(g[p].children, a))
  }

  /** The position right behind a, or the end. */
  function Behind<T(==)>(s: seq<T>, a: T): (k: nat)
    ensures k <= |s|
    ensures a in s ==> k > 0 && s[k - 1] == a
  {
    if s == [] then 0 else if s[0] == a then 1 else 1 + Behind(s[1..], a)
  }

  lemma {:induction false} PutBehind<T>(s: seq<T>, a: T, x: T)
    requires a in s
    ensures PutAfter(s, a, x) == s[..Behind(s, a)] + [x] + s[Behind(s, a)..]
  {
    hide Remove;
    if s[0] != a {
      PutBehind(s[1..], a, x);
    }
  }

  /** InsertAfterChild follows a null pointer exactly when the node to move is the last child and
      sits directly behind the one it is to be put behind. */
  lemma CrashesExactlyWhen(h: Web, p: XMLNode, a: XMLNode, n: XMLNode)
    requires WellLinked(h) && Possible(h, InsertingAfter(p, a, n))
    ensures Crashes(h, InsertingAfter(p, a, n)) <==> a != n && h[a].next == n && h[n].next == null
  {
    hide Remove;
    FreedKeeps(h, n);
    var i := Position(h, p, a);
    if h[n].parent != null {
      assert Placed(h, n);
      var j := Position(h, h[n].parent, n);
    }
  }

  /** The smallest case: p has the children a and n, and n is to be put behind a again. */
  lemma CrashingWeb(p: XMLNode, a: XMLNode, n: XMLNode)
    requires p != a && p != n && a != n
    ensures var h := map[p := Links(null, a, n, null, null, [a, n]),
                         a := Links(p, null, null, null, n, []),
                         n := Links(p, null, null, a, null, [])];
            WellLinked(h) && Possible(h, InsertingAfter(p, a, n)) && Crashes(h, InsertingAfter(p, a, n))
  {
    hide Remove;
    var h := map[p := Links(null, a, n, null, null, [a, n]),
                 a := Links(p, null, null, null, n, []),
                 n := Links(p, null, null, a, null, [])];
    assert LinkedAt(h, p, 0) && LinkedAt(h, p, 1) && [a, n][0] == a && [a, n][1] == n;
    assert Placed(h, p) && Placed(h, a) && Placed(h, n);
    CrashesExactlyWhen(h, p, a, n);
  }

  /** n is taken out wherever it is and put into the children of p at position k. */
  ghost function MovedKids(kids: Kids, p: XMLNode, n: XMLNode, k: nat): Kids
    requires p in kids && k <= |Remove(kids[p], n)|
  {
    map q | q in kids :: if q == p then Remove(kids[q], n)[..k] + [n] + Remove(kids[q], n)[k..] else Remove(kids[q], n)
  }

  lemma MoveRefines(h: Web, p: XMLNode, n: XMLNode, k: nat)
    requires WellLinked(h) && p in h && n in h && k <= |Remove(h[p].children, n)|
    ensures h[n].parent != null ==> h[n].parent in h
    ensures var g := Freed(h, n);
            && p in g && n in g && g[p].children == Remove(h[p].children, n)
            && WellLinked(Inserted(g, p, n, k)) && KidsOf(Inserted(g, p, n, k)) == MovedKids(KidsOf(h), p, n, k)
  {
    hide Remove;
    FreedKeeps(h, n);
    InsertKeeps(Freed(h, n), p, n, k);
    InsertedKids(h, Freed(h, n), p, n, k);
  }

  lemma InsertedKids(h: Web, g: Web, p: XMLNode, n: XMLNode, k: nat)
    requires g.Keys == h.Keys && p in h && n in h && k <= |Remove(h[p].children, n)|
    requires forall q :: q in h ==> g[q].children == Remove(h[q].children, n)
    ensures KidsOf(Inserted(g, p, n, k)) == MovedKids(KidsOf(h), p, n, k)
  {
  }

  /** Every edit keeps all lists linked, and does to the children what it does to sequences. */
  lemma EditRefines(h: Web, e: Edit)
    requires WellLinked(h) && Possible(h, e)
    ensures WellLinked(EditWeb(h, e))
    ensures KidsOf(EditWeb(h, e)) == EditKids(KidsOf(h), e)
  {
    hide Remove;
    match e
    case Unlinking(n) =>
      UnlinkingRefines(h, n);
    case InsertingEnd(p, n) =>
      EndRefines(h, p, n);
    case InsertingFirst(p, n) =>
      FirstRefines(h, p, n);
    case InsertingAfter(p, a, n) =>
      if a != n {
        AfterRefines(h, p, a, n);
      }
  }

  lemma UnlinkingRefines(h: Web, n: XMLNode)
    requires WellLinked(h) && n in h && h[n].parent != null
    ensures var e := Unlinking(n); WellLinked(EditWeb(h, e)) && KidsOf(EditWeb(h, e)) == EditKids(KidsOf(h), e)
  {
    hide Remove;
    FreedKeeps(h, n);
  }

  lemma EndRefines(h: Web, p: XMLNode, n: XMLNode)
    requires WellLinked(h) && p in h && n in h
    ensures var e := InsertingEnd(p, n); WellLinked(EditWeb(h, e)) && KidsOf(EditWeb(h, e)) == EditKids(KidsOf(h), e)
  {
    hide Remove;
    MoveRefines(h, p, n, |Remove(h[p].children, n)|);
    MovedToEnd(KidsOf(h), p, n);
  }

  lemma MovedToEnd(kids: Kids, p: XMLNode, n: XMLNode)
    requires p in kids
    ensures MovedKids(kids, p, n, |Remove(kids[p], n)|) == EditKids(kids, InsertingEnd(p, n))
  {
    hide Remove;
    var s := Remove(kids[p], n);
    assert s[..|s|] + [n] + s[|s|..] == s + [n];
  }

  lemma FirstRefines(h: Web, p: XMLNode, n: XMLNode)
    requires WellLinked(h) && p in h && n in h
    ensures var e := InsertingFirst(p, n); WellLinked(EditWeb(h, e)) && KidsOf(EditWeb(h, e)) == EditKids(KidsOf(h), e)
  {
    hide Remove;
    MoveRefines(h, p, n, 0);
    MovedToFront(KidsOf(h), p, n);
  }

  lemma MovedToFront(kids: Kids, p: XMLNode, n: XMLNode)
    requires p in kids
    ensures MovedKids(kids, p, n, 0) == EditKids(kids, InsertingFirst(p, n))
  {
    hide Remove;
    var s := Remove(kids[p], n);
    assert s[..0] + [n] + s[0..] == [n] + s;
  }

  lemma AfterRefines(h: Web, p: XMLNode, a: XMLNode, n: XMLNode)
    requires WellLinked(h) && Possible(h, InsertingAfter(p, a, n)) && a != n
    ensures var e := InsertingAfter(p, a, n);
            WellLinked(EditWeb(h, e)) && KidsOf(EditWeb(h, e)) == EditKids(KidsOf(h), e)
  {
    hide Remove;
    StillThere(h, p, a, n);
    MoveRefines(h, p, n, Behind(Remove(h[p].children, n), a));
    MovedBehind(KidsOf(h), p, a, n);
  }

  lemma MovedBehind(kids: Kids, p: XMLNode, a: XMLNode, n: XMLNode)
    requires p in kids && a != n && a in Remove(kids[p], n)
    ensures MovedKids(kids, p, n, Behind(Remove(kids[p], n), a)) == EditKids(kids, InsertingAfter(p, a, n))
  {
    hide Remove;
    PutBehind(Remove(kids[p], n), a, n);
  }

  lemma StillThere(h: Web, p: XMLNode, a: XMLNode, n: XMLNode)
    requires WellLinked(h) && p in h && a in h && h[a].parent == p && a != n
    ensures a in Remove(h[p].children, n)
  {
    hide Remove;
    var i := Position(h, p, a);
  }

  ghost predicate CanEdit(h: Web, edits: seq<Edit>)
    requires WellLinked(h)
    decreases |edits|
  {
    edits == [] ||
    (&& Possible(h, edits[0]) && !Crashes(h, edits[0])
     && (EditRefines(h, edits[0]); CanEdit(EditWeb(h, edits[0]), edits[1..])))
  }

  ghost function EditAll(h: Web, edits: seq<Edit>): Web
    requires WellLinked(h) && CanEdit(h, edits)
    decreases |edits|
  {
    if edits == [] then h else
    EditRefines(h, edits[0]);
    EditAll(EditWeb(h, edits[0]), edits[1..])
  }

  ghost function EditAllKids(k: Kids, edits: seq<Edit>): Kids
    decreases |edits|
  {
    if edits == [] then k else EditAllKids(EditKids(k, edits[0]), edits[1..])
  }

  /** Every run of insertions, moves and removals keeps the forward and backward chains equal to
      the sequences of children that the same run makes of plain sequences. */
  lemma {:induction false} RunRefinesSequences(h: Web, edits: seq<Edit>)
    requires WellLinked(h) && CanEdit(h, edits)
    ensures WellLinked(EditAll(h, edits))
    ensures KidsOf(EditAll(h, edits)) == EditAllKids(KidsOf(h), edits)
    decreases |edits|
  {
    hide Remove;
    if edits != [] {
      EditRefines(h, edits[0]);
      RunRefinesSequences(EditWeb(h, edits[0]), edits[1..]);
    }
  }

  // ---- the objects ----

  ghost function Snapshot(nodes: set<XMLNode>): Web
    reads nodes
  {
    map n | n in nodes :: Links(n.parent, n.first, n.last, n.prev, n.next, n.children)
  }

  lemma Neighbours(n: XMLNode, nodes: set<XMLNode>)
    requires WellLinked(Snapshot(nodes)) && n in nodes && n.parent != null
    ensures n.parent in nodes
    ensures n.prev != null ==> n.prev in nodes && n.prev != n
    ensures n.next != null ==> n.next in nodes && n.next != n
  {
    hide Remove;
    var h := Snapshot(nodes);
    assert Placed(h, n);
    var i := Position(h, n.parent, n);
  }

  /** The links of all nodes, compared with what they were. */
  ghost predicate AfterUnlink(h: Web, p: XMLNode, c: XMLNode, rest: seq<XMLNode>, nodes: set<XMLNode>)
    requires p in nodes && c in nodes && h.Keys == nodes
    reads nodes
  {
    && (forall n :: n in nodes ==> n.parent == if n == c then null else h[n].parent)
    && (forall n :: n in nodes ==> n.first == if n == p && h[n].first == c then h[c].next else h[n].first)
    && (forall n :: n in nodes ==> n.last == if n == p && h[n].last == c then h[c].prev else h[n].last)
    && (forall n :: n in nodes ==> n.prev == if n == c then null else if h[c].next == n then h[c].prev else h[n].prev)
    && (forall n :: n in nodes ==> n.next == if n == c then null else if h[c].prev == n then h[c].next else h[n].next)
    && (forall n :: n in nodes ==> n.children == if n == p then rest else h[n].children)
  }

  lemma IsUnlinked(h: Web, p: XMLNode, c: XMLNode, nodes: set<XMLNode>)
    requires p in nodes && c in nodes && h.Keys == nodes && AfterUnlink(h, p, c, Remove(h[p].children, c), nodes)
    ensures Snapshot(nodes) == Unlinked(h, p, c)
  {
    hide Remove;
    forall n | n in nodes ensures Snapshot(nodes)[n] == Unlinked(h, p, c)[n] {
      IsUnlinkedAt(h, p, c, n, nodes);
    }
    assert Snapshot(nodes).Keys == Unlinked(h, p, c).Keys;
  }

  lemma IsUnlinkedAt(h: Web, p: XMLNode, c: XMLNode, n: XMLNode, nodes: set<XMLNode>)
    requires p in nodes && c in nodes && n in nodes && h.Keys == nodes
    requires AfterUnlink(h, p, c, Remove(h[p].children, c), nodes)
    ensures Snapshot(nodes)[n] == Unlinked(h, p, c)[n]
  {
    hide Remove;
  }

  ghost predicate AfterInsert(h: Web, p: XMLNode, n: XMLNode, k: nat, nodes: set<XMLNode>)
    requires p in nodes && n in nodes && h.Keys == nodes && k <= |h[p].children|
    reads nodes
  {
    var s := h[p].children;
    var a, b := At(s, k - 1), At(s, k);
    && (forall m :: m in nodes ==> m.parent == if m == n then p else h[m].parent)
    && (forall m :: m in nodes ==> m.first == if m == p && k == 0 then n else h[m].first)
    && (forall m :: m in nodes ==> m.last == if m == p && k == |s| then n else h[m].last)
    && (forall m :: m in nodes ==> m.prev == if m == n then a else if m == b then n else h[m].prev)
    && (forall m :: m in nodes ==> m.next == if m == n then b else if m == a then n else h[m].next)
    && (forall m :: m in nodes ==> m.children == if m == p then s[..k] + [n] + s[k..] else h[m].children)
  }

  lemma IsInserted(h: Web, p: XMLNode, n: XMLNode, k: nat, nodes: set<XMLNode>)
    requires p in nodes && n in nodes && h.Keys == nodes && k <= |h[p].children| && AfterInsert(h, p, n, k, nodes)
    ensures Snapshot(nodes) == Inserted(h, p, n, k)
  {
  }

  /** What an insertion relies on: the ends of the list, and that the new node is not in it. */
  lemma EndsOf(h: Web, p: XMLNode, n: XMLNode)
    requires WellLinked(h) && p in h && n in h && h[n].parent == null
    ensures h[p].first == At(h[p].children, 0) && h[p].last == At(h[p].children, |h[p].children| - 1)
    ensures h[p].first != null ==> h[p].first in h && h[p].first != n
    ensures h[p].last != null ==> h[p].last in h && h[p].last != n
  {
    hide Remove;
    assert Placed(h, p);
    if h[p].children != [] {
      ChildOf(h, p, 0);
      ChildOf(h, p, |h[p].children| - 1);
    }
  }

  /** The place behind a child, and what is there. */
  lemma BehindOf(h: Web, p: XMLNode, a: XMLNode)
    requires WellLinked(h) && p in h && a in h && h[a].parent == p
    ensures var s := h[p].children; var k := Behind(s, a);
            0 < k <= |s| && At(s, k - 1) == a && At(s, k) == h[a].next
    ensures h[a].next != null ==> h[a].next in h && h[h[a].next].parent == p
  {
    hide Remove;
    var i := Position(h, p, a);
    var k := Behind(h[p].children, a);
    assert h[p].children[k - 1] == h[p].children[i];
    assert k - 1 == i;
  }

  /** If a is last, the place behind it is the end, whatever else is taken out. */
  lemma LastStaysLast(h: Web, p: XMLNode, a: XMLNode, n: XMLNode)
    requires WellLinked(h) && Possible(h, InsertingAfter(p, a, n)) && a != n && h[a].next == null
    ensures EditWeb(h, InsertingAfter(p, a, n)) == EditWeb(h, InsertingEnd(p, n))
  {
    hide Remove;
    FreedKeeps(h, n);
    FreedNeighbour(h, p, a, n);
    BehindLast(Freed(h, n), p, a);
  }

  lemma BehindLast(g: Web, p: XMLNode, a: XMLNode)
    requires WellLinked(g) && p in g && a in g && g[a].parent == p && g[a].next == null
    ensures Behind(g[p].children, a) == |g[p].children|
  {
    hide Remove;
    BehindOf(g, p, a);
  }

  /** Taking out n changes the next sibling of another child only if that was n. */
  lemma FreedNeighbour(h: Web, p: XMLNode, a: XMLNode, n: XMLNode)
    requires WellLinked(h) && p in h && a in h && n in h && a != n && h[a].parent == p
    ensures h[n].parent != null ==> h[n].parent in h
    ensures Freed(h, n)[a].parent == p
    ensures h[a].next != n ==> Freed(h, n)[a].next == h[a].next
  {
    hide Remove;
    FreedKeeps(h, n);
    if h[n].parent != null {
      var j := Position(h, h[n].parent, n);
    }
  }

  /** What InsertAfterChild meets once n has been taken out. */
  lemma Between(h: Web, p: XMLNode, a: XMLNode, n: XMLNode)
    requires WellLinked(h) && Possible(h, InsertingAfter(p, a, n)) && a != n && h[a].next != null
    ensures h[n].parent != null ==> h[n].parent in h
    ensures WellLinked(EditWeb(h, InsertingAfter(p, a, n)))
    ensures var g, e := Freed(h, n), InsertingAfter(p, a, n);
            && g.Keys == h.Keys && (Crashes(h, e) <==> g[a].next == null)
            && var k := Behind(g[p].children, a);
               && EditWeb(h, e) == Inserted(g, p, n, k)
               && (g[a].next != null ==>
                     && 0 < k < |g[p].children| && At(g[p].children, k - 1) == a && At(g[p].children, k) == g[a].next
                     && g[a].next in h && g[a].next != n)
  {
    hide Remove;
    EditRefines(h, InsertingAfter(p, a, n));
    FreedKeeps(h, n);
    FreedNeighbour(h, p, a, n);
    if Freed(h, n)[a].next != null {
      PlaceBehind(Freed(h, n), p, a, n);
    }
  }

  lemma PlaceBehind(g: Web, p: XMLNode, a: XMLNode, n: XMLNode)
    requires WellLinked(g) && p in g && a in g && n in g && g[a].parent == p && g[n].parent == null && g[a].next != null
    ensures var k := Behind(g[p].children, a);
            0 < k < |g[p].children| && At(g[p].children, k - 1) == a && At(g[p].children, k) == g[a].next
    ensures g[a].next in g && g[a].next != n
  {
    hide Remove;
    BehindOf(g, p, a);
  }

  lemma FirstIsChild(h: Web, p: XMLNode)
    requires WellLinked(h) && p in h && h[p].first != null
    ensures h[p].first in h && h[h[p].first].parent == p && h[p].children != [] && h[p].children[0] == h[p].first
    ensures |Remove(h[p].children, h[p].first)| < |h[p].children|
  {
    assert Placed(h, p);
    ChildOf(h, p, 0);
  }

  lemma NoFirstNoChildren(h: Web, p: XMLNode)
    requires WellLinked(h) && p in h && h[p].first == null
    ensures h[p].children == [] && h[p].last == null
  {
    hide Remove;
    assert Placed(h, p);
  }

  datatype Report = Done | Refused | Crash

  class XMLNode {
    const document: int
    var parent: XMLNode?
    var first: XMLNode?
    var last: XMLNode?
    var prev: XMLNode?
    var next: XMLNode?
    ghost var children: seq<XMLNode>

    constructor (document: int)
      ensures this.document == document && parent == null && prev == null && next == null
      ensures first == null && last == null && children == []
    {
      this.document := document;
      parent, first, last, prev, next := null, null, null, null, null;
      children := [];
    }

    method Unlink(child: XMLNode, ghost nodes: set<XMLNode>)
      requires WellLinked(Snapshot(nodes)) && this in nodes && child in nodes && child.parent == this
      modifies nodes
      ensures Snapshot(nodes) == Unlinked(old(Snapshot(nodes)), this, child)
      ensures WellLinked(Snapshot(nodes))
    {
      hide WellLinked, Linked, LinkedAt, Remove, Unlinked;
      UnlinkKeeps(Snapshot(nodes), this, child);
      Neighbours(child, nodes);
      ghost var h := Snapshot(nodes);
      Detach(child, Remove(children, child), nodes);
      IsUnlinked(h, this, child, nodes);
    }

    /** The assignments of Unlink. */
    method Detach(child: XMLNode, ghost rest: seq<XMLNode>, ghost nodes: set<XMLNode>)
      requires this in nodes && child in nodes
      requires child.prev != null ==> child.prev in nodes && child.prev != child
      requires child.next != null ==> child.next in nodes && child.next != child
      modifies nodes
      ensures AfterUnlink(old(Snapshot(nodes)), this, child, rest, nodes)
    {
      DropEnds(child);
      child.Bypass(nodes);
      child.parent := null;
      children := rest;
    }

    method DropEnds(child: XMLNode)
      modifies this`first, this`last
      ensures first == if old(first) == child then old(child.next) else old(first)
      ensures last == if old(last) == child then old(child.prev) else old(last)
    {
      if child == first {
        first := first.next;
      }
      if child == last {
        last := last.prev;
      }
    }

    /** The siblings of this node are linked to each other instead. */
    method Bypass(ghost nodes: set<XMLNode>)
      requires this in nodes
      requires prev != null ==> prev in nodes && prev != this
      requires next != null ==> next in nodes && next != this
      modifies nodes`next, nodes`prev
      ensures forall n :: n in nodes ==>
                n.prev == if n == this then null else if old(next) == n then old(prev) else old(n.prev)
      ensures forall n :: n in nodes ==>
                n.next == if n == this then null else if old(prev) == n then old(next) else old(n.next)
    {
      if prev != null {
        prev.next := next;
      }
      if next != null {
        next.prev := prev;
      }
      next := null;
      prev := null;
    }

    method InsertChildPreamble(insertThis: XMLNode, ghost nodes: set<XMLNode>)
      requires WellLinked(Snapshot(nodes)) && insertThis in nodes
      modifies nodes
      ensures insertThis.parent == null
      ensures old(insertThis.parent != null ==> insertThis.parent in nodes)
      ensures Snapshot(nodes) == Freed(old(Snapshot(nodes)), insertThis)
      ensures WellLinked(Snapshot(nodes))
    {
      FreedKeeps(Snapshot(nodes), insertThis);
      if insertThis.parent != null {
        insertThis.parent.Unlink(insertThis, nodes);
      }
    }

    /** Returns the null pointer, and changes nothing, for a node of another document. */
    method InsertEndChild(addThis: XMLNode, ghost nodes: set<XMLNode>) returns (r: Report)
      requires WellLinked(Snapshot(nodes)) && this in nodes && addThis in nodes
      modifies nodes
      ensures r == if addThis.document != document then Refused else Done
      ensures r == Refused ==> Snapshot(nodes) == old(Snapshot(nodes))
      ensures r == Done ==> Snapshot(nodes) == EditWeb(old(Snapshot(nodes)), InsertingEnd(this, addThis))
      ensures WellLinked(Snapshot(nodes))
    {
      hide WellLinked, Linked, LinkedAt, Remove, Inserted, Unlinked;
      if addThis.document != document {
        return Refused;
      }
      EditRefines(Snapshot(nodes), InsertingEnd(this, addThis));
      InsertChildPreamble(addThis, nodes);
      EndsOf(Snapshot(nodes), this, addThis);
      Append(addThis, nodes);
      return Done;
    }

    method InsertFirstChild(addThis: XMLNode, ghost nodes: set<XMLNode>) returns (r: Report)
      requires WellLinked(Snapshot(nodes)) && this in nodes && addThis in nodes
      modifies nodes
      ensures r == if addThis.document != document then Refused else Done
      ensures r == Refused ==> Snapshot(nodes) == old(Snapshot(nodes))
      ensures r == Done ==> Snapshot(nodes) == EditWeb(old(Snapshot(nodes)), InsertingFirst(this, addThis))
      ensures WellLinked(Snapshot(nodes))
    {
      hide WellLinked, Linked, LinkedAt, Remove, Inserted, Unlinked;
      if addThis.document != document {
        return Refused;
      }
      EditRefines(Snapshot(nodes), InsertingFirst(this, addThis));
      InsertChildPreamble(addThis, nodes);
      EndsOf(Snapshot(nodes), this, addThis);
      Prepend(addThis, nodes);
      return Done;
    }

    /** Crash stands for the null pointer that is followed after addThis has left its place. */
    method InsertAfterChild(afterThis: XMLNode, addThis: XMLNode, ghost nodes: set<XMLNode>) returns (r: Report)
      requires WellLinked(Snapshot(nodes)) && this in nodes && afterThis in nodes && addThis in nodes
      modifies nodes
      ensures r == Refused <==> addThis.document != document || old(afterThis.parent) != this
      ensures r == Refused ==> Snapshot(nodes) == old(Snapshot(nodes))
      ensures r != Refused ==> (r == Crash <==> old(Crashes(Snapshot(nodes), InsertingAfter(this, afterThis, addThis))))
      ensures r == Done ==> Snapshot(nodes) == EditWeb(old(Snapshot(nodes)), InsertingAfter(this, afterThis, addThis))
      ensures WellLinked(Snapshot(nodes))
    {
      if addThis.document != document {
        return Refused;
      }
      if afterThis.parent != this {
        return Refused;
      }
      if afterThis == addThis {
        return Done;
      }
      if afterThis.next == null {
        LastStaysLast(Snapshot(nodes), this, afterThis, addThis);
        r := InsertEndChild(addThis, nodes);
        return;
      }
      r := InsertBetween(afterThis, addThis, nodes);
    }

    /** InsertAfterChild where something follows afterThis. */
    method InsertBetween(afterThis: XMLNode, addThis: XMLNode, ghost nodes: set<XMLNode>) returns (r: Report)
      requires WellLinked(Snapshot(nodes)) && this in nodes && afterThis in nodes && addThis in nodes
      requires afterThis.parent == this && afterThis != addThis && afterThis.next != null
      modifies nodes
      ensures r == if old(Crashes(Snapshot(nodes), InsertingAfter(this, afterThis, addThis))) then Crash else Done
      ensures r == Done ==> Snapshot(nodes) == EditWeb(old(Snapshot(nodes)), InsertingAfter(this, afterThis, addThis))
      ensures WellLinked(Snapshot(nodes))
    {
      Between(Snapshot(nodes), this, afterThis, addThis);
      InsertChildPreamble(addThis, nodes);
      if afterThis.next == null {
        return Crash;
      }
      PutBetween(afterThis, addThis, Behind(children, afterThis), nodes);
      return Done;
    }

    /** Following first and next meets the children in order. */
    method Forward(ghost nodes: set<XMLNode>) returns (met: seq<XMLNode>)
      requires WellLinked(Snapshot(nodes)) && this in nodes
      ensures met == children
    {
      met := [];
      var node := first;
      assert Placed(Snapshot(nodes), this);
      while node != null
        invariant |met| <= |children| && met == children[..|met|] && node == At(children, |met|)
        decreases |children| - |met|
      {
        ChildOf(Snapshot(nodes), this, |met|);
        met := met + [node];
        node := node.next;
      }
    }

    /** Following last and prev meets them in reverse. */
    method Backward(ghost nodes: set<XMLNode>) returns (met: seq<XMLNode>)
      requires WellLinked(Snapshot(nodes)) && this in nodes
      ensures |met| == |children| && forall i :: 0 <= i < |met| ==> met[i] == children[|children| - 1 - i]
    {
      met := [];
      var node := last;
      assert Placed(Snapshot(nodes), this);
      while node != null
        invariant |met| <= |children| && node == At(children, |children| - 1 - |met|)
        invariant forall i :: 0 <= i < |met| ==> met[i] == children[|children| - 1 - i]
        decreases |children| - |met|
      {
        ChildOf(Snapshot(nodes), this, |children| - 1 - |met|);
        met := met + [node];
        node := node.prev;
      }
    }

    /** DeleteChildren, up to the release of the memory: the children leave one after the other. */
    method UnlinkChildren(ghost nodes: set<XMLNode>)
      requires WellLinked(Snapshot(nodes)) && this in nodes
      modifies nodes
      ensures WellLinked(Snapshot(nodes))
      ensures children == [] && first == null && last == null
      ensures forall q :: q in nodes && q != this ==> q.children == old(q.children)
    {
      while first != null
        invariant WellLinked(Snapshot(nodes))
        invariant forall q :: q in nodes && q != this ==> q.children == old(q.children)
        decreases |children|
      {
        ghost var h := Snapshot(nodes);
        FirstIsChild(h, this);
        Unlink(first, nodes);
        assert forall q :: q in nodes ==> q.children == Unlinked(h, this, h[this].first)[q].children;
      }
      NoFirstNoChildren(Snapshot(nodes), this);
    }

    // ---- their assignments ----

    /** The assignments of InsertEndChild. */
    method Append(addThis: XMLNode, ghost nodes: set<XMLNode>)
      requires this in nodes && addThis in nodes
      requires first == At(children, 0) && last == At(children, |children| - 1)
      requires last != null ==> last in nodes && last != addThis
      requires addThis.parent == null
      modifies nodes
      ensures Snapshot(nodes) == Inserted(old(Snapshot(nodes)), this, addThis, old(|children|))
    {
      ghost var h, k := Snapshot(nodes), |children|;
      AssignAppend(addThis, nodes);
      IsInserted(h, this, addThis, k, nodes);
    }

    method AssignAppend(addThis: XMLNode, ghost nodes: set<XMLNode>)
      requires this in nodes && addThis in nodes
      requires first == At(children, 0) && last == At(children, |children| - 1)
      requires last != null ==> last in nodes && last != addThis
      requires addThis.parent == null
      modifies nodes
      ensures AfterInsert(old(Snapshot(nodes)), this, addThis, old(|children|), nodes)
    {
      if last != null {
        last.JoinBehind(addThis, nodes);
        last := addThis;
      } else {
        first := addThis;
        last := addThis;
        addThis.prev := null;
        addThis.next := null;
      }
      addThis.parent := this;
      children := children[..|children|] + [addThis] + children[|children|..];
    }

    /** The assignments of InsertFirstChild. */
    method Prepend(addThis: XMLNode, ghost nodes: set<XMLNode>)
      requires this in nodes && addThis in nodes
      requires first == At(children, 0) && last == At(children, |children| - 1)
      requires first != null ==> first in nodes && first != addThis
      requires addThis.parent == null
      modifies nodes
      ensures Snapshot(nodes) == Inserted(old(Snapshot(nodes)), this, addThis, 0)
    {
      ghost var h, k := Snapshot(nodes), 0;
      AssignPrepend(addThis, nodes);
      IsInserted(h, this, addThis, k, nodes);
    }

    method AssignPrepend(addThis: XMLNode, ghost nodes: set<XMLNode>)
      requires this in nodes && addThis in nodes
      requires first == At(children, 0) && last == At(children, |children| - 1)
      requires first != null ==> first in nodes && first != addThis
      requires addThis.parent == null
      modifies nodes
      ensures AfterInsert(old(Snapshot(nodes)), this, addThis, 0, nodes)
    {
      if first != null {
        first.JoinBefore(addThis, nodes);
        first := addThis;
      } else {
        first := addThis;
        last := addThis;
        addThis.prev := null;
        addThis.next := null;
      }
      addThis.parent := this;
      children := children[..0] + [addThis] + children[0..];
    }

    /** The assignments of InsertAfterChild. */
    method PutBetween(afterThis: XMLNode, addThis: XMLNode, ghost k: nat, ghost nodes: set<XMLNode>)
      requires this in nodes && addThis in nodes && afterThis in nodes && afterThis != addThis
      requires 0 < k < |children| && At(children, k - 1) == afterThis && At(children, k) == afterThis.next
      requires afterThis.next != null && afterThis.next in nodes && afterThis.next != addThis
      modifies nodes
      ensures Snapshot(nodes) == Inserted(old(Snapshot(nodes)), this, addThis, k)
    {
      ghost var h := Snapshot(nodes);
      AssignPutBetween(afterThis, addThis, k, nodes);
      IsInserted(h, this, addThis, k, nodes);
    }

    method AssignPutBetween(afterThis: XMLNode, addThis: XMLNode, ghost k: nat, ghost nodes: set<XMLNode>)
      requires this in nodes && addThis in nodes && afterThis in nodes && afterThis != addThis
      requires 0 < k < |children| && At(children, k - 1) == afterThis && At(children, k) == afterThis.next
      requires afterThis.next != null && afterThis.next in nodes && afterThis.next != addThis
      modifies nodes
      ensures AfterInsert(old(Snapshot(nodes)), this, addThis, k, nodes)
    {
      afterThis.Squeeze(addThis, nodes);
      addThis.parent := this;
      children := children[..k] + [addThis] + children[k..];
    }

    method JoinBehind(addThis: XMLNode, ghost nodes: set<XMLNode>)
      requires this in nodes && addThis in nodes && this != addThis
      modifies nodes`prev, nodes`next
      ensures forall m :: m in nodes ==> m.prev == if m == addThis then this else old(m.prev)
      ensures forall m :: m in nodes ==>
                m.next == if m == addThis then null else if m == this then addThis else old(m.next)
    {
      next := addThis;
      addThis.prev := this;
      addThis.next := null;
    }

    method JoinBefore(addThis: XMLNode, ghost nodes: set<XMLNode>)
      requires this in nodes && addThis in nodes && this != addThis
      modifies nodes`prev, nodes`next
      ensures forall m :: m in nodes ==> m.next == if m == addThis then this else old(m.next)
      ensures forall m :: m in nodes ==>
                m.prev == if m == addThis then null else if m == this then addThis else old(m.prev)
    {
      prev := addThis;
      addThis.next := this;
      addThis.prev := null;
    }

    method Squeeze(addThis: XMLNode, ghost nodes: set<XMLNode>)
      requires this in nodes && addThis in nodes && this != addThis && next != null && next in nodes && next != addThis
      modifies nodes`prev, nodes`next
      ensures forall m :: m in nodes ==>
                m.prev == if m == addThis then this else if m == old(next) then addThis else old(m.prev)
      ensures forall m :: m in nodes ==>
                m.next == if m == addThis then old(next) else if m == this then addThis else old(m.next)
    {
      addThis.prev := this;
      addThis.next := next;
      next.prev := addThis;
      next := addThis;
    }
  }

  lemma FreshAreLinked(h: Web)
    requires forall n :: n in h ==> h[n] == Links(null, null, null, null, null, [])
    ensures WellLinked(h)
  {
    hide Remove;
    forall n | n in h ensures Placed(h, n) {
    }
  }

  /** A parent with two children and nothing else: how they are linked. */
  lemma TwoChildren(h: Web, p: XMLNode, a: XMLNode, n: XMLNode)
    requires WellLinked(h) && p in h && h[p].children == [a, n]
    ensures a in h && n in h && h[a].parent == p && h[a].next == n && h[n].next == null && a != n
  {
    hide Remove;
    assert Placed(h, p) && [a, n][0] == a && [a, n][1] == n;
    assert LinkedAt(h, p, 0) && LinkedAt(h, p, 1);
  }

  lemma AppendedChild(h: Web, p: XMLNode, n: XMLNode)
    requires WellLinked(h) && p in h && n in h && n !in h[p].children
    ensures var g := EditWeb(h, InsertingEnd(p, n)); p in g && g[p].children == h[p].children + [n]
  {
    hide WellLinked, EditWeb;
    var g := EditWeb(h, InsertingEnd(p, n));
    EditRefines(h, InsertingEnd(p, n));
    assert p in KidsOf(h) && p in KidsOf(g) && KidsOf(g)[p] == Remove(h[p].children, n) + [n];
  }

  method ParentOfTwo() returns (p: XMLNode, a: XMLNode, n: XMLNode)
    ensures fresh({p, a, n}) && WellLinked(Snapshot({p, a, n})) && p.children == [a, n]
    ensures p.document == a.document == n.document
  {
    hide WellLinked, EditWeb, Remove;
    p := new XMLNode(0);
    a := new XMLNode(0);
    n := new XMLNode(0);
    ghost var nodes := {p, a, n};
    FreshAreLinked(Snapshot(nodes));
    AppendedChild(Snapshot(nodes), p, a);
    var _ := p.InsertEndChild(a, nodes);
    assert Snapshot(nodes)[p].children == [a];
    AppendedChild(Snapshot(nodes), p, n);
    var _ := p.InsertEndChild(n, nodes);
    assert Snapshot(nodes)[p].children == [a, n];
  }

  /** Three calls after which the null pointer is followed: two insertions at the end, and the last
      child put behind the first. */
  method CrashingCalls() returns (r: Report)
    ensures r == Crash
  {
    hide WellLinked, EditWeb, Crashes, Remove;
    var p, a, n := ParentOfTwo();
    TwoChildren(Snapshot({p, a, n}), p, a, n);
    CrashesExactlyWhen(Snapshot({p, a, n}), p, a, n);
    r := p.InsertAfterChild(a, n, {p, a, n});
  }
}
