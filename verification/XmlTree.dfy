/** When the linked nodes of a document are a tree. The insertions do not check what they insert, so
    a node can be put below itself; the child lists stay in order, but the tree does not. */
module XmlTree {
  import opened XmlChildren

  /** Who is whose parent. */
  type Parents = map<XMLNode, XMLNode?>

  ghost function ParentsOf(h: Web): Parents {
    map n | n in h :: h[n].parent
  }

  /** The node k steps above n, or null from the root on. */
  ghost function Up(par: Parents, n: XMLNode?, k: nat): XMLNode? {
    if k == 0 || n == null then n
    else if n in par then Up(par, par[n], k - 1)
    else null
  }

  ghost predicate Rooted(par: Parents, n: XMLNode?) {
    exists k: nat :: Up(par, n, k) == null
  }

  /** a is n or one of its ancestors. */
  ghost predicate Above(par: Parents, a: XMLNode, n: XMLNode) {
    exists k: nat :: Up(par, n, k) == a
  }

  /** From every node the way up ends. */
  ghost predicate IsTree(par: Parents) {
    forall n :: n in par ==> Rooted(par, n)
  }

  lemma {:induction false} UpFromNull(par: Parents, k: nat)
    ensures Up(par, null, k) == null
  {
  }

  lemma {:induction false} UpTwice(par: Parents, n: XMLNode?, j: nat, k: nat)
    ensures Up(par, Up(par, n, j), k) == Up(par, n, j + k)
    decreases j
  {
    if j == 0 {
    } else if n == null || n !in par {
      UpFromNull(par, k);
    } else {
      UpTwice(par, par[n], j - 1, k);
    }
  }

  /** A way up that does not meet n does not notice a new parent of n. */
  lemma {:induction false} SameWayUp(par: Parents, n: XMLNode, p: XMLNode?, m: XMLNode?, k: nat)
    requires forall j: nat :: j < k ==> Up(par, m, j) != n
    ensures Up(par[n := p], m, k) == Up(par, m, k)
    decreases k
  {
    if k > 0 && m != null {
      assert Up(par, m, 0) == m;
      if m in par {
        forall j: nat | j < k - 1 ensures Up(par, par[m], j) != n {
          assert Up(par, m, j + 1) == Up(par, par[m], j);
        }
        SameWayUp(par, n, p, par[m], k - 1);
      }
    }
  }

  /** The first time the way up from p meets n. */
  lemma {:induction false} FirstMeeting(par: Parents, n: XMLNode, p: XMLNode, k: nat) returns (i: nat)
    requires Up(par, p, k) == n
    ensures Up(par, p, i) == n && forall j: nat :: j < i ==> Up(par, p, j) != n
    decreases k
  {
    if j: nat :| j < k && Up(par, p, j) == n {
      i := FirstMeeting(par, n, p, j);
    } else {
      i := k;
    }
  }

  /** Going round: a way that returns to its start never ends. */
  lemma {:induction false} RoundTrip(par: Parents, p: XMLNode, len: nat, k: nat)
    requires len > 0 && Up(par, p, len) == p
    ensures Up(par, p, k) != null
    decreases k
  {
    if k >= len {
      UpTwice(par, p, len, k - len);
      RoundTrip(par, p, len, k - len);
    } else if Up(par, p, k) == null {
      UpTwice(par, p, k, len - k);
      UpFromNull(par, len - k);
    }
  }

  /** Put below itself, a node closes a circle. */
  lemma CircleClosed(par: Parents, n: XMLNode, p: XMLNode)
    requires n in par && p in par && Above(par, n, p)
    ensures !IsTree(par[n := p])
  {
    var q := par[n := p];
    var k: nat :| Up(par, p, k) == n;
    var i := FirstMeeting(par, n, p, k);
    SameWayUp(par, n, p, p, i);
    UpTwice(q, p, i, 1);
    assert Up(q, n, 1) == Up(q, p, 0);
    forall j: nat ensures Up(q, p, j) != null {
      RoundTrip(q, p, i + 1, j);
    }
    assert p in q && !Rooted(q, p);
  }

  lemma StepUp(par: Parents, n: XMLNode)
    requires n in par && Rooted(par, par[n])
    ensures Rooted(par, n)
  {
    var k: nat :| Up(par, par[n], k) == null;
    assert Up(par, n, k + 1) == null;
  }

  lemma {:induction false} StillRooted(par: Parents, n: XMLNode, p: XMLNode?, m: XMLNode?, k: nat)
    requires n in par && Up(par, m, k) == null && Rooted(par[n := p], p)
    ensures Rooted(par[n := p], m)
    decreases k
  {
    var q := par[n := p];
    if m == null || m !in par {
      assert Up(q, m, 1) == null;
    } else if m == n {
      StepUp(q, n);
    } else {
      StillRooted(par, n, p, par[m], k - 1);
      StepUp(q, m);
    }
  }

  /** Below a node that is not under it, or below none, a node can be put without harm. */
  lemma TreeKept(par: Parents, n: XMLNode, p: XMLNode?)
    requires IsTree(par) && n in par && (p != null ==> p in par && !Above(par, n, p))
    ensures IsTree(par[n := p])
  {
    var q := par[n := p];
    assert Rooted(q, p) by {
      if p == null {
        assert Up(q, p, 0) == null;
      } else {
        assert Rooted(par, p);
        var k: nat :| Up(par, p, k) == null;
        SameWayUp(par, n, p, p, k);
      }
    }
    forall m | m in q ensures Rooted(q, m) {
      assert Rooted(par, m);
      var k: nat :| Up(par, m, k) == null;
      StillRooted(par, n, p, m, k);
    }
  }

  /** The parent an edit gives its node. */
  ghost function NewParent(h: Web, e: Edit): XMLNode? {
    if e.Unlinking? then null else e.p
  }

  lemma FreedParents(h: Web, n: XMLNode)
    requires WellLinked(h) && n in h
    ensures h[n].parent != null ==> h[n].parent in h
    ensures Freed(h, n).Keys == h.Keys && ParentsOf(Freed(h, n)) == ParentsOf(h)[n := null]
  {
    hide Remove;
    FreedKeeps(h, n);
  }

  lemma InsertedParents(g: Web, p: XMLNode, n: XMLNode, k: nat)
    requires p in g && n in g && k <= |g[p].children|
    ensures ParentsOf(Inserted(g, p, n, k)) == ParentsOf(g)[n := p]
  {
  }

  lemma EditSetsParent(h: Web, e: Edit)
    requires WellLinked(h) && Possible(h, e)
    ensures ParentsOf(EditWeb(h, e)) == ParentsOf(h)[e.n := NewParent(h, e)]
  {
    hide Freed, Inserted, WellLinked, ParentsOf;
    FreedParents(h, e.n);
    var g := Freed(h, e.n);
    match e
    case Unlinking(n) =>
    case InsertingEnd(p, n) => InsertedParents(g, p, n, |g[p].children|);
    case InsertingFirst(p, n) => InsertedParents(g, p, n, 0);
    case InsertingAfter(p, a, n) =>
      if a == n {
        SameParent(h, n, p);
      } else {
        InsertedParents(g, p, n, Behind(g[p].children, a));
      }
  }

  lemma SameParent(h: Web, n: XMLNode, p: XMLNode)
    requires n in h && h[n].parent == p
    ensures ParentsOf(h) == ParentsOf(h)[n := p]
  {
  }

  /** An edit leaves a tree a tree if and only if it does not put a node below itself. */
  lemma EditKeepsTree(h: Web, e: Edit)
    requires WellLinked(h) && Possible(h, e) && IsTree(ParentsOf(h))
    ensures IsTree(ParentsOf(EditWeb(h, e))) <==> e.Unlinking? || !Above(ParentsOf(h), e.n, e.p)
  {
    hide IsTree, Above, EditWeb, WellLinked;
    var par := ParentsOf(h);
    EditSetsParent(h, e);
    if e.Unlinking? || !Above(par, e.n, e.p) {
      TreeKept(par, e.n, NewParent(h, e));
    } else {
      CircleClosed(par, e.n, e.p);
    }
  }

  /** The smallest case: p is put below its own child n. All lists stay linked, and nothing is left
      of the tree. */
  lemma NodeBelowItself(p: XMLNode, n: XMLNode)
    requires p != n
    ensures var h := map[p := Links(null, n, n, null, null, [n]), n := Links(p, null, null, null, null, [])];
            var e := InsertingEnd(n, p);
            && WellLinked(h) && Possible(h, e) && IsTree(ParentsOf(h))
            && WellLinked(EditWeb(h, e)) && !IsTree(ParentsOf(EditWeb(h, e)))
  {
    hide Remove, EditWeb, Inserted;
    var h := map[p := Links(null, n, n, null, null, [n]), n := Links(p, null, null, null, null, [])];
    var par := ParentsOf(h);
    assert LinkedAt(h, p, 0) && [n][0] == n;
    assert Placed(h, p) && Placed(h, n);
    assert Up(par, p, 1) == Up(par, null, 0) == null && Up(par, n, 2) == Up(par, p, 1);
    assert Up(par, n, 1) == Up(par, p, 0) == p;
    assert Rooted(par, p) && Rooted(par, n) && Above(par, p, n);
    EditRefines(h, InsertingEnd(n, p));
    EditKeepsTree(h, InsertingEnd(n, p));
  }
}
