/** What the pointer updates of the two rotations do to a tree in memory (avl_tree.c). */
module AvlRewire {
  import opened AvlShape
  import opened AvlMemory
  import opened AvlRotation

  ghost predicate ChangedOnly(m: Mem, m': Mem, ns: set<Ref>)
  {
    m'.Keys == m.Keys && forall n :: n in m && n !in ns && n != NULL ==> m'[n] == m[n]
  }

  lemma UntouchedSame(m: Mem, m': Mem, ns: set<Ref>, t: set<Ref>)
    requires ChangedOnly(m, m', ns) && t !! ns && NULL !in t
    ensures Same(m, m', t)
  {
  }

  /** No cell but that of x has changed. */
  ghost predicate KeptBut(m: Mem, m': Mem, x: Ref)
  {
    m'.Keys == m.Keys && forall n :: n in m && n != x ==> m'[n] == m[n]
  }

  lemma KeysKept(m: Mem, m': Mem, ns: set<Ref>)
    requires ChangedOnly(m, m', ns)
    ensures m'.Keys == m.Keys
  {
  }

  /** x, if there is one, made child i of p. */
  function Adopted(m: Mem, x: Ref, p: Ref, i: int): Mem
    requires x != NULL ==> x in m
  {
    if x == NULL then m else m[x := m[x].(parent := p, idx := i)]
  }

  lemma AdoptedKeys(m: Mem, x: Ref, p: Ref, i: int)
    requires x != NULL ==> x in m
    ensures Adopted(m, x, p, i).Keys == m.Keys
  {
  }

  /** x made child i of p, if there is a p. */
  function Relinked(m: Mem, p: Ref, i: int, x: Ref): Mem
    requires p != NULL ==> p in m
  {
    if p == NULL then m else m[p := WithChild(m[p], i, x)]
  }

  lemma Bypassed(m: Mem, x: Ref, p: Ref, i: int)
    requires (x != NULL ==> x in m) && (p != NULL ==> p in m)
    ensures ChangedOnly(m, Relinked(Adopted(m, x, p, i), p, i, x), {x, p})
  {
  }

  /** A subtree with node at its root, side i two levels too high, at the place of path c. */
  ghost predicate Unbalanced(m: Mem, root: Ref, c: Path, node: Ref, i: int, s: Tree, o: Tree, h: int)
  {
    && Lopsided(i, s, node, o) && node in m
    && Wired(m, s, Child(m[node], i), node, i) && Wired(m, o, Child(m[node], 1 - i), node, 1 - i)
    && Attached(m, node, UpNode(c), UpIdx(c)) && WiredPath(m, root, c, node, h)
    && PathDistinct(c, Nodes(Mk(i, s, node, o)))
  }

  /** A well-formed subtree t, entered at x, at the place of path c. */
  ghost predicate InPlace(m: Mem, root: Ref, c: Path, t: Tree, x: Ref, h: int)
  {
    && Wired(m, t, x, UpNode(c), UpIdx(c)) && WiredPath(m, root, c, x, h)
    && Balanced(t) && Distinct(t) && PathDistinct(c, Nodes(t))
  }

  /** The path nodes are apart from the subtree. */
  lemma {:induction false} PathApart(c: Path, ns: set<Ref>)
    requires PathDistinct(c, ns)
    ensures PathNodes(c) !! ns
    ensures c.Frame? ==> c.n !in Nodes(c.sib) + PathNodes(c.up)
    decreases c
  {
    if c.Frame? {
      PathApart(c.up, ns + {c.n} + Nodes(c.sib));
    }
  }

  lemma {:induction false} PathNullFree(c: Path, ns: set<Ref>)
    requires PathDistinct(c, ns)
    ensures NULL !in PathNodes(c)
    decreases c
  {
    if c.Frame? {
      NullFree(c.sib);
      PathNullFree(c.up, ns + {c.n} + Nodes(c.sib));
    }
  }

  /** The node above the place now points to x instead; nothing else on the path changed. */
  lemma {:induction false} PathKept(m: Mem, m': Mem, root: Ref, root': Ref, c: Path, x: Ref, x': Ref, h: int,
                                    ns: set<Ref>)
    requires WiredPath(m, root, c, x, h) && PathDistinct(c, ns)
    requires ChangedOnly(m, m', ns + {UpNode(c)})
    requires if c.Top? then root' == x' else root' == root && c.n in m && m'[c.n] == WithChild(m[c.n], c.i, x')
    ensures WiredPath(m', root', c, x', h)
  {
    PathApart(c, ns);
    if c.Frame? {
      PathApart(c.up, ns + {c.n} + Nodes(c.sib));
      PathNullFree(c, ns);
      UntouchedSame(m, m', ns + {c.n}, Nodes(c.sib) + PathNodes(c.up));
    }
    PathRehole(m, m', root, root', c, x, x', h);
  }

  /** Cells that a rotation rewrites: the node, its high child, the node above, all distinct. */
  ghost predicate Cells(m: Mem, c: Path, node: Ref, i: int, child: Ref)
  {
    var p := UpNode(c);
    && node != NULL && child != NULL && node != child && node in m && child in m && Child(m[node], i) == child
    && m[node].parent == p && p != node && p != child && (p != NULL ==> p in m && m[node].idx == UpIdx(c))
  }

  lemma {:induction false} RotationCells(m: Mem, root: Ref, c: Path, node: Ref, i: int, a: Tree, child: Ref, b: Tree,
                                         o: Tree, h: int)
    requires Unbalanced(m, root, c, node, i, Mk(i, a, child, b), o, h)
    ensures Cells(m, c, node, i, child) && m[child].bal == Tilt(Mk(i, a, child, b))
    ensures Wired(m, a, Child(m[child], i), child, i) && Wired(m, b, Child(m[child], 1 - i), child, 1 - i)
    ensures Nodes(Mk(i, Mk(i, a, child, b), node, o)) == Nodes(a) + {child} + Nodes(b) + {node} + Nodes(o)
    ensures PathNodes(c) !! Nodes(Mk(i, Mk(i, a, child, b), node, o))
            && UpNode(c) !in Nodes(Mk(i, Mk(i, a, child, b), node, o))
    ensures node !in Nodes(b) && child !in Nodes(b)
    ensures c.Frame? ==> (c.i == 0 || c.i == 1) && c.n in m
  {
    var s := Mk(i, a, child, b);
    assert Below(m, s, Child(m[node], i));
    assert s.Node? && s.n == child;
    Apart(i, a, child, b, node, o);
    NullFree(Mk(i, s, node, o));
    PathApart(c, Nodes(Mk(i, s, node, o)));
  }

  /** The inner subtree's root, which moves too. */
  lemma InnerRoot(m: Mem, t: Tree, x: Ref, out: set<Ref>)
    requires Below(m, t, x) && Nodes(t) !! out
    ensures x != NULL ==> t.Node? && x == t.n && x in m && x !in out && x in Nodes(t)
    ensures x == NULL ==> t.Leaf?
  {
  }

  /** Memory after a single rotation. */
  ghost predicate RotatedOnce(m: Mem, m': Mem, root: Ref, root': Ref, c: Path, node: Ref, i: int, child: Ref, bal: int)
    requires Cells(m, c, node, i, child)
  {
    var p, rb := UpNode(c), Child(m[child], 1 - i);
    && ChangedOnly(m, m', {node, child, rb, p})
    && m'[node] == WithChild(m[node], i, rb).(bal := -bal, idx := 1 - i, parent := child)
    && m'[child] == WithChild(m[child], 1 - i, node).(bal := bal, idx := m[node].idx, parent := p)
    && (rb != NULL ==> rb in m && m'[rb] == m[rb].(parent := node, idx := i))
    && if p == NULL then root' == child else root' == root && m'[p] == WithChild(m[p], m[node].idx, child)
  }

  lemma RotatedOnceWired(m: Mem, m': Mem, root: Ref, root': Ref, c: Path, node: Ref, i: int,
                         a: Tree, child: Ref, b: Tree, o: Tree, h: int, bal: int)
    requires Unbalanced(m, root, c, node, i, Mk(i, a, child, b), o, h) && Tilt(Mk(i, a, child, b)) != Low(i)
    requires Cells(m, c, node, i, child) && bal == m[child].bal + Low(i)
    requires RotatedOnce(m, m', root, root', c, node, i, child, bal)
    ensures Wired(m', Mk(i, a, child, Mk(1 - i, o, node, b)), child, UpNode(c), UpIdx(c))
  {
    var s := Mk(i, a, child, b);
    var p, rb, ro := UpNode(c), Child(m[child], 1 - i), Child(m[node], 1 - i);
    RotationCells(m, root, c, node, i, a, child, b, o, h);
    Apart(i, a, child, b, node, o);
    Single(i, a, child, b, node, o);
    InnerRoot(m, b, rb, Nodes(a) + Nodes(o));
    UntouchedSame(m, m', {node, child, rb, p}, Nodes(a));
    UntouchedSame(m, m', {node, child, rb, p}, Nodes(o));
    if b.Node? {
      UntouchedSame(m, m', {node, child, rb, p}, Nodes(b.l) + Nodes(b.r));
    }
    SingleWired(m, m', i, a, child, b, rb, node, o, ro, p, m[node].idx);
  }

  /** The pieces of a lopsided tree share no node. */
  lemma Apart(i: int, a: Tree, child: Ref, b: Tree, node: Ref, o: Tree)
    requires (i == 0 || i == 1) && Distinct(Mk(i, Mk(i, a, child, b), node, o))
    ensures child !in Nodes(a) + Nodes(b) + Nodes(o) && node !in Nodes(a) + Nodes(b) + Nodes(o) && child != node
    ensures Nodes(a) !! Nodes(b) && Nodes(a) !! Nodes(o) && Nodes(b) !! Nodes(o)
    ensures NULL !in Nodes(a) + Nodes(b) + Nodes(o)
    ensures b.Node? ==> b.n !in Nodes(b.l) + Nodes(b.r)
  {
    NullFree(a);
    NullFree(b);
    NullFree(o);
  }

  lemma RotatedOncePath(m: Mem, m': Mem, root: Ref, root': Ref, c: Path, node: Ref, i: int,
                        a: Tree, child: Ref, b: Tree, o: Tree, h: int, bal: int)
    requires Unbalanced(m, root, c, node, i, Mk(i, a, child, b), o, h)
    requires Cells(m, c, node, i, child)
    requires RotatedOnce(m, m', root, root', c, node, i, child, bal)
    ensures WiredPath(m', root', c, child, h)
  {
    var rb, ns := Child(m[child], 1 - i), Nodes(Mk(i, Mk(i, a, child, b), node, o));
    RotationCells(m, root, c, node, i, a, child, b, o, h);
    InnerRoot(m, b, rb, {});
    assert ChangedOnly(m, m', ns + {UpNode(c)});
    PathKept(m, m', root, root', c, node, child, h, ns);
  }

  lemma RotatedOnceDone(m: Mem, m': Mem, root: Ref, root': Ref, c: Path, node: Ref, i: int,
                        a: Tree, child: Ref, b: Tree, o: Tree, h: int, bal: int)
    requires Unbalanced(m, root, c, node, i, Mk(i, a, child, b), o, h) && Tilt(Mk(i, a, child, b)) != Low(i)
    requires Cells(m, c, node, i, child) && bal == m[child].bal + Low(i)
    requires RotatedOnce(m, m', root, root', c, node, i, child, bal)
    ensures var nt := Mk(i, a, child, Mk(1 - i, o, node, b)); var t := Mk(i, Mk(i, a, child, b), node, o);
            && InPlace(m', root', c, nt, child, h) && InOrder(nt) == InOrder(t) && Nodes(nt) == Nodes(t)
            && Height(nt) == Height(o) + (if bal == 0 then 2 else 3)
  {
    hide RotatedOnce, Wired, WiredPath, Below, Height, InOrder, Nodes;
    RotationCells(m, root, c, node, i, a, child, b, o, h);
    Single(i, a, child, b, node, o);
    SingleOrder(i, a, child, b, node, o);
    RotatedOnceWired(m, m', root, root', c, node, i, a, child, b, o, h, bal);
    RotatedOncePath(m, m', root, root', c, node, i, a, child, b, o, h, bal);
  }

  /** The root of an inner subtree is none of the cells around it. */
  lemma RootOf(m: Mem, t: Tree, x: Ref, p: Ref, i: int)
    requires Wired(m, t, x, p, i)
    ensures x != NULL ==> x in m && t.Node? && x in Nodes(t)
  {
  }

  // ---- the double rotation

  /** The grandchild that a double rotation brings up, apart from the other cells. */
  ghost predicate InnerCells(m: Mem, c: Path, node: Ref, i: int, child: Ref, g: Ref)
    requires Cells(m, c, node, i, child)
  {
    g != NULL && g in m && Child(m[child], 1 - i) == g && g != node && g != child && g != UpNode(c)
  }

  lemma {:induction false} DoubleCells(m: Mem, root: Ref, c: Path, node: Ref, i: int,
                    a: Tree, child: Ref, gi: Tree, g: Ref, go: Tree, o: Tree, h: int)
    requires Unbalanced(m, root, c, node, i, Mk(i, a, child, Mk(i, gi, g, go)), o, h)
    ensures (i == 0 || i == 1) && Cells(m, c, node, i, child) && InnerCells(m, c, node, i, child, g)
            && m[g].bal == Tilt(Mk(i, gi, g, go))
    ensures Wired(m, a, Child(m[child], i), child, i)
    ensures Wired(m, gi, Child(m[g], i), g, i) && Wired(m, go, Child(m[g], 1 - i), g, 1 - i)
    ensures c.Frame? ==> (c.i == 0 || c.i == 1) && c.n in m
  {
    RotationCells(m, root, c, node, i, a, child, Mk(i, gi, g, go), o, h);
    assert Below(m, Mk(i, gi, g, go), Child(m[child], 1 - i));
    assert g in Nodes(Mk(i, gi, g, go));
  }

  /** The parts of a node's tree lie in it and apart from each other. */
  lemma PartsOf(i: int, s: Tree, n: Ref, o: Tree)
    requires (i == 0 || i == 1) && Distinct(Mk(i, s, n, o))
    ensures Nodes(s) <= Nodes(Mk(i, s, n, o)) && Nodes(o) <= Nodes(Mk(i, s, n, o)) && n in Nodes(Mk(i, s, n, o))
    ensures n !in Nodes(s) && n !in Nodes(o) && Nodes(s) !! Nodes(o) && n != NULL && Distinct(s) && Distinct(o)
  {
  }

  lemma RootApart(t: Tree)
    requires Distinct(t) && t.Node?
    ensures t.n !in Nodes(t.l) && t.n !in Nodes(t.r) && NULL !in Nodes(t)
  {
    NullFree(t);
  }

  /** None of ns is in a or o or one of the three nodes. */
  ghost predicate Clear(ns: set<Ref>, a: set<Ref>, o: set<Ref>, g: Ref, child: Ref, node: Ref)
  {
    forall x :: x in ns ==> x !in a && x !in o && x != NULL && x != g && x != child && x != node
  }

  /** A set made of two parts and an element between them, all apart. */
  ghost predicate Parted(l: set<Ref>, n: Ref, r: set<Ref>, whole: set<Ref>)
  {
    l <= whole && r <= whole && n in whole && n !in l && n !in r && l !! r && n != NULL
  }

  lemma PartedMeans(l: set<Ref>, n: Ref, r: set<Ref>, whole: set<Ref>)
    requires Parted(l, n, r, whole)
    ensures l <= whole && r <= whole && n in whole && n !in l && n !in r && l !! r
  {
  }

  lemma PartedAt(i: int, s: Tree, n: Ref, o: Tree)
    requires (i == 0 || i == 1) && Distinct(Mk(i, s, n, o))
    ensures Parted(Nodes(s), n, Nodes(o), Nodes(Mk(i, s, n, o))) && Distinct(s) && Distinct(o)
  {
    PartsOf(i, s, n, o);
  }

  /** Parts of a part keep clear of what lies beside it. */
  lemma PartOfPart(ns: set<Ref>, g: Ref, b: set<Ref>, a: set<Ref>, child: Ref, s: set<Ref>, node: Ref, o: set<Ref>,
                   t: set<Ref>)
    requires ns <= b && g in b && g !in ns && NULL !in ns && Parted(a, child, b, s) && Parted(s, node, o, t)
    ensures Clear(ns, a, o, g, child, node) && g !in a && g !in o
  {
    forall x | x in b ensures x !in a && x !in o && x != child && x != node {
      assert x in s;
    }
  }

  /** The four subtrees and three nodes of a double rotation share nothing. */
  lemma {:induction false} DoubleApart(i: int, a: Tree, child: Ref, gi: Tree, g: Ref, go: Tree, node: Ref, o: Tree)
    requires (i == 0 || i == 1) && Distinct(Mk(i, Mk(i, a, child, Mk(i, gi, g, go)), node, o))
    ensures Clear(Nodes(gi), Nodes(a), Nodes(o), g, child, node) && Clear(Nodes(go), Nodes(a), Nodes(o), g, child, node)
    ensures Nodes(gi) !! Nodes(go) && Distinct(gi) && Distinct(go) && g !in Nodes(a) && g !in Nodes(o)
  {
    hide Distinct, Nodes, Clear, Mk, Parted;
    var b := Mk(i, gi, g, go);
    var s := Mk(i, a, child, b);
    PartedAt(i, s, node, o);
    PartedAt(i, a, child, b);
    PartedAt(i, gi, g, go);
    NullFree(gi);
    NullFree(go);
    PartedMeans(Nodes(gi), g, Nodes(go), Nodes(b));
    PartOfPart(Nodes(gi), g, Nodes(b), Nodes(a), child, Nodes(s), node, Nodes(o), Nodes(Mk(i, s, node, o)));
    PartOfPart(Nodes(go), g, Nodes(b), Nodes(a), child, Nodes(s), node, Nodes(o), Nodes(Mk(i, s, node, o)));
  }

  /** Memory after a double rotation. */
  ghost predicate RotatedTwice(m: Mem, m': Mem, root: Ref, root': Ref, c: Path, node: Ref, i: int, child: Ref, g: Ref)
    requires Cells(m, c, node, i, child) && InnerCells(m, c, node, i, child, g)
  {
    var p, ri, ro, k := UpNode(c), Child(m[g], i), Child(m[g], 1 - i), m[g].bal;
    && ChangedOnly(m, m', {node, child, g, ri, ro, p})
    && m'[node] == WithChild(m[node], i, ro).(bal := if k == -Low(i) then Low(i) else 0, parent := g, idx := 1 - i)
    && m'[child] == WithChild(m[child], 1 - i, ri).(bal := if k == Low(i) then -Low(i) else 0, parent := g, idx := i)
    && m'[g] == WithChild(WithChild(m[g], i, child), 1 - i, node).(bal := 0, parent := p, idx := m[node].idx)
    && (ri != NULL ==> ri in m && m'[ri] == m[ri].(parent := child, idx := 1 - i))
    && (ro != NULL ==> ro in m && m'[ro] == m[ro].(parent := node, idx := i))
    && if p == NULL then root' == g else root' == root && m'[p] == WithChild(m[p], m[node].idx, g)
  }

  /** A subtree away from the rewritten cells, but for its root. */
  lemma MovedRoot(m: Mem, m': Mem, touched: set<Ref>, t: Tree, x: Ref, p: Ref, i: int)
    requires Below(m, t, x) && Distinct(t) && ChangedOnly(m, m', touched)
    requires forall y :: y in Nodes(t) && y != x ==> y !in touched
    requires x != NULL ==> m'[x] == m[x].(parent := p, idx := i)
    ensures Moved(m, m', t, p, i)
  {
    if t.Node? {
      RootApart(t);
      UntouchedSame(m, m', touched, Nodes(t.l) + Nodes(t.r));
    }
  }

  lemma {:induction false} RotatedTwiceKept(m: Mem, m': Mem, root: Ref, root': Ref, c: Path, node: Ref, i: int,
                         a: Tree, child: Ref, gi: Tree, g: Ref, go: Tree, o: Tree, h: int)
    requires Unbalanced(m, root, c, node, i, Mk(i, a, child, Mk(i, gi, g, go)), o, h)
    requires Cells(m, c, node, i, child) && InnerCells(m, c, node, i, child, g)
    requires RotatedTwice(m, m', root, root', c, node, i, child, g)
    ensures Same(m, m', Nodes(a)) && Same(m, m', Nodes(o)) && Moved(m, m', gi, child, 1 - i)
            && Moved(m, m', go, node, i)
  {
    hide Balanced, InOrder, WiredPath, PathDistinct, Height, Tilt, WithChild, Low, Nodes, ChangedOnly, Same, Moved;
    var p, ri, rgo := UpNode(c), Child(m[g], i), Child(m[g], 1 - i);
    var b := Mk(i, gi, g, go);
    var touched := {node, child, g, ri, rgo, p};
    DoubleCells(m, root, c, node, i, a, child, gi, g, go, o, h);
    RotationCells(m, root, c, node, i, a, child, b, o, h);
    Apart(i, a, child, b, node, o);
    DoubleApart(i, a, child, gi, g, go, node, o);
    PartsOf(i, gi, g, go) by {
      PartsOf(i, Mk(i, a, child, b), node, o);
      PartsOf(i, a, child, b);
    }
    InnerRoot(m, gi, ri, {});
    InnerRoot(m, go, rgo, {});
    TreeInMemory(m, gi, ri);
    TreeInMemory(m, go, rgo);
    UntouchedSame(m, m', touched, Nodes(a));
    UntouchedSame(m, m', touched, Nodes(o));
    MovedRoot(m, m', touched, gi, ri, child, 1 - i);
    MovedRoot(m, m', touched, go, rgo, node, i);
  }

  lemma {:induction false} RotatedTwiceWired(m: Mem, m': Mem, root: Ref, root': Ref, c: Path, node: Ref, i: int,
                          a: Tree, child: Ref, gi: Tree, g: Ref, go: Tree, o: Tree, h: int)
    requires Unbalanced(m, root, c, node, i, Mk(i, a, child, Mk(i, gi, g, go)), o, h)
    requires Tilt(Mk(i, a, child, Mk(i, gi, g, go))) == Low(i)
    requires Cells(m, c, node, i, child) && InnerCells(m, c, node, i, child, g)
    requires RotatedTwice(m, m', root, root', c, node, i, child, g)
    ensures Wired(m', Mk(i, Mk(i, a, child, gi), g, Mk(1 - i, o, node, go)), g, UpNode(c), UpIdx(c))
  {
    hide Balanced, InOrder, WiredPath, PathDistinct, Height, Tilt, ChangedOnly, Same, Moved, Below, Nodes;
    DoubleCells(m, root, c, node, i, a, child, gi, g, go, o, h);
    Double(i, a, child, gi, g, go, node, o);
    RotatedTwiceKept(m, m', root, root', c, node, i, a, child, gi, g, go, o, h);
    KeysKept(m, m', {node, child, g, Child(m[g], i), Child(m[g], 1 - i), UpNode(c)});
    DoubleWired(m, m', i, a, child, gi, Child(m[g], i), g, go, Child(m[g], 1 - i), node, o, Child(m[node], 1 - i),
                UpNode(c), m[node].idx);
  }

  lemma {:induction false} RotatedTwicePath(m: Mem, m': Mem, root: Ref, root': Ref, c: Path, node: Ref, i: int,
                         a: Tree, child: Ref, gi: Tree, g: Ref, go: Tree, o: Tree, h: int)
    requires Unbalanced(m, root, c, node, i, Mk(i, a, child, Mk(i, gi, g, go)), o, h)
    requires Cells(m, c, node, i, child) && InnerCells(m, c, node, i, child, g)
    requires RotatedTwice(m, m', root, root', c, node, i, child, g)
    ensures WiredPath(m', root', c, g, h)
  {
    hide Balanced, InOrder, WiredPath, PathDistinct, Height, Tilt, WithChild, Low, Wired, Distinct, Lopsided;
    var b := Mk(i, gi, g, go);
    var ns := Nodes(Mk(i, Mk(i, a, child, b), node, o));
    DoubleCells(m, root, c, node, i, a, child, gi, g, go, o, h);
    RotationCells(m, root, c, node, i, a, child, b, o, h);
    InnerRoot(m, gi, Child(m[g], i), {});
    InnerRoot(m, go, Child(m[g], 1 - i), {});
    assert Nodes(b) == Nodes(gi) + {g} + Nodes(go);
    hide Nodes;
    if c.Frame? {
      FrameNotNull(c, ns);
    }
    assert {node, child, g, Child(m[g], i), Child(m[g], 1 - i), UpNode(c)} <= ns + {UpNode(c), NULL};
    assert ChangedOnly(m, m', ns + {UpNode(c)});
    PathKept(m, m', root, root', c, node, g, h, ns);
  }

  lemma {:induction false} RotatedTwiceDone(m: Mem, m': Mem, root: Ref, root': Ref, c: Path, node: Ref, i: int,
                         a: Tree, child: Ref, gi: Tree, g: Ref, go: Tree, o: Tree, h: int)
    requires Unbalanced(m, root, c, node, i, Mk(i, a, child, Mk(i, gi, g, go)), o, h)
    requires Tilt(Mk(i, a, child, Mk(i, gi, g, go))) == Low(i)
    requires Cells(m, c, node, i, child) && InnerCells(m, c, node, i, child, g)
    requires RotatedTwice(m, m', root, root', c, node, i, child, g)
    ensures var nt := Mk(i, Mk(i, a, child, gi), g, Mk(1 - i, o, node, go));
            var t := Mk(i, Mk(i, a, child, Mk(i, gi, g, go)), node, o);
            && InPlace(m', root', c, nt, g, h) && InOrder(nt) == InOrder(t) && Nodes(nt) == Nodes(t)
            && Height(nt) == Height(o) + 2
  {
    hide RotatedTwice, Wired, WiredPath, Below, Height, InOrder, Nodes, Cells, InnerCells;
    Double(i, a, child, gi, g, go, node, o);
    DoubleOrder(i, a, child, gi, g, go, node, o);
    RotatedTwiceWired(m, m', root, root', c, node, i, a, child, gi, g, go, o, h);
    RotatedTwicePath(m, m', root, root', c, node, i, a, child, gi, g, go, o, h);
  }

  /** The grandchild's children are apart from the other cells. */
  ghost predicate InnerRoots(m: Mem, c: Path, node: Ref, i: int, child: Ref, g: Ref)
    requires g in m
  {
    var ri, ro, p := Child(m[g], i), Child(m[g], 1 - i), UpNode(c);
    && (ri != NULL ==> ri in m && ri != node && ri != child && ri != g && ri != p && ri != ro)
    && (ro != NULL ==> ro in m && ro != node && ro != child && ro != g && ro != p)
  }

  /** The three nodes after a double rotation. */
  function LoweredChild(m: Mem, i: int, child: Ref, g: Ref): Cell
    requires child in m && g in m
  {
    WithChild(m[child], 1 - i, Child(m[g], i)).(bal := if m[g].bal == Low(i) then -Low(i) else 0, parent := g, idx := i)
  }

  function LoweredNode(m: Mem, i: int, node: Ref, g: Ref): Cell
    requires node in m && g in m
  {
    WithChild(m[node], i, Child(m[g], 1 - i)).(bal := if m[g].bal == -Low(i) then Low(i) else 0, parent := g,
        idx := 1 - i)
  }

  function RaisedCell(m: Mem, i: int, node: Ref, child: Ref, g: Ref): Cell
    requires node in m && g in m
  {
    WithChild(WithChild(m[g], i, child), 1 - i, node).(bal := 0, parent := m[node].parent, idx := m[node].idx)
  }

  /** The writes of a double rotation put together: m2 after the two grandchildren have
      moved, m5 after the three nodes have been rewritten. */
  lemma Raised(m: Mem, m2: Mem, m5: Mem, m': Mem, root: Ref, root': Ref, c: Path, node: Ref, i: int, child: Ref, g: Ref)
    requires Cells(m, c, node, i, child) && InnerCells(m, c, node, i, child, g) && InnerRoots(m, c, node, i, child, g)
    requires m2 == Adopted(Adopted(m, Child(m[g], 1 - i), node, i), Child(m[g], i), child, 1 - i)
    requires m5.Keys == m2.Keys && forall n :: n in m2 && n != node && n != child && n != g ==> m5[n] == m2[n]
    requires m5[child] == LoweredChild(m, i, child, g)
    requires m5[node] == LoweredNode(m, i, node, g)
    requires m5[g] == RaisedCell(m, i, node, child, g)
    requires m[node].parent != NULL ==> m[node].parent in m5
    requires m' == Relinked(m5, m[node].parent, m[node].idx, g)
    requires root' == if m[node].parent == NULL then g else root
    ensures RotatedTwice(m, m', root, root', c, node, i, child, g) && m'.Keys == m.Keys
  {
    hide Child, WithChild, Low, Adopted;
    TwoAdopted(m, Child(m[g], 1 - i), node, i, Child(m[g], i), child, 1 - i);
  }

  lemma ThreeWritten(m: Mem, a: Ref, x: Cell, b: Ref, y: Cell, c: Ref, z: Cell)
    requires a in m && b in m && c in m && a != b && a != c && b != c
    ensures var m' := m[a := x][b := y][c := z];
      && m'.Keys == m.Keys && m'[a] == x && m'[b] == y && m'[c] == z
      && forall n :: n in m && n != a && n != b && n != c ==> m'[n] == m[n]
  {
  }

  lemma TwoAdopted(m: Mem, x: Ref, p: Ref, i: int, y: Ref, q: Ref, j: int)
    requires (x != NULL ==> x in m) && (y != NULL ==> y in m && y != x)
    ensures var m' := Adopted(Adopted(m, x, p, i), y, q, j);
      && m'.Keys == m.Keys && (forall n :: n in m && n != x && n != y ==> m'[n] == m[n])
      && (x != NULL ==> m'[x] == m[x].(parent := p, idx := i)) && (y != NULL ==> m'[y] == m[y].(parent := q, idx := j))
  {
  }

  lemma {:induction false} DoubleRoots(m: Mem, root: Ref, c: Path, node: Ref, i: int,
                    a: Tree, child: Ref, gi: Tree, g: Ref, go: Tree, o: Tree, h: int)
    requires Unbalanced(m, root, c, node, i, Mk(i, a, child, Mk(i, gi, g, go)), o, h)
    requires Cells(m, c, node, i, child) && InnerCells(m, c, node, i, child, g)
    ensures InnerRoots(m, c, node, i, child, g)
  {
    var b := Mk(i, gi, g, go);
    DoubleCells(m, root, c, node, i, a, child, gi, g, go, o, h);
    RotationCells(m, root, c, node, i, a, child, b, o, h);
    DoubleApart(i, a, child, gi, g, go, node, o);
    InnerRoot(m, gi, Child(m[g], i), {});
    InnerRoot(m, go, Child(m[g], 1 - i), {});
    assert Nodes(b) == Nodes(gi) + {g} + Nodes(go);
  }
}
