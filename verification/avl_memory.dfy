/** The memory cells of AVL nodes and what it means for them to represent a tree: child and
    parent links agree, every cell knows which child it is, and the stored balance is the
    true difference of heights (avl_tree.h). */
module AvlMemory {
  import opened AvlShape

  /** The avl_tree_node_t of one node: children, parent, index in the parent, balance. */
  datatype Cell = Cell(c0: Ref, c1: Ref, parent: Ref, idx: int, bal: int)

  type Mem = map<Ref, Cell>

  function Child(x: Cell, i: int): Ref
  {
    if i == 0 then x.c0 else x.c1
  }

  function WithChild(x: Cell, i: int, v: Ref): Cell
  {
    if i == 0 then x.(c0 := v) else x.(c1 := v)
  }

  // ---- a tree in memory

  /** The cells of t, entered at x; the links of the root cell upwards are left open. */
  ghost predicate Below(m: Mem, t: Tree, x: Ref)
    decreases t, 0
  {
    match t
    case Leaf => x == NULL
    case Node(l, n, r) =>
      && x == n && n != NULL && n in m && m[n].bal == Tilt(t)
      && Wired(m, l, m[n].c0, n, 0) && Wired(m, r, m[n].c1, n, 1)
  }

  ghost predicate Attached(m: Mem, x: Ref, p: Ref, i: int)
  {
    x != NULL ==> x in m && m[x].parent == p && (p != NULL ==> m[x].idx == i)
  }

  /** t is child i of p. */
  ghost predicate Wired(m: Mem, t: Tree, x: Ref, p: Ref, i: int)
    decreases t, 1
  {
    Below(m, t, x) && Attached(m, x, p, i)
  }

  lemma WiredBelow(m: Mem, t: Tree, x: Ref, p: Ref, i: int)
    requires Wired(m, t, x, p, i)
    ensures Below(m, t, x)
  {
  }

  ghost predicate Same(m: Mem, m': Mem, ns: set<Ref>)
  {
    forall n :: n in ns && n in m ==> n in m' && m'[n] == m[n]
  }

  lemma {:induction false} WiredFrame(m: Mem, m': Mem, t: Tree, x: Ref, p: Ref, i: int)
    requires Wired(m, t, x, p, i) && Same(m, m', Nodes(t))
    ensures Wired(m', t, x, p, i)
  {
    if t.Node? {
      WiredFrame(m, m', t.l, m[x].c0, x, 0);
      WiredFrame(m, m', t.r, m[x].c1, x, 1);
    }
  }

  /** Only the upward links of the root cell have changed. */
  lemma Rewire(m: Mem, m': Mem, t: Tree, x: Ref, p: Ref, i: int)
    requires Below(m, t, x)
    requires t.Node? ==> x in m' && m'[x] == m[x].(parent := p, idx := i) && Same(m, m', Nodes(t.l) + Nodes(t.r))
    ensures Wired(m', t, x, p, i)
  {
    if t.Node? {
      WiredFrame(m, m', t.l, m[x].c0, x, 0);
      WiredFrame(m, m', t.r, m[x].c1, x, 1);
    }
  }

  /** A cell with the right contents and wired subtrees is a wired tree. */
  lemma WiredNode(m: Mem, i: int, s: Tree, n: Ref, o: Tree, p: Ref, w: int)
    requires (i == 0 || i == 1) && n != NULL && n in m
    requires Wired(m, s, Child(m[n], i), n, i) && Wired(m, o, Child(m[n], 1 - i), n, 1 - i)
    requires m[n].bal == Tilt(Mk(i, s, n, o)) && m[n].parent == p && m[n].idx == w
    ensures Wired(m, Mk(i, s, n, o), n, p, w)
  {
  }

  // ---- a path in memory

  ghost function UpNode(c: Path): Ref
  {
    if c.Top? then NULL else c.n
  }

  ghost function UpIdx(c: Path): int
  {
    if c.Top? then 0 else c.i
  }

  /** The cells of a path whose place holds x. Their balances are those of a subtree of
      height h at the place. */
  ghost predicate WiredPath(m: Mem, root: Ref, c: Path, x: Ref, h: int)
    decreases c
  {
    match c
    case Top => root == x
    case Frame(i, n, sib, up) =>
      && (i == 0 || i == 1) && n != NULL && n in m
      && Child(m[n], i) == x && Wired(m, sib, Child(m[n], 1 - i), n, 1 - i)
      && m[n].bal == (if i == 0 then Height(sib) - h else h - Height(sib))
      && Attached(m, n, UpNode(up), UpIdx(up))
      && WiredPath(m, root, up, n, 1 + Max(h, Height(sib)))
  }

  lemma {:induction false} PathFrame(m: Mem, m': Mem, root: Ref, c: Path, x: Ref, h: int)
    requires WiredPath(m, root, c, x, h) && Same(m, m', PathNodes(c))
    ensures WiredPath(m', root, c, x, h)
    decreases c
  {
    if c.Frame? {
      WiredFrame(m, m', c.sib, Child(m[c.n], 1 - c.i), c.n, 1 - c.i);
      PathFrame(m, m', root, c.up, c.n, 1 + Max(h, Height(c.sib)));
    }
  }

  /** Make x the child of the node above the place, or the root. */
  lemma PathRehole(m: Mem, m': Mem, root: Ref, root': Ref, c: Path, x: Ref, x': Ref, h: int)
    requires WiredPath(m, root, c, x, h)
    requires if c.Top? then root' == x'
             else root' == root && c.n in m && c.n in m' && m'[c.n] == WithChild(m[c.n], c.i, x')
                  && c.n !in Nodes(c.sib) + PathNodes(c.up) && Same(m, m', Nodes(c.sib) + PathNodes(c.up))
    ensures WiredPath(m', root', c, x', h)
  {
    if c.Frame? {
      WiredFrame(m, m', c.sib, Child(m[c.n], 1 - c.i), c.n, 1 - c.i);
      PathFrame(m, m', root, c.up, c.n, 1 + Max(h, Height(c.sib)));
    }
  }

  /** A wired subtree at the place of a wired path is a wired tree. */
  lemma {:induction false} WiredPlug(m: Mem, root: Ref, c: Path, t: Tree, x: Ref)
    requires Wired(m, t, x, UpNode(c), UpIdx(c)) && WiredPath(m, root, c, x, Height(t))
    ensures Wired(m, Plug(c, t), root, NULL, 0)
    decreases c
  {
    if c.Frame? {
      WiredNodeAt(m, c, t, x);
      WiredPlug(m, root, c.up, Mk(c.i, t, c.n, c.sib), c.n);
    }
  }

  lemma WiredNodeAt(m: Mem, c: Path, t: Tree, x: Ref)
    requires c.Frame? && (c.i == 0 || c.i == 1) && c.n != NULL && c.n in m && Child(m[c.n], c.i) == x
    requires Wired(m, t, x, c.n, c.i) && Wired(m, c.sib, Child(m[c.n], 1 - c.i), c.n, 1 - c.i)
    requires m[c.n].bal == (if c.i == 0 then Height(c.sib) - Height(t) else Height(t) - Height(c.sib))
    requires Attached(m, c.n, UpNode(c.up), UpIdx(c.up))
    ensures Wired(m, Mk(c.i, t, c.n, c.sib), c.n, UpNode(c.up), UpIdx(c.up))
    ensures Height(Mk(c.i, t, c.n, c.sib)) == 1 + Max(Height(t), Height(c.sib))
  {
  }

  lemma {:induction false} WiredUnplug(m: Mem, root: Ref, c: Path, t: Tree) returns (x: Ref)
    requires Wired(m, Plug(c, t), root, NULL, 0) && Sides(c)
    ensures Wired(m, t, x, UpNode(c), UpIdx(c)) && WiredPath(m, root, c, x, Height(t))
    decreases c
  {
    if c.Top? {
      x := root;
    } else {
      var u := Mk(c.i, t, c.n, c.sib);
      var y := WiredUnplug(m, root, c.up, u);
      x := Child(m[c.n], c.i);
    }
  }

  lemma {:induction false} PathInMemory(m: Mem, root: Ref, c: Path, x: Ref, h: int)
    requires WiredPath(m, root, c, x, h)
    ensures PathNodes(c) <= m.Keys
    decreases c
  {
    if c.Frame? {
      TreeInMemory(m, c.sib, Child(m[c.n], 1 - c.i));
      PathInMemory(m, root, c.up, c.n, 1 + Max(h, Height(c.sib)));
    }
  }

  lemma {:induction false} TreeInMemory(m: Mem, t: Tree, x: Ref)
    requires Below(m, t, x)
    ensures Nodes(t) <= m.Keys && (x == NULL <==> t.Leaf?) && (t.Node? ==> x == t.n)
  {
    if t.Node? {
      TreeInMemory(m, t.l, m[x].c0);
      TreeInMemory(m, t.r, m[x].c1);
    }
  }
}
