/** Letting another cell take a node's place in the tree. avl_tree_remove does this twice to
    swap a node with its neighbour: the neighbour's place goes to a placeholder, then the
    node's own place to the neighbour (avl_tree.c). */
module AvlRename {
  import opened AvlShape
  import opened AvlMemory
  import opened AvlRotation
  import opened AvlRewire
  import opened AvlClimb

  function Reparented(m: Mem, x: Ref, p: Ref): Mem
  {
    if x != NULL && x in m then m[x := m[x].(parent := p)] else m
  }

  function Repointed(m: Mem, p: Ref, i: int, x: Ref): Mem
  {
    if p != NULL && p in m then m[p := WithChild(m[p], i, x)] else m
  }

  /** Cell b becomes a copy of a, and a's neighbours link to b. */
  function RenamedMem(m: Mem, a: Ref, b: Ref): Mem
    requires a in m
  {
    Repointed(Reparented(Reparented(m[b := m[a]], m[a].c0, b), m[a].c1, b), m[a].parent, m[a].idx, b)
  }

  function RenamedRoot(m: Mem, root: Ref, a: Ref, b: Ref): Ref
    requires a in m
  {
    if m[a].parent == NULL then b else root
  }

  /** The cells around the node a. */
  ghost predicate Around(m: Mem, c: Path, s: Tree, a: Ref)
  {
    && s.Node? && s.n == a && a in m && m[a].parent == UpNode(c) && (c.Frame? ==> m[a].idx == c.i)
    && Wired(m, s.l, m[a].c0, a, 0) && Wired(m, s.r, m[a].c1, a, 1) && m[a].bal == Tilt(s)
    && (m[a].c0 != NULL ==> m[a].c0 in Nodes(s.l)) && (m[a].c1 != NULL ==> m[a].c1 in Nodes(s.r))
  }

  lemma LookAround(m: Mem, root: Ref, c: Path, s: Tree, a: Ref, h: int)
    requires Stands(m, root, c, s, a, h) && s.Node?
    ensures Around(m, c, s, a)
  {
    hide InOrder, WiredPath, PathBalanced;
    assert Below(m, s, a);
    assert s.n == a && a in m;
    assert Wired(m, s.l, m[a].c0, a, 0) && Wired(m, s.r, m[a].c1, a, 1);
    TreeInMemory(m, s.l, m[a].c0);
    TreeInMemory(m, s.r, m[a].c1);
    assert c.Frame? ==> c.n != NULL;
  }

  /** What renaming leaves alone. */
  lemma RenameEffect(m: Mem, a: Ref, b: Ref, x: Ref)
    requires a in m && x != b && x in m && x != NULL
    ensures x in RenamedMem(m, a, b) && b in RenamedMem(m, a, b)
    ensures x != m[a].c0 && x != m[a].c1 && x != m[a].parent ==> RenamedMem(m, a, b)[x] == m[x]
    ensures x == m[a].c0 && x != m[a].c1 && x != m[a].parent ==> RenamedMem(m, a, b)[x] == m[x].(parent := b)
    ensures x == m[a].c1 && x != m[a].c0 && x != m[a].parent ==> RenamedMem(m, a, b)[x] == m[x].(parent := b)
    ensures x == m[a].parent && x != m[a].c0 && x != m[a].c1 ==> RenamedMem(m, a, b)[x] == WithChild(m[x], m[a].idx, b)
    ensures b != m[a].c0 && b != m[a].c1 && b != m[a].parent ==> RenamedMem(m, a, b)[b] == m[a]
  {
  }

  lemma RenamedSame(m: Mem, a: Ref, b: Ref, ns: set<Ref>)
    requires a in m && b !in ns && NULL !in ns && m[a].c0 !in ns && m[a].c1 !in ns && m[a].parent !in ns
    ensures Same(m, RenamedMem(m, a, b), ns)
  {
    forall x | x in ns && x in m ensures x in RenamedMem(m, a, b) && RenamedMem(m, a, b)[x] == m[x] {
      RenameEffect(m, a, b, x);
    }
  }

  lemma RenamedSide(m: Mem, c: Path, s: Tree, a: Ref, b: Ref, i: int)
    requires Around(m, c, s, a) && Distinct(s) && b !in Nodes(s) && b != NULL && (i == 0 || i == 1)
    requires UpNode(c) !in Nodes(s)
    ensures Wired(RenamedMem(m, a, b), Side(s, i), Child(m[a], i), b, i)
  {
    hide RenamedMem;
    var t, x := Side(s, i), Child(m[a], i);
    if t.Node? {
      RootApart(t);
      NullFree(s);
      InnerRoot(m, t, x, {});
      assert b !in Nodes(t) && m[a].parent !in Nodes(t) && Child(m[a], 1 - i) !in Nodes(t);
      RenameEffect(m, a, b, x);
      RenamedSame(m, a, b, Nodes(t.l) + Nodes(t.r));
    }
    Rewire(m, RenamedMem(m, a, b), t, x, b, i);
  }

  lemma RenamedPath(m: Mem, root: Ref, c: Path, s: Tree, a: Ref, b: Ref, h: int)
    requires Around(m, c, s, a) && Stands(m, root, c, s, a, h) && b !in PathNodes(c) && b != NULL && b !in Nodes(s)
    ensures WiredPath(RenamedMem(m, a, b), RenamedRoot(m, root, a, b), c, b, h)
  {
    hide Balanced, PathBalanced, RenamedMem, InOrder, Wired, Below;
    var m' := RenamedMem(m, a, b);
    PathApart(c, Nodes(s));
    PathNullFree(c, Nodes(s));
    if c.Frame? {
      RenamedSame(m, a, b, Nodes(c.sib) + PathNodes(c.up));
      RenameEffect(m, a, b, c.n);
    }
    PathRehole(m, m', root, RenamedRoot(m, root, a, b), c, a, b, h);
  }

  /** The node at a place renamed to b. */
  lemma RenamedStands(m: Mem, root: Ref, c: Path, s: Tree, a: Ref, b: Ref, h: int)
    requires Stands(m, root, c, s, a, h) && s.Node? && b !in PathNodes(c) && b != NULL && b !in Nodes(s)
    requires a in m
    ensures Stands(RenamedMem(m, a, b), RenamedRoot(m, root, a, b), c, Node(s.l, b, s.r), b, h)
  {
    hide RenamedMem, InOrder, WiredPath;
    var m', s' := RenamedMem(m, a, b), Node(s.l, b, s.r);
    LookAround(m, root, c, s, a, h);
    RenamedPath(m, root, c, s, a, b, h);
    PathApart(c, Nodes(s));
    NullFree(s);
    RenamedSide(m, c, s, a, b, 0);
    RenamedSide(m, c, s, a, b, 1);
    RenameEffect(m, a, b, a);
    PathFits(c, Nodes(s), Nodes(s'));
    assert m'[b] == m[a];
    assert Wired(m', s', b, UpNode(c), UpIdx(c));
    assert WiredPath(m', RenamedRoot(m, root, a, b), c, b, h);
    assert Balanced(s') && Distinct(s') && PathDistinct(c, Nodes(s'));
  }

  /** The j-th node of a tree renamed to b. */
  lemma Renamed(m: Mem, root: Ref, t: Tree, j: nat, b: Ref) returns (t': Tree)
    requires Wired(m, t, root, NULL, 0) && Distinct(t) && Balanced(t) && j < |InOrder(t)|
    requires b != NULL && b !in Nodes(t) && InOrder(t)[j] in m
    ensures var a := InOrder(t)[j]; Wired(RenamedMem(m, a, b), t', RenamedRoot(m, root, a, b), NULL, 0)
    ensures Distinct(t') && Balanced(t') && InOrder(t') == InOrder(t)[j := b]
  {
    hide RenamedMem, RenamedRoot, InPlace, Wired, WiredPath, Balanced, PathBalanced, PathDistinct, Nodes;
    var c, s := FindPlace(m, root, t, j);
    var s' := Node(s.l, b, s.r);
    NodesPlug(c, s);
    RenamedStands(m, root, c, s, s.n, b, Height(s));
    Settled(RenamedMem(m, s.n, b), RenamedRoot(m, root, s.n, b), c, s', b, Height(s));
    t' := Plug(c, s');
    InOrderPlug(c, s');
  }

  // ---- the swap of a node with its neighbour

  /** del has two children; nd, a neighbour of del in order, is below child `left` of del and
      has no child on the other side. tmp is not yet in memory. */
  ghost predicate Swappable(m: Mem, del: Ref, nd: Ref, tmp: Ref, left: int)
  {
    && (left == 0 || left == 1) && del != NULL && nd != NULL && tmp != NULL && tmp !in m && del != nd
       && Linked(m, del) && Linked(m, nd)
    && m[del].c0 != NULL && m[del].c1 != NULL && Child(m[nd], 1 - left) == NULL
    && m[del].parent != nd && m[del].parent != m[del].c0 && m[del].parent != m[del].c1
       && m[nd].parent != Child(m[nd], left) && Child(m[del], 1 - left) != nd
    && m[nd].parent != NULL
  }

  /** The links of x and of its neighbours agree. */
  ghost predicate Linked(m: Mem, x: Ref)
  {
    && x in m && (m[x].idx == 0 || m[x].idx == 1 || m[x].parent == NULL)
    && (m[x].c0 != NULL ==> m[x].c0 in m && m[m[x].c0].parent == x && m[m[x].c0].idx == 0 && m[x].c0 != x)
    && (m[x].c1 != NULL ==> m[x].c1 in m && m[m[x].c1].parent == x && m[m[x].c1].idx == 1 && m[x].c1 != x)
    && (m[x].parent != NULL ==> m[x].parent in m && m[x].parent != x && Child(m[m[x].parent], m[x].idx) == x)
  }

  /** Memory after nd was moved to del's place and its own cell copied to tmp. */
  function SwapTop(m: Mem, del: Ref, nd: Ref, tmp: Ref, left: int): Mem
    requires del in m && nd in m
  {
    var m1 := m[tmp := m[nd]][nd := m[del]];
    var m2 := if Child(m1[nd], left) == nd then m1[nd := WithChild(m1[nd], left, tmp)] else m1;
    var m3 := Repointed(m2, m2[nd].parent, m2[nd].idx, nd);
    var m4 := Reparented(m3, Child(m2[nd], left), nd);
    Reparented(m4, Child(m2[nd], 1 - left), nd)
  }

  /** Memory after tmp was linked where nd used to be. */
  function SwapBottom(m: Mem, tmp: Ref): Mem
    requires tmp in m
  {
    Reparented(Repointed(m, m[tmp].parent, m[tmp].idx, tmp), Child(m[tmp], if m[tmp].c1 != NULL then 1 else 0), tmp)
  }

  function TopCell(m: Mem, del: Ref, nd: Ref, tmp: Ref, left: int, x: Ref): Cell
    requires del in m && nd in m && (x in m || x == tmp)
  {
    var adjacent := m[nd].parent == del;
    if x == nd then (if adjacent then WithChild(m[del], left, tmp) else m[del])
    else if x == tmp then (if adjacent then m[nd].(parent := nd) else m[nd])
    else if x == m[del].c0 || x == m[del].c1 then m[x].(parent := nd)
    else if x == m[del].parent then WithChild(m[x], m[del].idx, nd) else m[x]
  }

  lemma {:induction false} SwapTopAt(m: Mem, del: Ref, nd: Ref, tmp: Ref, left: int, x: Ref)
    requires Swappable(m, del, nd, tmp, left) && x != del && (x in m || x == tmp) && x != NULL
    ensures x in SwapTop(m, del, nd, tmp, left)
            && SwapTop(m, del, nd, tmp, left)[x] == TopCell(m, del, nd, tmp, left, x)
  {
    if left == 0 {
    } else {
    }
  }

  /** Both come to this. */
  function SwappedCell(m: Mem, del: Ref, nd: Ref, tmp: Ref, left: int, x: Ref): Cell
    requires del in m && nd in m && (x in m || x == tmp)
  {
    var y, adjacent := Child(m[nd], left), m[nd].parent == del;
    if x == nd then (if adjacent then WithChild(m[del], left, tmp) else m[del])
    else if x == tmp then (if adjacent then m[nd].(parent := nd) else m[nd])
    else
      var v := if x == y then m[x].(parent := tmp) else if x == m[del].c0
          || x == m[del].c1 then m[x].(parent := nd) else m[x];
      var w := if x == m[nd].parent && !adjacent then WithChild(v, m[nd].idx, tmp) else v;
      if x == m[del].parent then WithChild(w, m[del].idx, nd) else w
  }

  lemma {:induction false} SwappedMemAt(m: Mem, del: Ref, nd: Ref, tmp: Ref, left: int, x: Ref)
    requires Swappable(m, del, nd, tmp, left) && x != del && (x in m || x == tmp) && x != NULL
    ensures var m' := SwapTop(m, del, nd, tmp, left);
            tmp in m' && x in SwapBottom(m', tmp) && SwapBottom(m', tmp)[x] == SwappedCell(m, del, nd, tmp, left, x)
  {
    hide SwapTop;
    SwapTopAt(m, del, nd, tmp, left, x);
    SwapTopAt(m, del, nd, tmp, left, tmp);
    if left == 0 {
    } else {
    }
  }

  /** A cell after one renaming. */
  function RenamedCell(m: Mem, a: Ref, b: Ref, x: Ref): Cell
    requires a in m && (x in m || x == b)
  {
    var u := if x == b then m[a] else m[x];
    var v := if x == m[a].c0 || x == m[a].c1 then u.(parent := b) else u;
    if x == m[a].parent then WithChild(v, m[a].idx, b) else v
  }

  lemma RenamedAt(m: Mem, a: Ref, b: Ref, x: Ref)
    requires a in m && (x in m || x == b) && x != NULL
    ensures x in RenamedMem(m, a, b) && RenamedMem(m, a, b)[x] == RenamedCell(m, a, b, x)
  {
  }

  lemma RenamedMemAt(m: Mem, del: Ref, nd: Ref, tmp: Ref, left: int, x: Ref)
    requires Swappable(m, del, nd, tmp, left) && x != del && (x in m || x == tmp) && x != NULL
    ensures var m' := RenamedMem(m, nd, tmp);
            del in m' && x in RenamedMem(m', del, nd)
                && RenamedMem(m', del, nd)[x] == SwappedCell(m, del, nd, tmp, left, x)
  {
    hide RenamedMem;
    var m' := RenamedMem(m, nd, tmp);
    RenamedAt(m, nd, tmp, del);
    RenamedAt(m, nd, tmp, x);
    RenamedAt(m', del, nd, x);
    if left == 0 {
    } else {
    }
  }

  lemma NodeLinked(m: Mem, root: Ref, c: Path, s: Tree, x: Ref, h: int)
    requires Stands(m, root, c, s, x, h) && s.Node? && Sides(c)
    ensures Linked(m, x) && x != NULL && s.n == x && Distinct(s) && (c.Frame? <==> m[x].parent != NULL)
    ensures m[x].parent !in Nodes(s) && (m[x].c0 != NULL ==> m[x].c0 in Nodes(s.l))
            && (m[x].c1 != NULL ==> m[x].c1 in Nodes(s.r))
  {
    hide InOrder, PathBalanced, Balanced;
    LookAround(m, root, c, s, x, h);
    PathApart(c, Nodes(s));
    NullFree(s);
    TreeInMemory(m, s.l, m[x].c0);
    TreeInMemory(m, s.r, m[x].c1);
  }

  lemma CanSwap(m: Mem, root: Ref, t: Tree, c: Path, s: Tree, del: Ref, c': Path, s': Tree, nd: Ref, tmp: Ref,
                left: int)
    requires Stands(m, root, c, s, del, Height(s)) && s.Node? && Sides(c)
    requires Stands(m, root, c', s', nd, Height(s')) && s'.Node? && Sides(c')
    requires (left == 0 || left == 1) && nd in Nodes(Side(s, left)) && tmp != NULL && tmp !in m
    requires del in m && nd in m && m[del].c0 != NULL && m[del].c1 != NULL && Child(m[nd], 1 - left) == NULL
             && m[nd].parent != NULL
    ensures Swappable(m, del, nd, tmp, left)
  {
    hide Stands, Height, Linked, Nodes, Distinct;
    NodeLinked(m, root, c, s, del, Height(s));
    NodeLinked(m, root, c', s', nd, Height(s'));
    PartsOf(left, Side(s, left), del, Side(s, 1 - left));
    PartsOf(left, Side(s', left), nd, Side(s', 1 - left));
  }

  /** The whole swap: nd takes del's position j in the order, tmp takes nd's position k. */
  lemma Swapped(m: Mem, root: Ref, m': Mem, root': Ref, t: Tree, j: nat, k: nat, tmp: Ref, left: int) returns (t': Tree)
    requires Wired(m, t, root, NULL, 0) && Distinct(t) && Balanced(t) && j < |InOrder(t)| && k < |InOrder(t)| && j != k
    requires Swappable(m, InOrder(t)[j], InOrder(t)[k], tmp, left)
    requires var top := SwapTop(m, InOrder(t)[j], InOrder(t)[k], tmp, left); tmp in top && m' == SwapBottom(top, tmp)
    requires root' == if m[InOrder(t)[j]].parent == NULL then InOrder(t)[k] else root
    ensures Wired(m', t', root', NULL, 0) && Distinct(t') && Balanced(t')
    ensures InOrder(t') == InOrder(t)[k := tmp][j := InOrder(t)[k]]
  {
    hide RenamedMem, RenamedRoot, SwapTop, SwapBottom, SwappedCell, Wired, Below, Distinct, Balanced, InOrder, Height;
    var order := InOrder(t);
    var del, nd := order[j], order[k];
    WiredBelow(m, t, root, NULL, 0);
    TreeInMemory(m, t, root);
    var m1 := RenamedMem(m, nd, tmp);
    var t1 := Renamed(m, root, t, k, tmp);
    RenamedMemAt(m, del, nd, tmp, left, nd);
    assert nd !in Nodes(t1) by {
      OrderDistinct(t);
      InOrderNodes(t1, nd);
    }
    var root1 := RenamedRoot(m, root, nd, tmp);
    var m2 := RenamedMem(m1, del, nd);
    t' := Renamed(m1, root1, t1, j, nd);
    OrderDistinct(t);
    OrderDistinct(t1);
    assert del !in Nodes(t') && NULL !in Nodes(t') by {
      InOrderNodes(t', del);
      NullFree(t');
    }
    forall x | x in Nodes(t') && x in m2 ensures x in m' && m'[x] == m2[x] {
      InOrderNodes(t', x);
      InOrderNodes(t, x);
      RenamedMemAt(m, del, nd, tmp, left, x);
      SwappedMemAt(m, del, nd, tmp, left, x);
    }
    WiredFrame(m2, m', t', RenamedRoot(m1, root1, del, nd), NULL, 0);
    SameRoot(m, root, del, nd, tmp, left);
  }

  lemma SameRoot(m: Mem, root: Ref, del: Ref, nd: Ref, tmp: Ref, left: int)
    requires Swappable(m, del, nd, tmp, left)
    ensures var m1 := RenamedMem(m, nd, tmp);
            del in m1
                && RenamedRoot(m1, RenamedRoot(m, root, nd, tmp), del, nd) ==
                   (if m[del].parent == NULL then nd else root)
  {
  }
}
