/** Steps up a tree whose subtree at some place has just grown or shrunk (avl_tree.c). */
module AvlClimb {
  import opened AvlShape
  import opened AvlMemory
  import opened AvlRotation
  import opened AvlRewire

  /** A well-formed subtree s, entered at x, at the place of a path whose cells count on a
      subtree of height h there. */
  ghost predicate Stands(m: Mem, root: Ref, c: Path, s: Tree, x: Ref, h: int)
  {
    InPlace(m, root, c, s, x, h) && PathBalanced(c, h)
  }

  /** The subtree one level up. */
  ghost function Joined(c: Path, s: Tree): Tree
    requires c.Frame?
  {
    Mk(c.i, s, c.n, c.sib)
  }

  ghost function HeightAbove(c: Path, h: int): int
    requires c.Frame?
  {
    1 + Max(h, Height(c.sib))
  }

  /** The balance stored above the place is that of a subtree of height h. */
  lemma StoredBalance(m: Mem, root: Ref, c: Path, s: Tree, x: Ref, h: int)
    requires Stands(m, root, c, s, x, h) && c.Frame?
    ensures (c.i == 0 || c.i == 1) && c.n in m && c.n != NULL && c.n !in Nodes(s)
    ensures m[c.n].bal == (if c.i == 0 then Height(c.sib) - h else h - Height(c.sib)) && -1 <= m[c.n].bal <= 1
    ensures Tilt(Joined(c, s)) == (if c.i == 0 then Height(c.sib) - Height(s) else Height(s) - Height(c.sib))
    ensures m[c.n].parent == UpNode(c.up) && (c.up.Frame? ==> m[c.n].idx == UpIdx(c.up))
    ensures UpNode(c.up) == NULL <==> c.up.Top?
    ensures Height(Joined(c, s)) == 1 + Max(Height(s), Height(c.sib))
  {
    hide InOrder;
    assert WiredPath(m, root, c.up, c.n, HeightAbove(c, h));
    assert PathDistinct(c.up, Nodes(s) + {c.n} + Nodes(c.sib));
  }

  lemma AboveParts(m: Mem, root: Ref, c: Path, x: Ref, h: int)
    requires WiredPath(m, root, c, x, h) && c.Frame?
    ensures (c.i == 0 || c.i == 1) && c.n != NULL && c.n in m && Child(m[c.n], c.i) == x
    ensures Wired(m, c.sib, Child(m[c.n], 1 - c.i), c.n, 1 - c.i)
    ensures Attached(m, c.n, UpNode(c.up), UpIdx(c.up)) && WiredPath(m, root, c.up, c.n, HeightAbove(c, h))
  {
  }

  /** Storing the true balance above the place moves the place one level up. */
  lemma {:induction false} Absorbed(m: Mem, m': Mem, root: Ref, c: Path, s: Tree, x: Ref, h: int)
    requires Stands(m, root, c, s, x, h) && c.Frame? && c.n in m && -1 <= Tilt(Joined(c, s)) <= 1
    requires m' == m[c.n := m[c.n].(bal := Tilt(Joined(c, s)))]
    ensures Stands(m', root, c.up, Joined(c, s), c.n, HeightAbove(c, h))
    ensures InOrder(Plug(c.up, Joined(c, s))) == InOrder(Plug(c, s)) && Plug(c.up, Joined(c, s)) == Plug(c, s)
  {
    hide InOrder, WiredPath, Height;
    AboveParts(m, root, c, x, h);
    PathApart(c, Nodes(s));
    PathApart(c.up, Nodes(s) + {c.n} + Nodes(c.sib));
    WiredFrame(m, m', s, x, c.n, c.i);
    WiredFrame(m, m', c.sib, Child(m[c.n], 1 - c.i), c.n, 1 - c.i);
    PathFrame(m, m', root, c.up, c.n, HeightAbove(c, h));
    WiredNodeAt(m', c, s, x);
    assert Nodes(Joined(c, s)) == Nodes(s) + {c.n} + Nodes(c.sib);
  }

  /** A balance of two off above the place is the state a rotation starts from. */
  lemma Leaning(m: Mem, root: Ref, c: Path, s: Tree, x: Ref, h: int)
    requires Stands(m, root, c, s, x, h) && c.Frame?
    ensures Height(s) == Height(c.sib) + 2 ==> Unbalanced(m, root, c.up, c.n, c.i, s, c.sib, HeightAbove(c, h))
    ensures Height(c.sib) == Height(s) + 2 ==> Unbalanced(m, root, c.up, c.n, 1 - c.i, c.sib, s, HeightAbove(c, h))
    ensures PathBalanced(c.up, HeightAbove(c, h)) && Mk(1 - c.i, c.sib, c.n, s) == Joined(c, s)
  {
    hide InOrder;
    assert Nodes(Joined(c, s)) == Nodes(s) + {c.n} + Nodes(c.sib);
    assert Distinct(Joined(c, s));
  }

  /** When the heights agree the whole tree is well formed. */
  lemma Settled(m: Mem, root: Ref, c: Path, s: Tree, x: Ref, h: int)
    requires Stands(m, root, c, s, x, h) && (c.Top? || Height(s) == h)
    ensures Wired(m, Plug(c, s), root, NULL, 0) && Distinct(Plug(c, s)) && Balanced(Plug(c, s))
  {
    hide InOrder;
    if c.Frame? {
      WiredPlug(m, root, c, s, x);
      BalancedPlug(c, s);
    }
    DistinctPlug(c, s);
  }

  /** Any place of a well-formed tree. */
  lemma Opened(m: Mem, root: Ref, c: Path, s: Tree) returns (x: Ref)
    requires Wired(m, Plug(c, s), root, NULL, 0) && Distinct(Plug(c, s)) && Balanced(Plug(c, s)) && Sides(c)
    ensures Stands(m, root, c, s, x, Height(s))
    ensures x == (if s.Leaf? then NULL else s.n)
  {
    hide InOrder, Height, Nodes;
    x := WiredUnplug(m, root, c, s);
    DistinctUnplug(c, s);
    BalancedUnplug(c, s);
  }

  /** Whatever is apart from the path may take the place. */
  lemma {:induction false} PathFits(c: Path, ns: set<Ref>, ns': set<Ref>)
    requires PathDistinct(c, ns) && ns' !! PathNodes(c)
    ensures PathDistinct(c, ns')
    decreases c
  {
    if c.Frame? {
      PathApart(c.up, ns + {c.n} + Nodes(c.sib));
      PathFits(c.up, ns + {c.n} + Nodes(c.sib), ns' + {c.n} + Nodes(c.sib));
    }
  }

  /** A new leaf at an empty place. */
  lemma LeafAdded(m: Mem, m': Mem, root: Ref, root': Ref, c: Path, node: Ref, i: int)
    requires Wired(m, Plug(c, Leaf), root, NULL, 0) && Distinct(Plug(c, Leaf)) && Balanced(Plug(c, Leaf)) && Sides(c)
    requires node != NULL && node !in Nodes(Plug(c, Leaf)) && (c.Frame? ==> i == c.i)
    requires c.Frame? ==> c.n in m
    requires var m1 := m[node := Cell(NULL, NULL, UpNode(c), i, 0)];
             if c.Top? then root' == node && m' == m1
             else root' == root && m' == m1[c.n := WithChild(m1[c.n], i, node)]
    ensures Stands(m', root', c, Node(Leaf, node, Leaf), node, 0)
  {
    hide InOrder, Nodes, Height, Balanced;
    var m1 := m[node := Cell(NULL, NULL, UpNode(c), i, 0)];
    var x := Opened(m, root, c, Leaf);
    NodesPlug(c, Leaf);
    LeafEmpty();
    PathFrame(m, m1, root, c, NULL, 0);
    PathFits(c, {}, {node});
    PathKept(m1, m', root, root', c, NULL, node, 0, {node});
    SingletonStands(m', root', c, node);
  }

  lemma SingletonStands(m: Mem, root: Ref, c: Path, node: Ref)
    requires node != NULL && PathDistinct(c, {node}) && WiredPath(m, root, c, node, 0) && PathBalanced(c, 0)
    requires node in m && m[node].c0 == NULL && m[node].c1 == NULL && m[node].bal == 0
    requires m[node].parent == UpNode(c) && (c.Frame? ==> m[node].idx == c.i)
    ensures Stands(m, root, c, Node(Leaf, node, Leaf), node, 0)
  {
    assert Nodes(Node(Leaf, node, Leaf)) == {node};
    assert Wired(m, Leaf, NULL, node, 0) && Wired(m, Leaf, NULL, node, 1) && Balanced(Leaf) && Distinct(Leaf);
    var s := Node(Leaf, node, Leaf);
    assert Height(s) == 1 && Tilt(s) == 0;
    assert Below(m, s, node);
    assert Attached(m, node, UpNode(c), UpIdx(c));
    assert Balanced(s) && Distinct(s) && PathDistinct(c, Nodes(s));
    assert WiredPath(m, root, c, node, 0);
  }

  // ---- going down

  lemma WholeStands(m: Mem, root: Ref, t: Tree)
    requires Wired(m, t, root, NULL, 0) && Distinct(t) && Balanced(t)
    ensures Stands(m, root, Top, t, root, Height(t))
  {
  }

  lemma EnterNode(m: Mem, root: Ref, c: Path, s: Tree, node: Ref, i: int)
    requires Stands(m, root, c, s, node, Height(s)) && node != NULL && (i == 0 || i == 1) && Sides(c)
    ensures s.Node? && s.n == node && node in m && InOrder(s) == InOrder(s.l) + [node] + InOrder(s.r)
    ensures Stands(m, root, Frame(i, node, Side(s, 1 - i), c), Side(s, i), Child(m[node], i), Height(Side(s, i)))
    ensures Plug(Frame(i, node, Side(s, 1 - i), c), Side(s, i)) == Plug(c, s)
    ensures m[node].bal == Tilt(s) && m[node].parent == UpNode(c) && (c.Frame? ==> m[node].idx == c.i)
  {
    hide InOrder, WiredPath, PathDistinct, PathBalanced;
    assert Below(m, s, node);
    assert Wired(m, s.l, m[node].c0, node, 0) && Wired(m, s.r, m[node].c1, node, 1);
    TreeInMemory(m, s.l, m[node].c0);
    TreeInMemory(m, s.r, m[node].c1);
    var c' := Frame(i, node, Side(s, 1 - i), c);
    assert Mk(i, Side(s, i), node, Side(s, 1 - i)) == s;
    Settled(m, root, c, s, node, Height(s));
    var x := Opened(m, root, c', Side(s, i));
    assert Stands(m, root, c', Side(s, i), x, Height(Side(s, i)));
    if c.Frame? {
      FrameNotNull(c, Nodes(s));
    }
    InOrderNode(s);
  }

  lemma EmptyPlace(m: Mem, root: Ref, c: Path, s: Tree, h: int)
    requires Stands(m, root, c, s, NULL, h)
    ensures s == Leaf && InOrder(s) == []
  {
    hide WiredPath, PathDistinct, PathBalanced;
    TreeInMemory(m, s, NULL);
  }

  /** From a place to the one above it. */
  lemma GoUp(m: Mem, root: Ref, c: Path, s: Tree, x: Ref)
    requires Stands(m, root, c, s, x, Height(s)) && c.Frame? && Sides(c)
    ensures Stands(m, root, c.up, Joined(c, s), c.n, Height(Joined(c, s))) && Sides(c.up)
    ensures Plug(c.up, Joined(c, s)) == Plug(c, s)
    ensures Before(c) == (if c.i == 0 then Before(c.up) else Before(c.up) + InOrder(c.sib) + [c.n])
    ensures After(c) == (if c.i == 0 then [c.n] + InOrder(c.sib) + After(c.up) else After(c.up))
  {
    hide InOrder, WiredPath, PathDistinct, PathBalanced, Nodes, Height, Distinct, Balanced, Below;
    Settled(m, root, c, s, x, Height(s));
    var y := Opened(m, root, c.up, Joined(c, s));
  }

  /** No node occurs twice in the order. */
  lemma {:induction false} OrderDistinct(t: Tree)
    requires Distinct(t)
    ensures forall a, b :: 0 <= a < b < |InOrder(t)| ==> InOrder(t)[a] != InOrder(t)[b]
    ensures forall a :: 0 <= a < |InOrder(t)| ==> InOrder(t)[a] in Nodes(t)
  {
    if t.Node? {
      OrderDistinct(t.l);
      OrderDistinct(t.r);
      var l, s, r := InOrder(t.l), InOrder(t), InOrder(t.r);
      forall a | 0 <= a < |s| ensures s[a] in Nodes(t) {
        if a > |l| {
          assert s[a] == r[a - |l| - 1];
        }
      }
      forall a, b | 0 <= a < b < |s| ensures s[a] != s[b] {
        if b > |l| {
          assert s[b] == r[b - |l| - 1] && s[b] in Nodes(t.r);
          if a > |l| {
            assert s[a] == r[a - |l| - 1];
          }
        }
      }
    }
  }

  /** The place of the j-th node in order. */
  lemma FindPlace(m: Mem, root: Ref, t: Tree, j: nat) returns (c: Path, s: Tree)
    requires Wired(m, t, root, NULL, 0) && Distinct(t) && Balanced(t) && j < |InOrder(t)|
    ensures Plug(c, s) == t && Sides(c) && s.Node? && s.n == InOrder(t)[j] && s.n != NULL
            && Stands(m, root, c, s, s.n, Height(s))
    ensures InOrder(t) == Before(c) + InOrder(s) + After(c) && j == |Before(c)| + |InOrder(s.l)|
    ensures InOrder(s) == InOrder(s.l) + [s.n] + InOrder(s.r)
  {
    hide Height, Wired, WiredPath, Balanced, PathDistinct, PathBalanced, InPlace;
    OrderDistinct(t);
    c, s := Focus(t, InOrder(t)[j], Top);
    InOrderPlug(c, s);
    assert InOrder(t)[|Before(c)| + |InOrder(s.l)|] == s.n;
    DistinctUnplug(c, s);
    var x := Opened(m, root, c, s);
  }

  // ---- neighbours in order

  /** Subtree s ends just before the j-th node (side 0), or begins just after it (side 1). */
  ghost predicate Adjoins(c: Path, s: Tree, side: int, order: seq<Ref>, j: nat)
    requires j < |order|
  {
    if side == 0 then Before(c) + InOrder(s) == order[..j] else InOrder(s) + After(c) == order[j + 1..]
  }

  /** So does its part on the other side. */
  lemma AdjoinsDown(c: Path, s: Tree, side: int, order: seq<Ref>, j: nat)
    requires (side == 0 || side == 1) && s.Node? && j < |order| && Adjoins(c, s, side, order, j)
    ensures Adjoins(Frame(1 - side, s.n, Side(s, side), c), Side(s, 1 - side), side, order, j)
    ensures Side(s, 1 - side) == Leaf && side == 0 ==> j > 0 && order[j - 1] == s.n
    ensures Side(s, 1 - side) == Leaf && side == 1 ==> j + 1 < |order| && order[j + 1] == s.n
  {
    if side == 0 {
      assert Before(c) + InOrder(s) == Before(c) + InOrder(s.l) + [s.n] + InOrder(s.r);
      if s.r == Leaf {
        assert order[..j] == Before(c) + InOrder(s.l) + [s.n];
      }
    } else {
      assert InOrder(s) + After(c) == InOrder(s.l) + ([s.n] + InOrder(s.r) + After(c));
      if s.l == Leaf {
        assert order[j + 1..] == [s.n] + InOrder(s.r) + After(c);
      }
    }
  }

  /** The subtree on that side of the j-th node adjoins it. */
  lemma AdjoinsFirst(c: Path, s: Tree, side: int, order: seq<Ref>, j: nat)
    requires (side == 0 || side == 1) && s.Node? && order == Before(c) + InOrder(s) + After(c)
    requires j == |Before(c)| + |InOrder(s.l)| && j < |order|
    ensures Adjoins(Frame(side, s.n, Side(s, 1 - side), c), Side(s, side), side, order, j)
    ensures Side(s, side) == Leaf ==> Edge(c, side, order, j)
  {
    var a, b := Before(c) + InOrder(s.l), InOrder(s.r) + After(c);
    Regroup(Before(c), InOrder(s.l), s.n, InOrder(s.r), After(c));
    Cut(a, s.n, b);
    if Side(s, side) == Leaf {
      assert Before(c) + [] == Before(c) && [] + After(c) == After(c);
    }
  }

  lemma Regroup(a: seq<Ref>, l: seq<Ref>, n: Ref, r: seq<Ref>, b: seq<Ref>)
    ensures a + (l + [n] + r) + b == (a + l) + [n] + (r + b)
  {
  }

  lemma Cut(a: seq<Ref>, n: Ref, b: seq<Ref>)
    ensures (a + [n] + b)[..|a|] == a && (a + [n] + b)[|a| + 1..] == b
  {
  }

  /** Everything before (side 0) or after (side 1) the j-th node is above the place. */
  ghost predicate Edge(c: Path, side: int, order: seq<Ref>, j: nat)
    requires j < |order|
  {
    if side == 0 then Before(c) == order[..j] else After(c) == order[j + 1..]
  }

  lemma EdgeUp(c: Path, side: int, order: seq<Ref>, j: nat)
    requires (side == 0 || side == 1) && j < |order| && Edge(c, side, order, j) && Sides(c)
    ensures c.Frame? && c.i == side ==> Edge(c.up, side, order, j)
    ensures c.Frame? && c.i != side && side == 0 ==> j > 0 && order[j - 1] == c.n
    ensures c.Frame? && c.i != side && side == 1 ==> j + 1 < |order| && order[j + 1] == c.n
    ensures c.Top? && side == 0 ==> j == 0
    ensures c.Top? && side == 1 ==> j + 1 == |order|
  {
    if c.Frame? && c.i != side && side == 1 {
      assert order[j + 1] == order[j + 1..][0];
    }
  }

  // ---- taking out a node with at most one child

  /** The subtree on side i of the node takes the node's place. */
  lemma Unlinked(m: Mem, m': Mem, root: Ref, root': Ref, c: Path, s: Tree, del: Ref, i: int)
    requires Stands(m, root, c, s, del, Height(s)) && s.Node? && (i == 0 || i == 1) && Side(s, 1 - i) == Leaf
             && Sides(c)
    requires del in m && ChangedOnly(m, m', {Child(m[del], i), UpNode(c)})
    requires Child(m[del], i) != NULL ==>
               Child(m[del], i) in m
                   && m'[Child(m[del], i)] == m[Child(m[del], i)].(parent := m[del].parent, idx := m[del].idx)
    requires if c.Top? then root' == Child(m[del], i)
             else root' == root && c.n in m && m'[c.n] == WithChild(m[c.n], c.i, Child(m[del], i))
    ensures Stands(m', root', c, Side(s, i), Child(m[del], i), Height(s)) && Height(s) == 1 + Height(Side(s, i))
  {
    hide InOrder, PathBalanced;
    var x, t := Child(m[del], i), Side(s, i);
    assert Below(m, s, del);
    assert Wired(m, s.l, m[del].c0, del, 0) && Wired(m, s.r, m[del].c1, del, 1);
    TreeInMemory(m, t, x);
    PathApart(c, Nodes(s));
    NullFree(s);
    if t.Node? {
      RootApart(t);
      UntouchedSame(m, m', {x, UpNode(c)}, Nodes(t.l) + Nodes(t.r));
    }
    Rewire(m, m', t, x, UpNode(c), m[del].idx);
    assert ChangedOnly(m, m', Nodes(s) + {UpNode(c)});
    PathKept(m, m', root, root', c, del, x, Height(s), Nodes(s));
    PathFits(c, Nodes(s), Nodes(t));
    assert c.Frame? ==> c.n != NULL;
  }

  /** The order loses just that node. */
  lemma {:induction false} UnlinkedOrder(c: Path, s: Tree, i: int, order: seq<Ref>, k: nat)
    requires s.Node? && (i == 0 || i == 1) && Side(s, 1 - i) == Leaf
    requires order == Before(c) + InOrder(s) + After(c) && k == |Before(c)| + |InOrder(s.l)| && k < |order|
    ensures InOrder(Plug(c, Side(s, i))) == order[..k] + order[k + 1..]
  {
    hide Plug, Before, After;
    InOrderPlug(c, Side(s, i));
    Regroup(Before(c), InOrder(s.l), s.n, InOrder(s.r), After(c));
    Cut(Before(c) + InOrder(s.l), s.n, InOrder(s.r) + After(c));
    assert InOrder(Leaf) == [];
  }
}
