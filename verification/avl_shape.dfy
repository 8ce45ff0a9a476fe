/** Shapes of AVL trees: heights, in-order sequences, and the path from a place in a tree
    up to its root (avl_tree.c). Nodes are named by their addresses. */
module AvlShape {

  type Ref = nat

  const NULL: Ref := 0

  datatype Tree = Leaf | Node(l: Tree, n: Ref, r: Tree)

  ghost function Height(t: Tree): nat
  {
    if t.Leaf? then 0 else 1 + Max(Height(t.l), Height(t.r))
  }

  function Max(a: int, b: int): int
  {
    if a < b then b else a
  }

  ghost function InOrder(t: Tree): seq<Ref>
  {
    if t.Leaf? then [] else InOrder(t.l) + [t.n] + InOrder(t.r)
  }

  ghost function Nodes(t: Tree): set<Ref>
  {
    if t.Leaf? then {} else Nodes(t.l) + {t.n} + Nodes(t.r)
  }

  /** No address occurs twice, and none is NULL. */
  ghost predicate Distinct(t: Tree)
  {
    t.Node? ==>
      && t.n != NULL && Distinct(t.l) && Distinct(t.r)
      && t.n !in Nodes(t.l) + Nodes(t.r) && Nodes(t.l) !! Nodes(t.r)
  }

  lemma {:induction false} NullFree(t: Tree)
    requires Distinct(t)
    ensures NULL !in Nodes(t)
  {
    if t.Node? {
      NullFree(t.l);
      NullFree(t.r);
    }
  }

  /** Height of the right subtree less that of the left one. */
  ghost function Tilt(t: Tree): int
  {
    if t.Leaf? then 0 else Height(t.r) - Height(t.l)
  }

  ghost predicate Balanced(t: Tree)
  {
    t.Node? ==> Balanced(t.l) && Balanced(t.r) && -1 <= Tilt(t) <= 1
  }

  /** A node with subtree s on side i and o on the other. */
  function Mk(i: int, s: Tree, n: Ref, o: Tree): Tree
  {
    if i == 0 then Node(s, n, o) else Node(o, n, s)
  }

  function Side(t: Tree, i: int): Tree
    requires t.Node?
  {
    if i == 0 then t.l else t.r
  }

  // ---- height is logarithmic

  ghost function Fib(n: nat): nat
  {
    if n < 2 then n else Fib(n - 1) + Fib(n - 2)
  }

  ghost function Size(t: Tree): nat
  {
    |InOrder(t)|
  }

  lemma SizeIsOrder(t: Tree)
    ensures Size(t) == |InOrder(t)|
  {
  }

  lemma LeafEmpty()
    ensures Height(Leaf) == 0 && Nodes(Leaf) == {} && InOrder(Leaf) == []
  {
  }

  lemma InOrderNode(s: Tree)
    requires s.Node?
    ensures InOrder(s) == InOrder(s.l) + [s.n] + InOrder(s.r)
  {
  }

  lemma {:induction false} FibMono(m: nat, n: nat)
    requires m <= n
    ensures Fib(m) <= Fib(n)
    decreases n - m
  {
    if m < n {
      FibMono(m + 1, n);
      if m >= 1 {
        assert Fib(m + 1) == Fib(m) + Fib(m - 1);
      }
    }
  }

  /** A balanced tree of height h has at least Fib(h + 2) - 1 nodes. */
  lemma {:induction false} HeightBound(t: Tree)
    requires Balanced(t)
    ensures Fib(Height(t) + 2) <= Size(t) + 1
  {
    if t.Node? {
      HeightBound(t.l);
      HeightBound(t.r);
      var h := Height(t);
      FibMono(h, Height(t.l) + 2);
      FibMono(h, Height(t.r) + 2);
      assert Fib(h + 2) == Fib(h + 1) + Fib(h);
    }
  }

  // ---- a place in a tree

  /** The path from a place up to the root. In a Frame the place is child i of n, and sib
      is the other subtree of n. */
  datatype Path = Top | Frame(i: int, n: Ref, sib: Tree, up: Path)

  ghost function Plug(c: Path, t: Tree): Tree
    decreases c
  {
    match c
    case Top => t
    case Frame(i, n, sib, up) => Plug(up, Mk(i, t, n, sib))
  }

  ghost function Before(c: Path): seq<Ref>
  {
    match c
    case Top => []
    case Frame(i, n, sib, up) => if i == 0 then Before(up) else Before(up) + InOrder(sib) + [n]
  }

  ghost function After(c: Path): seq<Ref>
  {
    match c
    case Top => []
    case Frame(i, n, sib, up) => if i == 0 then [n] + InOrder(sib) + After(up) else After(up)
  }

  lemma {:induction false} InOrderPlug(c: Path, t: Tree)
    ensures InOrder(Plug(c, t)) == Before(c) + InOrder(t) + After(c)
    decreases c
  {
    if c.Frame? {
      InOrderPlug(c.up, Mk(c.i, t, c.n, c.sib));
    }
  }

  ghost function PathNodes(c: Path): set<Ref>
  {
    match c
    case Top => {}
    case Frame(_, n, sib, up) => {n} + Nodes(sib) + PathNodes(up)
  }

  /** The path holds no address twice, and none of those in ns. */
  ghost predicate PathDistinct(c: Path, ns: set<Ref>)
    decreases c
  {
    match c
    case Top => true
    case Frame(i, n, sib, up) =>
      && (i == 0 || i == 1) && n != NULL && Distinct(sib)
      && n !in ns && n !in Nodes(sib) && Nodes(sib) !! ns
      && PathDistinct(up, ns + {n} + Nodes(sib))
  }

  lemma FrameNotNull(c: Path, ns: set<Ref>)
    requires PathDistinct(c, ns) && c.Frame?
    ensures c.n != NULL
  {
  }

  ghost predicate PathBalanced(c: Path, h: int)
    decreases c
  {
    match c
    case Top => true
    case Frame(_, _, sib, up) =>
      Balanced(sib) && -1 <= Height(sib) - h <= 1 && PathBalanced(up, 1 + Max(h, Height(sib)))
  }

  lemma {:induction false} NodesPlug(c: Path, t: Tree)
    ensures Nodes(Plug(c, t)) == Nodes(t) + PathNodes(c)
    decreases c
  {
    if c.Frame? {
      NodesPlug(c.up, Mk(c.i, t, c.n, c.sib));
    }
  }

  lemma {:induction false} DistinctPlug(c: Path, t: Tree)
    requires Distinct(t) && PathDistinct(c, Nodes(t))
    ensures Distinct(Plug(c, t))
    decreases c
  {
    if c.Frame? {
      var u := Mk(c.i, t, c.n, c.sib);
      assert Nodes(u) == Nodes(t) + {c.n} + Nodes(c.sib);
      DistinctPlug(c.up, u);
    }
  }

  lemma {:induction false} DistinctUnplug(c: Path, t: Tree)
    requires Distinct(Plug(c, t)) && Sides(c)
    ensures Distinct(t) && PathDistinct(c, Nodes(t))
    decreases c
  {
    if c.Frame? {
      var u := Mk(c.i, t, c.n, c.sib);
      assert Nodes(u) == Nodes(t) + {c.n} + Nodes(c.sib);
      DistinctUnplug(c.up, u);
    }
  }

  ghost predicate Sides(c: Path)
  {
    c.Frame? ==> (c.i == 0 || c.i == 1) && Sides(c.up)
  }

  lemma {:induction false} BalancedPlug(c: Path, t: Tree)
    requires Balanced(t) && PathBalanced(c, Height(t))
    ensures Balanced(Plug(c, t))
    decreases c
  {
    if c.Frame? {
      BalancedPlug(c.up, Mk(c.i, t, c.n, c.sib));
    }
  }

  lemma {:induction false} BalancedUnplug(c: Path, t: Tree)
    requires Balanced(Plug(c, t))
    ensures Balanced(t) && PathBalanced(c, Height(t))
    decreases c
  {
    if c.Frame? {
      BalancedUnplug(c.up, Mk(c.i, t, c.n, c.sib));
    }
  }

  /** Every node of a tree is at the end of some path. */
  lemma {:induction false} Focus(t: Tree, n: Ref, c: Path) returns (c': Path, s: Tree)
    requires n in Nodes(t) && Sides(c)
    ensures Plug(c', s) == Plug(c, t) && s.Node? && s.n == n && Sides(c')
    decreases t
  {
    if n == t.n {
      c', s := c, t;
    } else if n in Nodes(t.l) {
      c', s := Focus(t.l, n, Frame(0, t.n, t.r, c));
    } else {
      c', s := Focus(t.r, n, Frame(1, t.n, t.l, c));
    }
  }

  lemma {:induction false} InOrderNodes(t: Tree, n: Ref)
    ensures n in InOrder(t) <==> n in Nodes(t)
  {
    if t.Node? {
      InOrderNodes(t.l, n);
      InOrderNodes(t.r, n);
    }
  }
}
