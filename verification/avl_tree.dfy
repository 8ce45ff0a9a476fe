/** The AVL tree with parent links (avl_tree.c). The tree stands for a sequence of nodes,
    its in-order traversal; the operations are specified on that sequence. */
module AvlTrees {
  import opened AvlShape
  import opened AvlMemory
  import opened AvlRotation
  import opened AvlRewire
  import opened AvlClimb
  import opened AvlRename

  /** d never rises along s: first the nodes before the value sought, last those after it. */
  ghost predicate Directed(d: Ref -> int, s: seq<Ref>)
  {
    forall a, b :: 0 <= a < b < |s| ==> Sign(d(s[a])) >= Sign(d(s[b]))
  }

  function Sign(x: int): int
  {
    if x < 0 then -1 else if x > 0 then 1 else 0
  }

  /** Exactly the first k nodes of s come before the value sought, and the others after it. */
  ghost predicate Splits(d: Ref -> int, s: seq<Ref>, k: nat)
  {
    && k <= |s| && (forall j :: 0 <= j < k ==> d(s[j]) > 0) && (forall j :: k <= j < |s| ==> d(s[j]) < 0)
  }

  class AvlTree {
    var mem: Mem
    var root: Ref
    var numnodes: nat
    ghost var t: Tree

    ghost predicate Valid()
      reads this
    {
      Wired(mem, t, root, NULL, 0) && Distinct(t) && Balanced(t) && numnodes == Size(t)
    }

    /** The nodes of the tree in order. */
    ghost function Order(): seq<Ref>
      reads this
    {
      InOrder(t)
    }

    constructor ()
      ensures Valid() && Order() == [] && fresh(this)
    {
      mem, root, numnodes := map[], NULL, 0;
      t := Leaf;
    }

    /** Make x, if there is one, child i of p. */
    method Adopt(x: Ref, p: Ref, i: int)
      requires x != NULL ==> x in mem
      modifies this`mem
      ensures mem == Adopted(old(mem), x, p, i)
    {
      if x != NULL {
        mem := mem[x := mem[x].(parent := p, idx := i)];
      }
    }

    /** Put x below parent, or at the root. */
    method Relink(parent: Ref, which: int, x: Ref)
      requires parent != NULL ==> parent in mem
      modifies this`mem, this`root
      ensures mem == Relinked(old(mem), parent, which, x) && root == if parent == NULL then x else old(root)
    {
      if parent != NULL {
        mem := mem[parent := WithChild(mem[parent], which, x)];
      } else {
        root := x;
      }
    }

    /** Case 1: the high child is not heavy on the inner side. */
    method RotateOnce(node: Ref, left: int, child: Ref,
                      ghost c: Path, ghost a: Tree, ghost b: Tree, ghost o: Tree, ghost h: int)
      returns (shorter: bool)
      requires Unbalanced(mem, root, c, node, left, Mk(left, a, child, b), o, h)
      requires Tilt(Mk(left, a, child, b)) != Low(left) && child == Child(mem[node], left)
      modifies this`mem, this`root
      ensures var nt := Mk(left, a, child, Mk(1 - left, o, node, b));
              && InPlace(mem, root, c, nt, child, h) && mem.Keys == old(mem.Keys)
              && InOrder(nt) == InOrder(Mk(left, Mk(left, a, child, b), node, o))
              && Nodes(nt) == Nodes(Mk(left, Mk(left, a, child, b), node, o))
              && Height(nt) == Height(o) + (if shorter then 2 else 3)
    {
      hide Unbalanced, Wired, Below, WiredPath, InPlace, Nodes, Height, InOrder;
      ghost var m, top := mem, root;
      RotationCells(mem, root, c, node, left, a, child, b, o, h);
      RootOf(mem, b, Child(mem[child], 1 - left), child, 1 - left);
      var right := 1 - left;
      var parent, which := mem[node].parent, mem[node].idx;
      var bal := mem[child].bal + Low(left);
      var cright := Child(mem[child], right);
      // the inner grandchild changes sides
      if cright != NULL {
        mem := mem[cright := mem[cright].(parent := node, idx := left)];
      }
      // the old top goes below the new one
      mem := mem[node := WithChild(mem[node], left, cright).(bal := -bal, idx := right, parent := child)];
      // the new top takes the old one's place
      mem := mem[child := WithChild(mem[child], right, node).(bal := bal, idx := which, parent := parent)];
      if parent != NULL {
        mem := mem[parent := WithChild(mem[parent], which, child)];
      } else {
        root := child;
      }
      shorter := bal == 0;
      assert RotatedOnce(m, mem, top, root, c, node, left, child, bal);
      RotatedOnceDone(m, mem, top, root, c, node, left, a, child, b, o, h, bal);
    }

    /** The updates of case 2 below the grandchild: its children move to node and child,
        which take their new balances and links. */
    method LowerBoth(node: Ref, left: int, child: Ref, g: Ref, ghost c: Path)
      requires (left == 0 || left == 1) && Cells(mem, c, node, left, child) && InnerCells(mem, c, node, left, child, g)
      requires InnerRoots(mem, c, node, left, child, g)
      modifies this`mem
      ensures mem ==
              Adopted(Adopted(old(mem), Child(old(mem)[g], 1 - left), node, left), Child(old(mem)[g], left), child,
                  1 - left)
                       [child := LoweredChild(old(mem), left, child, g)][node := LoweredNode(old(mem), left, node, g)]
      ensures g in mem && mem[g] == old(mem)[g] && mem.Keys == old(mem).Keys
    {
      hide Child, WithChild, Low, Adopted;
      ghost var m := mem;
      var right := 1 - left;
      var balance := mem[g].bal;
      var gleft, gright := Child(mem[g], left), Child(mem[g], right);
      // the grandchild hands its two children down
      TwoAdopted(m, gright, node, left, gleft, child, right);
      Adopt(gright, node, left);
      AdoptedKeys(m, gright, node, left);
      Adopt(gleft, child, right);
      assert mem[child] == m[child] && mem[node] == m[node] && mem[g] == m[g];
      // child and node become the children of the grandchild
      mem := mem[child := WithChild(mem[child], right, gleft)
                            .(bal := if balance == Low(left) then -Low(left) else 0, parent := g, idx := left)];
      mem := mem[node := WithChild(mem[node], left, gright)
                           .(bal := if balance == -Low(left) then Low(left) else 0, parent := g, idx := right)];
    }

    /** The pointer and balance updates of case 2. */
    method RaiseGrandchild(node: Ref, left: int, child: Ref, g: Ref, ghost c: Path)
      requires (left == 0 || left == 1) && Cells(mem, c, node, left, child) && InnerCells(mem, c, node, left, child, g)
      requires InnerRoots(mem, c, node, left, child, g)
      modifies this`mem, this`root
      ensures RotatedTwice(old(mem), mem, old(root), root, c, node, left, child, g) && mem.Keys == old(mem.Keys)
    {
      hide Child, WithChild, Low, RotatedTwice, Adopted, Relinked, LoweredChild, LoweredNode;
      ghost var m, top := mem, root;
      var parent, which := mem[node].parent, mem[node].idx;
      AdoptedKeys(m, Child(m[g], 1 - left), node, left);
      ghost var m2 := Adopted(Adopted(m, Child(m[g], 1 - left), node, left), Child(m[g], left), child, 1 - left);
      TwoAdopted(m, Child(m[g], 1 - left), node, left, Child(m[g], left), child, 1 - left);
      LowerBoth(node, left, child, g, c);
      mem := mem[g := WithChild(WithChild(mem[g], left, child), 1 - left, node).(bal := 0, parent := parent,
          idx := which)];
      ghost var m5 := mem;
      ThreeWritten(m2, child, LoweredChild(m, left, child, g), node, LoweredNode(m, left, node, g),
                   g, RaisedCell(m, left, node, child, g));
      Relink(parent, which, g);
      Raised(m, m2, m5, mem, top, root, c, node, left, child, g);
    }

    /** Case 2: the high child is heavy on the inner side; the grandchild comes up. */
    method RotateTwice(node: Ref, left: int, child: Ref, g: Ref,
                       ghost c: Path, ghost a: Tree, ghost gi: Tree, ghost go: Tree, ghost o: Tree, ghost h: int)
      requires Unbalanced(mem, root, c, node, left, Mk(left, a, child, Mk(left, gi, g, go)), o, h)
      requires Tilt(Mk(left, a, child, Mk(left, gi, g, go))) == Low(left)
      requires child == Child(mem[node], left) && child in mem && g == Child(mem[child], 1 - left)
      modifies this`mem, this`root
      ensures var nt := Mk(left, Mk(left, a, child, gi), g, Mk(1 - left, o, node, go));
              var t := Mk(left, Mk(left, a, child, Mk(left, gi, g, go)), node, o);
              && InPlace(mem, root, c, nt, g, h) && mem.Keys == old(mem.Keys)
              && InOrder(nt) == InOrder(t) && Nodes(nt) == Nodes(t) && Height(nt) == Height(o) + 2
    {
      hide Unbalanced, Wired, Below, WiredPath, InPlace, Nodes, Height, InOrder, Tilt, Balanced, Distinct,
        ChangedOnly, Child, WithChild, Low, Mk;
      ghost var m, top := mem, root;
      DoubleCells(mem, root, c, node, left, a, child, gi, g, go, o, h);
      DoubleRoots(mem, root, c, node, left, a, child, gi, g, go, o, h);
      RaiseGrandchild(node, left, child, g, c);
      RotatedTwiceDone(m, mem, top, root, c, node, left, a, child, gi, g, go, o, h);
    }

    /** Restore the balance of node, whose balance would be `balance`. */
    method Rotation(node: Ref, balance: int, ghost c: Path, ghost s: Tree, ghost o: Tree, ghost h: int)
      returns (shorter: bool, ghost nt: Tree, ghost x: Ref)
      requires balance == -2 || balance == 2
      requires Unbalanced(mem, root, c, node, if balance < 0 then 0 else 1, s, o, h) && PathBalanced(c, h)
      modifies this`mem, this`root
      ensures Stands(mem, root, c, nt, x, h) && mem.Keys == old(mem.Keys)
      ensures InOrder(nt) == InOrder(Mk(if balance < 0 then 0 else 1, s, node, o))
      ensures Height(nt) == Height(o) + (if shorter then 2 else 3)
      ensures shorter || Tilt(s) == 0
    {
      hide WiredPath, InOrder, Nodes, PathBalanced, PathDistinct;
      var left := if balance < 0 then 0 else 1;
      assert s.Node?;
      var child := Child(mem[node], left);
      ghost var a, b := Side(s, left), Side(s, 1 - left);
      RotationCells(mem, root, c, node, left, a, s.n, b, o, h);
      if mem[child].bal != Low(left) {
        shorter := RotateOnce(node, left, child, c, a, b, o, h);
        nt, x := Mk(left, a, child, Mk(1 - left, o, node, b)), child;
        Single(left, a, child, b, node, o);
      } else {
        assert b.Node?;
        ghost var gi, go := Side(b, left), Side(b, 1 - left);
        assert b == Mk(left, gi, b.n, go);
        var g := Child(mem[child], 1 - left);
        TreeInMemory(mem, b, g);
        RotateTwice(node, left, child, g, c, a, gi, go, o, h);
        nt, x, shorter := Mk(left, Mk(left, a, child, gi), g, Mk(1 - left, o, node, go)), g, true;
      }
    }

    // ---- insertion

    /** p and i (the avl_tree_index_t) name the empty place that comes after the first k
        nodes in order. */
    ghost predicate Hole(p: Ref, i: int, k: nat)
      reads this
    {
      exists c :: HoleAt(c, p, i, k)
    }

    ghost predicate HoleAt(c: Path, p: Ref, i: int, k: nat)
      reads this
    {
      Plug(c, Leaf) == t && Sides(c) && p == UpNode(c) && (c.Frame? ==> i == c.i) && |Before(c)| == k
    }

    lemma HoleBeside(c: Path, left: int, j: nat)
      requires Plug(c, Leaf) == t && Sides(c) && c.Frame? && c.i == 1 - left && (left == 0 || left == 1)
      requires j < |Order()| && Adjoins(c, Leaf, left, Order(), j)
      ensures Hole(c.n, 1 - left, if left == 0 then j else j + 1)
    {
      InOrderPlug(c, Leaf);
      assert HoleAt(c, c.n, 1 - left, if left == 0 then j else j + 1);
    }

    /** The empty child of the j-th node itself. */
    lemma AtNode(c: Path, side: int, j: nat)
      requires Plug(c, Leaf) == t && Sides(c) && c.Frame? && c.i == side && j < |Order()|
               && Adjoins(c, Leaf, side, Order(), j)
      ensures Hole(c.n, side, j + side)
    {
      InOrderPlug(c, Leaf);
      assert HoleAt(c, c.n, side, j + side);
    }

    /** An empty place is below the node before it or the node after it. */
    lemma HoleNeighbour(p: Ref, i: int, k: nat)
      requires Valid() && Hole(p, i, k)
      ensures k <= |Order()| && (p == NULL <==> Order() == [])
      ensures p != NULL ==> (i == 0 && k < |Order()| && Order()[k] == p) || (i == 1 && k > 0 && Order()[k - 1] == p)
    {
      var c :| HoleAt(c, p, i, k);
      InOrderPlug(c, Leaf);
      DistinctUnplug(c, Leaf);
    }

    /** Insert node at the place (parent, which). */
    method Insert(node: Ref, parent: Ref, which: int, ghost k: nat)
      requires Valid() && node != NULL && node !in Order() && Hole(parent, which, k)
      modifies this
      ensures Valid() && k <= |old(Order())| && Order() == old(Order()[..k]) + [node] + old(Order()[k..])
    {
      hide WiredPath, InOrder, Nodes, PathBalanced, PathDistinct, Distinct, Balanced, Wired, Below, Height, Size;
      ghost var c: Path :| HoleAt(c, parent, which, k);
      AddLeaf(node, parent, which, k, c);
      ghost var target := old(Order()[..k]) + [node] + old(Order()[k..]);
      ghost var s, x, h := Node(Leaf, node, Leaf), node, 0;
      LeafSize(node);
      var n, w, balance := parent, which, 0;
      while true
        invariant Stands(mem, root, c, s, x, h) && Height(s) == h + 1 && (h == 0 || Tilt(s) != 0)
        invariant InOrder(Plug(c, s)) == target && numnodes == |target|
        invariant n == UpNode(c) && (n == NULL <==> c.Top?) && (c.Frame? ==> w == c.i)
        decreases c
      {
        if n == NULL {
          Settled(mem, root, c, s, x, h);
          t := Plug(c, s);
          SizeIsOrder(t);
          return;
        }
        StoredBalance(mem, root, c, s, x, h);
        var oldBalance := mem[n].bal;
        balance := oldBalance + (if w == 0 then -1 else 1);
        if balance == 0 {
          Absorbed(mem, mem[n := mem[n].(bal := 0)], root, c, s, x, h);
          mem := mem[n := mem[n].(bal := 0)];
          Settled(mem, root, c.up, Joined(c, s), n, HeightAbove(c, h));
          t := Plug(c.up, Joined(c, s));
          SizeIsOrder(t);
          return;
        }
        if oldBalance != 0 {
          break;
        }
        Absorbed(mem, mem[n := mem[n].(bal := balance)], root, c, s, x, h);
        mem := mem[n := mem[n].(bal := balance)];
        s, x, h, c := Joined(c, s), n, HeightAbove(c, h), c.up;
        w := mem[n].idx;
        n := mem[n].parent;
      }
      Leaning(mem, root, c, s, x, h);
      ghost var shorter, nt, y;
      shorter, nt, y := Rotation(n, balance, c.up, s, c.sib, HeightAbove(c, h));
      Settled(mem, root, c.up, nt, y, HeightAbove(c, h));
      InOrderPlug(c.up, nt);
      InOrderPlug(c.up, Joined(c, s));
      t := Plug(c.up, nt);
      SizeIsOrder(t);
    }

    /** Hang a new leaf into the hole that the search ended in. */
    method AddLeaf(node: Ref, parent: Ref, which: int, ghost k: nat, ghost c: Path)
      requires Valid() && node != NULL && node !in Order() && HoleAt(c, parent, which, k)
      modifies this
      ensures Stands(mem, root, c, Node(Leaf, node, Leaf), node, 0)
      ensures k <= |old(Order())|
      ensures InOrder(Plug(c, Node(Leaf, node, Leaf))) == old(Order()[..k]) + [node] + old(Order()[k..])
      ensures numnodes == |old(Order())| + 1 && (parent == NULL <==> c.Top?)
    {
      hide WiredPath, Nodes, PathBalanced, PathDistinct, Distinct, Balanced, Wired, Below, Height;
      ghost var m, top, s := mem, root, Node(Leaf, node, Leaf);
      InOrderNodes(t, node);
      InOrderPlug(c, Leaf);
      InOrderPlug(c, s);
      ghost var x := Opened(mem, root, c, Leaf);
      if c.Frame? {
        LeafEmpty();
        StoredBalance(mem, root, c, Leaf, x, 0);
      }
      numnodes := numnodes + 1;
      mem := mem[node := Cell(NULL, NULL, parent, which, 0)];
      if parent != NULL {
        mem := mem[parent := WithChild(mem[parent], which, node)];
      } else {
        root := node;
      }
      LeafAdded(m, mem, top, root, c, node, which) by {
        NodesPlug(c, Leaf);
      }
    }

    // ---- search

    /** Search for a node that the comparison d (positive: the value sought comes after the
        node) finds equal; otherwise report the place where it belongs. */
    method Find(d: Ref -> int) returns (found: Ref, p: Ref, i: int, ghost k: nat)
      requires Valid() && Directed(d, Order())
      ensures found != NULL ==> found in Order() && d(found) == 0
      ensures found == NULL ==> Hole(p, i, k) && Splits(d, Order(), k)
    {
      hide WiredPath, InOrder, Nodes, PathBalanced, PathDistinct, Distinct, Balanced, Wired, Below, Height;
      var node := root;
      p, i, k := NULL, 0, 0;
      ghost var c, s := Top, t;
      WholeStands(mem, root, t);
      while node != NULL
        invariant Plug(c, s) == t && Sides(c) && Stands(mem, root, c, s, node, Height(s))
        invariant p == UpNode(c) && (c.Frame? ==> i == c.i)
        invariant InOrder(t) == Before(c) + InOrder(s) + After(c)
        invariant forall n :: n in Before(c) ==> d(n) > 0
        invariant forall n :: n in After(c) ==> d(n) < 0
        decreases s
      {
        p := node;
        EnterNode(mem, root, c, s, node, if d(node) < 0 then 0 else 1);
        if d(node) == 0 {
          return node, p, i, k;
        }
        i := if d(node) < 0 then 0 else 1;
        SteppedDown(d, c, s, i);
        c, s := Frame(i, node, Side(s, 1 - i), c), Side(s, i);
        node := Child(mem[node], i);
      }
      EmptyPlace(mem, root, c, s, Height(s));
      k := |Before(c)|;
      assert HoleAt(c, p, i, k);
      return NULL, p, i, k;
    }

    /** Add a node unless one that compares equal is present. */
    method Add(node: Ref, d: Ref -> int) returns (added: bool, ghost k: nat)
      requires Valid() && node != NULL && node !in Order() && Directed(d, Order())
      modifies this
      ensures Valid()
      ensures added <==> forall n :: n in old(Order()) ==> d(n) != 0
      ensures added ==> Splits(d, old(Order()), k) && Order() == old(Order()[..k]) + [node] + old(Order()[k..])
      ensures !added ==> Order() == old(Order())
    {
      hide Wired, Balanced, Distinct, InOrder;
      var found, p, i;
      found, p, i, k := Find(d);
      added := found == NULL;
      if added {
        SplitsNonzero(d, Order(), k);
        Insert(node, p, i, k);
      }
    }

    // ---- neighbours in order

    /** Down from node, always to the side away from `left`. */
    method Farthest(start: Ref, left: int, ghost j: nat, ghost c0: Path, ghost s0: Tree) returns (node: Ref)
      requires (left == 0 || left == 1) && start != NULL && j < |Order()| && c0.Frame?
      requires Stands(mem, root, c0, s0, start, Height(s0)) && Sides(c0) && Plug(c0, s0) == t
               && Adjoins(c0, s0, left, Order(), j)
      ensures left == 0 ==> j > 0 && node == Order()[j - 1]
      ensures left == 1 ==> j + 1 < |Order()| && node == Order()[j + 1]
      ensures node in mem && node in Nodes(s0) && Child(mem[node], 1 - left) == NULL && mem[node].parent != NULL
      ensures Hole(node, 1 - left, if left == 0 then j else j + 1)
    {
      hide WiredPath, InOrder, Nodes, PathBalanced, PathDistinct, Distinct, Balanced, Wired, Below, Height, InPlace,
        Adjoins;
      node := start;
      var right := 1 - left;
      ghost var c, s := c0, s0;
      EnterNode(mem, root, c, s, node, right);
      AdjoinsDown(c, s, left, Order(), j);
      RootInside(s);
      while Child(mem[node], right) != NULL
        invariant node != NULL && node in mem && s.Node? && s.n == node
        invariant Stands(mem, root, c, s, node, Height(s)) && Sides(c) && Adjoins(c, s, left, Order(), j)
        invariant Plug(c, s) == t && c.Frame? && Nodes(s) <= Nodes(s0) && node in Nodes(s0)
        decreases s
      {
        AdjoinsDown(c, s, left, Order(), j);
        EnterNode(mem, root, c, s, node, right);
        PathNode(mem, root, c, s, node, Height(s));
        SideInside(s, right);
        c, s := Frame(right, node, Side(s, left), c), Side(s, right);
        node := Child(mem[node], right);
        EnterNode(mem, root, c, s, node, right);
        RootInside(s);
      }
      EnterNode(mem, root, c, s, node, right);
      PathNode(mem, root, c, s, node, Height(s));
      AdjoinsDown(c, s, left, Order(), j);
      ghost var c' := Frame(right, node, Side(s, left), c);
      EmptyPlace(mem, root, c', Side(s, right), Height(Side(s, right)));
      HoleBeside(c', left, j);
    }

    /** The node before (left == 0) or after (left == 1) the j-th one, or NULL. */
    method Walk(oldnode: Ref, left: int, ghost j: nat) returns (r: Ref)
      requires Valid() && (left == 0 || left == 1) && j < |Order()| && Order()[j] == oldnode
      ensures left == 0 ==> r == if j == 0 then NULL else Order()[j - 1]
      ensures left == 1 ==> r == if j + 1 == |Order()| then NULL else Order()[j + 1]
    {
      hide WiredPath, InOrder, Nodes, PathBalanced, PathDistinct, Distinct, Balanced, Wired, Below, Height, InPlace,
        Adjoins, Edge;
      var node, right := oldnode, 1 - left;
      ghost var c, s := FindPlace(mem, root, t, j);
      EnterNode(mem, root, c, s, node, left);
      AdjoinsFirst(c, s, left, Order(), j);
      if Child(mem[node], left) != NULL {
        c, s, node := Frame(left, node, Side(s, right), c), Side(s, left), Child(mem[node], left);
        r := Farthest(node, left, j, c, s);
      } else {
        EmptyPlace(mem, root, Frame(left, node, Side(s, right), c), Side(s, left), Height(Side(s, left)));
        while true
          invariant Stands(mem, root, c, s, node, Height(s)) && Sides(c) && node != NULL && node in mem
          invariant Edge(c, left, Order(), j)
          decreases c
        {
          EnterNode(mem, root, c, s, node, left);
          EdgeUp(c, left, Order(), j);
          var wasChild := mem[node].idx;
          node := mem[node].parent;
          if c.Frame? {
            GoUp(mem, root, c, s, s.n);
            PathNode(mem, root, c, s, s.n, Height(s));
          }
          if node == NULL {
            return NULL;
          }
          if wasChild == right {
            return node;
          }
          c, s := c.up, Joined(c, s);
        }
      }
    }

    /** The node just before (direction 0) or after (direction 1) an empty place. */
    method Nearest(p: Ref, i: int, direction: int, ghost k: nat) returns (r: Ref)
      requires Valid() && Hole(p, i, k) && (direction == 0 || direction == 1)
      ensures k <= |Order()|
      ensures direction == 0 ==> r == if k == 0 then NULL else Order()[k - 1]
      ensures direction == 1 ==> r == if k == |Order()| then NULL else Order()[k]
    {
      hide Wired, Distinct, Balanced, InOrder;
      HoleNeighbour(p, i, k);
      if p == NULL {
        return NULL;
      }
      if i != direction {
        return p;
      }
      r := Walk(p, direction, if i == 0 then k else k - 1);
    }

    /** The first (side 0) or last (side 1) node in order, or NULL. */
    method Extreme(side: int) returns (prev: Ref)
      requires Valid() && (side == 0 || side == 1)
      ensures prev == if |Order()| == 0 then NULL else if side == 0 then Order()[0] else Order()[|Order()| - 1]
    {
      hide WiredPath, Nodes, PathBalanced, PathDistinct, Distinct, Balanced, Wired, Below, Height, InPlace;
      var node := root;
      prev := NULL;
      ghost var c, s := Top, t;
      WholeStands(mem, root, t);
      while node != NULL
        invariant Stands(mem, root, c, s, node, Height(s)) && Sides(c) && Plug(c, s) == t
        invariant prev == UpNode(c) && (if side == 0 then Before(c) == [] else After(c) == [])
        invariant c.Frame? ==> c.i == side
        decreases s
      {
        prev := node;
        EnterNode(mem, root, c, s, node, side);
        c, s := Frame(side, node, Side(s, 1 - side), c), Side(s, side);
        node := Child(mem[node], side);
      }
      EmptyPlace(mem, root, c, s, Height(s));
      InOrderPlug(c, s);
    }

    /** Insert node just before (direction 0) or after (direction 1) the node `here`. */
    method InsertHere(node: Ref, here: Ref, direction: int, ghost j: nat)
      requires Valid() && node != NULL && node !in Order() && (direction == 0 || direction == 1)
      requires j < |Order()| && Order()[j] == here
      modifies this
      ensures Valid() && Order() == old(Order()[..j + direction]) + [node] + old(Order()[j + direction..])
    {
      hide WiredPath, InOrder, Nodes, PathBalanced, PathDistinct, Distinct, Balanced, Wired, Below, Height, InPlace,
        Adjoins, Edge;
      var p, child := here, direction;
      ghost var c, s := FindPlace(mem, root, t, j);
      EnterNode(mem, root, c, s, here, child);
      AdjoinsFirst(c, s, child, Order(), j);
      ghost var c' := Frame(child, here, Side(s, 1 - child), c);
      if Child(mem[p], child) != NULL {
        p := Farthest(Child(mem[p], child), child, j, c', Side(s, child));
        child := 1 - child;
      } else {
        EmptyPlace(mem, root, c', Side(s, child), Height(Side(s, child)));
        AtNode(c', direction, j);
      }
      Insert(node, p, child, j + direction);
    }

    // ---- removal

    /** The pointer updates of the swap. */
    method MoveUp(del: Ref, node: Ref, tmp: Ref, left: int)
      requires Swappable(mem, del, node, tmp, left)
      modifies this`mem, this`root
      ensures var top := SwapTop(old(mem), del, node, tmp, left); tmp in top && mem == SwapBottom(top, tmp)
      ensures root == if old(mem)[del].parent == NULL then node else old(root)
      ensures tmp in mem && (mem[tmp].c0 == NULL || mem[tmp].c1 == NULL)
    {
      var right := 1 - left;
      ghost var m := mem;
      SwapTopAt(m, del, node, tmp, left, tmp);
      SwappedMemAt(m, del, node, tmp, left, tmp);
      // tmp stands in for the neighbour, which takes over the links of del
      mem := mem[tmp := mem[node]];
      mem := mem[node := mem[del]];
      if Child(mem[node], left) == node {
        mem := mem[node := WithChild(mem[node], left, tmp)];
      }
      var parent := mem[node].parent;
      if parent != NULL {
        mem := mem[parent := WithChild(mem[parent], mem[node].idx, node)];
      } else {
        root := node;
      }
      var x := Child(mem[node], left);
      mem := mem[x := mem[x].(parent := node)];
      x := Child(mem[node], right);
      mem := mem[x := mem[x].(parent := node)];
      assert mem == SwapTop(m, del, node, tmp, left);
      // the cells around the neighbour's old position now name tmp
      parent := mem[tmp].parent;
      mem := mem[parent := WithChild(mem[parent], mem[tmp].idx, tmp)];
      x := Child(mem[tmp], if mem[tmp].c1 != NULL then 1 else 0);
      if x != NULL {
        mem := mem[x := mem[x].(parent := tmp)];
      }
    }

    /** Swap del, which has two children, with its neighbour on the taller side; the
        neighbour's old position goes to the placeholder cell tmp. */
    method SwapWithNeighbour(del: Ref, tmp: Ref, ghost j: nat) returns (ghost k: nat)
      requires Valid() && j < |Order()| && Order()[j] == del && tmp != NULL && tmp !in mem
      requires del in mem && mem[del].c0 != NULL && mem[del].c1 != NULL
      modifies this
      ensures Valid() && (k == j - 1 || k == j + 1) && k < |old(Order())|
      ensures Order() == old(Order())[k := tmp][j := old(Order())[k]]
      ensures tmp in mem && (mem[tmp].c0 == NULL || mem[tmp].c1 == NULL)
    {
      hide WiredPath, InOrder, Nodes, PathBalanced, PathDistinct, Distinct, Balanced, Wired, Below, Height, InPlace,
        Adjoins, Stands, SwapTop, SwapBottom;
      ghost var m, top := mem, root;
      var left := if mem[del].bal <= 0 then 0 else 1;
      var right := 1 - left;
      ghost var c, s := FindPlace(mem, root, t, j);
      EnterNode(mem, root, c, s, del, left);
      AdjoinsFirst(c, s, left, Order(), j);
      var node := Farthest(Child(mem[del], left), left, j, Frame(left, del, Side(s, right), c), Side(s, left));
      k := if left == 0 then j - 1 else j + 1;
      ghost var c', s' := FindPlace(mem, root, t, k);
      CanSwap(mem, root, t, c, s, del, c', s', node, tmp, left);
      MoveUp(del, node, tmp, left);
      t := Swapped(m, top, mem, root, t, j, k, tmp, left);
    }

    /** Take out del, the k-th node, which has at most one child, and rebalance. */
    method Unlink(del: Ref, ghost k: nat)
      requires Valid() && k < |Order()| && Order()[k] == del && del in mem
               && (mem[del].c0 == NULL || mem[del].c1 == NULL)
      modifies this
      ensures Valid() && Order() == old(Order()[..k]) + old(Order()[k + 1..])
    {
      hide WiredPath, InOrder, Nodes, PathBalanced, PathDistinct, Distinct, Balanced, Wired, Below, Height, InPlace,
        Stands;
      ghost var target := Order()[..k] + Order()[k + 1..];
      ghost var c, s := FindPlace(mem, root, t, k);
      var parent, which := mem[del].parent, mem[del].idx;
      var i := if mem[del].c0 != NULL then 0 else 1;
      var node := Child(mem[del], i);
      ghost var m, top := mem, root;
      OnlyChild(mem, root, c, s, del, i);
      UnlinkedOrder(c, s, i, Order(), k);
      numnodes := numnodes - 1;
      Adopt(node, parent, which);
      Relink(parent, which, node);
      Bypassed(m, node, parent, which);
      Unlinked(m, mem, top, root, c, s, del, i);
      ghost var h := Height(s);
      s := Side(s, i);
      if parent == NULL {
        Settled(mem, root, c, s, node, h);
        t := Plug(c, s);
        return;
      }
      Rebalance(parent, which, c, s, node, h);
    }

    /** The subtree at the place is one level lower than it was: adjust the balances above. */
    method Rebalance(start: Ref, startIdx: int, ghost c0: Path, ghost s0: Tree, ghost x0: Ref, ghost h0: int)
      requires Stands(mem, root, c0, s0, x0, h0) && Height(s0) + 1 == h0 && c0.Frame? && start == c0.n
               && startIdx == c0.i
      requires numnodes == |InOrder(Plug(c0, s0))|
      modifies this
      ensures Valid() && Order() == InOrder(Plug(c0, s0))
    {
      hide WiredPath, InOrder, Nodes, PathBalanced, PathDistinct, Distinct, Balanced, Wired, Below, Height, InPlace,
        Stands, Size;
      var parent, which := start, startIdx;
      ghost var target := InOrder(Plug(c0, s0));
      ghost var c, s, x, h := c0, s0, x0, h0;
      PathNode(mem, root, c, s, x, h);
      while parent != NULL
        invariant Stands(mem, root, c, s, x, h) && (c.Frame? ==> Height(s) + 1 == h)
        invariant InOrder(Plug(c, s)) == target && numnodes == |target|
        invariant parent == UpNode(c) && (parent == NULL <==> c.Top?) && (c.Frame? ==> which == c.i)
        decreases c
      {
        StoredBalance(mem, root, c, s, x, h);
        var node, w := parent, which;
        var oldBalance := mem[node].bal;
        var newBalance := oldBalance - (if w == 0 then -1 else 1);
        parent := mem[node].parent;
        which := mem[node].idx;
        if oldBalance == 0 {
          Absorbed(mem, mem[node := mem[node].(bal := newBalance)], root, c, s, x, h);
          mem := mem[node := mem[node].(bal := newBalance)];
          s, x, h, c := Joined(c, s), node, HeightAbove(c, h), c.up;
          break;
        }
        if newBalance == 0 {
          Absorbed(mem, mem[node := mem[node].(bal := newBalance)], root, c, s, x, h);
          mem := mem[node := mem[node].(bal := newBalance)];
          s, x, h, c := Joined(c, s), node, HeightAbove(c, h), c.up;
        } else {
          Leaning(mem, root, c, s, x, h);
          ghost var j := Joined(c, s);
          var shorter;
          shorter, s, x := Rotation(node, newBalance, c.up, c.sib, s, HeightAbove(c, h));
          InOrderPlug(c.up, s);
          InOrderPlug(c.up, j);
          h, c := HeightAbove(c, h), c.up;
          if !shorter {
            break;
          }
        }
      }
      Settled(mem, root, c, s, x, h);
      t := Plug(c, s);
      SizeIsOrder(t);
    }

    /** Remove data, if the search that d directs finds it. tmp is the address of a local
        placeholder cell. */
    method Remove(data: Ref, d: Ref -> int, tmp: Ref) returns (r: Ref, ghost j: nat)
      requires Valid() && Directed(d, Order()) && tmp != NULL && tmp !in mem
      modifies this
      ensures Valid() && (r == data || r == NULL)
      ensures r == NULL ==> Order() == old(Order())
      ensures r != NULL ==>
              j < |old(Order())| && old(Order())[j] == data && Order() == old(Order()[..j]) + old(Order()[j + 1..])
      ensures data in old(Order()) && d(data) == 0 && (forall n :: n in old(Order()) && d(n) == 0 ==> n == data) ==>
              r == data
    {
      hide InOrder, Nodes, Distinct, Balanced, Wired;
      j := 0;
      var found, p, i;
      ghost var k;
      found, p, i, k := Find(d);
      if data == NULL || found != data {
        if found == NULL {
          SplitsNonzero(d, Order(), k);
        }
        NoNull(t);
        return NULL, j;
      }
      j :| 0 <= j < |Order()| && Order()[j] == data;
      ghost var order := Order();
      InMemory(mem, root, t, data);
      if tmp in order {
        InMemory(mem, root, t, tmp);
      }
      var del := data;
      k := j;
      if mem[del].c0 != NULL && mem[del].c1 != NULL {
        k := SwapWithNeighbour(del, tmp, j);
        SwappedOut(order, j, k, tmp);
        del := tmp;
      }
      Unlink(del, k);
      assert Order() == order[..j] + order[j + 1..];
      Discarded(mem, root, t, tmp);
      mem := mem - {tmp};
      r := data;
    }
  }

  /** Having left the node on the side that d points away from. */
  lemma SteppedDown(d: Ref -> int, c: Path, s: Tree, i: int)
    requires s.Node? && Directed(d, Before(c) + InOrder(s) + After(c)) && i == (if d(s.n) < 0 then 0 else 1)
             && d(s.n) != 0
    requires forall n :: n in Before(c) ==> d(n) > 0
    requires forall n :: n in After(c) ==> d(n) < 0
    ensures var c' := Frame(i, s.n, Side(s, 1 - i), c);
            && (forall n :: n in Before(c') ==> d(n) > 0) && (forall n :: n in After(c') ==> d(n) < 0)
            && Before(c') + InOrder(Side(s, i)) + After(c') == Before(c) + InOrder(s) + After(c)
  {
    hide InOrder, Directed;
    var l, r := InOrder(s.l), InOrder(s.r);
    InOrderNode(s);
    Regroup(Before(c), l, s.n, r, After(c));
    SignsApart(d, Before(c) + l, s.n, r + After(c));
    if i == 0 {
      Regroup0(Before(c), l, s.n, r, After(c));
    } else {
      Regroup1(Before(c), l, s.n, r, After(c));
    }
  }

  lemma SignsApart(d: Ref -> int, a: seq<Ref>, n: Ref, b: seq<Ref>)
    requires Directed(d, a + [n] + b)
    ensures d(n) > 0 ==> forall x :: x in a ==> d(x) > 0
    ensures d(n) < 0 ==> forall x :: x in b ==> d(x) < 0
  {
    var all := a + [n] + b;
    assert all[|a|] == n;
    forall x | x in a && d(n) > 0 ensures d(x) > 0 {
      var j :| 0 <= j < |a| && a[j] == x;
      assert all[j] == x;
    }
    forall x | x in b && d(n) < 0 ensures d(x) < 0 {
      var j :| 0 <= j < |b| && b[j] == x;
      assert all[|a| + 1 + j] == x;
    }
  }

  lemma Regroup0(a: seq<Ref>, l: seq<Ref>, n: Ref, r: seq<Ref>, b: seq<Ref>)
    ensures a + (l + [n] + r) + b == a + l + ([n] + r + b)
  {
  }

  lemma Regroup1(a: seq<Ref>, l: seq<Ref>, n: Ref, r: seq<Ref>, b: seq<Ref>)
    ensures a + (l + [n] + r) + b == (a + l + [n]) + r + b
  {
  }

  /** The surroundings of a node with no child on side 1 - i. */
  lemma OnlyChild(m: Mem, root: Ref, c: Path, s: Tree, del: Ref, i: int)
    requires Stands(m, root, c, s, del, Height(s)) && s.Node? && Sides(c) && (i == 0 || i == 1)
    requires del in m && Child(m[del], 1 - i) == NULL
    ensures Side(s, 1 - i) == Leaf && m[del].parent == UpNode(c) && (c.Frame? ==> m[del].idx == c.i && c.n in m)
    ensures m[del].parent == NULL <==> c.Top?
    ensures Child(m[del], i) != NULL ==> Child(m[del], i) in m && Child(m[del], i) != m[del].parent
  {
    hide Stands, Height, Nodes;
    NodeLinked(m, root, c, s, del, Height(s));
    var e := Frame(1 - i, del, Side(s, i), c);
    EnterNode(m, root, c, s, del, 1 - i);
    EmptyPlace(m, root, e, Side(s, 1 - i), Height(Side(s, 1 - i)));
    SideInside(s, 0);
    SideInside(s, 1);
    if c.Frame? {
      PathNode(m, root, c, s, del, Height(s));
    }
  }

  lemma NoNull(t: Tree)
    requires Distinct(t)
    ensures NULL !in InOrder(t)
  {
    NullFree(t);
    InOrderNodes(t, NULL);
  }

  lemma InMemory(m: Mem, root: Ref, t: Tree, n: Ref)
    requires Wired(m, t, root, NULL, 0) && n in InOrder(t)
    ensures n in m
  {
    TreeInMemory(m, t, root);
    InOrderNodes(t, n);
  }

  /** The placeholder cell goes away. */
  lemma Discarded(m: Mem, root: Ref, t: Tree, tmp: Ref)
    requires Wired(m, t, root, NULL, 0) && tmp !in InOrder(t)
    ensures Wired(m - {tmp}, t, root, NULL, 0)
  {
    InOrderNodes(t, tmp);
    WiredFrame(m, m - {tmp}, t, root, NULL, 0);
  }

  lemma SwappedOut(s: seq<Ref>, j: nat, k: nat, x: Ref)
    requires j < |s| && k < |s| && (k + 1 == j || k == j + 1)
    ensures var u := s[k := x][j := s[k]]; u[..k] + u[k + 1..] == s[..j] + s[j + 1..]
  {
  }

  lemma RootInside(s: Tree)
    requires s.Node?
    ensures s.n in Nodes(s)
  {
  }

  lemma SideInside(s: Tree, i: int)
    requires s.Node?
    ensures Nodes(Side(s, i)) <= Nodes(s)
  {
  }

  lemma SplitsNonzero(d: Ref -> int, s: seq<Ref>, k: nat)
    requires Splits(d, s, k)
    ensures forall n :: n in s ==> d(n) != 0
  {
  }

  lemma PathNode(m: Mem, root: Ref, c: Path, s: Tree, x: Ref, h: int)
    requires Stands(m, root, c, s, x, h) && c.Frame?
    ensures c.n != NULL && c.n in m && (c.i == 0 || c.i == 1)
  {
  }

  lemma LeafSize(node: Ref)
    ensures Height(Node(Leaf, node, Leaf)) == 1
  {
  }
}
