/** What the two rotations of avl_tree_rotation do to a tree that is two levels out of
    balance (avl_tree.c). `i` is the side that is too high. */
module AvlRotation {
  import opened AvlShape
  import opened AvlMemory

  /** +1 when side i of a balance is the higher one's opposite: the sign of the low side. */
  function Low(i: int): int
  {
    if i == 0 then 1 else -1
  }

  /** node with s on side i, where s is two levels higher than o. */
  ghost predicate Lopsided(i: int, s: Tree, node: Ref, o: Tree)
  {
    (i == 0 || i == 1) && Balanced(s) && Balanced(o) && Height(s) == Height(o) + 2 && Distinct(Mk(i, s, node, o))
  }

  // ---- shapes

  /** The single rotation: s = (a, child, b) becomes the root, node takes b. */
  lemma Single(i: int, a: Tree, child: Ref, b: Tree, node: Ref, o: Tree)
    requires Lopsided(i, Mk(i, a, child, b), node, o) && Tilt(Mk(i, a, child, b)) != Low(i)
    ensures var k := Tilt(Mk(i, a, child, b)) + Low(i);
            var low := Mk(1 - i, o, node, b);
            var t := Mk(i, a, child, low);
            && Tilt(low) == -k && Tilt(t) == k && Balanced(t)
            && Height(t) == Height(o) + (if k == 0 then 2 else 3)
  {
  }

  lemma SingleOrder(i: int, a: Tree, child: Ref, b: Tree, node: Ref, o: Tree)
    requires (i == 0 || i == 1) && Distinct(Mk(i, Mk(i, a, child, b), node, o))
    ensures var t := Mk(i, a, child, Mk(1 - i, o, node, b)); var u := Mk(i, Mk(i, a, child, b), node, o);
            InOrder(t) == InOrder(u) && Nodes(t) == Nodes(u) && Distinct(t)
  {
  }

  /** The double rotation: the grandchild becomes the root. */
  lemma Double(i: int, a: Tree, child: Ref, gi: Tree, g: Ref, go: Tree, node: Ref, o: Tree)
    requires Lopsided(i, Mk(i, a, child, Mk(i, gi, g, go)), node, o)
    requires Tilt(Mk(i, a, child, Mk(i, gi, g, go))) == Low(i)
    ensures var k := Tilt(Mk(i, gi, g, go));
            var s := Mk(i, a, child, gi);
            var low := Mk(1 - i, o, node, go);
            var t := Mk(i, s, g, low);
            && Tilt(s) == (if k == Low(i) then -Low(i) else 0) && Tilt(low) == (if k == -Low(i) then Low(i) else 0)
            && Tilt(t) == 0 && Balanced(t) && Height(t) == Height(o) + 2
  {
    var gt := Mk(i, gi, g, go);
    assert Balanced(gt) && Height(gt) == 1 + Max(Height(gi), Height(go));
    var s, low := Mk(i, a, child, gi), Mk(1 - i, o, node, go);
    assert Balanced(s) && Height(s) == Height(o) + 1 && Balanced(low) && Height(low) == Height(o) + 1;
  }

  lemma DoubleOrder(i: int, a: Tree, child: Ref, gi: Tree, g: Ref, go: Tree, node: Ref, o: Tree)
    requires (i == 0 || i == 1) && Distinct(Mk(i, Mk(i, a, child, Mk(i, gi, g, go)), node, o))
    ensures var t := Mk(i, Mk(i, a, child, gi), g, Mk(1 - i, o, node, go));
            var u := Mk(i, Mk(i, a, child, Mk(i, gi, g, go)), node, o);
            InOrder(t) == InOrder(u) && Nodes(t) == Nodes(u) && Distinct(t)
  {
    // a single rotation of the child, then one of the node
    SingleOrder(1 - i, go, g, gi, child, a);
    SingleOrder(i, Mk(i, a, child, gi), g, go, node, o);
  }

  // ---- memory

  /** The cell x with subtree roots ci on side i and co on the other. */
  ghost predicate Holds(m: Mem, n: Ref, i: int, ci: Ref, co: Ref, p: Ref, w: int, bal: int)
  {
    n in m && Child(m[n], i) == ci && Child(m[n], 1 - i) == co && m[n].parent == p && m[n].idx == w && m[n].bal == bal
  }

  /** The root of t was given new upward links and nothing else in t changed. */
  ghost predicate Moved(m: Mem, m': Mem, t: Tree, p: Ref, i: int)
  {
    t.Node? ==>
      && t.n in m && t.n in m' && m'[t.n] == m[t.n].(parent := p, idx := i)
      && Same(m, m', Nodes(t.l) + Nodes(t.r))
  }

  lemma SingleWired(m: Mem, m': Mem, i: int, a: Tree, child: Ref, b: Tree, rb: Ref, node: Ref, o: Tree, ro: Ref,
                    p: Ref, w: int)
    requires (i == 0 || i == 1) && child != NULL && node != NULL && child in m
    requires Wired(m, a, Child(m[child], i), child, i) && Below(m, b, rb) && Wired(m, o, ro, node, 1 - i)
    requires Same(m, m', Nodes(a)) && Moved(m, m', b, node, i) && Same(m, m', Nodes(o))
    requires Holds(m', node, 1 - i, ro, rb, child, 1 - i, Tilt(Mk(1 - i, o, node, b)))
    requires Holds(m', child, i, Child(m[child], i), node, p, w, Tilt(Mk(i, a, child, Mk(1 - i, o, node, b))))
    ensures Wired(m', Mk(i, a, child, Mk(1 - i, o, node, b)), child, p, w)
  {
    WiredFrame(m, m', a, Child(m[child], i), child, i);
    Rewire(m, m', b, rb, node, i);
    WiredFrame(m, m', o, ro, node, 1 - i);
    WiredNode(m', 1 - i, o, node, b, child, 1 - i);
    WiredNode(m', i, a, child, Mk(1 - i, o, node, b), p, w);
  }

  lemma DoubleWired(m: Mem, m': Mem, i: int, a: Tree, child: Ref, gi: Tree, ri: Ref, g: Ref, go: Tree, rgo: Ref,
                    node: Ref, o: Tree, ro: Ref, p: Ref, w: int)
    requires (i == 0 || i == 1) && child != NULL && node != NULL && g != NULL && child in m
    requires Wired(m, a, Child(m[child], i), child, i) && Below(m, gi, ri) && Below(m, go, rgo)
             && Wired(m, o, ro, node, 1 - i)
    requires Same(m, m', Nodes(a)) && Moved(m, m', gi, child, 1 - i) && Moved(m, m', go, node, i)
             && Same(m, m', Nodes(o))
    requires Holds(m', child, i, Child(m[child], i), ri, g, i, Tilt(Mk(i, a, child, gi)))
    requires Holds(m', node, 1 - i, ro, rgo, g, 1 - i, Tilt(Mk(1 - i, o, node, go)))
    requires Holds(m', g, i, child, node, p, w, Tilt(Mk(i, Mk(i, a, child, gi), g, Mk(1 - i, o, node, go))))
    ensures Wired(m', Mk(i, Mk(i, a, child, gi), g, Mk(1 - i, o, node, go)), g, p, w)
  {
    WiredFrame(m, m', a, Child(m[child], i), child, i);
    Rewire(m, m', gi, ri, child, 1 - i);
    Rewire(m, m', go, rgo, node, i);
    WiredFrame(m, m', o, ro, node, 1 - i);
    WiredNode(m', i, a, child, gi, g, i);
    WiredNode(m', 1 - i, o, node, go, g, 1 - i);
    WiredNode(m', i, Mk(i, a, child, gi), g, Mk(1 - i, o, node, go), p, w);
  }
}
