/**
 SPLAY_HEAD and its operations: top-down splaying with two side trees under a dummy node, and insertion,
 removal and search on top of it.
 */
module Splay {
  import opened Sequences
  import opened SplayCost
  import opened SplayTheory

  // ---------- Keys ----------

  // The side trees hold what is known to lie below and above the key, and the whole sequence is kept.
  ghost predicate Keyed(w: Torn, k: int, s: seq<SpNode>) {
    TornOrder(w) == s && Ordered(s) && AllBelow(LeftOrder(w.l), k) && AllAbove(RightOrder(w.r), k)
  }

  lemma KeyedMiddle(w: Torn, k: int, s: seq<SpNode>)
    requires Keyed(w, k, s)
    ensures Ordered(InOrder(w.t))
  {
    OrderedConcat(LeftOrder(w.l) + InOrder(w.t), RightOrder(w.r));
    OrderedConcat(LeftOrder(w.l), InOrder(w.t));
  }

  lemma KeyedRotRight(w: Torn, k: int, s: seq<SpNode>)
    requires Keyed(w, k, s) && w.t.Node? && w.t.left.Node?
    ensures Keyed(w.(t := RotRight(w.t)), k, s)
  {
    RotRightSame(w.t);
  }

  lemma KeyedRotLeft(w: Torn, k: int, s: seq<SpNode>)
    requires Keyed(w, k, s) && w.t.Node? && w.t.right.Node?
    ensures Keyed(w.(t := RotLeft(w.t)), k, s)
  {
    RotLeftSame(w.t);
  }

  lemma KeyedLinkLeft(w: Torn, k: int, s: seq<SpNode>)
    requires Keyed(w, k, s) && w.t.Node? && k < w.t.elm.key
    ensures Keyed(LinkedOverLeft(w), k, s)
  {
    LinkLeftOrder(w);
    KeyedMiddle(w, k, s);
    OrderedNode(w.t);
    forall x | x in [w.t.elm] + InOrder(w.t.right) + RightOrder(w.r) ensures k < x.key {
      assert x == w.t.elm || x in InOrder(w.t.right) || x in RightOrder(w.r);
    }
  }

  lemma KeyedLinkRight(w: Torn, k: int, s: seq<SpNode>)
    requires Keyed(w, k, s) && w.t.Node? && w.t.elm.key < k
    ensures Keyed(LinkedOverRight(w), k, s)
  {
    LinkRightOrder(w);
    KeyedMiddle(w, k, s);
    OrderedNode(w.t);
    forall x | x in LeftOrder(w.l) + (InOrder(w.t.left) + [w.t.elm]) ensures x.key < k {
      assert x == w.t.elm || x in InOrder(w.t.left) || x in LeftOrder(w.l);
    }
  }

  // The root has the key, or is next to where it would be.
  ghost predicate Near(t: Tree, k: int) {
    && t.Node?
    && (t.elm.key > k ==> AllBelow(InOrder(t.left), k))
    && (t.elm.key < k ==> AllAbove(InOrder(t.right), k))
  }

  // The descent is over: the key is found, or the tree ends on its side.
  ghost predicate Over(t: Tree, k: int) {
    t.Node? && (k < t.elm.key ==> t.left.Leaf?) && (k > t.elm.key ==> t.right.Leaf?)
  }

  lemma OverNear(w: Torn, k: int, s: seq<SpNode>)
    requires Keyed(w, k, s) && Over(w.t, k)
    ensures Near(Assembled(w), k) && InOrder(Assembled(w)) == s
  {
    AssembledOrder(w);
    CloseLeftOrder(w.l, w.t.left);
    CloseRightOrder(w.r, w.t.right);
    assert LeftOrder(w.l) + [] == LeftOrder(w.l) && [] + RightOrder(w.r) == RightOrder(w.r);
  }

  // After a splay the root alone tells whether the key is in the tree.
  lemma NearDecides(t: Tree, k: int)
    requires Near(t, k) && Ordered(InOrder(t))
    ensures t.Node? && t.elm in Nodes(t)
    ensures t.elm.key != k ==> forall x :: x in Nodes(t) ==> x.key != k
  {
    OrderedNode(t);
    forall x | x in Nodes(t) && t.elm.key != k ensures x.key != k {
      InOrderNodes(t, x);
      assert x in InOrder(t.left) || x == t.elm || x in InOrder(t.right);
    }
  }

  lemma NearNode(t: Tree, k: int)
    requires Near(t, k)
    ensures t.Node?
  {
  }

  lemma SameKey(s: seq<SpNode>, x: SpNode, y: SpNode)
    requires Ordered(s) && x in s && y in s && x.key == y.key
    ensures x == y
  {
    var i :| 0 <= i < |s| && s[i] == x;
    var j :| 0 <= j < |s| && s[j] == y;
    assert i == j;
  }

  // A node of the tree is the only one with its key, and what is not in the tree cannot be dropped from it.
  lemma OnlyTwin(t: Tree, elm: SpNode)
    requires Ordered(InOrder(t))
    ensures elm in Nodes(t) ==> forall x :: x in Nodes(t) && x.key == elm.key ==> x == elm
    ensures forall s :: Dropped(InOrder(t), s, elm) ==> elm in Nodes(t)
  {
    InOrderNodes(t, elm);
    if elm in Nodes(t) {
      forall x | x in Nodes(t) && x.key == elm.key ensures x == elm {
        InOrderNodes(t, x);
        SameKey(InOrder(t), x, elm);
      }
    }
  }

  lemma ElmOnTop(t: Tree, elm: SpNode)
    requires Near(t, elm.key) && Ordered(InOrder(t)) && elm in Nodes(t)
    ensures t.Node? && t.elm == elm
  {
    NearDecides(t, elm.key);
    InOrderNodes(t, elm);
    InOrderNodes(t, t.elm);
    SameKey(InOrder(t), elm, t.elm);
  }

  // Both shapes of SPLAY_INSERT put the new node where it belongs.
  lemma BelowRootOrder(t: Tree, e: SpNode)
    requires Near(t, e.key) && Ordered(InOrder(t)) && e.key < t.elm.key
    ensures Ordered(InOrder(BelowRoot(t, e))) && Added(InOrder(t), InOrder(BelowRoot(t, e)), e)
  {
    hide InOrder, Ordered;
    var l, x, r := InOrder(t.left), t.elm, InOrder(t.right);
    var sub := Node(Leaf, x, t.right);
    InOrderLeaf();
    OrderedNode(t);
    OrderedEmpty();
    OrderedNode(sub);
    InOrderOf(Leaf, x, t.right);
    assert InOrder(sub) == [x] + r;
    forall y | y in InOrder(sub) ensures e.key < y.key {
      assert y == x || y in r;
    }
    OrderedNode(BelowRoot(t, e));
    InOrderOf(t.left, e, sub);
    InOrderOf(t.left, x, t.right);
    assert l + [x] + r == l + ([x] + r);
    AddedBetween(l, [x] + r, e);
  }

  lemma AboveRootOrder(t: Tree, e: SpNode)
    requires Near(t, e.key) && Ordered(InOrder(t)) && e.key > t.elm.key
    ensures Ordered(InOrder(AboveRoot(t, e))) && Added(InOrder(t), InOrder(AboveRoot(t, e)), e)
  {
    hide InOrder, Ordered;
    var l, x, r := InOrder(t.left), t.elm, InOrder(t.right);
    var sub := Node(t.left, x, Leaf);
    InOrderLeaf();
    OrderedNode(t);
    OrderedEmpty();
    OrderedNode(sub);
    InOrderOf(t.left, x, Leaf);
    assert InOrder(sub) == l + [x];
    forall y | y in InOrder(sub) ensures y.key < e.key {
      assert y == x || y in l;
    }
    OrderedNode(AboveRoot(t, e));
    InOrderOf(sub, e, t.right);
    InOrderOf(t.left, x, t.right);
    AddedBetween(l + [x], r, e);
  }

  lemma OrderedEmpty()
    ensures Ordered([])
  {
  }

  // Splaying for a key above all of them brings the greatest node up, which has no right subtree.
  lemma MaxOnTop(l: Tree, a: Tree, k: int)
    requires InOrder(a) == InOrder(l) && AllBelow(InOrder(l), k) && Near(a, k)
    ensures a.right == Leaf
  {
    RootIn(a);
    RootIn(a.right);
  }

  lemma RootIn(t: Tree)
    ensures t.Node? ==> t.elm in InOrder(t) && forall x :: x in InOrder(t.right) ==> x in InOrder(t)
  {
  }

  // The join at the end of SPLAY_REMOVE.
  lemma JoinedOrder(t: Tree, a: Tree)
    requires t.Node? && Ordered(InOrder(t)) && a.Node? && a.right == Leaf && InOrder(a) == InOrder(t.left)
    ensures var t' := Node(a.left, a.elm, t.right); Ordered(InOrder(t')) && Dropped(InOrder(t), InOrder(t'), t.elm)
  {
    var l, x, r := InOrder(t.left), t.elm, InOrder(t.right);
    assert InOrder(a) == InOrder(a.left) + [a.elm];
    DroppedBetween(l, r, x);
    OrderedConcat(l + [x], r);
    OrderedConcat(l, [x]);
    OrderedConcat(l, r);
    forall y, z | y in l && z in r ensures y.key < z.key {
      assert y in l + [x];
    }
  }

  lemma RightOnly(t: Tree)
    requires t.Node? && t.left.Leaf?
    ensures Dropped(InOrder(t), InOrder(t.right), t.elm)
  {
    DroppedBetween([], InOrder(t.right), t.elm);
    InOrderLeaf();
    InOrderOf(t.left, t.elm, t.right);
    assert [] + InOrder(t.right) == InOrder(t.right);
  }

  // A root without left (right) subtree is the first (last) of its tree.
  lemma EndOnTop(w: Torn)
    requires w.t.Node?
    ensures w.l.Nil? && w.t.left.Leaf? ==> InOrder(Assembled(w)) != [] && InOrder(Assembled(w))[0] == w.t.elm
    ensures w.r.Nil? && w.t.right.Leaf? ==>
      InOrder(Assembled(w)) != [] && InOrder(Assembled(w))[|InOrder(Assembled(w))| - 1] == w.t.elm
  {
  }

  lemma EndKeys(t: Tree)
    requires t.Node? && Ordered(InOrder(t))
    ensures InOrder(t) != [] && AllAbove(InOrder(t), InOrder(t)[0].key - 1)
    ensures AllBelow(InOrder(t), InOrder(t)[|InOrder(t)| - 1].key + 1)
  {
  }

  // The root of the middle tree and its children are in the sequence.
  lemma MiddleIn(w: Torn)
    requires w.t.Node?
    ensures w.t.elm in TornOrder(w)
    ensures w.t.left.Node? ==> w.t.left.elm in TornOrder(w)
    ensures w.t.right.Node? ==> w.t.right.elm in TornOrder(w)
  {
    RootIn(w.t);
    RootIn(w.t.left);
    RootIn(w.t.right);
    assert forall x :: x in InOrder(w.t) ==> x in LeftOrder(w.l) + InOrder(w.t);
  }

  lemma FirstOfLeft(c: Tree)
    requires c.Node?
    ensures InOrder(c) != [] && InOrder(c)[0] == if c.left.Leaf? then c.elm else (InOrder(c.left) + [c.elm])[0]
    ensures c.left.Node? ==> InOrder(c.left) != [] && InOrder(c)[0] == InOrder(c.left)[0]
  {
  }

  // What comes after the root is its right subtree.
  lemma AfterRoot(t: Tree)
    requires t.Node? && Ordered(InOrder(t))
    ensures forall x :: x in InOrder(t) && t.elm.key < x.key ==> x in InOrder(t.right)
    ensures t.right.Node? ==> InOrder(t.right) != []
    ensures InOrder(t.right) != [] ==> forall x :: x in InOrder(t.right) ==> InOrder(t.right)[0].key <= x.key
    ensures InOrder(t.right) != [] ==> InOrder(t.right)[0] in Nodes(t) && t.elm.key < InOrder(t.right)[0].key
  {
    OrderedNode(t);
    if InOrder(t.right) != [] {
      var x := InOrder(t.right)[0];
      assert x in InOrder(t.right);
      InOrderNodes(t.right, x);
    }
  }

  class SplayHead {
    var root: SpNode?
    ghost var tree: Tree
    // How many turns the splay loops have taken on this head.
    ghost var turns: nat

    ghost predicate Valid()
      reads this, Nodes(tree)
    {
      Apart(tree) && Linked(Snap(Nodes(tree)), root, tree)
    }

    ghost predicate Good()
      reads this, Nodes(tree)
    {
      Valid() && Ordered(InOrder(tree))
    }

    // SPLAY_INIT
    constructor ()
      ensures Good() && tree == Leaf && turns == 0
    {
      root, tree, turns := null, Leaf, 0;
    }

    // The invariant of a splay in progress, on the nodes of E.
    ghost predicate Splaying(E: set<SpNode>, dummy: SpNode, w: Torn)
      reads this, E
    {
      TornLinked(Snap(E), root, dummy, w) && TornNodes(w) + {dummy} == E
    }

    // What the code sees at the root.
    lemma SeeRoot(E: set<SpNode>, dummy: SpNode, w: Torn)
      requires Splaying(E, dummy, w)
      ensures w.t.Leaf? ==> root == null
      ensures w.t.Node? ==> root == w.t.elm && root in E && root.left == Ptr(w.t.left) && root.right == Ptr(w.t.right)
      ensures w.t.Node? && w.t.left.Node? ==> w.t.left.elm in E && w.t.left.elm != root
      ensures w.t.Node? && w.t.right.Node? ==> w.t.right.elm in E && w.t.right.elm != root
      ensures dummy in E && End(w.l, dummy) in E && End(w.r, dummy) in E
      ensures w.t.Node? ==> root != End(w.l, dummy) && root != End(w.r, dummy) && root != dummy
      ensures TornApart(w, dummy)
    {
      var m := Snap(E);
      if w.t.Node? {
        assert Linked(m, m[w.t.elm].left, w.t.left) && Linked(m, m[w.t.elm].right, w.t.right);
      }
    }

    // SPLAY_ROTATE_RIGHT
    method RotateRight(tmp: SpNode, ghost E: set<SpNode>, ghost dummy: SpNode, ghost w: Torn)
      requires Splaying(E, dummy, w) && w.t.Node? && w.t.left.Node? && tmp == w.t.left.elm
      modifies this`root, E
      ensures Splaying(E, dummy, w.(t := RotRight(w.t))) && root == tmp
    {
      hide Linked, LinkedLeft, LinkedRight, TornLinked, InOrder, Nodes, Apart, TornNodes;
      SeeRoot(E, dummy, w);
      ghost var m := Snap(E);
      root.left := tmp.right;
      ghost var m1 := Snap(E);
      tmp.right := root;
      RotatedRight(m, m1, Snap(E), dummy, w);
      RotNodes(w);
      root := tmp;
    }

    // SPLAY_ROTATE_LEFT
    method RotateLeft(tmp: SpNode, ghost E: set<SpNode>, ghost dummy: SpNode, ghost w: Torn)
      requires Splaying(E, dummy, w) && w.t.Node? && w.t.right.Node? && tmp == w.t.right.elm
      modifies this`root, E
      ensures Splaying(E, dummy, w.(t := RotLeft(w.t))) && root == tmp
    {
      hide Linked, LinkedLeft, LinkedRight, TornLinked, InOrder, Nodes, Apart, TornNodes;
      SeeRoot(E, dummy, w);
      ghost var m := Snap(E);
      root.right := tmp.left;
      ghost var m1 := Snap(E);
      tmp.left := root;
      RotatedLeft(m, m1, Snap(E), dummy, w);
      RotNodes(w);
      root := tmp;
    }

    // SPLAY_LINKLEFT: returns the new end of the right side tree.
    method LinkLeft(tmp: SpNode, ghost E: set<SpNode>, ghost dummy: SpNode, ghost w: Torn) returns (end: SpNode)
      requires Splaying(E, dummy, w) && w.t.Node? && tmp == End(w.r, dummy)
      modifies this`root, E
      ensures Splaying(E, dummy, LinkedOverLeft(w)) && end == w.t.elm
    {
      hide Linked, LinkedLeft, LinkedRight, TornLinked, InOrder, Nodes, Apart, TornNodes, TornOrder;
      SeeRoot(E, dummy, w);
      ghost var m := Snap(E);
      tmp.left := root;
      end := root;
      LinkLeftLinks(m, Snap(E), dummy, w);
      root := root.left;
    }

    // SPLAY_LINKRIGHT
    method LinkRight(tmp: SpNode, ghost E: set<SpNode>, ghost dummy: SpNode, ghost w: Torn) returns (end: SpNode)
      requires Splaying(E, dummy, w) && w.t.Node? && tmp == End(w.l, dummy)
      modifies this`root, E
      ensures Splaying(E, dummy, LinkedOverRight(w)) && end == w.t.elm
    {
      hide Linked, LinkedLeft, LinkedRight, TornLinked, InOrder, Nodes, Apart, TornNodes, TornOrder;
      SeeRoot(E, dummy, w);
      ghost var m := Snap(E);
      tmp.right := root;
      end := root;
      LinkRightLinks(m, Snap(E), dummy, w);
      root := root.right;
    }

    // SPLAY_ASSEMBLE
    method Assemble(node: SpNode, left: SpNode, right: SpNode, ghost E: set<SpNode>, ghost w: Torn)
      requires Splaying(E, node, w) && w.t.Node? && left == End(w.l, node) && right == End(w.r, node)
      modifies E
      ensures root == w.t.elm && Linked(Snap(E), root, Assembled(w))
      ensures Apart(Assembled(w)) && Nodes(Assembled(w)) == TornNodes(w)
    {
      hide Linked, LinkedLeft, LinkedRight, InOrder, Nodes, Apart, TornNodes, CloseLeft, CloseRight, Assembled;
      SeeRoot(E, node, w);
      ghost var m := Snap(E);
      left.right := root.left;
      ghost var m1 := Snap(E);
      right.left := root.right;
      ghost var m2 := Snap(E);
      Closed(m, m1, m2, node, w);
      root.left := node.right;
      root.right := node.left;
      AssembledLinks(m2, Snap(E), node, w);
    }

    // The invariant of the descent for key k, whose ends are left and right.
    ghost predicate Descending(E: set<SpNode>, node: SpNode, left: SpNode, right: SpNode, w: Torn, k: int,
                               s: seq<SpNode>)
      reads this, E
    {
      Splaying(E, node, w) && w.t.Node? && left == End(w.l, node) && right == End(w.r, node) && Keyed(w, k, s)
    }

    // One turn of the loop on the left side; done when the tree ends there.
    method StepLeft(k: int, right0: SpNode, ghost E: set<SpNode>, ghost node: SpNode, ghost left: SpNode,
                    ghost w0: Torn, ghost s: seq<SpNode>)
      returns (done: bool, right: SpNode, ghost w: Torn)
      requires Descending(E, node, left, right0, w0, k, s) && k < w0.t.elm.key
      modifies this`root, E
      ensures Descending(E, node, left, right, w, k, s) && Follows(w0, w, k, done)
      ensures if done then Over(w.t, k) else Size(w.t) < Size(w0.t)
    {
      hide Splaying, Keyed, TornOrder, InOrder, Follows;
      right, w, done := right0, w0, false;
      TurnLeft(w, k);
      SeeRoot(E, node, w);
      var tmp := root.left;
      if tmp == null {
        return true, right, w;
      }
      if k < tmp.key {
        RotateRight(tmp, E, node, w);
        KeyedRotRight(w, k, s);
        w := w.(t := RotRight(w.t));
        SeeRoot(E, node, w);
        if root.left == null {
          return true, right, w;
        }
      }
      right := LinkLeft(right, E, node, w);
      KeyedLinkLeft(w, k, s);
      w := LinkedOverLeft(w);
    }

    // One turn of the loop on the right side.
    method StepRight(k: int, left0: SpNode, ghost E: set<SpNode>, ghost node: SpNode, ghost right: SpNode,
                     ghost w0: Torn, ghost s: seq<SpNode>)
      returns (done: bool, left: SpNode, ghost w: Torn)
      requires Descending(E, node, left0, right, w0, k, s) && k > w0.t.elm.key
      modifies this`root, E
      ensures Descending(E, node, left, right, w, k, s) && Follows(w0, w, k, done)
      ensures if done then Over(w.t, k) else Size(w.t) < Size(w0.t)
    {
      hide Splaying, Keyed, TornOrder, InOrder, Follows;
      left, w, done := left0, w0, false;
      TurnRight(w, k);
      SeeRoot(E, node, w);
      var tmp := root.right;
      if tmp == null {
        return true, left, w;
      }
      if k > tmp.key {
        RotateLeft(tmp, E, node, w);
        KeyedRotLeft(w, k, s);
        w := w.(t := RotLeft(w.t));
        SeeRoot(E, node, w);
        if root.right == null {
          return true, left, w;
        }
      }
      left := LinkRight(left, E, node, w);
      KeyedLinkRight(w, k, s);
      w := LinkedOverRight(w);
    }

    // _SPLAY
    method Splay(elm: SpNode)
      requires Good() && tree.Node?
      modifies this, Nodes(tree)
      ensures Good() && Nodes(tree) == old(Nodes(tree)) && InOrder(tree) == old(InOrder(tree)) && Near(tree, elm.key)
      ensures tree == Splayed(old(tree), elm.key) && turns == old(turns) + Turns(old(tree), elm.key)
    {
      hide Keyed, TornOrder, InOrder, TornLinked, Linked, Apart, Nodes, TornNodes, Near, Ordered, Splayed, Turns, Size,
        Snap;
      NodesAllocated(tree);
      var node := new SpNode(0);
      ghost var k, s, N, E := elm.key, InOrder(tree), Nodes(tree), Nodes(tree) + {node};
      ghost var w := Torn(Nil, tree, Nil);
      SplayStart(node, k);
      ghost var t0, n0 := tree, turns;
      AssembledWhole(Splayed(tree, k));
      var left, right, done := node, node, false;
      SeeRoot(E, node, w);
      while !done && elm.key != root.key
        invariant Descending(E, node, left, right, w, k, s) && root == w.t.elm
        invariant done ==> Over(w.t, k) && Splayed(w.t, k) == w.t
        invariant Assembled(w.(t := Splayed(w.t, k))) == Splayed(t0, k)
        invariant turns + (if done then 0 else Turns(w.t, k)) == n0 + Turns(t0, k)
        decreases if done then 0 else 1, Size(w.t)
      {
        if elm.key < root.key {
          done, right, w := StepLeft(elm.key, right, E, node, left, w, s);
        } else {
          done, left, w := StepRight(elm.key, left, E, node, right, w, s);
        }
        turns := turns + 1;
        SeeRoot(E, node, w);
      }
      FoundAtOnce(w.t, k);
      OverNear(w, k, s);
      Finish(node, left, right, E, w);
    }

    // The end of both splay loops.
    method Finish(node: SpNode, left: SpNode, right: SpNode, ghost E: set<SpNode>, ghost w: Torn)
      requires Splaying(E, node, w) && w.t.Node? && left == End(w.l, node) && right == End(w.r, node)
      modifies this`tree, E
      ensures Valid() && tree == Assembled(w) && Nodes(tree) == E - {node} && root == w.t.elm
    {
      hide InOrder, TornLinked, Linked, Apart, Nodes, TornNodes;
      SeeRoot(E, node, w);
      Assemble(node, left, right, E, w);
      SplayEnd(E, node, w);
      tree := Assembled(w);
    }

    // SPLAY_INSERT
    method Insert(elm: SpNode) returns (existing: SpNode?)
      requires Good()
      modifies this, Nodes(tree), elm
      ensures Good()
      ensures existing != null <==> exists x :: x in old(Nodes(tree)) && x.key == elm.key
      ensures existing != null ==> existing in Nodes(tree) && existing.key == elm.key
      ensures existing != null ==> InOrder(tree) == old(InOrder(tree)) && Nodes(tree) == old(Nodes(tree))
      ensures existing == null ==> Added(old(InOrder(tree)), InOrder(tree), elm)
      ensures existing == null ==> Nodes(tree) == old(Nodes(tree)) + {elm}
      ensures root == if existing != null then existing else elm
      ensures tree == var t := AfterSplay(old(tree), elm.key); if existing != null then t else OnTop(t, elm)
      ensures turns == old(turns) + TurnsOf(old(tree), elm.key)
      ensures Paid(old(turns), old(tree), turns, tree, Price(|InOrder(tree)|))
    {
      hide Ordered, Added, Near, Linked, Apart, InOrder, Nodes, Splayed, Turns, Paid, Price;
      ghost var s, N := InOrder(tree), Nodes(tree);
      SeeTop();
      if root == null {
        FirstPaid(turns, elm);
        InsertFirst(elm);
        return null;
      }
      SplayPaid(turns, tree, elm.key);
      InsertPaid(turns, tree, elm);
      Splay(elm);
      SeeTop();
      NearDecides(tree, elm.key);
      var comp := elm.key - root.key;
      if comp < 0 {
        InsertBelow(elm);
      } else if comp > 0 {
        InsertAbove(elm);
      } else {
        return root;
      }
      SeeTop();
      existing := null;
    }

    // The branch for an empty tree.
    method InsertFirst(elm: SpNode)
      requires Good() && tree.Leaf?
      modifies this, elm
      ensures Good() && Nodes(tree) == {elm} && tree == Node(Leaf, elm, Leaf) && old(Nodes(tree)) == {}
      ensures turns == old(turns) && root == elm
      ensures Added(old(InOrder(tree)), InOrder(tree), elm)
    {
      elm.left, elm.right := null, null;
      AddedBetween([], [], elm);
      tree := Node(Leaf, elm, Leaf);
      root := elm;
      assert Nodes(tree) == {elm} && InOrder(tree) == [] + [elm] + [];
      assert old(InOrder(tree)) == [] + [];
      assert Apart(tree) && Linked(Snap(Nodes(tree)), root, tree);
      assert |InOrder(tree)| == 1;
    }

    // What the code sees at the top.
    lemma SeeTop()
      requires Valid()
      ensures root == Ptr(tree)
      ensures tree.Node? ==> root in Nodes(tree) && root.left == Ptr(tree.left) && root.right == Ptr(tree.right)
    {
      if tree.Node? {
        SubLinks(Snap(Nodes(tree)), root, tree);
      }
    }

    // The branch of SPLAY_INSERT for a key below the new root's.
    method InsertBelow(elm: SpNode)
      requires Good() && tree.Node? && Near(tree, elm.key) && elm.key < tree.elm.key && elm !in Nodes(tree)
      modifies this, Nodes(tree), elm
      ensures Good() && Added(old(InOrder(tree)), InOrder(tree), elm)
      ensures Nodes(tree) == old(Nodes(tree)) + {elm} && tree == BelowRoot(old(tree), elm) && turns == old(turns)
    {
      hide InOrder, Ordered, Near, Added, Linked, Apart, Nodes;
      SeeTop();
      ghost var t, m := tree, Snap(Nodes(tree));
      elm.left := root.left;
      elm.right := root;
      root.left := null;
      root := elm;
      BelowRootLinks(m, Snap(Nodes(t) + {elm}), t, elm);
      BelowRootOrder(t, elm);
      tree := BelowRoot(t, elm);
    }

    // The branch for a key above it.
    method InsertAbove(elm: SpNode)
      requires Good() && tree.Node? && Near(tree, elm.key) && elm.key > tree.elm.key && elm !in Nodes(tree)
      modifies this, Nodes(tree), elm
      ensures Good() && Added(old(InOrder(tree)), InOrder(tree), elm)
      ensures Nodes(tree) == old(Nodes(tree)) + {elm} && tree == AboveRoot(old(tree), elm) && turns == old(turns)
    {
      hide InOrder, Ordered, Near, Added, Linked, Apart, Nodes;
      SeeTop();
      ghost var t, m := tree, Snap(Nodes(tree));
      elm.right := root.right;
      elm.left := root;
      root.right := null;
      root := elm;
      AboveRootLinks(m, Snap(Nodes(t) + {elm}), t, elm);
      AboveRootOrder(t, elm);
      tree := AboveRoot(t, elm);
    }

    // SPLAY_REMOVE. It returns its argument, whichever node with an equal key it took out.
    method Remove(elm: SpNode) returns (removed: SpNode?)
      requires Good()
      modifies this, Nodes(tree)
      ensures Good()
      ensures removed == null ==> InOrder(tree) == old(InOrder(tree)) && Nodes(tree) == old(Nodes(tree))
      ensures removed == null <==> forall x :: x in old(Nodes(tree)) ==> x.key != elm.key
      ensures removed != null ==> removed == elm && exists x ::
        x in old(Nodes(tree)) && x.key == elm.key && Dropped(old(InOrder(tree)), InOrder(tree), x)
      ensures removed != null ==> (Dropped(old(InOrder(tree)), InOrder(tree), elm) <==> elm in old(Nodes(tree)))
      ensures Nodes(tree) <= old(Nodes(tree))
      ensures removed == null && tree.Node? ==> Near(tree, elm.key)
      ensures tree == var t := AfterSplay(old(tree), elm.key);
        if removed == null then t else WithoutTop(t, elm.key)
      ensures turns == old(turns) + TurnsOf(old(tree), elm.key) +
        if removed == null then 0 else TurnsOf(Splayed(old(tree), elm.key).left, elm.key)
      ensures Paid(old(turns), old(tree), turns, tree, Price(|old(InOrder(tree))|))
    {
      hide Ordered, Dropped, Splayed, Turns, Paid, Price, InOrder, Linked, Apart, Near;
      OnlyTwin(tree, elm);
      SeeTop();
      if root == null {
        NothingPaid(turns, tree);
        return null;
      }
      SplayPaid(turns, tree, elm.key);
      RemovePaid(turns, tree, elm.key);
      Splay(elm);
      SeeTop();
      NearDecides(tree, elm.key);
      if elm.key == root.key {
        ghost var x := tree.elm;
        RemoveTop(elm);
        assert Dropped(old(InOrder(tree)), InOrder(tree), x);
        return elm;
      }
      return null;
    }

    // Taking out the root, which has elm's key.
    method RemoveTop(elm: SpNode)
      requires Good() && tree.Node? && tree.elm.key == elm.key
      modifies this, Nodes(tree)
      ensures Good() && Dropped(old(InOrder(tree)), InOrder(tree), old(tree.elm)) && Nodes(tree) <= old(Nodes(tree))
      ensures old(tree.left.Leaf?) ==> tree == old(tree.right) && turns == old(turns)
      ensures old(tree.left.Node?) ==> var a := Splayed(old(tree.left), elm.key);
        tree == Node(a.left, a.elm, old(tree.right)) && turns == old(turns) + Turns(old(tree.left), elm.key)
    {
      hide InOrder, Ordered, Linked, Apart, Nodes, Dropped, Splayed, Turns;
      SeeTop();
      TopSubtrees();
      OrderedNode(tree);
      if root.left == null {
        RightOnly(tree);
        root, tree := root.right, tree.right;
      } else {
        JoinSubtrees(elm);
      }
    }

    // The branch of SPLAY_REMOVE that joins the root's two subtrees.
    method JoinSubtrees(elm: SpNode)
      requires Good() && tree.Node? && tree.left.Node? && tree.elm.key == elm.key
      modifies this, Nodes(tree)
      ensures Good() && Dropped(old(InOrder(tree)), InOrder(tree), old(tree.elm)) && Nodes(tree) <= old(Nodes(tree))
      ensures var a := Splayed(old(tree.left), elm.key);
        tree == Node(a.left, a.elm, old(tree.right)) && turns == old(turns) + Turns(old(tree.left), elm.key)
    {
      hide InOrder, Ordered, Linked, Apart, Nodes, Dropped, Near, Splayed, Turns;
      ghost var t := tree;
      SeeTop();
      TopSubtrees();
      OrderedNode(t);
      NodesAllocated(t.right);
      var tmp := root.right;
      root := root.left;
      tree := t.left;
      Splay(elm);
      NearNode(tree, elm.key);
      MaxOnTop(t.left, tree, elm.key);
      JoinedOrder(t, tree);
      HangRight(tmp, t.right);
    }

    // The tree r goes where the root has no right subtree.
    method HangRight(tmp: SpNode?, ghost r: Tree)
      requires Valid() && tree.Node? && tree.right.Leaf?
      requires Linked(Snap(Nodes(r)), tmp, r) && Apart(r) && Nodes(tree) !! Nodes(r)
      modifies this`tree, Nodes(tree)
      ensures Valid() && tree == Node(old(tree.left), old(tree.elm), r) && Nodes(tree) == old(Nodes(tree)) + Nodes(r)
    {
      hide InOrder, Linked, Apart, Nodes;
      NodesAllocated(r);
      SeeTop();
      ghost var a, m, mr := tree, Snap(Nodes(tree)), Snap(Nodes(r));
      SubLinks(m, root, a);
      root.right := tmp;
      assert Snap(Nodes(r)) == mr;
      JoinedLinks(m, mr, Snap(Nodes(a) + Nodes(r)), a, tmp, r);
      tree := Node(a.left, a.elm, r);
    }

    lemma TopSubtrees()
      requires Good() && tree.Node?
      ensures Nodes(tree.left) + Nodes(tree.right) <= Nodes(tree)
      ensures Linked(Snap(Nodes(tree.left)), root.left, tree.left)
      ensures Linked(Snap(Nodes(tree.right)), root.right, tree.right)
      ensures Apart(tree.left) && Apart(tree.right) && Nodes(tree.left) !! Nodes(tree.right)
      ensures tree.elm !in Nodes(tree.left) && tree.elm !in Nodes(tree.right)
    {
      var m := Snap(Nodes(tree));
      LinkedFrame(m, Snap(Nodes(tree.left)), m[tree.elm].left, tree.left);
      LinkedFrame(m, Snap(Nodes(tree.right)), m[tree.elm].right, tree.right);
    }

    // SPLAY_FIND
    method Find(elm: SpNode) returns (found: SpNode?)
      requires Good()
      modifies this, Nodes(tree)
      ensures Good() && InOrder(tree) == old(InOrder(tree)) && Nodes(tree) == old(Nodes(tree))
      ensures found != null ==> found in Nodes(tree) && found.key == elm.key && root == found
      ensures tree.Node? ==> Near(tree, elm.key)
      ensures tree == AfterSplay(old(tree), elm.key) && turns == old(turns) + TurnsOf(old(tree), elm.key)
      ensures found == null ==> forall x :: x in Nodes(tree) ==> x.key != elm.key
      ensures Paid(old(turns), old(tree), turns, tree, Price(|InOrder(tree)|))
    {
      hide Ordered, Splayed, Turns, Paid, Price;
      SeeTop();
      if root == null {
        NothingPaid(turns, tree);
        return null;
      }
      SplayPaid(turns, tree, elm.key);
      Splay(elm);
      SeeTop();
      NearDecides(tree, elm.key);
      if elm.key == root.key {
        return root;
      }
      return null;
    }

    // SPLAY_NEXT: the node after elm, which is in the tree.
    method Next(elm: SpNode) returns (next: SpNode?)
      requires Good() && elm in Nodes(tree)
      modifies this, Nodes(tree)
      ensures Good() && InOrder(tree) == old(InOrder(tree)) && Nodes(tree) == old(Nodes(tree))
      ensures root == elm && tree == AfterSplay(old(tree), elm.key)
      ensures turns == old(turns) + TurnsOf(old(tree), elm.key)
      ensures next != null ==> next in Nodes(tree) && elm.key < next.key
      ensures forall x :: x in InOrder(tree) && elm.key < x.key ==> next != null && next.key <= x.key
      ensures Paid(old(turns), old(tree), turns, tree, Price(|InOrder(tree)|))
    {
      hide Ordered, Near, Linked, Apart, Nodes, InOrder, Splayed, Turns, Paid, Price;
      NodesOf(tree, elm);
      SplayPaid(turns, tree, elm.key);
      Splay(elm);
      SeeTop();
      ElmOnTop(tree, elm);
      AfterRoot(tree);
      InOrderLeaf();
      ghost var r := tree.right;
      if elm.right != null {
        next := elm.right;
        ghost var c, m := r, Snap(Nodes(tree));
        SubLinks(m, root, tree);
        SubLinks(m, next, c);
        while next.left != null
          invariant c.Node? && next == c.elm && next.left == Ptr(c.left)
          invariant Linked(m, next, c) && Apart(c) && Nodes(c) <= Nodes(tree)
          invariant InOrder(c) != [] && InOrder(r) != [] && InOrder(c)[0] == InOrder(r)[0]
          decreases c
          modifies {}
        {
          FirstOfLeft(c);
          SubLinks(m, next, c);
          c := c.left;
          next := next.left;
          SubLinks(m, next, c);
        }
        FirstOfLeft(c);
      } else {
        next := null;
      }
    }

    // _SPLAY_MINMAX: the least node comes up for val < 0, the greatest for val > 0. It does not end for 0.
    method MinMax(val: int)
      requires Good() && tree.Node? && val != 0
      modifies this, Nodes(tree)
      ensures Good() && Nodes(tree) == old(Nodes(tree)) && InOrder(tree) == old(InOrder(tree)) && tree.Node?
      ensures root == if val < 0 then InOrder(tree)[0] else InOrder(tree)[|InOrder(tree)| - 1]
      ensures var k := if val < 0 then InOrder(tree)[0].key - 1 else InOrder(tree)[|InOrder(tree)| - 1].key + 1;
        tree == Splayed(old(tree), k) && turns == old(turns) + Turns(old(tree), k)
      ensures Paid(old(turns), old(tree), turns, tree, Price(|InOrder(tree)|))
    {
      hide Ordered, TornOrder, InOrder, TornLinked, Linked, Apart, Nodes, TornNodes, Splayed, Turns, Size, Paid, Price;
      NodesAllocated(tree);
      var node := new SpNode(0);
      ghost var s, N, E := InOrder(tree), Nodes(tree), Nodes(tree) + {node};
      ghost var w := Torn(Nil, tree, Nil);
      SplayStart(node, 0);
      AssembledOrder(w);
      AssembledWhole(tree);
      EndKeys(tree);
      ghost var k := if val < 0 then s[0].key - 1 else s[|s| - 1].key + 1;
      ghost var t0, n0 := tree, turns;
      AssembledWhole(Splayed(tree, k));
      SplayPaid(turns, tree, k);
      var left, right, done := node, node, false;
      while !done
        invariant Splaying(E, node, w) && w.t.Node? && left == End(w.l, node) && right == End(w.r, node)
        invariant TornOrder(w) == s
        invariant if val < 0 then w.l.Nil? && (done ==> w.t.left.Leaf?) else w.r.Nil? && (done ==> w.t.right.Leaf?)
        invariant done ==> Splayed(w.t, k) == w.t
        invariant Assembled(w.(t := Splayed(w.t, k))) == Splayed(t0, k)
        invariant turns + (if done then 0 else Turns(w.t, k)) == n0 + Turns(t0, k)
        decreases if done then 0 else 1, Size(w.t)
      {
        if val < 0 {
          done, right, w := MinStep(right, E, node, w, k);
        } else {
          done, left, w := MaxStep(left, E, node, w, k);
        }
        turns := turns + 1;
      }
      AssembledOrder(w);
      EndOnTop(w);
      Finish(node, left, right, E, w);
    }

    // One turn of its loop towards the least node, as in a splay for a key k below all others.
    method MinStep(right0: SpNode, ghost E: set<SpNode>, ghost node: SpNode, ghost w0: Torn, ghost k: int)
      returns (done: bool, right: SpNode, ghost w: Torn)
      requires Splaying(E, node, w0) && w0.t.Node? && right0 == End(w0.r, node) && AllAbove(TornOrder(w0), k)
      modifies this`root, E
      ensures Splaying(E, node, w) && w.t.Node? && right == End(w.r, node)
      ensures w.l == w0.l && TornOrder(w) == TornOrder(w0)
      ensures (if done then w.t.left.Leaf? else Size(w.t) < Size(w0.t)) && Follows(w0, w, k, done)
    {
      hide Splaying, InOrder, Follows;
      right, w, done := right0, w0, false;
      MiddleIn(w);
      TurnLeft(w, k);
      SeeRoot(E, node, w);
      var tmp := root.left;
      if tmp == null {
        return true, right, w;
      }
      RotateRight(tmp, E, node, w);
      RotRightSame(w.t);
      w := w.(t := RotRight(w.t));
      SeeRoot(E, node, w);
      if root.left == null {
        return true, right, w;
      }
      right := LinkLeft(right, E, node, w);
      LinkLeftOrder(w);
      w := LinkedOverLeft(w);
    }

    // One turn of its loop towards the greatest node, as in a splay for a key k above all others.
    method MaxStep(left0: SpNode, ghost E: set<SpNode>, ghost node: SpNode, ghost w0: Torn, ghost k: int)
      returns (done: bool, left: SpNode, ghost w: Torn)
      requires Splaying(E, node, w0) && w0.t.Node? && left0 == End(w0.l, node) && AllBelow(TornOrder(w0), k)
      modifies this`root, E
      ensures Splaying(E, node, w) && w.t.Node? && left == End(w.l, node)
      ensures w.r == w0.r && TornOrder(w) == TornOrder(w0)
      ensures (if done then w.t.right.Leaf? else Size(w.t) < Size(w0.t)) && Follows(w0, w, k, done)
    {
      hide Splaying, InOrder, Follows;
      left, w, done := left0, w0, false;
      MiddleIn(w);
      TurnRight(w, k);
      SeeRoot(E, node, w);
      var tmp := root.right;
      if tmp == null {
        return true, left, w;
      }
      RotateLeft(tmp, E, node, w);
      RotLeftSame(w.t);
      w := w.(t := RotLeft(w.t));
      SeeRoot(E, node, w);
      if root.right == null {
        return true, left, w;
      }
      left := LinkRight(left, E, node, w);
      LinkRightOrder(w);
      w := LinkedOverRight(w);
    }

    lemma SplayStart(node: SpNode, k: int)
      requires Good() && tree.Node? && node !in Nodes(tree)
      ensures var w, E := Torn(Nil, tree, Nil), Nodes(tree) + {node};
        Splaying(E, node, w) && TornNodes(w) + {node} == E && Keyed(w, k, InOrder(tree))
    {
      LinkedFrame(Snap(Nodes(tree)), Snap(Nodes(tree) + {node}), root, tree);
      assert TornOrder(Torn(Nil, tree, Nil)) == InOrder(tree);
    }

    lemma SplayEnd(E: set<SpNode>, node: SpNode, w: Torn)
      requires w.t.Node? && TornNodes(w) + {node} == E && node !in TornNodes(w)
      requires Linked(Snap(E), root, Assembled(w)) && Nodes(Assembled(w)) == TornNodes(w)
      ensures Linked(Snap(Nodes(Assembled(w))), root, Assembled(w)) && Nodes(Assembled(w)) == E - {node}
    {
      LinkedFrame(Snap(E), Snap(Nodes(Assembled(w))), root, Assembled(w));
    }
  }

  lemma NodesAllocated(t: Tree)
    ensures allocated(Nodes(t))
  {
  }

  lemma RotNodes(w: Torn)
    ensures w.t.Node? && w.t.left.Node? ==> TornNodes(w.(t := RotRight(w.t))) == TornNodes(w)
    ensures w.t.Node? && w.t.right.Node? ==> TornNodes(w.(t := RotLeft(w.t))) == TornNodes(w)
  {
    if w.t.Node? && w.t.left.Node? {
      RotRightSame(w.t);
    }
    if w.t.Node? && w.t.right.Node? {
      RotLeftSame(w.t);
    }
  }

  // A tree of one node, from which a second node with the same key removes it: what is returned was never there.
  method RemoveByTwin() returns (inside: SpNode, twin: SpNode, removed: SpNode?)
    ensures inside != twin && inside.key == twin.key && removed == twin
  {
    var head := new SplayHead();
    inside := new SpNode(1);
    twin := new SpNode(1);
    var e := head.Insert(inside);
    hide Ordered, Dropped, Added;
    assert inside in Nodes(head.tree);
    removed := head.Remove(twin);
  }
}
