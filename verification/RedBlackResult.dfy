/**
 The trees that insertion and removal make, as functions of the tree before. The fix-up loops are
 recursions here, up the path that leads to the node they work on.
 */
module RedBlackResults {
  import opened RedBlackTheory

  // The node of c over the tree t in its hole and the sibling u, in the colour col.
  function Over(c: Ctx, col: Color, t: Tree, u: Tree): (r: Tree)
    requires !c.Top?
    ensures r.Node?
  {
    if c.InLeft? then Node(col, t, c.elm, u) else Node(col, u, c.elm, t)
  }

  // ---------- Insertion ----------

  // A red node and its red parent, the lower one turned to the outer side.
  function Straight(c: Ctx, t: Tree): (p: Tree)
    requires BelowRed(c) && !c.up.Top? && t.Node?
    ensures p.Node?
  {
    if c.up.InLeft? && c.InRight? then RotLeft(Upper(c, t))
    else if c.up.InRight? && c.InLeft? then RotRight(Upper(c, t))
    else Upper(c, t)
  }

  // p over the grandparent g, which turns red.
  function Lifted(g: Ctx, p: Tree): Tree
    requires !g.Top? && p.Node?
  {
    if g.InLeft? then Node(Black, p.left, p.elm, Node(Red, p.right, g.elm, g.right))
    else Node(Black, Node(Red, g.left, g.elm, p.left), p.elm, p.right)
  }

  // What RB_INSERT_COLOR makes of the tree with the red node that heads t at the hole of c.
  function Recoloured(c: Ctx, t: Tree): Tree
    requires t.Node?
    decreases Depth(c)
  {
    if !BelowRed(c) || c.up.Top? then Patched(Plug(c, t))
    else if IsRed(Sibling(c.up)) then
      assert Depth(c.up) == 1 + Depth(c.up.up);
      Recoloured(c.up.up, Over(c.up, Red, Patched(Upper(c, t)), Patched(Sibling(c.up))))
    else Patched(Plug(c.up.up, Lifted(c.up, Straight(c, t))))
  }

  lemma RecolouredEnds(c: Ctx, t: Tree)
    requires !BelowRed(c) && t.Node?
    ensures Recoloured(c, t) == Patched(Plug(c, t))
  {
  }

  lemma RecolouredUp(c: Ctx, t: Tree)
    requires BelowRed(c) && !c.up.Top? && t.Node? && IsRed(Sibling(c.up))
    ensures Recoloured(c, t) == Recoloured(c.up.up, Over(c.up, Red, Patched(Upper(c, t)), Patched(Sibling(c.up))))
  {
  }

  // After the rotation the loop ends.
  lemma RecolouredLast(c: Ctx, t: Tree, c': Ctx, t': Tree)
    requires BelowRed(c) && !c.up.Top? && t.Node? && !IsRed(Sibling(c.up))
    requires !c'.Top? && c'.color.Black? && t'.Node? && c'.up == c.up.up
    requires Upper(c', t') == Lifted(c.up, Straight(c, t))
    ensures Recoloured(c', t') == Recoloured(c, t)
  {
  }

  // The empty place for the key k.
  function HoleFor(c: Ctx, t: Tree, k: int): Ctx
    decreases t
  {
    match t
    case Leaf => c
    case Node(col, l, x, r) =>
      if k < x.key then HoleFor(InLeft(c, col, x, r), l, k) else HoleFor(InRight(l, col, x, c), r, k)
  }

  // What RB_INSERT makes of a tree without the key of e.
  function WithNode(t: Tree, e: RbNode): Tree {
    Recoloured(HoleFor(Top, t, e.key), Node(Red, Leaf, e, Leaf))
  }

  // ---------- Removal ----------

  // How one pass leaves a tree that was short at some hole: whole again, or short at another.
  datatype Outcome = Whole(tree: Tree) | Still(up: Ctx, t: Tree)

  // The sibling w with a red child on the outer side.
  function Outer(c: Ctx, w: Tree): (r: Tree)
    requires !c.Top? && w.Node? && (IsRed(w.left) || IsRed(w.right))
    ensures r.Node? && (if c.InLeft? then r.right.Node? else r.left.Node?)
  {
    if c.InLeft? && !IsRed(w.right) then
      Node(Black, w.left.left, w.left.elm, Node(Red, w.left.right, w.elm, w.right))
    else if c.InRight? && !IsRed(w.left) then
      Node(Black, Node(Red, w.left, w.elm, w.right.left), w.right.elm, w.right.right)
    else w
  }

  // w over its parent, whose colour it takes; the parent and the outer child of w turn black.
  function Turned(c: Ctx, t: Tree, w: Tree): Tree
    requires !c.Top? && w.Node? && (if c.InLeft? then w.right.Node? else w.left.Node?)
  {
    if c.InLeft? then Node(c.color, Node(Black, t, c.elm, w.left), w.elm, w.right.(color := Black))
    else Node(c.color, w.left.(color := Black), w.elm, Node(Black, w.right, c.elm, t))
  }

  function WithBlackSibling(c: Ctx, t: Tree): Outcome
    requires !c.Top? && Sibling(c).Node?
  {
    var w := Sibling(c);
    if !IsRed(w.left) && !IsRed(w.right) then Still(c.up, Over(c, c.color, t, w.(color := Red)))
    else Whole(Plug(c.up, Turned(c, t, Outer(c, w))))
  }

  // The hole after the red sibling has been lifted over the parent.
  function Lowered(c: Ctx): (r: Ctx)
    requires !c.Top? && Sibling(c).Node?
    ensures !r.Top? && !r.up.Top? && r.up.up == c.up && (r.InLeft? <==> c.InLeft?)
  {
    if c.InLeft? then InLeft(InLeft(c.up, Black, c.right.elm, c.right.right), Red, c.elm, c.right.left)
    else InRight(c.left.right, Red, c.elm, InRight(c.left.left, Black, c.left.elm, c.up))
  }

  lemma StillShort(c: Ctx, t: Tree)
    requires Short(c, t) && !IsRed(t) && !c.Top? && Sibling(c).Node? && Sibling(c).color.Black?
    ensures WithBlackSibling(c, t).Still? ==>
      var o := WithBlackSibling(c, t); Short(o.up, o.t) && o.up == c.up && (c.color.Red? ==> IsRed(o.t))
  {
    if WithBlackSibling(c, t).Still? {
      BlackNephews(c, t);
    }
  }

  lemma LoweredShort(c: Ctx, t: Tree)
    requires Short(c, t) && !IsRed(t) && !c.Top? && Sibling(c).Node? && IsRed(Sibling(c))
    ensures Short(Lowered(c), t) && Sibling(Lowered(c)).Node? && Sibling(Lowered(c)).color.Black?
  {
    RedSibling(c, t);
    SiblingExists(Lowered(c), t);
  }

  // One pass of the RB_REMOVE_COLOR loop.
  ghost function Pass(c: Ctx, t: Tree): (o: Outcome)
    requires Short(c, t) && !IsRed(t) && !c.Top?
    ensures o.Still? ==> Short(o.up, o.t) && (IsRed(o.t) || Depth(o.up) < Depth(c))
  {
    SiblingExists(c, t);
    if IsRed(Sibling(c)) then
      LoweredShort(c, t);
      StillShort(Lowered(c), t);
      WithBlackSibling(Lowered(c), t)
    else
      StillShort(c, t);
      WithBlackSibling(c, t)
  }

  // What RB_REMOVE_COLOR makes of a tree that is short at the hole of c.
  ghost function Refilled(c: Ctx, t: Tree): Tree
    requires Short(c, t)
    decreases if IsRed(t) then 0 else Depth(c) + 1
  {
    if IsRed(t) || c.Top? then Plug(c, Patched(t))
    else
      match Pass(c, t)
      case Whole(u) => Patched(u)
      case Still(up, s) => Refilled(up, s)
  }

  lemma RefilledEnds(c: Ctx, t: Tree)
    requires Short(c, t) && (IsRed(t) || c.Top?)
    ensures Refilled(c, t) == Plug(c, Patched(t))
  {
  }

  // Where the pass has led to, in the words of the code.
  lemma RefilledOn(c: Ctx, t: Tree, c1: Ctx, done: bool, whole: Tree)
    requires Short(c, t) && !IsRed(t) && !c.Top? && Sibling(c).Node?
    requires c1 == if IsRed(Sibling(c)) then Lowered(c) else c
    requires Sibling(c1).Node? && (done <==> WithBlackSibling(c1, t).Whole?)
    requires done ==> whole == WithBlackSibling(c1, t).tree && Short(Top, whole)
    ensures done ==> Refilled(Top, whole) == Refilled(c, t)
    ensures !done ==> var u := Over(c1, c1.color, t, Sibling(c1).(color := Red));
      Short(c1.up, u) && Refilled(c1.up, u) == Refilled(c, t)
  {
    var o := Pass(c, t);
    assert o == WithBlackSibling(c1, t);
  }

  // The node that heads t, which has at most one child, goes.
  ghost function SplicedOut(c: Ctx, t: Tree): Tree
    requires RedBlackTree(Plug(c, t)) && t.Node? && (t.left.Leaf? || t.right.Leaf?)
  {
    SplicedRules(c, t);
    if t.color.Black? then Refilled(c, Spliced(t)) else Plug(c, Spliced(t))
  }

  // The path to the first node of t, and the tree that it heads.
  function FirstPath(inner: Ctx, t: Tree): (r: (Ctx, Tree))
    requires t.Node?
    ensures r.1.Node? && r.1.left.Leaf? && Plug(r.0, r.1) == Plug(inner, t)
    decreases t
  {
    if t.left.Leaf? then (inner, t) else FirstPath(InLeft(inner, t.color, t.elm, t.right), t.left)
  }

  // The hole of the successor of the node that heads t, once the successor has taken that node's place.
  function SuccessorHole(c: Ctx, t: Tree): (r: (Ctx, Tree))
    requires t.Node? && t.right.Node?
    ensures r.1.Node? && r.1.left.Leaf?
  {
    var p := FirstPath(Top, t.right);
    (Append(p.0, InRight(t.left, t.color, p.1.elm, c)), p.1)
  }

  // The rules do not look at which node sits where.
  lemma SuccessorKeepsRules(c: Ctx, t: Tree)
    requires RedBlackTree(Plug(c, t)) && t.Node? && t.right.Node?
    ensures var r := SuccessorHole(c, t); RedBlackTree(Plug(r.0, r.1))
  {
    var p, r := FirstPath(Top, t.right), SuccessorHole(c, t);
    var base := InRight(t.left, t.color, t.elm, c);
    PlugAppend(p.0, base, p.1);
    FitsPlug(Append(p.0, base), p.1);
    FitsAppend(p.0, base, p.1.elm, BlackHeight(p.1));
    FitsPlug(r.0, p.1);
    SameColours(p.0, base, p.1.elm);
  }

  lemma SameColours(inner: Ctx, base: Ctx, e: RbNode)
    requires !base.Top?
    ensures var c, c' := Append(inner, base), Append(inner, base.(elm := e));
      !c.Top? && !c'.Top? && c'.color == c.color
  {
  }

  // What RB_REMOVE makes of the tree when the node that heads t at the hole of c goes.
  ghost function RemovedAt(c: Ctx, t: Tree): Tree
    requires RedBlackTree(Plug(c, t)) && t.Node?
  {
    if t.left.Leaf? || t.right.Leaf? then SplicedOut(c, t)
    else
      SuccessorKeepsRules(c, t);
      var r := SuccessorHole(c, t);
      SplicedOut(r.0, r.1)
  }

  // What RB_REMOVE makes of a tree that holds x.
  ghost function WithoutNode(t: Tree, x: RbNode): Tree
    requires RedBlackTree(t) && x in Elems(t)
  {
    var r := PathTo(Top, t, x);
    RemovedAt(r.0, r.1)
  }
}
