/**
 RB_HEAD and its operations on linked nodes. Every method works on the real fields of the nodes;
 the ghost field `tree` is the coloured tree those fields spell out.
 */
module RedBlack {
  import opened Sequences
  import opened RedBlackResults
  import opened RedBlackTheory

  class RbHead {
    var root: RbNode?
    ghost var tree: Tree

    ghost predicate Valid()
      reads this, Elems(tree)
    {
      Apart(tree) && Linked(Snap(Elems(tree)), root, null, tree)
    }

    // What every operation keeps: linked as drawn, coloured by the rules, ordered by key.
    ghost predicate Good()
      reads this, Elems(tree)
    {
      Valid() && RedBlackTree(tree) && Ordered(InOrder(tree))
    }

    // RB_INIT
    constructor ()
      ensures Good() && tree == Leaf
    {
      root, tree := null, Leaf;
    }

    // The fragment that hangs `to` where `from` hung: in parent's left or right field, or in the root.
    method Relink(parent: RbNode?, from: RbNode, to: RbNode?)
      modifies this`root, if parent != null then {parent} else {}
      ensures root == if parent == null then to else old(root)
      ensures parent != null && old(parent.left) == from ==> CellOf(parent) == old(CellOf(parent)).(left := to)
      ensures parent != null && old(parent.left) != from ==> CellOf(parent) == old(CellOf(parent)).(right := to)
    {
      if parent != null {
        if from == parent.left {
          parent.left := to;
        } else {
          parent.right := to;
        }
      } else {
        root := to;
      }
    }

    // RB_ROTATE_LEFT on bare fields.
    method RotateLeftFields(elm: RbNode, ghost E: set<RbNode>) returns (tmp: RbNode)
      requires elm.right != null && {elm, elm.right} <= E && elm != elm.right
      requires elm.right.left != null ==> elm.right.left in E - {elm, elm.right}
      requires elm.parent != null ==> elm.parent in E - {elm, elm.right} && elm.parent != elm.right.left
      modifies this`root, E
      ensures tmp == old(elm.right) && root == if old(elm.parent) == null then tmp else old(root)
      ensures CellOf(elm) == old(CellOf(elm)).(right := old(elm.right.left), parent := tmp)
      ensures CellOf(tmp) == old(CellOf(elm.right)).(left := elm, parent := old(elm.parent))
      ensures var b := old(elm.right.left); b != null ==> CellOf(b) == old(CellOf(elm.right.left)).(parent := elm)
      ensures var p := old(elm.parent);
        p != null && old(elm.parent.left) == elm ==> CellOf(p) == old(CellOf(elm.parent)).(left := tmp)
      ensures var p := old(elm.parent);
        p != null && old(elm.parent.left) != elm ==> CellOf(p) == old(CellOf(elm.parent)).(right := tmp)
      ensures forall z :: z in E && z != elm && z != tmp && z != old(elm.right.left) && z != old(elm.parent) ==>
        CellOf(z) == old(CellOf(z))
    {
      tmp := elm.right;
      elm.right := tmp.left;
      if elm.right != null {
        tmp.left.parent := elm;
      }
      tmp.parent := elm.parent;
      Relink(elm.parent, elm, tmp);
      tmp.left := elm;
      elm.parent := tmp;
    }

    // RB_ROTATE_LEFT at the hole of c.
    method RotateLeft(elm: RbNode, ghost c: Ctx, ghost t: Tree) returns (tmp: RbNode)
      requires Valid() && tree == Plug(c, t) && t.Node? && t.elm == elm && t.right.Node?
      modifies this, Elems(tree)
      ensures Valid() && tree == Plug(c, RotLeft(t)) && tmp == t.right.elm
      ensures InOrder(tree) == old(InOrder(tree)) && Elems(tree) == old(Elems(tree))
    {
      hide Linked, LinkedCtx, Plug, InOrder, Apart, CtxApart, Elems, CtxElems;
      ghost var E := Elems(tree);
      ghost var m := Snap(E);
      Neighbourhood(m, root, c, t);
      PivotLeft(m, Above(c), t);
      tmp := RotateLeftFields(elm, E);
      RotateLeftDone(m, Snap(E), old(root), root, c, t);
      tree := Plug(c, RotLeft(t));
    }

    method RotateRightFields(elm: RbNode, ghost E: set<RbNode>) returns (tmp: RbNode)
      requires elm.left != null && {elm, elm.left} <= E && elm != elm.left
      requires elm.left.right != null ==> elm.left.right in E - {elm, elm.left}
      requires elm.parent != null ==> elm.parent in E - {elm, elm.left} && elm.parent != elm.left.right
      modifies this`root, E
      ensures tmp == old(elm.left) && root == if old(elm.parent) == null then tmp else old(root)
      ensures CellOf(elm) == old(CellOf(elm)).(left := old(elm.left.right), parent := tmp)
      ensures CellOf(tmp) == old(CellOf(elm.left)).(right := elm, parent := old(elm.parent))
      ensures var b := old(elm.left.right); b != null ==> CellOf(b) == old(CellOf(elm.left.right)).(parent := elm)
      ensures var p := old(elm.parent);
        p != null && old(elm.parent.left) == elm ==> CellOf(p) == old(CellOf(elm.parent)).(left := tmp)
      ensures var p := old(elm.parent);
        p != null && old(elm.parent.left) != elm ==> CellOf(p) == old(CellOf(elm.parent)).(right := tmp)
      ensures forall z :: z in E && z != elm && z != tmp && z != old(elm.left.right) && z != old(elm.parent) ==>
        CellOf(z) == old(CellOf(z))
    {
      tmp := elm.left;
      elm.left := tmp.right;
      if elm.left != null {
        tmp.right.parent := elm;
      }
      tmp.parent := elm.parent;
      Relink(elm.parent, elm, tmp);
      tmp.right := elm;
      elm.parent := tmp;
    }

    // RB_ROTATE_RIGHT at the hole of c.
    method RotateRight(elm: RbNode, ghost c: Ctx, ghost t: Tree) returns (tmp: RbNode)
      requires Valid() && tree == Plug(c, t) && t.Node? && t.elm == elm && t.left.Node?
      modifies this, Elems(tree)
      ensures Valid() && tree == Plug(c, RotRight(t)) && tmp == t.left.elm
      ensures InOrder(tree) == old(InOrder(tree)) && Elems(tree) == old(Elems(tree))
    {
      hide Linked, LinkedCtx, Plug, InOrder, Apart, CtxApart, Elems, CtxElems;
      ghost var E := Elems(tree);
      ghost var m := Snap(E);
      Neighbourhood(m, root, c, t);
      PivotRight(m, Above(c), t);
      tmp := RotateRightFields(elm, E);
      RotateRightDone(m, Snap(E), old(root), root, c, t);
      tree := Plug(c, RotRight(t));
    }

    // RB_COLOR(x) = col, where x heads the tree at the hole of c.
    method SetColor(x: RbNode, col: Color, ghost c: Ctx, ghost t: Tree)
      requires Valid() && tree == Plug(c, t) && t.Node? && t.elm == x
      modifies this`tree, Elems(tree)
      ensures Valid() && tree == Plug(c, t.(color := col))
      ensures InOrder(tree) == old(InOrder(tree)) && Elems(tree) == old(Elems(tree))
    {
      hide Linked, LinkedCtx, Plug, Apart, CtxApart, InOrder, Elems;
      ghost var E := Elems(tree);
      ghost var m := Snap(E);
      Neighbourhood(m, root, c, t);
      x.color := col;
      PaintLinks(m, Snap(E), root, c, t, col);
      tree := Plug(c, t.(color := col));
    }

    // The fields around the hole of c, read off the tree.
    lemma See(c: Ctx, t: Tree)
      requires Valid() && tree == Plug(c, t)
      ensures c.Top? ==> root == Ptr(t)
      ensures t.Node? ==> t.elm in Elems(tree) && CellOf(t.elm) == Cell(Ptr(t.left), Ptr(t.right), Above(c), t.color)
      ensures !c.Top? ==> c.elm in Elems(tree)
      ensures c.InLeft? ==> CellOf(c.elm) == Cell(Ptr(t), Ptr(c.right), Above(c.up), c.color)
      ensures c.InRight? ==> CellOf(c.elm) == Cell(Ptr(c.left), Ptr(t), Above(c.up), c.color)
      ensures c.InRight? && t.Node? ==> Ptr(c.left) != t.elm
      ensures c.InLeft? && t.Node? ==> Ptr(c.right) != t.elm
      ensures !c.Top? && t.Node? ==> c.elm != t.elm
      ensures root == Ptr(t) <==> c.Top?
    {
      Neighbourhood(Snap(Elems(tree)), root, c, t);
      RootAbove(Snap(Elems(tree)), root, c, Ptr(t));
    }

    // RB_SET_BLACKRED(y, x) and RB_ROTATE_LEFT(x), for x at the hole of c and y its right child.
    method LiftLeft(x: RbNode, y: RbNode, ghost c: Ctx, ghost t: Tree)
      requires Valid() && tree == Plug(c, t) && t.Node? && t.elm == x && t.right.Node? && t.right.elm == y
      modifies this, Elems(tree)
      ensures Valid() && tree == Plug(c, Node(Black, Node(Red, t.left, x, t.right.left), y, t.right.right))
      ensures InOrder(tree) == old(InOrder(tree)) && Elems(tree) == old(Elems(tree))
    {
      ghost var t1 := t.(right := t.right.(color := Black));
      SetColor(y, Black, InRight(t.left, t.color, x, c), t.right);
      SetColor(x, Red, c, t1);
      var tmp := RotateLeft(x, c, t1.(color := Red));
    }

    method LiftRight(x: RbNode, y: RbNode, ghost c: Ctx, ghost t: Tree)
      requires Valid() && tree == Plug(c, t) && t.Node? && t.elm == x && t.left.Node? && t.left.elm == y
      modifies this, Elems(tree)
      ensures Valid() && tree == Plug(c, Node(Black, t.left.left, y, Node(Red, t.left.right, x, t.right)))
      ensures InOrder(tree) == old(InOrder(tree)) && Elems(tree) == old(Elems(tree))
    {
      ghost var t1 := t.(left := t.left.(color := Black));
      SetColor(y, Black, InLeft(c, t.color, x, t.right), t.left);
      SetColor(x, Red, c, t1);
      var tmp := RotateRight(x, c, t1.(color := Red));
    }

    // The red-uncle case: both children of gparent turn black, gparent red.
    method PushBlackness(l: RbNode, r: RbNode, gparent: RbNode, ghost c: Ctx, ghost t: Tree)
      requires Valid() && tree == Plug(c, t) && t.Node? && t.elm == gparent
      requires t.left.Node? && t.left.elm == l && t.right.Node? && t.right.elm == r
      modifies this`tree, Elems(tree)
      ensures Valid() && tree == Plug(c, Node(Red, t.left.(color := Black), gparent, t.right.(color := Black)))
      ensures InOrder(tree) == old(InOrder(tree)) && Elems(tree) == old(Elems(tree))
    {
      ghost var t1 := t.(right := t.right.(color := Black));
      ghost var t2 := t1.(left := t.left.(color := Black));
      SetColor(r, Black, InRight(t.left, t.color, gparent, c), t.right);
      SetColor(l, Black, InLeft(c, t.color, gparent, t1.right), t1.left);
      SetColor(gparent, Red, c, t2);
    }

    // The red node elm heads the tree at the hole of c; only its own parent may be red too.
    ghost predicate RedAt(elm: RbNode, c: Ctx, t: Tree)
      reads this, Elems(tree)
    {
      Valid() && tree == Plug(c, t) && IsRed(t) && t.elm == elm && Balanced(t) && Fits(c, BlackHeight(t))
    }

    // One pass of the RB_INSERT_COLOR loop with a red parent that is a left child.
    method InsertPassLeft(e: RbNode, p: RbNode, gparent: RbNode, ghost c: Ctx, ghost t: Tree)
      returns (elm: RbNode, ghost c': Ctx, ghost t': Tree)
      requires RedAt(e, c, t) && BelowRed(c) && c.elm == p && c.up.InLeft? && c.up.elm == gparent
      modifies this, Elems(tree)
      ensures RedAt(elm, c', t') && Depth(c') < Depth(c) && Recoloured(c', t') == Recoloured(c, t)
      ensures InOrder(tree) == old(InOrder(tree)) && Elems(tree) == old(Elems(tree))
    {
      hide Recoloured;
      elm, c', t' := e, c, t;
      var parent := p;
      ghost var up, g, u := c.up, c.up.up, c.up.right;
      ghost var pt := Upper(c, t);
      Grandparent(c, t);
      See(InRight(pt, Black, gparent, g), u);
      var tmp := gparent.right;
      if tmp != null && tmp.color == Red {
        RedUncleLeft(c, t);
        RecolouredUp(c, t);
        PushBlackness(parent, tmp, gparent, g, Node(Black, pt, gparent, u));
        elm := gparent;
        c', t' := g, Node(Red, pt.(color := Black), gparent, u.(color := Black));
      } else {
        BlackUncleLeft(c, t);
        See(c, t);
        if parent.right == elm {
          tmp := RotateLeft(parent, up, pt);
          pt := RotLeft(pt);
          tmp := parent;
          parent := elm;
          elm := tmp;
        }
        LiftRight(gparent, parent, g, Node(Black, pt, gparent, u));
        c', t' := InLeft(g, Black, parent, Node(Red, pt.right, gparent, u)), pt.left;
        RecolouredLast(c, t, c', t');
      }
    }

    method InsertPassRight(e: RbNode, p: RbNode, gparent: RbNode, ghost c: Ctx, ghost t: Tree)
      returns (elm: RbNode, ghost c': Ctx, ghost t': Tree)
      requires RedAt(e, c, t) && BelowRed(c) && c.elm == p && c.up.InRight? && c.up.elm == gparent
      modifies this, Elems(tree)
      ensures RedAt(elm, c', t') && Depth(c') < Depth(c) && Recoloured(c', t') == Recoloured(c, t)
      ensures InOrder(tree) == old(InOrder(tree)) && Elems(tree) == old(Elems(tree))
    {
      hide Recoloured;
      elm, c', t' := e, c, t;
      var parent := p;
      ghost var up, g, u := c.up, c.up.up, c.up.left;
      ghost var pt := Upper(c, t);
      Grandparent(c, t);
      See(InLeft(g, Black, gparent, pt), u);
      var tmp := gparent.left;
      if tmp != null && tmp.color == Red {
        RedUncleRight(c, t);
        RecolouredUp(c, t);
        PushBlackness(tmp, parent, gparent, g, Node(Black, u, gparent, pt));
        elm := gparent;
        c', t' := g, Node(Red, u.(color := Black), gparent, pt.(color := Black));
      } else {
        BlackUncleRight(c, t);
        See(c, t);
        if parent.left == elm {
          tmp := RotateRight(parent, up, pt);
          pt := RotRight(pt);
          tmp := parent;
          parent := elm;
          elm := tmp;
        }
        LiftLeft(gparent, parent, g, Node(Black, u, gparent, pt));
        c', t' := InRight(Node(Red, u, gparent, pt.left), Black, parent, g), pt.right;
        RecolouredLast(c, t, c', t');
      }
    }

    // RB_INSERT_COLOR
    method InsertColor(e: RbNode, ghost c0: Ctx, ghost t0: Tree)
      requires RedAt(e, c0, t0)
      modifies this, Elems(tree)
      ensures Valid() && RedBlackTree(tree) && tree == Recoloured(c0, t0)
      ensures InOrder(tree) == old(InOrder(tree)) && Elems(tree) == old(Elems(tree))
    {
      hide Recoloured;
      var elm := e;
      ghost var c, t := c0, t0;
      See(c, t);
      var parent := elm.parent;
      while parent != null && parent.color == Red
        invariant RedAt(elm, c, t) && parent == Above(c) && Recoloured(c, t) == Recoloured(c0, t0)
        invariant parent != null ==> parent in Elems(tree) && parent.color == c.color
        invariant InOrder(tree) == old(InOrder(tree)) && Elems(tree) == old(Elems(tree))
        decreases Depth(c)
      {
        Grandparent(c, t);
        See(c.up, Upper(c, t));
        var gparent := parent.parent;
        if parent == gparent.left {
          elm, c, t := InsertPassLeft(elm, parent, gparent, c, t);
        } else {
          elm, c, t := InsertPassRight(elm, parent, gparent, c, t);
        }
        See(c, t);
        parent := elm.parent;
      }
      Settled(c, t);
      RecolouredEnds(c, t);
      BlackenRoot();
    }

    // RB_COLOR(head->rbh_root) = RB_BLACK
    method BlackenRoot()
      requires Valid() && tree.Node?
      modifies this`tree, Elems(tree)
      ensures Valid() && tree == old(tree).(color := Black)
      ensures InOrder(tree) == old(InOrder(tree)) && Elems(tree) == old(Elems(tree))
    {
      See(Top, tree);
      SetColor(root, Black, Top, tree);
    }

    // One pass of the RB_REMOVE_COLOR loop with the short tree t in its parent's left field.
    method RemovePassLeft(parent: RbNode, ghost c: Ctx, ghost t: Tree)
      returns (done: bool, ghost c': Ctx, ghost t': Tree)
      requires Valid() && tree == Plug(c, t) && Short(c, t) && !IsRed(t) && c.InLeft? && c.elm == parent
      modifies this, Elems(tree)
      ensures Valid() && tree == Plug(c', t') && Short(c', t')
      ensures Refilled(c', t') == Refilled(c, t)
      ensures if done then c'.Top? else Ptr(t') == parent && (IsRed(t') || Depth(c') < Depth(c))
      ensures InOrder(tree) == old(InOrder(tree)) && Elems(tree) == old(Elems(tree))
    {
      hide Refilled;
      c', t' := c, t;
      See(c, t);
      SiblingExists(c, t);
      var tmp := parent.right;
      See(InRight(t, c.color, parent, c.up), c.right);
      if tmp.color == Red {
        RedSibling(c, t);
        LiftLeft(parent, tmp, c.up, Upper(c, t));
        c' := InLeft(InLeft(c.up, Black, tmp, c.right.right), Red, parent, c.right.left);
        See(c', t);
        tmp := parent.right;
      }
      done := RemoveBlackSiblingLeft(parent, tmp, c', t);
      RefilledOn(c, t, c', done, tree);
      if done {
        c', t' := Top, tree;
      } else {
        c', t' := c'.up, Node(c'.color, t, parent, c'.right.(color := Red));
      }
    }

    // The rest of the pass, once the sibling tmp is black.
    method RemoveBlackSiblingLeft(parent: RbNode, sibling: RbNode, ghost c: Ctx, ghost t: Tree) returns (done: bool)
      requires Valid() && tree == Plug(c, t) && Short(c, t) && !IsRed(t) && c.InLeft? && c.elm == parent
      requires c.right.Node? && c.right.elm == sibling && c.right.color == Black
      modifies this, Elems(tree)
      ensures Valid() && if done then RedBlackTree(tree) else
        tree == Plug(c.up, Node(c.color, t, parent, c.right.(color := Red)))
        && Short(c.up, Node(c.color, t, parent, c.right.(color := Red)))
      ensures InOrder(tree) == old(InOrder(tree)) && Elems(tree) == old(Elems(tree))
      ensures (done <==> WithBlackSibling(c, t).Whole?) && (done ==> tree == WithBlackSibling(c, t).tree)
    {
      var tmp := sibling;
      ghost var w, up := c.right, c.up;
      ghost var cw := InRight(t, c.color, parent, up);
      See(cw, w);
      See(InLeft(cw, Black, tmp, w.right), w.left);
      See(InRight(w.left, Black, tmp, cw), w.right);
      if (tmp.left == null || tmp.left.color == Black) && (tmp.right == null || tmp.right.color == Black) {
        BlackNephews(c, t);
        SetColor(tmp, Red, cw, w);
        done := false;
      } else {
        ghost var c1 := c;
        if tmp.right == null || tmp.right.color == Black {
          InnerNephew(c, t);
          var oleft := tmp.left;
          LiftRight(tmp, oleft, cw, w);
          w := Node(Black, w.left.left, oleft, Node(Red, w.left.right, tmp, w.right));
          c1 := c.(right := w);
          See(c1, t);
          tmp := parent.right;
          See(cw, w);
        }
        RedNephewLeft(c1, t);
        RotateOverLeft(parent, tmp, up, Node(c.color, t, parent, w));
        done := true;
      }
    }

    // tmp takes its parent's colour, the parent and tmp's outer child turn black, tmp rotates up.
    method RotateOverLeft(parent: RbNode, tmp: RbNode, ghost c: Ctx, ghost t: Tree)
      requires Valid() && tree == Plug(c, t) && t.Node? && t.elm == parent
      requires t.right.Node? && t.right.elm == tmp && t.right.right.Node?
      modifies this, Elems(tree)
      ensures Valid() && tree == Plug(c, Node(t.color, Node(Black, t.left, parent, t.right.left), tmp,
                                             t.right.right.(color := Black)))
      ensures InOrder(tree) == old(InOrder(tree)) && Elems(tree) == old(Elems(tree))
    {
      ghost var w := t.right;
      See(c, t);
      SetColor(tmp, parent.color, InRight(t.left, t.color, parent, c), w);
      SetColor(parent, Black, c, t.(right := w.(color := t.color)));
      ghost var cw := InRight(t.left, Black, parent, c);
      See(cw, w.(color := t.color));
      if tmp.right != null {
        SetColor(tmp.right, Black, InRight(w.left, t.color, tmp, cw), w.right);
      }
      var tmp' := RotateLeft(parent, c,
                             Node(Black, t.left, parent, Node(t.color, w.left, tmp, w.right.(color := Black))));
    }

    method RemovePassRight(parent: RbNode, ghost c: Ctx, ghost t: Tree)
      returns (done: bool, ghost c': Ctx, ghost t': Tree)
      requires Valid() && tree == Plug(c, t) && Short(c, t) && !IsRed(t) && c.InRight? && c.elm == parent
      modifies this, Elems(tree)
      ensures Valid() && tree == Plug(c', t') && Short(c', t')
      ensures Refilled(c', t') == Refilled(c, t)
      ensures if done then c'.Top? else Ptr(t') == parent && (IsRed(t') || Depth(c') < Depth(c))
      ensures InOrder(tree) == old(InOrder(tree)) && Elems(tree) == old(Elems(tree))
    {
      hide Refilled;
      c', t' := c, t;
      See(c, t);
      SiblingExists(c, t);
      var tmp := parent.left;
      See(InLeft(c.up, c.color, parent, t), c.left);
      if tmp.color == Red {
        RedSibling(c, t);
        LiftRight(parent, tmp, c.up, Upper(c, t));
        c' := InRight(c.left.right, Red, parent, InRight(c.left.left, Black, tmp, c.up));
        See(c', t);
        tmp := parent.left;
      }
      done := RemoveBlackSiblingRight(parent, tmp, c', t);
      RefilledOn(c, t, c', done, tree);
      if done {
        c', t' := Top, tree;
      } else {
        c', t' := c'.up, Node(c'.color, c'.left.(color := Red), parent, t);
      }
    }

    method RemoveBlackSiblingRight(parent: RbNode, sibling: RbNode, ghost c: Ctx, ghost t: Tree) returns (done: bool)
      requires Valid() && tree == Plug(c, t) && Short(c, t) && !IsRed(t) && c.InRight? && c.elm == parent
      requires c.left.Node? && c.left.elm == sibling && c.left.color == Black
      modifies this, Elems(tree)
      ensures Valid() && if done then RedBlackTree(tree) else
        tree == Plug(c.up, Node(c.color, c.left.(color := Red), parent, t))
        && Short(c.up, Node(c.color, c.left.(color := Red), parent, t))
      ensures InOrder(tree) == old(InOrder(tree)) && Elems(tree) == old(Elems(tree))
      ensures (done <==> WithBlackSibling(c, t).Whole?) && (done ==> tree == WithBlackSibling(c, t).tree)
    {
      var tmp := sibling;
      ghost var w, up := c.left, c.up;
      ghost var cw := InLeft(up, c.color, parent, t);
      See(cw, w);
      See(InLeft(cw, Black, tmp, w.right), w.left);
      See(InRight(w.left, Black, tmp, cw), w.right);
      if (tmp.left == null || tmp.left.color == Black) && (tmp.right == null || tmp.right.color == Black) {
        BlackNephews(c, t);
        SetColor(tmp, Red, cw, w);
        done := false;
      } else {
        ghost var c1 := c;
        if tmp.left == null || tmp.left.color == Black {
          InnerNephew(c, t);
          var oright := tmp.right;
          LiftLeft(tmp, oright, cw, w);
          w := Node(Black, Node(Red, w.left, tmp, w.right.left), oright, w.right.right);
          c1 := c.(left := w);
          See(c1, t);
          tmp := parent.left;
          See(cw, w);
        }
        RedNephewRight(c1, t);
        RotateOverRight(parent, tmp, up, Node(c.color, w, parent, t));
        done := true;
      }
    }

    method RotateOverRight(parent: RbNode, tmp: RbNode, ghost c: Ctx, ghost t: Tree)
      requires Valid() && tree == Plug(c, t) && t.Node? && t.elm == parent
      requires t.left.Node? && t.left.elm == tmp && t.left.left.Node?
      modifies this, Elems(tree)
      ensures Valid() && tree == Plug(c, Node(t.color, t.left.left.(color := Black), tmp,
                                             Node(Black, t.left.right, parent, t.right)))
      ensures InOrder(tree) == old(InOrder(tree)) && Elems(tree) == old(Elems(tree))
    {
      ghost var w := t.left;
      See(c, t);
      SetColor(tmp, parent.color, InLeft(c, t.color, parent, t.right), w);
      SetColor(parent, Black, c, t.(left := w.(color := t.color)));
      ghost var cw := InLeft(c, Black, parent, t.right);
      See(cw, w.(color := t.color));
      if tmp.left != null {
        SetColor(tmp.left, Black, InLeft(cw, t.color, tmp, w.right), w.left);
      }
      var tmp' := RotateRight(parent, c,
                              Node(Black, Node(t.color, w.left.(color := Black), tmp, w.right), parent, t.right));
    }

    // RB_REMOVE_COLOR: the tree t at the hole below p0 is one black node short.
    method RemoveColor(p0: RbNode?, e0: RbNode?, ghost c0: Ctx, ghost t0: Tree)
      requires Valid() && tree == Plug(c0, t0) && Short(c0, t0) && Above(c0) == p0 && Ptr(t0) == e0
      modifies this, Elems(tree)
      ensures Valid() && RedBlackTree(tree) && tree == Refilled(c0, t0)
      ensures InOrder(tree) == old(InOrder(tree)) && Elems(tree) == old(Elems(tree))
    {
      hide Refilled, RbHead.Valid, Plug, Elems;
      var parent, elm := p0, e0;
      ghost var c, t := c0, t0;
      See(c, t);
      while (elm == null || elm.color == Black) && elm != root
        invariant Valid() && tree == Plug(c, t) && Short(c, t) && parent == Above(c) && elm == Ptr(t)
        invariant Refilled(c, t) == Refilled(c0, t0)
        invariant elm != null ==> elm in Elems(tree) && elm.color == t.color
        invariant elm == root <==> c.Top?
        invariant InOrder(tree) == old(InOrder(tree)) && Elems(tree) == old(Elems(tree))
        decreases if IsRed(t) then 0 else Depth(c) + 1
      {
        See(c, t);
        var done;
        if parent.left == elm {
          done, c, t := RemovePassLeft(parent, c, t);
        } else {
          done, c, t := RemovePassRight(parent, c, t);
        }
        See(c, t);
        if done {
          elm := root;
          break;
        }
        elm := parent;
        parent := elm.parent;
      }
      See(c, t);
      Mended(c, t);
      RefilledEnds(c, t);
      if elm != null {
        SetColor(elm, Black, c, t);
      }
    }

    method SpliceFields(elm: RbNode, child: RbNode?, ghost E: set<RbNode>)
      requires child != null ==> child in E - {elm} && child != elm.parent
      requires elm.parent != null ==> elm.parent in E - {elm}
      modifies this`root, E - {elm}
      ensures root == if elm.parent == null then child else old(root)
      ensures child != null ==> CellOf(child) == old(CellOf(child)).(parent := elm.parent)
      ensures var p := elm.parent; p != null && old(elm.parent.left) == elm ==>
        CellOf(p) == old(CellOf(elm.parent)).(left := child)
      ensures var p := elm.parent; p != null && old(elm.parent.left) != elm ==>
        CellOf(p) == old(CellOf(elm.parent)).(right := child)
      ensures forall z :: z in E && z != child && z != elm.parent ==> CellOf(z) == old(CellOf(z))
    {
      var parent := elm.parent;
      if child != null {
        child.parent := parent;
      }
      Relink(parent, elm, child);
    }

    // Takes elm, which has at most one child, out of the links; elm's own fields stay as they were.
    method Splice(elm: RbNode, child: RbNode?, ghost c: Ctx, ghost t: Tree)
      requires Valid() && tree == Plug(c, t) && t.Node? && t.elm == elm
      requires (t.left.Leaf? || t.right.Leaf?) && child == Ptr(Spliced(t))
      modifies this, Elems(tree) - {elm}
      ensures Valid() && tree == Plug(c, Spliced(t)) && Elems(tree) == old(Elems(tree)) - {elm}
    {
      hide Linked, LinkedCtx, Plug, InOrder, Apart, CtxApart, Elems, CtxElems;
      ghost var E := Elems(tree);
      ghost var m := Snap(E);
      Neighbourhood(m, root, c, t);
      SplicePlace(m, Above(c), t);
      SpliceFields(elm, child, E);
      SpliceLinks(m, Snap(E), old(root), root, c, t);
      Shrunk(E, root, Plug(c, Spliced(t)));
      tree := Plug(c, Spliced(t));
    }

    method SubstituteFields(o: RbNode, elm: RbNode, ghost E: set<RbNode>)
      requires o in E && elm !in E && o.left != null && o.left in E - {o}
      requires o.right != null ==> o.right in E - {o, o.left}
      requires o.parent != null ==> o.parent in E - {o, o.left} && o.parent != o.right
      modifies this`root, E - {o}, elm
      ensures root == if o.parent == null then elm else old(root)
      ensures CellOf(elm) == CellOf(o) && CellOf(o.left) == old(CellOf(o.left)).(parent := elm)
      ensures o.right != null ==> CellOf(o.right) == old(CellOf(o.right)).(parent := elm)
      ensures var p := o.parent; p != null && old(o.parent.left) == o ==>
        CellOf(p) == old(CellOf(o.parent)).(left := elm)
      ensures var p := o.parent; p != null && old(o.parent.left) != o ==>
        CellOf(p) == old(CellOf(o.parent)).(right := elm)
      ensures forall z :: z in E && z != o.left && z != o.right && z != o.parent ==> CellOf(z) == old(CellOf(z))
    {
      elm.left, elm.right, elm.parent, elm.color := o.left, o.right, o.parent, o.color;
      Relink(o.parent, o, elm);
      o.left.parent := elm;
      if o.right != null {
        o.right.parent := elm;
      }
    }

    // (elm)->field = (old)->field and the relinking after it: elm takes over o's place in the tree.
    method Substitute(o: RbNode, elm: RbNode, ghost c: Ctx, ghost t: Tree)
      requires Valid() && tree == Plug(c, t) && t.Node? && t.elm == o && t.left.Node? && elm !in Elems(tree)
      modifies this, Elems(tree) - {o}, elm
      ensures Valid() && tree == Plug(c, t.(elm := elm)) && Elems(tree) == old(Elems(tree)) - {o} + {elm}
    {
      hide Linked, LinkedCtx, Plug, InOrder, Apart, CtxApart, Elems, CtxElems;
      ghost var E := Elems(tree);
      ghost var m := Snap(E);
      Neighbourhood(m, root, c, t);
      SubstitutePlace(m, Above(c), t);
      SubstituteFields(o, elm, E);
      ghost var E' := E + {elm};
      SubstituteLinks(m, Snap(E'), old(root), root, c, t, elm);
      Shrunk(E', root, Plug(c, t.(elm := elm)));
      tree := Plug(c, t.(elm := elm));
    }

    // RB_REMOVE
    method Remove(o: RbNode) returns (removed: RbNode)
      requires Good() && o in Elems(tree)
      modifies this, Elems(tree)
      ensures Good() && removed == o && Elems(tree) == old(Elems(tree)) - {o}
      ensures Dropped(old(InOrder(tree)), InOrder(tree), o) && tree == WithoutNode(old(tree), o)
    {
      ghost var at := PathTo(Top, tree, o);
      ghost var c, t := at.0, at.1;
      See(c, t);
      if o.left == null {
        RemoveInner(o, o.right, c, t);
      } else if o.right == null {
        RemoveInner(o, o.left, c, t);
      } else {
        RemoveBySuccessor(o, c, t);
      }
      DroppedOrdered(old(InOrder(tree)), InOrder(tree), o);
      removed := o;
    }

    // The node has at most one child.
    method RemoveInner(elm: RbNode, child: RbNode?, ghost c: Ctx, ghost t: Tree)
      requires Valid() && RedBlackTree(tree) && tree == Plug(c, t) && t.Node? && t.elm == elm
      requires (t.left.Leaf? || t.right.Leaf?) && child == Ptr(Spliced(t))
      modifies this, Elems(tree)
      ensures Valid() && RedBlackTree(tree) && Elems(tree) == old(Elems(tree)) - {elm}
      ensures Dropped(old(InOrder(tree)), InOrder(tree), elm) && tree == SplicedOut(c, t)
    {
      See(c, t);
      SplicedRules(c, t);
      SplicedInOrder(c, t);
      var parent, color := elm.parent, elm.color;
      Splice(elm, child, c, t);
      if color == Black {
        RemoveColor(parent, child, c, Spliced(t));
      } else {
        FitsPlug(c, Leaf);
      }
    }

    // The leftmost node below o's right child, with its path from there.
    method LeftmostOfRight(o: RbNode, ghost c: Ctx, ghost t: Tree)
      returns (elm: RbNode, ghost inner: Ctx, ghost sub: Tree)
      requires Valid() && tree == Plug(c, t) && t.Node? && t.elm == o && t.right.Node?
      ensures Valid() && t.right == Plug(inner, sub) && Before(inner) == [] && sub.Node? && sub.left.Leaf? &&
        elm == sub.elm
      ensures tree == Plug(Append(inner, InRight(t.left, t.color, o, c)), sub)
      ensures FirstPath(Top, t.right) == (inner, sub)
    {
      ghost var base := InRight(t.left, t.color, o, c);
      inner, sub := Top, t.right;
      See(c, t);
      See(base, sub);
      elm := o.right;
      var left := elm.left;
      while left != null
        invariant Valid() && tree == Plug(Append(inner, base), sub)
        invariant t.right == Plug(inner, sub) && Before(inner) == []
        invariant sub.Node? && elm == sub.elm && left == Ptr(sub.left)
        invariant FirstPath(inner, sub) == FirstPath(Top, t.right)
        decreases sub
      {
        inner, sub := InLeft(inner, sub.color, sub.elm, sub.right), sub.left;
        elm := left;
        See(Append(inner, base), sub);
        left := elm.left;
      }
    }

    // The node has two children: its in-order successor takes its place.
    method RemoveBySuccessor(o: RbNode, ghost c: Ctx, ghost t: Tree)
      requires Valid() && RedBlackTree(tree) && tree == Plug(c, t) && t.Node? && t.elm == o
      requires t.left.Node? && t.right.Node?
      modifies this, Elems(tree)
      ensures Valid() && RedBlackTree(tree) && Elems(tree) == old(Elems(tree)) - {o}
      ensures Dropped(old(InOrder(tree)), InOrder(tree), o) && tree == RemovedAt(c, t)
    {
      hide Linked, LinkedCtx, Apart, CtxApart, InOrder, RedBlackTree, Dropped;
      var elm;
      ghost var inner, sub;
      elm, inner, sub := LeftmostOfRight(o, c, t);
      ghost var cs := Append(inner, InRight(t.left, t.color, o, c));
      ghost var cs' := Append(inner, InRight(t.left, t.color, elm, c));
      See(cs, sub);
      SuccessorMoves(c, t, inner, sub);
      SuccessorRules(InRight(t.left, t.color, o, c), inner, sub);
      SuccessorInOrder(c, t, inner, sub);
      var child, parent, color := elm.right, elm.parent, elm.color;
      Splice(elm, child, cs, sub);
      if elm.parent == o {
        parent := elm;
      }
      Substitute(o, elm, c, t.(right := Plug(inner, sub.right)));
      if color == Black {
        RemoveColor(parent, child, cs', sub.right);
      }
    }

    // Hangs the fresh node elm in the empty hole of c: RB_SET and the link from its parent.
    method Attach(elm: RbNode, parent: RbNode?, comp: int, ghost c: Ctx)
      requires Valid() && tree == Plug(c, Leaf) && parent == Above(c) && elm !in Elems(tree)
      requires c.InLeft? ==> comp < 0
      requires c.InRight? ==> comp >= 0
      modifies this, Elems(tree), elm
      ensures Valid() && tree == Plug(c, Node(Red, Leaf, elm, Leaf)) && Elems(tree) == old(Elems(tree)) + {elm}
    {
      hide Linked, LinkedCtx, Plug, Apart, CtxApart, InOrder, Elems;
      ghost var E := Elems(tree);
      ghost var m := Snap(E);
      Neighbourhood(m, root, c, Leaf);
      elm.parent, elm.left, elm.right, elm.color := parent, null, null, Red;
      if parent != null {
        if comp < 0 {
          parent.left := elm;
        } else {
          parent.right := elm;
        }
      } else {
        root := elm;
      }
      AttachLinks(m, Snap(E + {elm}), old(root), root, c, elm);
      tree := Plug(c, Node(Red, Leaf, elm, Leaf));
    }

    // The descent shared by RB_INSERT and RB_FIND: the node with an equal key, or the empty place for it.
    method Descend(elm: RbNode) returns (found: RbNode?, parent: RbNode?, comp: int, ghost c: Ctx, ghost t: Tree)
      requires Valid() && Ordered(InOrder(tree))
      ensures Valid() && tree == Plug(c, t) && found == Ptr(t) && Ordered(InOrder(t)) && Around(c, elm.key)
      ensures found != null ==> found.key == elm.key && found in Elems(tree)
      ensures found == null ==> c == HoleFor(Top, tree, elm.key)
      ensures found == null ==> parent == Above(c) && (c.InLeft? ==> comp < 0) && (c.InRight? ==> comp > 0)
    {
      found, parent, comp, c, t := root, null, 0, Top, tree;
      See(c, t);
      while found != null
        invariant Valid() && tree == Plug(c, t) && found == Ptr(t) && parent == Above(c)
        invariant Around(c, elm.key) && Ordered(InOrder(t))
        invariant HoleFor(c, t, elm.key) == HoleFor(Top, tree, elm.key)
        invariant (c.InLeft? ==> comp < 0) && (c.InRight? ==> comp > 0)
        decreases t
      {
        See(c, t);
        comp := elm.key - found.key;
        if comp < 0 {
          AroundLeft(c, t, elm.key);
          parent, c, t := found, InLeft(c, t.color, t.elm, t.right), t.left;
          found := found.left;
        } else if comp > 0 {
          AroundRight(c, t, elm.key);
          parent, c, t := found, InRight(t.left, t.color, t.elm, c), t.right;
          found := found.right;
        } else {
          return;
        }
      }
    }

    // RB_INSERT
    method Insert(elm: RbNode) returns (existing: RbNode?)
      requires Good()
      modifies this, Elems(tree), elm
      ensures Good()
      ensures existing != null <==> exists x :: x in old(Elems(tree)) && x.key == elm.key
      ensures existing != null ==> existing in Elems(tree) && existing.key == elm.key
      ensures existing != null ==> tree == old(tree) && unchanged(this) && unchanged(elm)
      ensures existing == null ==> Added(old(InOrder(tree)), InOrder(tree), elm)
      ensures existing == null ==> Elems(tree) == old(Elems(tree)) + {elm} && tree == WithNode(old(tree), elm)
    {
      hide Recoloured, HoleFor, Around, Plug;
      var parent, comp;
      ghost var c, t;
      existing, parent, comp, c, t := Descend(elm);
      if existing != null {
        return;
      }
      AddedAround(c, elm);
      AbsentAround(c, elm.key);
      FitsPlug(c, Leaf);
      Attach(elm, parent, comp, c);
      InsertColor(elm, c, Node(Red, Leaf, elm, Leaf));
    }

    // RB_FIND
    method Find(elm: RbNode) returns (found: RbNode?)
      requires Valid() && Ordered(InOrder(tree))
      ensures found != null ==> found in Elems(tree) && found.key == elm.key
      ensures found == null ==> forall x :: x in Elems(tree) ==> x.key != elm.key
    {
      var parent, comp;
      ghost var c, t;
      found, parent, comp, c, t := Descend(elm);
      if found == null {
        AbsentAround(c, elm.key);
      }
    }
  }
}
