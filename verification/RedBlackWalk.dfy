/**
 Read-only walks over a red-black tree: RB_MINMAX, RB_NEXT, RB_PREV, RB_NFIND and RB_FOREACH.
 */
module RedBlackWalk {
  import opened RedBlackTheory
  import opened RedBlack

  // RB_MINMAX: RB_MIN for val < 0, RB_MAX otherwise.
  method MinMax(head: RbHead, val: int) returns (parent: RbNode?)
    requires head.Good()
    ensures head.Good() && parent == if val < 0 then First(InOrder(head.tree)) else Last(InOrder(head.tree))
  {
    var tmp := head.root;
    parent := null;
    ghost var c, t := Top, head.tree;
    head.See(c, t);
    while tmp != null
      invariant head.Good() && head.tree == Plug(c, t) && tmp == Ptr(t) && parent == Above(c)
      invariant if val < 0 then Before(c) == [] && parent == First(After(c))
                else After(c) == [] && parent == Last(Before(c))
      decreases t
    {
      parent := tmp;
      head.See(c, t);
      if val < 0 {
        c, t := InLeft(c, t.color, t.elm, t.right), t.left;
        tmp := tmp.left;
      } else {
        c, t := InRight(t.left, t.color, t.elm, c), t.right;
        tmp := tmp.right;
      }
    }
    InOrderEmptyHole(c);
  }

  // RB_NEXT
  method Next(ghost head: RbHead, e: RbNode) returns (elm: RbNode?)
    requires head.Good() && e in Elems(head.tree)
    ensures head.Good() && IsNext(InOrder(head.tree), e, elm)
    ensures elm != null ==> elm in Elems(head.tree)
  {
    ghost var at := PathTo(Top, head.tree, e);
    ghost var c, t := at.0, at.1;
    InOrderAt(c, t);
    head.See(c, t);
    elm := e;
    if elm.right != null {
      elm := Leftmost(head, elm.right, InRight(t.left, t.color, e, c), t.right);
    } else {
      assert InOrder(t.right) + After(c) == After(c);
      if elm.parent != null && elm == elm.parent.left {
        elm := elm.parent;
      } else {
        elm := ClimbRight(head, elm, c, t);
      }
    }
  }

  // The first node of the tree t, which e heads.
  method Leftmost(ghost head: RbHead, e: RbNode, ghost c0: Ctx, ghost t0: Tree) returns (elm: RbNode)
    requires head.Valid() && head.tree == Plug(c0, t0) && t0.Node? && t0.elm == e
    ensures head.Valid() && elm in Elems(head.tree) && InOrder(t0) != [] && elm == InOrder(t0)[0]
  {
    elm := e;
    ghost var c, t := c0, t0;
    head.See(c, t);
    while elm.left != null
      invariant head.Valid() && head.tree == Plug(c, t) && t.Node? && elm == t.elm && elm.left == Ptr(t.left)
      invariant InOrder(t) <= InOrder(t0) && elm in Elems(head.tree)
      decreases t
    {
      elm := elm.left;
      c, t := InLeft(c, t.color, t.elm, t.right), t.left;
      head.See(c, t);
    }
  }

  // The nearest ancestor of e that has e on its left: the first node after the hole.
  method ClimbRight(ghost head: RbHead, e: RbNode, ghost c0: Ctx, ghost t0: Tree) returns (elm: RbNode?)
    requires head.Valid() && head.tree == Plug(c0, t0) && t0.Node? && t0.elm == e
    ensures head.Valid() && elm == First(After(c0)) && (elm != null ==> elm in Elems(head.tree))
  {
    elm := e;
    ghost var c, t := c0, t0;
    head.See(c, t);
    while elm.parent != null && elm == elm.parent.right
      invariant head.Valid() && head.tree == Plug(c, t) && t.Node? && elm != null && elm == t.elm
      invariant elm.parent == Above(c) && (!c.Top? ==> c.elm in Elems(head.tree))
      invariant c.InLeft? ==> c.elm.right != elm
      invariant c.InRight? ==> c.elm.right == elm
      invariant After(c) == After(c0)
      decreases Depth(c)
    {
      elm := elm.parent;
      c, t := c.up, Upper(c, t);
      head.See(c, t);
    }
    elm := elm.parent;
  }

  // RB_PREV
  method Prev(ghost head: RbHead, e: RbNode) returns (elm: RbNode?)
    requires head.Good() && e in Elems(head.tree)
    ensures head.Good() && IsPrev(InOrder(head.tree), e, elm)
    ensures elm != null ==> elm in Elems(head.tree)
  {
    ghost var at := PathTo(Top, head.tree, e);
    ghost var c, t := at.0, at.1;
    InOrderAt(c, t);
    head.See(c, t);
    elm := e;
    if elm.left != null {
      elm := Rightmost(head, elm.left, InLeft(c, t.color, e, t.right), t.left);
    } else {
      assert Before(c) + InOrder(t.left) == Before(c);
      if elm.parent != null && elm == elm.parent.right {
        elm := elm.parent;
      } else {
        elm := ClimbLeft(head, elm, c, t);
      }
    }
  }

  method Rightmost(ghost head: RbHead, e: RbNode, ghost c0: Ctx, ghost t0: Tree) returns (elm: RbNode)
    requires head.Valid() && head.tree == Plug(c0, t0) && t0.Node? && t0.elm == e
    ensures head.Valid() && elm in Elems(head.tree) && InOrder(t0) != [] && elm == Last(InOrder(t0))
  {
    elm := e;
    ghost var c, t := c0, t0;
    head.See(c, t);
    while elm.right != null
      invariant head.Valid() && head.tree == Plug(c, t) && t.Node? && elm == t.elm && elm.right == Ptr(t.right)
      invariant Last(InOrder(t)) == Last(InOrder(t0)) && InOrder(t0) != [] && elm in Elems(head.tree)
      decreases t
    {
      elm := elm.right;
      c, t := InRight(t.left, t.color, t.elm, c), t.right;
      head.See(c, t);
    }
  }

  method ClimbLeft(ghost head: RbHead, e: RbNode, ghost c0: Ctx, ghost t0: Tree) returns (elm: RbNode?)
    requires head.Valid() && head.tree == Plug(c0, t0) && t0.Node? && t0.elm == e
    ensures head.Valid() && elm == Last(Before(c0)) && (elm != null ==> elm in Elems(head.tree))
  {
    elm := e;
    ghost var c, t := c0, t0;
    head.See(c, t);
    while elm.parent != null && elm == elm.parent.left
      invariant head.Valid() && head.tree == Plug(c, t) && t.Node? && elm != null && elm == t.elm
      invariant elm.parent == Above(c) && (!c.Top? ==> c.elm in Elems(head.tree))
      invariant c.InRight? ==> c.elm.left != elm
      invariant c.InLeft? ==> c.elm.left == elm
      invariant Before(c) == Before(c0)
      decreases Depth(c)
    {
      elm := elm.parent;
      c, t := c.up, Upper(c, t);
      head.See(c, t);
    }
    elm := elm.parent;
  }

  // RB_NFIND: the least node whose key is not below elm's.
  method NFind(head: RbHead, elm: RbNode) returns (res: RbNode?)
    requires head.Good()
    ensures res == null ==> forall x :: x in InOrder(head.tree) ==> x.key < elm.key
    ensures res != null ==> res in InOrder(head.tree) && res.key >= elm.key
    ensures res != null ==> forall x :: x in InOrder(head.tree) && x.key >= elm.key ==> res.key <= x.key
  {
    hide InOrder;
    var tmp := head.root;
    res := null;
    ghost var c, t := Top, head.tree;
    head.See(c, t);
    while tmp != null
      invariant head.Good() && head.tree == Plug(c, t) && tmp == Ptr(t)
      invariant Around(c, elm.key) && Ordered(InOrder(t)) && res == First(After(c))
      decreases t
    {
      head.See(c, t);
      var comp := elm.key - tmp.key;
      if comp < 0 {
        AroundLeft(c, t, elm.key);
        res := tmp;
        c, t := InLeft(c, t.color, t.elm, t.right), t.left;
        tmp := tmp.left;
      } else if comp > 0 {
        AroundRight(c, t, elm.key);
        c, t := InRight(t.left, t.color, t.elm, c), t.right;
        tmp := tmp.right;
      } else {
        InOrderAt(c, t);
        return tmp;
      }
    }
    InOrderEmptyHole(c);
    OrderedConcat(Before(c), After(c));
  }

  // RB_FOREACH: every node exactly once, in increasing order.
  method Foreach(head: RbHead) returns (visited: seq<RbNode>)
    requires head.Good()
    ensures visited == InOrder(head.tree)
  {
    visited := [];
    ghost var s := InOrder(head.tree);
    var x := MinMax(head, -1);
    while x != null
      invariant head.Good() && s == InOrder(head.tree) && visited <= s
      invariant x == At(s, |visited|)
      decreases |s| - |visited|
    {
      InOrderElems(head.tree, x);
      ghost var i := |visited|;
      visited := visited + [x];
      x := Next(head, x);
      assert IsNext(s, s[i], x);
    }
  }
}
