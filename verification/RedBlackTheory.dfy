/**
 The abstract side of the red-black tree: coloured trees over the real node objects, one-hole
 contexts that say where in the tree the code is working, and the link predicates that tie a tree
 to the left/right/parent/colour fields of its nodes.
 */
module RedBlackTheory {
  import opened Powers
  import opened Sequences

  datatype Color = Red | Black

  // An element embedding RB_ENTRY. The user's comparison function is a total order; `key` is the
  // element's place in it.
  class RbNode {
    const key: int
    var left: RbNode?
    var right: RbNode?
    var parent: RbNode?
    var color: Color

    constructor (k: int)
      ensures key == k
    {
      key := k;
      left, right, parent, color := null, null, null, Black;
    }
  }

  datatype Tree = Leaf | Node(color: Color, left: Tree, elm: RbNode, right: Tree)

  // The path from the root down to a hole: InLeft(up, c, x, r) is a hole in x's left subtree.
  datatype Ctx =
    | Top
    | InLeft(up: Ctx, color: Color, elm: RbNode, right: Tree)
    | InRight(left: Tree, color: Color, elm: RbNode, up: Ctx)

  function Plug(c: Ctx, t: Tree): Tree {
    match c
    case Top => t
    case InLeft(up, col, x, r) => Plug(up, Node(col, t, x, r))
    case InRight(l, col, x, up) => Plug(up, Node(col, l, x, t))
  }

  function Depth(c: Ctx): nat { if c.Top? then 0 else 1 + Depth(c.up) }

  // The tree one level up: the hole of c filled with t, as a tree at the hole of c.up.
  function Upper(c: Ctx, t: Tree): (u: Tree)
    requires !c.Top?
    ensures u.Node?
  {
    if c.InLeft? then Node(c.color, t, c.elm, c.right) else Node(c.color, c.left, c.elm, t)
  }

  // ---------- In-order sequences ----------

  function InOrder(t: Tree): seq<RbNode> {
    match t
    case Leaf => []
    case Node(_, l, x, r) => InOrder(l) + [x] + InOrder(r)
  }

  function Before(c: Ctx): seq<RbNode> {
    match c
    case Top => []
    case InLeft(up, _, _, _) => Before(up)
    case InRight(l, _, x, up) => Before(up) + (InOrder(l) + [x])
  }

  function After(c: Ctx): seq<RbNode> {
    match c
    case Top => []
    case InLeft(up, _, x, r) => ([x] + InOrder(r)) + After(up)
    case InRight(_, _, _, up) => After(up)
  }

  lemma {:induction false} InOrderPlug(c: Ctx, t: Tree)
    ensures InOrder(Plug(c, t)) == Before(c) + InOrder(t) + After(c)
  {
    match c
    case Top =>
    case InLeft(up, col, x, r) => InOrderPlug(up, Node(col, t, x, r));
    case InRight(l, col, x, up) => InOrderPlug(up, Node(col, l, x, t));
  }

  // Strictly increasing keys along the in-order sequence: a binary search tree.
  ghost predicate Ordered(s: seq<RbNode>) {
    forall i, j :: 0 <= i < j < |s| ==> s[i].key < s[j].key
  }

  lemma OrderedConcat(a: seq<RbNode>, b: seq<RbNode>)
    ensures Ordered(a + b) <==>
      Ordered(a) && Ordered(b) && forall x, y :: x in a && y in b ==> x.key < y.key
  {
    SortedConcat(a, b, (x: RbNode, y: RbNode) => x.key < y.key);
  }

  lemma OrderedNode(t: Tree)
    requires t.Node?
    ensures Ordered(InOrder(t)) ==> Ordered(InOrder(t.left)) && Ordered(InOrder(t.right))
    ensures Ordered(InOrder(t)) ==> forall y :: y in InOrder(t.left) ==> y.key < t.elm.key
    ensures Ordered(InOrder(t)) ==> forall y :: y in InOrder(t.right) ==> t.elm.key < y.key
  {
    OrderedConcat(InOrder(t.left) + [t.elm], InOrder(t.right));
    OrderedConcat(InOrder(t.left), [t.elm]);
  }

  // ---------- Node sets; no node occurs twice ----------

  function Elems(t: Tree): set<RbNode> {
    match t
    case Leaf => {}
    case Node(_, l, x, r) => Elems(l) + {x} + Elems(r)
  }

  function CtxElems(c: Ctx): set<RbNode> {
    match c
    case Top => {}
    case InLeft(up, _, x, r) => CtxElems(up) + {x} + Elems(r)
    case InRight(l, _, x, up) => CtxElems(up) + {x} + Elems(l)
  }

  ghost predicate Apart(t: Tree) {
    match t
    case Leaf => true
    case Node(_, l, x, r) =>
      x !in Elems(l) && x !in Elems(r) && Elems(l) !! Elems(r) && Apart(l) && Apart(r)
  }

  ghost predicate CtxApart(c: Ctx) {
    match c
    case Top => true
    case InLeft(up, _, x, r) =>
      x !in Elems(r) && x !in CtxElems(up) && Elems(r) !! CtxElems(up) && Apart(r) && CtxApart(up)
    case InRight(l, _, x, up) =>
      x !in Elems(l) && x !in CtxElems(up) && Elems(l) !! CtxElems(up) && Apart(l) && CtxApart(up)
  }

  lemma {:induction false} ApartPlug(c: Ctx, t: Tree)
    ensures Elems(Plug(c, t)) == CtxElems(c) + Elems(t)
    ensures Apart(Plug(c, t)) <==> CtxApart(c) && Apart(t) && CtxElems(c) !! Elems(t)
  {
    match c
    case Top =>
    case InLeft(up, col, x, r) => ApartPlug(up, Node(col, t, x, r));
    case InRight(l, col, x, up) => ApartPlug(up, Node(col, l, x, t));
  }

  lemma {:induction false} InOrderElems(t: Tree, x: RbNode)
    ensures x in InOrder(t) <==> x in Elems(t)
  {
    if t.Node? {
      InOrderElems(t.left, x);
      InOrderElems(t.right, x);
    }
  }

  // ---------- Links ----------

  datatype Cell = Cell(left: RbNode?, right: RbNode?, parent: RbNode?, color: Color)
  type Mem = map<RbNode, Cell>

  ghost const NO_CELL := Cell(null, null, null, Black)

  ghost function CellOf(x: RbNode): Cell
    reads x
  {
    Cell(x.left, x.right, x.parent, x.color)
  }

  ghost function Snap(s: set<RbNode>): Mem
    reads s
  {
    map x | x in s :: if x in s then CellOf(x) else NO_CELL
  }

  function Ptr(t: Tree): RbNode? { if t.Leaf? then null else t.elm }

  // The node that owns the hole.
  function Above(c: Ctx): RbNode? { if c.Top? then null else c.elm }

  ghost predicate Linked(m: Mem, p: RbNode?, parent: RbNode?, t: Tree)
    decreases t
  {
    match t
    case Leaf => p == null
    case Node(c, l, x, r) =>
      && p == x && x in m && m[x].parent == parent && m[x].color == c
      && Linked(m, m[x].left, x, l) && Linked(m, m[x].right, x, r)
  }

  ghost predicate LinkedCtx(m: Mem, root: RbNode?, c: Ctx, hole: RbNode?)
    decreases c
  {
    match c
    case Top => root == hole
    case InLeft(up, col, x, r) =>
      && x in m && m[x].color == col && m[x].parent == Above(up) && m[x].left == hole
      && Linked(m, m[x].right, x, r) && LinkedCtx(m, root, up, x)
    case InRight(l, col, x, up) =>
      && x in m && m[x].color == col && m[x].parent == Above(up) && m[x].right == hole
      && Linked(m, m[x].left, x, l) && LinkedCtx(m, root, up, x)
  }

  lemma {:induction false} LinkedPlug(m: Mem, root: RbNode?, c: Ctx, t: Tree)
    ensures Linked(m, root, null, Plug(c, t)) <==>
      LinkedCtx(m, root, c, Ptr(t)) && Linked(m, Ptr(t), Above(c), t)
  {
    match c
    case Top =>
    case InLeft(up, col, x, r) => LinkedPlug(m, root, up, Node(col, t, x, r));
    case InRight(l, col, x, up) => LinkedPlug(m, root, up, Node(col, l, x, t));
  }

  // Memories that agree on the nodes of a tree (of a context) link it alike.
  ghost predicate Same(m: Mem, m': Mem, s: set<RbNode>) {
    forall x :: x in s && x in m ==> x in m' && m'[x] == m[x]
  }

  lemma {:induction false} LinkedFrame(m: Mem, m': Mem, p: RbNode?, parent: RbNode?, t: Tree)
    requires Linked(m, p, parent, t) && Same(m, m', Elems(t))
    ensures Linked(m', p, parent, t)
    decreases t
  {
    if t.Node? {
      LinkedFrame(m, m', m[t.elm].left, t.elm, t.left);
      LinkedFrame(m, m', m[t.elm].right, t.elm, t.right);
    }
  }

  lemma {:induction false} CtxFrame(m: Mem, m': Mem, root: RbNode?, c: Ctx, hole: RbNode?)
    requires LinkedCtx(m, root, c, hole) && Same(m, m', CtxElems(c))
    ensures LinkedCtx(m', root, c, hole)
    decreases c
  {
    match c
    case Top =>
    case InLeft(up, col, x, r) =>
      LinkedFrame(m, m', m[x].right, x, r);
      CtxFrame(m, m', root, up, x);
    case InRight(l, col, x, up) =>
      LinkedFrame(m, m', m[x].left, x, l);
      CtxFrame(m, m', root, up, x);
  }

  // A snapshot of fewer nodes, as long as the tree's own are among them.
  lemma Shrunk(s: set<RbNode>, root: RbNode?, t: Tree)
    requires Linked(Snap(s), root, null, t) && Elems(t) <= s
    ensures Linked(Snap(Elems(t)), root, null, t)
  {
    LinkedFrame(Snap(s), Snap(Elems(t)), root, null, t);
  }

  // Pointing a tree's root at a new parent.
  lemma Reparent(m: Mem, m': Mem, p: RbNode?, parent: RbNode?, parent': RbNode?, t: Tree)
    requires Linked(m, p, parent, t) && Apart(t)
    requires t.Node? ==> t.elm in m' && m'[t.elm] == m[t.elm].(parent := parent') && Same(m, m', Elems(t) - {t.elm})
    ensures Linked(m', p, parent', t)
  {
    if t.Node? {
      LinkedFrame(m, m', m[t.elm].left, t.elm, t.left);
      LinkedFrame(m, m', m[t.elm].right, t.elm, t.right);
    }
  }

  // The owner of the hole with its child field set to h.
  function Rechild(c: Ctx, cell: Cell, h: RbNode?): Cell {
    if c.InLeft? then cell.(left := h) else cell.(right := h)
  }

  // Hanging h' into the hole: only its owner's child field (or the root) changes.
  lemma CtxRechild(m: Mem, m': Mem, root: RbNode?, root': RbNode?, c: Ctx, h: RbNode?, h': RbNode?)
    requires LinkedCtx(m, root, c, h) && CtxApart(c)
    requires Same(m, m', CtxElems(c) - {Above(c)})
    requires c.Top? ==> root' == h'
    requires !c.Top? ==> root' == root && c.elm in m' && m'[c.elm] == Rechild(c, m[c.elm], h')
    ensures LinkedCtx(m', root', c, h')
  {
    match c
    case Top =>
    case InLeft(up, col, x, r) =>
      LinkedFrame(m, m', m[x].right, x, r);
      CtxFrame(m, m', root, up, x);
    case InRight(l, col, x, up) =>
      LinkedFrame(m, m', m[x].left, x, l);
      CtxFrame(m, m', root, up, x);
  }

  lemma {:induction false} RootAbove(m: Mem, root: RbNode?, c: Ctx, h: RbNode?)
    requires LinkedCtx(m, root, c, h)
    ensures c.Top? || root in CtxElems(c)
    decreases c
  {
    if !c.Top? {
      RootAbove(m, root, c.up, c.elm);
    }
  }

  // What the pointer code may rely on around the hole of c.
  lemma Neighbourhood(m: Mem, root: RbNode?, c: Ctx, t: Tree)
    requires Linked(m, root, null, Plug(c, t)) && Apart(Plug(c, t))
    ensures LinkedCtx(m, root, c, Ptr(t)) && Linked(m, Ptr(t), Above(c), t)
    ensures CtxApart(c) && Apart(t) && CtxElems(c) !! Elems(t)
    ensures Elems(Plug(c, t)) == CtxElems(c) + Elems(t)
    ensures !c.Top? ==> Above(c) in m && Above(c) in CtxElems(c)
    ensures c.InRight? && t.Node? ==> Above(c) in m && m[c.elm].left != t.elm
  {
    LinkedPlug(m, root, c, t);
    ApartPlug(c, t);
  }

  // Outside the tree at the hole, the only cell that may differ is the owner's, which now points to h'.
  ghost predicate Rehung(m: Mem, m': Mem, root: RbNode?, root': RbNode?, c: Ctx, t: Tree, h': RbNode?) {
    && (forall z :: z in m && z !in Elems(t) ==>
          z in m' && m'[z] == if z == Above(c) then Rechild(c, m[z], h') else m[z])
    && root' == if c.Top? then h' else root
  }

  lemma Rehang(m: Mem, m': Mem, root: RbNode?, root': RbNode?, c: Ctx, t: Tree, t': Tree)
    requires Linked(m, root, null, Plug(c, t)) && Apart(Plug(c, t))
    requires Rehung(m, m', root, root', c, t, Ptr(t'))
    requires Linked(m', Ptr(t'), Above(c), t')
    requires Apart(t') && Elems(t') !! CtxElems(c)
    ensures Linked(m', root', null, Plug(c, t')) && Apart(Plug(c, t'))
  {
    Neighbourhood(m, root, c, t);
    CtxRechild(m, m', root, root', c, Ptr(t), Ptr(t'));
    LinkedPlug(m', root', c, t');
    ApartPlug(c, t');
  }

  // Replacing the tree at the hole by one whose links are already in place.
  lemma Replaced(m: Mem, m': Mem, root: RbNode?, root': RbNode?, c: Ctx, t: Tree, t': Tree)
    requires Linked(m, root, null, Plug(c, t)) && Apart(Plug(c, t))
    requires Rehung(m, m', root, root', c, t, Ptr(t'))
    requires Linked(m', Ptr(t'), Above(c), t') && Apart(t') && Elems(t') !! CtxElems(c)
    ensures Linked(m', root', null, Plug(c, t')) && Apart(Plug(c, t'))
    ensures InOrder(Plug(c, t)) == Before(c) + InOrder(t) + After(c)
    ensures InOrder(Plug(c, t')) == Before(c) + InOrder(t') + After(c)
    ensures Elems(Plug(c, t)) == CtxElems(c) + Elems(t)
    ensures Elems(Plug(c, t')) == CtxElems(c) + Elems(t')
  {
    Rehang(m, m', root, root', c, t, t');
    InOrderPlug(c, t);
    InOrderPlug(c, t');
    ApartPlug(c, t);
    ApartPlug(c, t');
  }

  // ---------- Rotations ----------

  function RotLeft(t: Tree): Tree
    requires t.Node? && t.right.Node?
  {
    Node(t.right.color, Node(t.color, t.left, t.elm, t.right.left), t.right.elm, t.right.right)
  }

  function RotRight(t: Tree): Tree
    requires t.Node? && t.left.Node?
  {
    Node(t.left.color, t.left.left, t.left.elm, Node(t.color, t.left.right, t.elm, t.right))
  }

  // The cells a left (right) rotation touches below the hole.
  lemma PivotLeft(m: Mem, parent: RbNode?, t: Tree)
    requires t.Node? && t.right.Node? && Linked(m, t.elm, parent, t) && Apart(t)
    ensures t.elm in m && t.right.elm in m && m[t.elm].right == t.right.elm
    ensures m[t.elm].parent == parent && m[t.right.elm].left == Ptr(t.right.left)
    ensures t.elm in Elems(t) && t.right.elm in Elems(t) && t.elm != t.right.elm
    ensures t.right.left.Node? ==>
      t.right.left.elm in Elems(t) && t.right.left.elm != t.elm && t.right.left.elm != t.right.elm
  {
    assert Linked(m, t.right.elm, t.elm, t.right);
    assert Linked(m, m[t.right.elm].left, t.right.elm, t.right.left);
  }

  lemma PivotRight(m: Mem, parent: RbNode?, t: Tree)
    requires t.Node? && t.left.Node? && Linked(m, t.elm, parent, t) && Apart(t)
    ensures t.elm in m && t.left.elm in m && m[t.elm].left == t.left.elm
    ensures m[t.elm].parent == parent && m[t.left.elm].right == Ptr(t.left.right)
    ensures t.elm in Elems(t) && t.left.elm in Elems(t) && t.elm != t.left.elm
    ensures t.left.right.Node? ==>
      t.left.right.elm in Elems(t) && t.left.right.elm != t.elm && t.left.right.elm != t.left.elm
  {
    assert Linked(m, t.left.elm, t.elm, t.left);
    assert Linked(m, m[t.left.elm].right, t.left.elm, t.left.right);
  }

  lemma RotateLeftLinks(m: Mem, m': Mem, parent: RbNode?, t: Tree)
    requires t.Node? && t.right.Node?
    requires Linked(m, t.elm, parent, t) && Apart(t)
    requires m'.Keys == m.Keys && t.right.elm in m
    requires
      var x, y, b := t.elm, t.right.elm, t.right.left;
      && m'[x] == m[x].(right := Ptr(b), parent := y)
      && m'[y] == m[y].(left := x, parent := parent)
      && (b.Node? && b.elm in m ==> m'[b.elm] == m[b.elm].(parent := x))
      && Same(m, m', Elems(t) - {x, y} - {Ptr(b)})
    ensures Linked(m', t.right.elm, parent, RotLeft(t))
    ensures Apart(RotLeft(t)) && Elems(RotLeft(t)) == Elems(t) && InOrder(RotLeft(t)) == InOrder(t)
  {
    var x, y := t.elm, t.right.elm;
    LinkedFrame(m, m', m[x].left, x, t.left);
    LinkedFrame(m, m', m[y].right, y, t.right.right);
    Reparent(m, m', m[y].left, y, x, t.right.left);
  }

  lemma RotateRightLinks(m: Mem, m': Mem, parent: RbNode?, t: Tree)
    requires t.Node? && t.left.Node?
    requires Linked(m, t.elm, parent, t) && Apart(t)
    requires m'.Keys == m.Keys && t.left.elm in m
    requires
      var x, y, b := t.elm, t.left.elm, t.left.right;
      && m'[x] == m[x].(left := Ptr(b), parent := y)
      && m'[y] == m[y].(right := x, parent := parent)
      && (b.Node? && b.elm in m ==> m'[b.elm] == m[b.elm].(parent := x))
      && Same(m, m', Elems(t) - {x, y} - {Ptr(b)})
    ensures Linked(m', t.left.elm, parent, RotRight(t))
    ensures Apart(RotRight(t)) && Elems(RotRight(t)) == Elems(t) && InOrder(RotRight(t)) == InOrder(t)
  {
    var x, y := t.elm, t.left.elm;
    LinkedFrame(m, m', m[x].right, x, t.right);
    LinkedFrame(m, m', m[y].left, y, t.left.left);
    Reparent(m, m', m[y].right, y, x, t.left.right);
  }

  // What a rotation of t at the hole of c does to memory: new cells for the pivot pair x and y, a
  // new parent for the subtree b that changes sides, a new child for the hole's owner, nothing else.
  ghost predicate Rotated(m: Mem, m': Mem, c: Ctx, x: RbNode, x': Cell, y: RbNode, y': Cell, b: RbNode?) {
    && m'.Keys == m.Keys && m.Keys >= {x, y} && m'[x] == x' && m'[y] == y'
    && (b != null && b in m ==> m'[b] == m[b].(parent := x))
    && (!c.Top? && c.elm in m ==> m'[c.elm] == Rechild(c, m[c.elm], y))
    && Same(m, m', m.Keys - {x, y} - {b} - {Above(c)})
  }

  lemma RotateLeftDone(m: Mem, m': Mem, root: RbNode?, root': RbNode?, c: Ctx, t: Tree)
    requires t.Node? && t.right.Node? && t.elm in m && t.right.elm in m
    requires Linked(m, root, null, Plug(c, t)) && Apart(Plug(c, t))
    requires Rotated(m, m', c, t.elm, m[t.elm].(right := Ptr(t.right.left), parent := t.right.elm),
                     t.right.elm, m[t.right.elm].(left := t.elm, parent := Above(c)), Ptr(t.right.left))
    requires root' == if c.Top? then t.right.elm else root
    ensures Linked(m', root', null, Plug(c, RotLeft(t))) && Apart(Plug(c, RotLeft(t)))
    ensures InOrder(Plug(c, RotLeft(t))) == InOrder(Plug(c, t))
    ensures Elems(Plug(c, RotLeft(t))) == Elems(Plug(c, t))
  {
    Neighbourhood(m, root, c, t);
    PivotLeft(m, Above(c), t);
    RotateLeftLinks(m, m', Above(c), t);
    Replaced(m, m', root, root', c, t, RotLeft(t));
  }

  lemma RotateRightDone(m: Mem, m': Mem, root: RbNode?, root': RbNode?, c: Ctx, t: Tree)
    requires t.Node? && t.left.Node? && t.elm in m && t.left.elm in m
    requires Linked(m, root, null, Plug(c, t)) && Apart(Plug(c, t))
    requires Rotated(m, m', c, t.elm, m[t.elm].(left := Ptr(t.left.right), parent := t.left.elm),
                     t.left.elm, m[t.left.elm].(right := t.elm, parent := Above(c)), Ptr(t.left.right))
    requires root' == if c.Top? then t.left.elm else root
    ensures Linked(m', root', null, Plug(c, RotRight(t))) && Apart(Plug(c, RotRight(t)))
    ensures InOrder(Plug(c, RotRight(t))) == InOrder(Plug(c, t))
    ensures Elems(Plug(c, RotRight(t))) == Elems(Plug(c, t))
  {
    Neighbourhood(m, root, c, t);
    PivotRight(m, Above(c), t);
    RotateRightLinks(m, m', Above(c), t);
    Replaced(m, m', root, root', c, t, RotRight(t));
  }

  // ---------- Other local changes ----------

  lemma PaintLinks(m: Mem, m': Mem, root: RbNode?, c: Ctx, t: Tree, col: Color)
    requires t.Node? && t.elm in m && Linked(m, root, null, Plug(c, t)) && Apart(Plug(c, t))
    requires m' == m[t.elm := m[t.elm].(color := col)]
    ensures var t' := t.(color := col);
      && Linked(m', root, null, Plug(c, t')) && Apart(Plug(c, t'))
      && InOrder(Plug(c, t')) == InOrder(Plug(c, t)) && Elems(Plug(c, t')) == Elems(Plug(c, t))
  {
    Neighbourhood(m, root, c, t);
    LinkedFrame(m, m', m[t.elm].left, t.elm, t.left);
    LinkedFrame(m, m', m[t.elm].right, t.elm, t.right);
    assert !c.Top? ==> Rechild(c, m[c.elm], t.elm) == m[c.elm];
    Replaced(m, m', root, root, c, t, t.(color := col));
  }

  // ---------- The red-black rules ----------

  function Black1(c: Color): nat { if c.Black? then 1 else 0 }

  function BlackHeight(t: Tree): nat {
    if t.Leaf? then 0 else BlackHeight(t.left) + Black1(t.color)
  }

  predicate IsRed(t: Tree) { t.Node? && t.color.Red? }

  // Equal black counts on all paths and no red node under a red one.
  ghost predicate Balanced(t: Tree) {
    match t
    case Leaf => true
    case Node(col, l, _, r) =>
      && BlackHeight(l) == BlackHeight(r) && Balanced(l) && Balanced(r)
      && (col.Red? ==> !IsRed(l) && !IsRed(r))
  }

  ghost predicate RedBlackTree(t: Tree) { Balanced(t) && !IsRed(t) }

  predicate BelowRed(c: Ctx) { !c.Top? && c.color.Red? }

  // The context obeys the rules around a hole that is to hold a tree of black height h.
  ghost predicate Fits(c: Ctx, h: nat) {
    match c
    case Top => true
    case InLeft(up, col, _, s) =>
      && Balanced(s) && BlackHeight(s) == h && Fits(up, h + Black1(col))
      && (col.Red? ==> !IsRed(s) && !up.Top? && up.color.Black?)
    case InRight(s, col, _, up) =>
      && Balanced(s) && BlackHeight(s) == h && Fits(up, h + Black1(col))
      && (col.Red? ==> !IsRed(s) && !up.Top? && up.color.Black?)
  }

  // The rules hold of the whole exactly when they hold of both parts and across the hole.
  lemma {:induction false} FitsPlug(c: Ctx, t: Tree)
    ensures RedBlackTree(Plug(c, t)) <==>
      Balanced(t) && Fits(c, BlackHeight(t)) && (IsRed(t) ==> !c.Top? && c.color.Black?)
  {
    match c
    case Top =>
    case InLeft(up, col, x, r) => FitsPlug(up, Node(col, t, x, r));
    case InRight(l, col, x, up) => FitsPlug(up, Node(col, l, x, t));
  }

  // ---------- The steps of the insertion fix-up ----------

  // A red node under a red parent has a black grandparent.
  lemma Grandparent(c: Ctx, t: Tree)
    requires BelowRed(c) && Fits(c, BlackHeight(t))
    ensures !c.up.Top? && c.up.color.Black? && Depth(c.up.up) + 2 == Depth(c)
    ensures Plug(c, t) == Plug(c.up, Upper(c, t)) == Plug(c.up.up, Upper(c.up, Upper(c, t)))
  {
  }

  // Red uncle: recolouring moves the red node two levels up.
  lemma RedUncleLeft(c: Ctx, t: Tree)
    requires IsRed(t) && Balanced(t) && Fits(c, BlackHeight(t)) && BelowRed(c) && c.up.InLeft? && IsRed(c.up.right)
    ensures var pt := Upper(c, t);
      var t' := Node(Red, pt.(color := Black), c.up.elm, c.up.right.(color := Black));
      Balanced(t') && Fits(c.up.up, BlackHeight(t'))
  {
  }

  lemma RedUncleRight(c: Ctx, t: Tree)
    requires IsRed(t) && Balanced(t) && Fits(c, BlackHeight(t)) && BelowRed(c) && c.up.InRight? && IsRed(c.up.left)
    ensures var pt := Upper(c, t);
      var t' := Node(Red, c.up.left.(color := Black), c.up.elm, pt.(color := Black));
      Balanced(t') && Fits(c.up.up, BlackHeight(t'))
  {
  }

  // Black uncle: of the pair e-below-p the outer node ends under the inner one, which is black now.
  lemma BlackUncleLeft(c: Ctx, t: Tree)
    requires IsRed(t) && Balanced(t) && Fits(c, BlackHeight(t)) && BelowRed(c) && c.up.InLeft? && !IsRed(c.up.right)
    ensures var pt := if c.InLeft? then Upper(c, t) else RotLeft(Upper(c, t));
      var c' := InLeft(c.up.up, Black, pt.elm, Node(Red, pt.right, c.up.elm, c.up.right));
      IsRed(pt.left) && Balanced(pt.left) && Fits(c', BlackHeight(pt.left))
  {
    if c.InLeft? {
      assert Balanced(c.right);
    } else {
      assert Balanced(c.left);
    }
  }

  lemma BlackUncleRight(c: Ctx, t: Tree)
    requires IsRed(t) && Balanced(t) && Fits(c, BlackHeight(t)) && BelowRed(c) && c.up.InRight? && !IsRed(c.up.left)
    ensures var pt := if c.InRight? then Upper(c, t) else RotRight(Upper(c, t));
      var c' := InRight(Node(Red, c.up.left, c.up.elm, pt.left), Black, pt.elm, c.up.up);
      IsRed(pt.right) && Balanced(pt.right) && Fits(c', BlackHeight(pt.right))
  {
    if c.InLeft? {
      assert Balanced(c.right);
    } else {
      assert Balanced(c.left);
    }
  }

  // No red parent left: blackening the root, should it be red, completes the rules.
  lemma Settled(c: Ctx, t: Tree)
    requires IsRed(t) && Balanced(t) && Fits(c, BlackHeight(t)) && !BelowRed(c)
    ensures var w := Plug(c, t); w.Node? && RedBlackTree(w.(color := Black))
  {
    FitsPlug(c, t);
    InOrderPlug(c, t);
  }

  // ---------- Splicing out, replacing and adding one node ----------

  // What is left of a tree whose root has at most one child when that root goes.
  function Spliced(t: Tree): Tree
    requires t.Node? && (t.left.Leaf? || t.right.Leaf?)
  {
    if t.left.Leaf? then t.right else t.left
  }

  // The cells around a node with at most one child.
  lemma SplicePlace(m: Mem, parent: RbNode?, t: Tree)
    requires t.Node? && (t.left.Leaf? || t.right.Leaf?) && Linked(m, t.elm, parent, t) && Apart(t)
    ensures t.elm in m && m[t.elm].parent == parent && t.elm in Elems(t)
    ensures var k := Spliced(t); k.Node? ==> k.elm in m && k.elm in Elems(t) && k.elm != t.elm
    ensures Elems(Spliced(t)) == Elems(t) - {t.elm}
  {
  }

  // The cells around a node with a left child at least.
  lemma SubstitutePlace(m: Mem, parent: RbNode?, t: Tree)
    requires t.Node? && t.left.Node? && Linked(m, t.elm, parent, t) && Apart(t)
    ensures t.elm in m && m[t.elm].parent == parent && t.elm in Elems(t)
    ensures m[t.elm].left == t.left.elm && m[t.elm].right == Ptr(t.right)
    ensures t.left.elm in m && t.left.elm in Elems(t) - {t.elm}
    ensures t.right.Node? ==> t.right.elm in m && t.right.elm in Elems(t) - {t.elm, t.left.elm}
  {
  }

  lemma SpliceLinks(m: Mem, m': Mem, root: RbNode?, root': RbNode?, c: Ctx, t: Tree)
    requires t.Node? && (t.left.Leaf? || t.right.Leaf?)
    requires Linked(m, root, null, Plug(c, t)) && Apart(Plug(c, t))
    requires Rehung(m, m', root, root', c, t, Ptr(Spliced(t)))
    requires var k := Spliced(t); k.Node? && k.elm in m ==>
      k.elm in m' && m'[k.elm] == m[k.elm].(parent := Above(c)) && Same(m, m', Elems(k) - {k.elm})
    ensures var t' := Spliced(t);
      Linked(m', root', null, Plug(c, t')) && Apart(Plug(c, t')) && Elems(Plug(c, t')) == Elems(Plug(c, t)) - {t.elm}
  {
    Neighbourhood(m, root, c, t);
    var k := Spliced(t);
    Reparent(m, m', Ptr(k), t.elm, Above(c), k);
    Replaced(m, m', root, root', c, t, k);
  }

  lemma SubstituteLinks(m: Mem, m': Mem, root: RbNode?, root': RbNode?, c: Ctx, t: Tree, e: RbNode)
    requires t.Node? && t.elm in m && e !in Elems(Plug(c, t))
    requires Linked(m, root, null, Plug(c, t)) && Apart(Plug(c, t))
    requires Rehung(m, m', root, root', c, t, e)
    requires e in m' && m'[e] == m[t.elm] && Same(m, m', Elems(t) - {t.elm, Ptr(t.left), Ptr(t.right)})
    requires t.left.Node? && t.left.elm in m ==> t.left.elm in m' && m'[t.left.elm] == m[t.left.elm].(parent := e)
    requires t.right.Node? && t.right.elm in m ==> t.right.elm in m' && m'[t.right.elm] == m[t.right.elm].(parent := e)
    ensures var t' := t.(elm := e);
      Linked(m', root', null, Plug(c, t')) && Apart(Plug(c, t')) &&
        Elems(Plug(c, t')) == Elems(Plug(c, t)) - {t.elm} + {e}
  {
    hide InOrder, Plug, LinkedCtx, CtxApart, CtxElems, Before, After;
    Neighbourhood(m, root, c, t);
    Reparent(m, m', m[t.elm].left, t.elm, e, t.left);
    Reparent(m, m', m[t.elm].right, t.elm, e, t.right);
    Replaced(m, m', root, root', c, t, t.(elm := e));
  }

  lemma AttachLinks(m: Mem, m': Mem, root: RbNode?, root': RbNode?, c: Ctx, e: RbNode)
    requires Linked(m, root, null, Plug(c, Leaf)) && Apart(Plug(c, Leaf)) && e !in Elems(Plug(c, Leaf))
    requires Rehung(m, m', root, root', c, Leaf, e)
    requires e in m' && m'[e] == Cell(null, null, Above(c), Red)
    ensures var t' := Node(Red, Leaf, e, Leaf);
      Linked(m', root', null, Plug(c, t')) && Apart(Plug(c, t')) && Elems(Plug(c, t')) == Elems(Plug(c, Leaf)) + {e}
  {
    Neighbourhood(m, root, c, Leaf);
    Replaced(m, m', root, root', c, Leaf, Node(Red, Leaf, e, Leaf));
  }

  // ---------- Paths below a node ----------

  // The context of a hole in inner, itself in the hole of base.
  function Append(inner: Ctx, base: Ctx): Ctx {
    if inner.Top? then base else inner.(up := Append(inner.up, base))
  }

  lemma {:induction false} PlugAppend(inner: Ctx, base: Ctx, t: Tree)
    ensures Plug(Append(inner, base), t) == Plug(base, Plug(inner, t))
  {
    match inner
    case Top =>
    case InLeft(up, col, x, r) => PlugAppend(up, base, Node(col, t, x, r));
    case InRight(l, col, x, up) => PlugAppend(up, base, Node(col, l, x, t));
  }

  // The rules do not look at which node sits where.
  lemma {:induction false} FitsAppend(inner: Ctx, base: Ctx, e: RbNode, h: nat)
    requires !base.Top? && Fits(Append(inner, base), h)
    ensures Fits(Append(inner, base.(elm := e)), h)
    decreases inner
  {
    if !inner.Top? {
      FitsAppend(inner.up, base, e, h + Black1(inner.color));
    }
  }

  // The path to the node x of t, and the tree that x heads there.
  function PathTo(c: Ctx, t: Tree, x: RbNode): (r: (Ctx, Tree))
    requires x in Elems(t)
    ensures Plug(r.0, r.1) == Plug(c, t) && r.1.Node? && r.1.elm == x
    decreases t
  {
    if t.elm == x then (c, t)
    else if x in Elems(t.left) then PathTo(InLeft(c, t.color, t.elm, t.right), t.left, x)
    else PathTo(InRight(t.left, t.color, t.elm, c), t.right, x)
  }

  // ---------- The steps of the removal fix-up ----------

  function Patched(t: Tree): Tree { if t.Leaf? then t else t.(color := Black) }

  function Sibling(c: Ctx): Tree
    requires !c.Top?
  {
    if c.InLeft? then c.right else c.left
  }

  // The hole's tree is one black node short; painting its root black may be all it takes.
  ghost predicate Short(c: Ctx, t: Tree) {
    Balanced(Patched(t)) && Fits(c, BlackHeight(t) + 1)
  }

  lemma SiblingExists(c: Ctx, t: Tree)
    requires Short(c, t) && !c.Top?
    ensures Sibling(c).Node?
    ensures IsRed(Sibling(c)) ==> c.color.Black? && Sibling(c).left.Node? && Sibling(c).right.Node?
  {
  }

  // Red sibling: lifting it over the parent leaves a black sibling.
  lemma RedSibling(c: Ctx, t: Tree)
    requires Short(c, t) && !c.Top? && IsRed(Sibling(c))
    ensures c.InLeft? ==>
      Short(InLeft(InLeft(c.up, Black, c.right.elm, c.right.right), Red, c.elm, c.right.left), t) &&
        !IsRed(c.right.left)
    ensures c.InRight? ==>
      Short(InRight(c.left.right, Red, c.elm, InRight(c.left.left, Black, c.left.elm, c.up)), t) && !IsRed(c.left.right)
  {
  }

  // Black sibling with black children: reddening it moves the shortage one level up.
  lemma BlackNephews(c: Ctx, t: Tree)
    requires Short(c, t) && !IsRed(t) && !c.Top? && Sibling(c).Node? && Sibling(c).color.Black?
    requires !IsRed(Sibling(c).left) && !IsRed(Sibling(c).right)
    ensures c.InLeft? ==> Short(c.up, Node(c.color, t, c.elm, c.right.(color := Red)))
    ensures c.InRight? ==> Short(c.up, Node(c.color, c.left.(color := Red), c.elm, t))
  {
  }

  // Red outer nephew: one rotation makes up for the missing black node.
  lemma RedNephewLeft(c: Ctx, t: Tree)
    requires Short(c, t) && !IsRed(t) && c.InLeft? && c.right.Node? && c.right.color.Black? && IsRed(c.right.right)
    ensures RedBlackTree(Plug(c.up,
      Node(c.color, Node(Black, t, c.elm, c.right.left), c.right.elm, c.right.right.(color := Black))))
  {
    var w := c.right;
    var lower, outer := Node(Black, t, c.elm, w.left), w.right.(color := Black);
    assert Balanced(w) && Balanced(w.left) && Balanced(w.right) && Balanced(outer) && Balanced(lower);
    FitsPlug(c.up, Node(c.color, lower, w.elm, outer));
  }

  lemma RedNephewRight(c: Ctx, t: Tree)
    requires Short(c, t) && !IsRed(t) && c.InRight? && c.left.Node? && c.left.color.Black? && IsRed(c.left.left)
    ensures RedBlackTree(Plug(c.up,
      Node(c.color, c.left.left.(color := Black), c.left.elm, Node(Black, c.left.right, c.elm, t))))
  {
    var w := c.left;
    var lower, outer := Node(Black, w.right, c.elm, t), w.left.(color := Black);
    assert Balanced(w) && Balanced(w.left) && Balanced(w.right) && Balanced(outer) && Balanced(lower);
    FitsPlug(c.up, Node(c.color, outer, w.elm, lower));
  }

  // Red inner nephew: lifting it over the sibling makes a red outer one.
  lemma InnerNephew(c: Ctx, t: Tree)
    requires Short(c, t) && !c.Top? && Sibling(c).Node? && Sibling(c).color.Black?
    ensures c.InLeft? && IsRed(c.right.left) && !IsRed(c.right.right) ==>
      var n := c.right.left;
      Short(c.(right := Node(Black, n.left, n.elm, Node(Red, n.right, c.right.elm, c.right.right))), t)
    ensures c.InRight? && IsRed(c.left.right) && !IsRed(c.left.left) ==>
      var n := c.left.right;
      Short(c.(left := Node(Black, Node(Red, c.left.left, c.left.elm, n.left), n.elm, n.right)), t)
  {
    var s := Sibling(c);
    if IsRed(if c.InLeft? then s.left else s.right) {
      var n := if c.InLeft? then s.left else s.right;
      assert Balanced(s) && Balanced(n) && Balanced(n.left) && Balanced(n.right);
      assert BlackHeight(n.left) == BlackHeight(n.right) == BlackHeight(n);
    }
  }

  // A shortage at a red root, or at the root of everything, is made good by painting that root black.
  lemma Mended(c: Ctx, t: Tree)
    requires Short(c, t) && (IsRed(t) || c.Top?)
    ensures RedBlackTree(Plug(c, Patched(t)))
  {
    FitsPlug(c, Patched(t));
  }

  // Splicing out a red node hurts nothing; splicing out a black one leaves its child's tree short.
  lemma SplicedRules(c: Ctx, t: Tree)
    requires RedBlackTree(Plug(c, t)) && t.Node? && (t.left.Leaf? || t.right.Leaf?)
    ensures t.color.Black? ==> Short(c, Spliced(t))
    ensures t.color.Red? ==> Spliced(t).Leaf? && Fits(c, 0)
  {
    FitsPlug(c, t);
  }

  lemma DroppedInside(a: seq<RbNode>, b: seq<RbNode>, x: RbNode, d: seq<RbNode>, e: seq<RbNode>)
    ensures Dropped(a + (b + [x] + d) + e, a + (b + d) + e, x)
  {
    DroppedBetween(a + b, d + e, x);
    assert a + (b + [x] + d) + e == (a + b) + [x] + (d + e);
    assert a + (b + d) + e == (a + b) + (d + e);
  }

  // The in-order effect of either way of removing the node at the hole of c.
  lemma SplicedInOrder(c: Ctx, t: Tree)
    requires t.Node? && (t.left.Leaf? || t.right.Leaf?)
    ensures Dropped(InOrder(Plug(c, t)), InOrder(Plug(c, Spliced(t))), t.elm)
  {
    InOrderPlug(c, t);
    InOrderPlug(c, Spliced(t));
    DroppedInside(Before(c), InOrder(t.left), t.elm, InOrder(t.right), After(c));
    assert InOrder(Spliced(t)) == InOrder(t.left) + InOrder(t.right);
  }

  lemma MinFirst(inner: Ctx, sub: Tree)
    requires Before(inner) == [] && sub.Node? && sub.left.Leaf?
    ensures InOrder(Plug(inner, sub)) == [sub.elm] + InOrder(Plug(inner, sub.right))
  {
    InOrderPlug(inner, sub);
    InOrderPlug(inner, sub.right);
    assert InOrder(sub) == [sub.elm] + InOrder(sub.right);
    hide InOrder, Plug, Before, After;
    FirstOut(sub.elm, InOrder(sub.right), After(inner));
  }

  lemma FirstOut(x: RbNode, b: seq<RbNode>, a: seq<RbNode>)
    ensures [] + ([x] + b) + a == [x] + ([] + b + a)
  {
  }

  // t's root is replaced by sub's root, the minimum of t.right, which has moved up.
  lemma SuccessorInOrder(c: Ctx, t: Tree, inner: Ctx, sub: Tree)
    requires t.Node? && t.right == Plug(inner, sub) && Before(inner) == [] && sub.Node? && sub.left.Leaf?
    ensures Dropped(InOrder(Plug(c, t)),
      InOrder(Plug(c, Node(t.color, t.left, sub.elm, Plug(inner, sub.right)))), t.elm)
  {
    var rest := Plug(inner, sub.right);
    var t' := Node(t.color, t.left, sub.elm, rest);
    InOrderPlug(c, t);
    InOrderPlug(c, t');
    MinFirst(inner, sub);
    assert InOrder(t') == InOrder(t.left) + [sub.elm] + InOrder(rest);
    hide InOrder, Plug, Dropped;
    MovedFirst(InOrder(t.left), sub.elm, InOrder(rest));
    DroppedInside(Before(c), InOrder(t.left), t.elm, InOrder(t.right), After(c));
  }

  lemma MovedFirst(a: seq<RbNode>, x: RbNode, b: seq<RbNode>)
    ensures a + [x] + b == a + ([x] + b)
  {
  }

  // Removing the node at the hole of c by its successor, which heads sub down the path `inner`:
  // the tree after splicing out the successor, and after it took the node's place.
  lemma SuccessorMoves(c: Ctx, t: Tree, inner: Ctx, sub: Tree)
    requires Apart(Plug(c, t)) && t.Node? && t.right == Plug(inner, sub) && sub.Node?
    ensures var cs := Append(inner, InRight(t.left, t.color, t.elm, c));
      var cs' := Append(inner, InRight(t.left, t.color, sub.elm, c));
      var rest := t.(right := Plug(inner, sub.right));
      && Plug(cs, sub) == Plug(c, t) && Plug(cs, sub.right) == Plug(c, rest)
      && Plug(cs', sub.right) == Plug(c, rest.(elm := sub.elm))
      && (Above(cs) == t.elm <==> inner.Top?)
      && Above(cs') == (if inner.Top? then sub.elm else Above(cs))
  {
    hide Apart, Elems, CtxElems, CtxApart, Append;
    var base, base' := InRight(t.left, t.color, t.elm, c), InRight(t.left, t.color, sub.elm, c);
    ApartPlug(c, t);
    NotBelow(t, inner, sub);
    PlugAppend(inner, base, sub);
    PlugAppend(inner, base, sub.right);
    PlugAppend(inner, base', sub.right);
    AboveAppend(inner, base);
    AboveAppend(inner, base');
  }

  lemma AboveAppend(inner: Ctx, base: Ctx)
    ensures Above(Append(inner, base)) == if inner.Top? then Above(base) else inner.elm
  {
  }

  // A node of the right subtree is not the root.
  lemma NotBelow(t: Tree, inner: Ctx, sub: Tree)
    requires Apart(t) && t.Node? && t.right == Plug(inner, sub)
    ensures !inner.Top? ==> inner.elm != t.elm
  {
    ApartPlug(inner, sub);
  }

  lemma SuccessorRules(base: Ctx, inner: Ctx, sub: Tree)
    requires !base.Top? && RedBlackTree(Plug(Append(inner, base), sub)) && sub.Node? && sub.left.Leaf?
    ensures var cs' := Append(inner, base.(elm := sub.elm));
      if sub.color.Black? then Short(cs', sub.right) else sub.right.Leaf? && RedBlackTree(Plug(cs', sub.right))
  {
    SplicedRules(Append(inner, base), sub);
    if sub.color.Black? {
      FitsAppend(inner, base, sub.elm, BlackHeight(sub.right) + 1);
    } else {
      FitsAppend(inner, base, sub.elm, 0);
      FitsPlug(Append(inner, base.(elm := sub.elm)), Leaf);
    }
  }

  // ---------- Searching and walking ----------

  // The hole of c is where key k belongs.
  ghost predicate Around(c: Ctx, k: int) {
    (forall x :: x in Before(c) ==> x.key < k) && (forall x :: x in After(c) ==> k < x.key)
  }

  lemma AroundLeft(c: Ctx, t: Tree, k: int)
    requires Around(c, k) && t.Node? && Ordered(InOrder(t)) && k < t.elm.key
    ensures Around(InLeft(c, t.color, t.elm, t.right), k) && Ordered(InOrder(t.left))
  {
    OrderedNode(t);
  }

  lemma AroundRight(c: Ctx, t: Tree, k: int)
    requires Around(c, k) && t.Node? && Ordered(InOrder(t)) && t.elm.key < k
    ensures Around(InRight(t.left, t.color, t.elm, c), k) && Ordered(InOrder(t.right))
  {
    OrderedNode(t);
  }

  lemma InOrderEmptyHole(c: Ctx)
    ensures InOrder(Plug(c, Leaf)) == Before(c) + After(c)
  {
    InOrderPlug(c, Leaf);
    assert Before(c) + [] == Before(c);
  }

  lemma OrderedAround(a: seq<RbNode>, x: RbNode, b: seq<RbNode>)
    requires Ordered(a + b) && (forall y :: y in a ==> y.key < x.key) && (forall y :: y in b ==> x.key < y.key)
    ensures Ordered(a + [x] + b)
  {
    OrderedConcat(a, b);
    OrderedConcat(a, [x]);
    OrderedConcat(a + [x], b);
  }

  lemma AddedAround(c: Ctx, e: RbNode)
    requires Ordered(InOrder(Plug(c, Leaf))) && Around(c, e.key)
    ensures Added(InOrder(Plug(c, Leaf)), InOrder(Plug(c, Node(Red, Leaf, e, Leaf))), e)
    ensures Ordered(InOrder(Plug(c, Node(Red, Leaf, e, Leaf))))
  {
    InOrderEmptyHole(c);
    InOrderPlug(c, Node(Red, Leaf, e, Leaf));
    assert InOrder(Node(Red, Leaf, e, Leaf)) == [e];
    hide InOrder, Plug, Before, After, Around;
    AddedBetween(Before(c), After(c), e);
    OrderedAround(Before(c), e, After(c));
  }

  lemma AbsentAround(c: Ctx, k: int)
    requires Around(c, k)
    ensures forall x :: x in Elems(Plug(c, Leaf)) ==> x.key != k
  {
    var t := Plug(c, Leaf);
    InOrderEmptyHole(c);
    forall x | x in Elems(t) ensures x.key != k {
      InOrderElems(t, x);
    }
  }

  lemma DroppedOrdered(s: seq<RbNode>, s': seq<RbNode>, x: RbNode)
    requires Dropped(s, s', x) && Ordered(s)
    ensures Ordered(s')
  {
    DroppedSorted(s, s', x, (y: RbNode, z: RbNode) => y.key < z.key);
  }

  function At(s: seq<RbNode>, i: int): RbNode? { if 0 <= i < |s| then s[i] else null }

  // r is the element after (before) x in s, or null at the end.
  ghost predicate IsNext(s: seq<RbNode>, x: RbNode, r: RbNode?) {
    forall i :: 0 <= i < |s| && s[i] == x ==> r == At(s, i + 1)
  }

  ghost predicate IsPrev(s: seq<RbNode>, x: RbNode, r: RbNode?) {
    forall i :: 0 <= i < |s| && s[i] == x ==> r == At(s, i - 1)
  }

  function First(s: seq<RbNode>): RbNode? { if s == [] then null else s[0] }

  function Last(s: seq<RbNode>): RbNode? { if s == [] then null else s[|s| - 1] }

  lemma Neighbours(a: seq<RbNode>, x: RbNode, b: seq<RbNode>)
    requires Ordered(a + [x] + b)
    ensures IsNext(a + [x] + b, x, First(b)) && IsPrev(a + [x] + b, x, Last(a))
  {
    var s := a + [x] + b;
    assert s[|a|] == x;
    forall i | 0 <= i < |s| && s[i] == x ensures i == |a| {}
  }

  // Stepping forward and back returns to the same node.
  lemma PrevInvertsNext(s: seq<RbNode>, x: RbNode, y: RbNode, z: RbNode?)
    requires Ordered(s) && x in s && IsNext(s, x, y) && IsPrev(s, y, z)
    ensures y in s && z == x
  {
    var i :| 0 <= i < |s| && s[i] == x;
    assert y == At(s, i + 1) && s[i + 1] == y;
  }

  lemma Regroup(p: seq<RbNode>, l: seq<RbNode>, x: RbNode, r: seq<RbNode>, q: seq<RbNode>)
    ensures p + (l + [x] + r) + q == (p + l) + [x] + (r + q)
  {
  }

  // The sequence seen from the node at the hole of c.
  lemma InOrderAt(c: Ctx, t: Tree)
    requires t.Node? && Ordered(InOrder(Plug(c, t)))
    ensures InOrder(Plug(c, t)) == (Before(c) + InOrder(t.left)) + [t.elm] + (InOrder(t.right) + After(c))
    ensures IsNext(InOrder(Plug(c, t)), t.elm, First(InOrder(t.right) + After(c)))
    ensures IsPrev(InOrder(Plug(c, t)), t.elm, Last(Before(c) + InOrder(t.left)))
  {
    InOrderPlug(c, t);
    Regroup(Before(c), InOrder(t.left), t.elm, InOrder(t.right), After(c));
    Neighbours(Before(c) + InOrder(t.left), t.elm, InOrder(t.right) + After(c));
  }

  // ---------- Height ----------

  function Height(t: Tree): nat {
    if t.Leaf? then 0 else 1 + if Height(t.left) > Height(t.right) then Height(t.left) else Height(t.right)
  }

  lemma {:induction false} EnoughNodes(t: Tree)
    requires Balanced(t)
    ensures |InOrder(t)| + 1 >= Pow(BlackHeight(t))
  {
    if t.Node? {
      EnoughNodes(t.left);
      EnoughNodes(t.right);
    }
  }

  lemma {:induction false} HeightByBlackHeight(t: Tree)
    requires Balanced(t)
    ensures Height(t) <= 2 * BlackHeight(t) + if IsRed(t) then 1 else 0
  {
    if t.Node? {
      HeightByBlackHeight(t.left);
      HeightByBlackHeight(t.right);
    }
  }

  lemma Squares(a: nat, b: nat)
    requires a <= b
    ensures a * a <= b * b
  {
    assert b * b == a * a + (b - a) * (a + b);
  }

  // h <= 2 lg(n + 1), as 2^h <= (n + 1)^2.
  lemma HeightBound(t: Tree)
    requires RedBlackTree(t)
    ensures Pow(Height(t)) <= (|InOrder(t)| + 1) * (|InOrder(t)| + 1)
  {
    var b, n1 := BlackHeight(t), |InOrder(t)| + 1;
    HeightByBlackHeight(t);
    EnoughNodes(t);
    if Height(t) < b + b {
      PowGrows(Height(t), b + b);
    }
    PowAdd(b, b);
    Squares(Pow(b), n1);
  }
}
