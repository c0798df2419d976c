/**
 The abstract side of the splay tree: trees over the real nodes, the two side trees that top-down
 splaying hangs below its dummy node, and the link predicates for both.
 */
module SplayTheory {
  import opened Sequences

  // An element embedding SPLAY_ENTRY.
  class SpNode {
    const key: int
    var left: SpNode?
    var right: SpNode?

    constructor (k: int)
      ensures key == k && left == null && right == null
    {
      key, left, right := k, null, null;
    }
  }

  datatype Tree = Leaf | Node(left: Tree, elm: SpNode, right: Tree)

  // A side tree with its open end, the latest node first. In the left side tree each node keeps its left
  // subtree and the open end is on the right; in the right side tree it is the other way round.
  datatype Spine = Nil | Link(elm: SpNode, sub: Tree, rest: Spine)

  // ---------- In-order sequences ----------

  function InOrder(t: Tree): seq<SpNode> {
    match t
    case Leaf => []
    case Node(l, x, r) => InOrder(l) + [x] + InOrder(r)
  }

  function LeftOrder(s: Spine): seq<SpNode> {
    if s.Nil? then [] else LeftOrder(s.rest) + (InOrder(s.sub) + [s.elm])
  }

  function RightOrder(s: Spine): seq<SpNode> {
    if s.Nil? then [] else ([s.elm] + InOrder(s.sub)) + RightOrder(s.rest)
  }

  // The side trees closed with t at their open ends.
  function CloseLeft(s: Spine, t: Tree): Tree {
    if s.Nil? then t else CloseLeft(s.rest, Node(s.sub, s.elm, t))
  }

  function CloseRight(s: Spine, t: Tree): Tree {
    if s.Nil? then t else CloseRight(s.rest, Node(t, s.elm, s.sub))
  }

  lemma {:induction false} CloseLeftOrder(s: Spine, t: Tree)
    ensures InOrder(CloseLeft(s, t)) == LeftOrder(s) + InOrder(t)
  {
    if s.Link? {
      CloseLeftOrder(s.rest, Node(s.sub, s.elm, t));
    }
  }

  lemma {:induction false} CloseRightOrder(s: Spine, t: Tree)
    ensures InOrder(CloseRight(s, t)) == InOrder(t) + RightOrder(s)
  {
    if s.Link? {
      CloseRightOrder(s.rest, Node(t, s.elm, s.sub));
    }
  }

  ghost predicate Ordered(s: seq<SpNode>) {
    forall i, j :: 0 <= i < j < |s| ==> s[i].key < s[j].key
  }

  ghost predicate AllBelow(s: seq<SpNode>, k: int) { forall x :: x in s ==> x.key < k }

  ghost predicate AllAbove(s: seq<SpNode>, k: int) { forall x :: x in s ==> k < x.key }

  lemma OrderedConcat(a: seq<SpNode>, b: seq<SpNode>)
    ensures Ordered(a + b) <==> Ordered(a) && Ordered(b) && forall x, y :: x in a && y in b ==> x.key < y.key
  {
    SortedConcat(a, b, (x: SpNode, y: SpNode) => x.key < y.key);
  }

  lemma OrderedNode(t: Tree)
    requires t.Node?
    ensures Ordered(InOrder(t)) <==>
      Ordered(InOrder(t.left)) && Ordered(InOrder(t.right)) && AllBelow(InOrder(t.left), t.elm.key) &&
      AllAbove(InOrder(t.right), t.elm.key)
  {
    var l, x, r := InOrder(t.left), [t.elm], InOrder(t.right);
    OrderedConcat(l + x, r);
    OrderedConcat(l, x);
    if Ordered(l) && Ordered(r) && AllBelow(l, t.elm.key) && AllAbove(r, t.elm.key) {
      forall a: SpNode, b: SpNode | a in l + x && b in r ensures a.key < b.key {
        assert a in l || a == t.elm;
      }
    }
    assert t.elm in x && t.elm in l + x;
  }

  function Size(t: Tree): nat { if t.Leaf? then 0 else 1 + Size(t.left) + Size(t.right) }

  // ---------- Node sets ----------

  function Nodes(t: Tree): set<SpNode> {
    if t.Leaf? then {} else Nodes(t.left) + {t.elm} + Nodes(t.right)
  }

  function SpineNodes(s: Spine): set<SpNode> {
    if s.Nil? then {} else SpineNodes(s.rest) + {s.elm} + Nodes(s.sub)
  }

  ghost predicate Apart(t: Tree) {
    match t
    case Leaf => true
    case Node(l, x, r) => x !in Nodes(l) && x !in Nodes(r) && Nodes(l) !! Nodes(r) && Apart(l) && Apart(r)
  }

  ghost predicate SpineApart(s: Spine) {
    match s
    case Nil => true
    case Link(x, t, rest) =>
      x !in Nodes(t) && x !in SpineNodes(rest) && Nodes(t) !! SpineNodes(rest) && Apart(t) && SpineApart(rest)
  }

  lemma {:induction false} InOrderNodes(t: Tree, x: SpNode)
    ensures x in InOrder(t) <==> x in Nodes(t)
  {
    if t.Node? {
      InOrderNodes(t.left, x);
      InOrderNodes(t.right, x);
    }
  }

  lemma {:induction false} CloseLeftApart(s: Spine, t: Tree)
    requires SpineApart(s) && Apart(t) && SpineNodes(s) !! Nodes(t)
    ensures Apart(CloseLeft(s, t)) && Nodes(CloseLeft(s, t)) == SpineNodes(s) + Nodes(t)
  {
    if s.Link? {
      CloseLeftApart(s.rest, Node(s.sub, s.elm, t));
    }
  }

  lemma {:induction false} CloseRightApart(s: Spine, t: Tree)
    requires SpineApart(s) && Apart(t) && SpineNodes(s) !! Nodes(t)
    ensures Apart(CloseRight(s, t)) && Nodes(CloseRight(s, t)) == SpineNodes(s) + Nodes(t)
  {
    if s.Link? {
      CloseRightApart(s.rest, Node(t, s.elm, s.sub));
    }
  }

  // ---------- Links ----------

  datatype Cell = Cell(left: SpNode?, right: SpNode?)
  type Mem = map<SpNode, Cell>

  ghost const NO_CELL := Cell(null, null)

  ghost function CellOf(x: SpNode): Cell
    reads x
  {
    Cell(x.left, x.right)
  }

  ghost function Snap(s: set<SpNode>): Mem
    reads s
  {
    map x | x in s :: if x in s then CellOf(x) else NO_CELL
  }

  function Ptr(t: Tree): SpNode? { if t.Leaf? then null else t.elm }

  ghost predicate Linked(m: Mem, p: SpNode?, t: Tree)
    decreases t
  {
    match t
    case Leaf => p == null
    case Node(l, x, r) => p == x && x in m && Linked(m, m[x].left, l) && Linked(m, m[x].right, r)
  }

  // The latest node of a side tree, or the dummy node.
  function End(s: Spine, dummy: SpNode): SpNode { if s.Nil? then dummy else s.elm }

  // The left side tree hangs on the dummy's right field, the right one on its left field; where the open
  // end points does not matter.
  ghost predicate LinkedLeft(m: Mem, dummy: SpNode, s: Spine)
    decreases s
  {
    match s
    case Nil => true
    case Link(x, t, rest) =>
      && x in m && Linked(m, m[x].left, t) && End(rest, dummy) in m && m[End(rest, dummy)].right == x
      && LinkedLeft(m, dummy, rest)
  }

  ghost predicate LinkedRight(m: Mem, dummy: SpNode, s: Spine)
    decreases s
  {
    match s
    case Nil => true
    case Link(x, t, rest) =>
      && x in m && Linked(m, m[x].right, t) && End(rest, dummy) in m && m[End(rest, dummy)].left == x
      && LinkedRight(m, dummy, rest)
  }

  ghost predicate Same(m: Mem, m': Mem, s: set<SpNode>) {
    forall x :: x in s && x in m ==> x in m' && m'[x] == m[x]
  }

  lemma {:induction false} LinkedFrame(m: Mem, m': Mem, p: SpNode?, t: Tree)
    requires Linked(m, p, t) && Same(m, m', Nodes(t))
    ensures Linked(m', p, t)
    decreases t
  {
    if t.Node? {
      LinkedFrame(m, m', m[t.elm].left, t.left);
      LinkedFrame(m, m', m[t.elm].right, t.right);
    }
  }

  // Of the end node only the field at the closed side counts.
  lemma {:induction false} LeftFrame(m: Mem, m': Mem, dummy: SpNode, s: Spine)
    requires LinkedLeft(m, dummy, s) && SpineApart(s)
    requires Same(m, m', SpineNodes(s) - {End(s, dummy)})
    requires s.Link? ==> s.elm in m' && m'[s.elm].left == m[s.elm].left
    requires s.Link? ==> dummy !in SpineNodes(s) && dummy in m && dummy in m' && m'[dummy].right == m[dummy].right
    ensures LinkedLeft(m', dummy, s)
    decreases s
  {
    if s.Link? {
      LinkedFrame(m, m', m[s.elm].left, s.sub);
      LeftFrame(m, m', dummy, s.rest);
    }
  }

  lemma {:induction false} RightFrame(m: Mem, m': Mem, dummy: SpNode, s: Spine)
    requires LinkedRight(m, dummy, s) && SpineApart(s)
    requires Same(m, m', SpineNodes(s) - {End(s, dummy)})
    requires s.Link? ==> s.elm in m' && m'[s.elm].right == m[s.elm].right
    requires s.Link? ==> dummy !in SpineNodes(s) && dummy in m && dummy in m' && m'[dummy].left == m[dummy].left
    ensures LinkedRight(m', dummy, s)
    decreases s
  {
    if s.Link? {
      LinkedFrame(m, m', m[s.elm].right, s.sub);
      RightFrame(m, m', dummy, s.rest);
    }
  }

  // ---------- The state of a splay ----------

  // What is left of the tree, between the two side trees.
  datatype Torn = Torn(l: Spine, t: Tree, r: Spine)

  function TornNodes(w: Torn): set<SpNode> { SpineNodes(w.l) + Nodes(w.t) + SpineNodes(w.r) }

  function TornOrder(w: Torn): seq<SpNode> { LeftOrder(w.l) + InOrder(w.t) + RightOrder(w.r) }

  ghost predicate TornApart(w: Torn, dummy: SpNode) {
    && SpineApart(w.l) && Apart(w.t) && SpineApart(w.r) && dummy !in TornNodes(w)
    && SpineNodes(w.l) !! Nodes(w.t) !! SpineNodes(w.r)
  }

  ghost predicate TornLinked(m: Mem, root: SpNode?, dummy: SpNode, w: Torn) {
    match w
    case Torn(l, t, r) =>
      dummy in m && TornApart(w, dummy) && Linked(m, root, t) && LinkedLeft(m, dummy, l) && LinkedRight(m, dummy, r)
  }

  // m' is m but for the cell of x.
  ghost predicate Set(m: Mem, m': Mem, x: SpNode, c: Cell) {
    m'.Keys == m.Keys && x in m && m'[x] == c && forall z :: z in m && z != x ==> m'[z] == m[z]
  }

  function RotRight(t: Tree): Tree
    requires t.Node? && t.left.Node?
  {
    Node(t.left.left, t.left.elm, Node(t.left.right, t.elm, t.right))
  }

  function RotLeft(t: Tree): Tree
    requires t.Node? && t.right.Node?
  {
    Node(Node(t.left, t.elm, t.right.left), t.right.elm, t.right.right)
  }

  lemma Regroup(a: seq<SpNode>, y: SpNode, b: seq<SpNode>, x: SpNode, c: seq<SpNode>)
    ensures (a + [y] + b) + [x] + c == a + [y] + (b + [x] + c)
  {
  }

  lemma NodesOf(t: Tree, x: SpNode)
    requires x in Nodes(t)
    ensures t.Node?
  {
  }

  lemma InOrderLeaf()
    ensures InOrder(Leaf) == []
  {
  }

  lemma InOrderOf(l: Tree, x: SpNode, r: Tree)
    ensures InOrder(Node(l, x, r)) == InOrder(l) + [x] + InOrder(r)
  {
  }

  // The two shapes of a rotation, over subtrees a, b and c.
  lemma RotOrder(a: Tree, y: SpNode, b: Tree, x: SpNode, c: Tree)
    ensures InOrder(Node(Node(a, y, b), x, c)) == InOrder(Node(a, y, Node(b, x, c)))
  {
    hide InOrder;
    InOrderOf(a, y, b);
    InOrderOf(Node(a, y, b), x, c);
    InOrderOf(b, x, c);
    InOrderOf(a, y, Node(b, x, c));
    Regroup(InOrder(a), y, InOrder(b), x, InOrder(c));
  }

  lemma RotApart(a: Tree, y: SpNode, b: Tree, x: SpNode, c: Tree)
    ensures Nodes(Node(Node(a, y, b), x, c)) == Nodes(Node(a, y, Node(b, x, c)))
    ensures Apart(Node(Node(a, y, b), x, c)) <==> Apart(Node(a, y, Node(b, x, c)))
  {
  }

  lemma RotRightSame(t: Tree)
    requires t.Node? && t.left.Node?
    ensures InOrder(RotRight(t)) == InOrder(t) && Nodes(RotRight(t)) == Nodes(t) && (Apart(t) ==> Apart(RotRight(t)))
  {
    hide InOrder, Nodes, Apart;
    RotOrder(t.left.left, t.left.elm, t.left.right, t.elm, t.right);
    RotApart(t.left.left, t.left.elm, t.left.right, t.elm, t.right);
  }

  lemma RotLeftSame(t: Tree)
    requires t.Node? && t.right.Node?
    ensures InOrder(RotLeft(t)) == InOrder(t) && Nodes(RotLeft(t)) == Nodes(t) && (Apart(t) ==> Apart(RotLeft(t)))
  {
    hide InOrder, Nodes, Apart;
    RotOrder(t.left, t.elm, t.right.left, t.right.elm, t.right.right);
    RotApart(t.left, t.elm, t.right.left, t.right.elm, t.right.right);
  }

  // Changes inside the middle tree leave the side trees alone.
  lemma MiddleChanged(m: Mem, m': Mem, root: SpNode?, root': SpNode?, dummy: SpNode, w: Torn, t': Tree)
    requires TornLinked(m, root, dummy, w) && m'.Keys == m.Keys && Same(m, m', m.Keys - Nodes(w.t))
    requires Linked(m', root', t') && Apart(t') && Nodes(t') == Nodes(w.t)
    ensures TornLinked(m', root', dummy, w.(t := t'))
  {
    LeftFrame(m, m', dummy, w.l);
    RightFrame(m, m', dummy, w.r);
  }

  lemma RotRightLinked(m: Mem, m': Mem, t: Tree)
    requires t.Node? && t.left.Node? && Linked(m, t.elm, t) && Apart(t)
    requires var x, y := t.elm, t.left.elm;
      && y in m && x in m' && y in m' && m'[x] == m[x].(left := m[y].right) && m'[y] == m[y].(right := x)
      && Same(m, m', Nodes(t) - {x, y})
    ensures Linked(m', t.left.elm, RotRight(t)) && {t.elm, t.left.elm} <= Nodes(t) && t.elm != t.left.elm
  {
    var x, y := t.elm, t.left.elm;
    assert Linked(m, y, t.left);
    LinkedFrame(m, m', m[y].left, t.left.left);
    LinkedFrame(m, m', m[y].right, t.left.right);
    LinkedFrame(m, m', m[x].right, t.right);
  }

  lemma RotLeftLinked(m: Mem, m': Mem, t: Tree)
    requires t.Node? && t.right.Node? && Linked(m, t.elm, t) && Apart(t)
    requires var x, y := t.elm, t.right.elm;
      && y in m && x in m' && y in m' && m'[x] == m[x].(right := m[y].left) && m'[y] == m[y].(left := x)
      && Same(m, m', Nodes(t) - {x, y})
    ensures Linked(m', t.right.elm, RotLeft(t)) && {t.elm, t.right.elm} <= Nodes(t) && t.elm != t.right.elm
  {
    var x, y := t.elm, t.right.elm;
    assert Linked(m, y, t.right);
    LinkedFrame(m, m', m[y].right, t.right.right);
    LinkedFrame(m, m', m[y].left, t.right.left);
    LinkedFrame(m, m', m[x].left, t.left);
  }

  // SPLAY_ROTATE_RIGHT
  lemma RotatedRight(m: Mem, m1: Mem, m': Mem, dummy: SpNode, w: Torn)
    requires w.t.Node? && w.t.left.Node? && TornLinked(m, w.t.elm, dummy, w)
    requires var x, y := w.t.elm, w.t.left.elm;
      && x in m && y in m && Set(m, m1, x, m[x].(left := m[y].right)) && y in m1
      && Set(m1, m', y, m1[y].(right := x))
    ensures TornLinked(m', w.t.left.elm, dummy, w.(t := RotRight(w.t)))
  {
    var x, y := w.t.elm, w.t.left.elm;
    RotRightSame(w.t);
    RotRightLinked(m, m', w.t);
    hide Linked, LinkedLeft, LinkedRight, Apart, SpineApart, Nodes, SpineNodes, TornLinked, InOrder;
    MiddleChanged(m, m', x, y, dummy, w, RotRight(w.t));
  }

  // SPLAY_ROTATE_LEFT
  lemma RotatedLeft(m: Mem, m1: Mem, m': Mem, dummy: SpNode, w: Torn)
    requires w.t.Node? && w.t.right.Node? && TornLinked(m, w.t.elm, dummy, w)
    requires var x, y := w.t.elm, w.t.right.elm;
      && x in m && y in m && Set(m, m1, x, m[x].(right := m[y].left)) && y in m1
      && Set(m1, m', y, m1[y].(left := x))
    ensures TornLinked(m', w.t.right.elm, dummy, w.(t := RotLeft(w.t)))
  {
    var x, y := w.t.elm, w.t.right.elm;
    RotLeftSame(w.t);
    RotLeftLinked(m, m', w.t);
    hide Linked, LinkedLeft, LinkedRight, Apart, SpineApart, Nodes, SpineNodes, TornLinked, InOrder;
    MiddleChanged(m, m', x, y, dummy, w, RotLeft(w.t));
  }

  // SPLAY_LINKLEFT: the root and its right subtree go to the right side tree.
  function LinkedOverLeft(w: Torn): Torn
    requires w.t.Node?
  {
    Torn(w.l, w.t.left, Link(w.t.elm, w.t.right, w.r))
  }

  // SPLAY_LINKRIGHT: the root and its left subtree go to the left side tree.
  function LinkedOverRight(w: Torn): Torn
    requires w.t.Node?
  {
    Torn(Link(w.t.elm, w.t.left, w.l), w.t.right, w.r)
  }

  lemma LinkLeftLinks(m: Mem, m': Mem, dummy: SpNode, w: Torn)
    requires w.t.Node? && TornLinked(m, w.t.elm, dummy, w)
    requires var e := End(w.r, dummy); e in m && Set(m, m', e, m[e].(left := w.t.elm))
    ensures w.t.elm in m && m'[w.t.elm] == m[w.t.elm]
    ensures TornLinked(m', m[w.t.elm].left, dummy, LinkedOverLeft(w)) && TornOrder(LinkedOverLeft(w)) == TornOrder(w)
    ensures TornNodes(LinkedOverLeft(w)) == TornNodes(w)
  {
    var x := w.t.elm;
    LinkedFrame(m, m', m[x].left, w.t.left);
    LinkedFrame(m, m', m[x].right, w.t.right);
    LeftFrame(m, m', dummy, w.l);
    RightFrame(m, m', dummy, w.r);
    LinkLeftOrder(w);
  }

  lemma LinkLeftOrder(w: Torn)
    requires w.t.Node?
    ensures TornOrder(LinkedOverLeft(w)) == TornOrder(w)
  {
  }

  lemma LinkRightLinks(m: Mem, m': Mem, dummy: SpNode, w: Torn)
    requires w.t.Node? && TornLinked(m, w.t.elm, dummy, w)
    requires var e := End(w.l, dummy); e in m && Set(m, m', e, m[e].(right := w.t.elm))
    ensures w.t.elm in m && m'[w.t.elm] == m[w.t.elm]
    ensures TornLinked(m', m[w.t.elm].right, dummy, LinkedOverRight(w)) && TornOrder(LinkedOverRight(w)) == TornOrder(w)
    ensures TornNodes(LinkedOverRight(w)) == TornNodes(w)
  {
    var x := w.t.elm;
    LinkedFrame(m, m', m[x].left, w.t.left);
    LinkedFrame(m, m', m[x].right, w.t.right);
    LeftFrame(m, m', dummy, w.l);
    RightFrame(m, m', dummy, w.r);
    LinkRightOrder(w);
  }

  lemma LinkRightOrder(w: Torn)
    requires w.t.Node?
    ensures TornOrder(LinkedOverRight(w)) == TornOrder(w)
  {
  }

  // ---------- Assembling ----------

  function Assembled(w: Torn): Tree
    requires w.t.Node?
  {
    Node(CloseLeft(w.l, w.t.left), w.t.elm, CloseRight(w.r, w.t.right))
  }

  lemma AssembledOrder(w: Torn)
    requires w.t.Node?
    ensures InOrder(Assembled(w)) == TornOrder(w)
  {
    hide InOrder, LeftOrder, RightOrder, CloseLeft, CloseRight;
    var l, x, r := InOrder(w.t.left), w.t.elm, InOrder(w.t.right);
    CloseLeftOrder(w.l, w.t.left);
    CloseRightOrder(w.r, w.t.right);
    InOrderOf(w.t.left, x, w.t.right);
    InOrderOf(CloseLeft(w.l, w.t.left), x, CloseRight(w.r, w.t.right));
    RegroupAll(LeftOrder(w.l), l, x, r, RightOrder(w.r));
  }

  lemma RegroupAll(a: seq<SpNode>, l: seq<SpNode>, x: SpNode, r: seq<SpNode>, b: seq<SpNode>)
    ensures (a + l) + [x] + (r + b) == a + (l + [x] + r) + b
  {
  }

  lemma {:induction false} CloseLeftLinks(m: Mem, dummy: SpNode, s: Spine, t: Tree)
    requires LinkedLeft(m, dummy, s) && End(s, dummy) in m && Linked(m, m[End(s, dummy)].right, t)
    ensures dummy in m && Linked(m, m[dummy].right, CloseLeft(s, t))
    decreases s
  {
    if s.Link? {
      CloseLeftLinks(m, dummy, s.rest, Node(s.sub, s.elm, t));
    }
  }

  lemma {:induction false} CloseRightLinks(m: Mem, dummy: SpNode, s: Spine, t: Tree)
    requires LinkedRight(m, dummy, s) && End(s, dummy) in m && Linked(m, m[End(s, dummy)].left, t)
    ensures dummy in m && Linked(m, m[dummy].left, CloseRight(s, t))
    decreases s
  {
    if s.Link? {
      CloseRightLinks(m, dummy, s.rest, Node(t, s.elm, s.sub));
    }
  }

  // The two writes that close the side trees.
  lemma Closed(m: Mem, m1: Mem, m2: Mem, dummy: SpNode, w: Torn)
    requires w.t.Node? && TornLinked(m, w.t.elm, dummy, w) && w.t.elm in m
    requires var e := End(w.l, dummy); e in m && Set(m, m1, e, m[e].(right := m[w.t.elm].left))
    requires var e := End(w.r, dummy); e in m1 && Set(m1, m2, e, m1[e].(left := m[w.t.elm].right))
    ensures dummy in m2 && w.t.elm in m2 && m2[w.t.elm] == m[w.t.elm]
    ensures Linked(m2, m2[dummy].right, CloseLeft(w.l, w.t.left))
    ensures Linked(m2, m2[dummy].left, CloseRight(w.r, w.t.right))
  {
    var x := w.t.elm;
    LeftFrame(m, m1, dummy, w.l);
    RightFrame(m, m1, dummy, w.r);
    LeftFrame(m1, m2, dummy, w.l);
    RightFrame(m1, m2, dummy, w.r);
    LinkedFrame(m, m2, m[x].left, w.t.left);
    LinkedFrame(m, m2, m[x].right, w.t.right);
    CloseLeftLinks(m2, dummy, w.l, w.t.left);
    CloseRightLinks(m2, dummy, w.r, w.t.right);
  }

  // SPLAY_ASSEMBLE: the closed side trees become the root's subtrees.
  lemma AssembledLinks(m2: Mem, m': Mem, dummy: SpNode, w: Torn)
    requires w.t.Node? && TornApart(w, dummy) && dummy in m2
    requires Linked(m2, m2[dummy].right, CloseLeft(w.l, w.t.left))
    requires Linked(m2, m2[dummy].left, CloseRight(w.r, w.t.right))
    requires Set(m2, m', w.t.elm, Cell(m2[dummy].right, m2[dummy].left))
    ensures Linked(m', w.t.elm, Assembled(w)) && Apart(Assembled(w)) && Nodes(Assembled(w)) == TornNodes(w)
  {
    CloseLeftApart(w.l, w.t.left);
    CloseRightApart(w.r, w.t.right);
    LinkedFrame(m2, m', m2[dummy].right, CloseLeft(w.l, w.t.left));
    LinkedFrame(m2, m', m2[dummy].left, CloseRight(w.r, w.t.right));
  }

  // ---------- A new root, and the join after a removal ----------

  function BelowRoot(t: Tree, e: SpNode): Tree
    requires t.Node?
  {
    Node(t.left, e, Node(Leaf, t.elm, t.right))
  }

  function AboveRoot(t: Tree, e: SpNode): Tree
    requires t.Node?
  {
    Node(Node(t.left, t.elm, Leaf), e, t.right)
  }

  lemma SubLinks(m: Mem, p: SpNode?, t: Tree)
    requires Linked(m, p, t) && t.Node? && Apart(t)
    ensures p == t.elm && t.elm in m && t.elm in Nodes(t) && t.elm !in Nodes(t.left) && t.elm !in Nodes(t.right)
    ensures Linked(m, m[t.elm].left, t.left) && Linked(m, m[t.elm].right, t.right)
    ensures m[t.elm] == Cell(Ptr(t.left), Ptr(t.right))
    ensures Apart(t.left) && Apart(t.right) && Nodes(t.left) !! Nodes(t.right)
    ensures Nodes(t.left) <= Nodes(t) && Nodes(t.right) <= Nodes(t)
  {
  }

  lemma BelowRootLinks(m: Mem, m': Mem, t: Tree, e: SpNode)
    requires t.Node? && Linked(m, t.elm, t) && Apart(t) && e !in Nodes(t) && t.elm in m
    requires e in m' && t.elm in m' && m'[e] == Cell(m[t.elm].left, t.elm) && m'[t.elm] == Cell(null, m[t.elm].right)
    requires Same(m, m', Nodes(t) - {t.elm})
    ensures Linked(m', e, BelowRoot(t, e)) && Apart(BelowRoot(t, e)) && Nodes(BelowRoot(t, e)) == Nodes(t) + {e}
  {
    LinkedFrame(m, m', m[t.elm].left, t.left);
    LinkedFrame(m, m', m[t.elm].right, t.right);
  }

  lemma AboveRootLinks(m: Mem, m': Mem, t: Tree, e: SpNode)
    requires t.Node? && Linked(m, t.elm, t) && Apart(t) && e !in Nodes(t) && t.elm in m
    requires e in m' && t.elm in m' && m'[e] == Cell(t.elm, m[t.elm].right) && m'[t.elm] == Cell(m[t.elm].left, null)
    requires Same(m, m', Nodes(t) - {t.elm})
    ensures Linked(m', e, AboveRoot(t, e)) && Apart(AboveRoot(t, e)) && Nodes(AboveRoot(t, e)) == Nodes(t) + {e}
  {
    LinkedFrame(m, m', m[t.elm].left, t.left);
    LinkedFrame(m, m', m[t.elm].right, t.right);
  }

  // The right subtree r goes under the root of a, which has none of its own.
  lemma JoinedLinks(m: Mem, mr: Mem, m': Mem, a: Tree, p: SpNode?, r: Tree)
    requires a.Node? && a.right == Leaf && Linked(m, a.elm, a) && Apart(a) && a.elm in m
    requires Linked(mr, p, r) && Apart(r) && Nodes(a) !! Nodes(r)
    requires a.elm in m' && m'[a.elm] == Cell(m[a.elm].left, p)
    requires Same(m, m', Nodes(a) - {a.elm}) && Same(mr, m', Nodes(r))
    ensures var t' := Node(a.left, a.elm, r);
      Linked(m', a.elm, t') && Apart(t') && Nodes(t') == Nodes(a) + Nodes(r)
  {
    LinkedFrame(m, m', m[a.elm].left, a.left);
    LinkedFrame(mr, m', p, r);
  }
}
