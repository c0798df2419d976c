/**
 Ownership of a B-tree's nodes and arrays, and how a tree is put together again after some of its
 nodes were changed.
 */
module BTreeHeap {
  import opened BTreeTheory
  import opened BTreeNode

  // Every node of minimum degree d's size, with arrays of its own.
  ghost predicate Separate(s: set<KbNode>, d: nat) {
    && (forall x :: x in s ==> Sized(x, d))
    && (forall x, y :: x in s && y in s && x != y ==> x.keys != y.keys && x.ptrs != y.ptrs)
  }

  // A B-tree of minimum degree d and height h, as memory m links it.
  ghost predicate Tree(m: Mem, t: BT, d: nat, h: nat) {
    d >= 2 && Separate(Nodes(t), d) && Apart(t) && Linked(m, t) && Good(t, d, h)
  }

  ghost predicate Owned(t: BT, d: nat, h: nat)
    reads Foot(Nodes(t))
  {
    Tree(Snap(Nodes(t)), t, d, h)
  }

  lemma FootApart(s: set<KbNode>, s': set<KbNode>, d: nat)
    requires Separate(s + s', d) && s !! s'
    ensures Foot(s) !! Foot(s')
  {
    forall o | o in Foot(s) ensures o !in Foot(s') {
      if o in s {
      } else if x :| x in s && x.keys == o {
      } else {
        var x :| x in s && x.ptrs == o;
      }
    }
  }

  lemma FootAllocated(s: set<KbNode>)
    ensures allocated(Foot(s))
  {
  }

  lemma FootNone()
    ensures Foot({}) == {}
  {
  }

  lemma FootOne(x: KbNode)
    ensures Foot({x}) == {x as object, x.keys as object, x.ptrs as object}
  {
  }

  lemma FootHas(s: set<KbNode>)
    ensures forall x :: x in s ==> x as object in Foot(s)
  {
  }

  lemma SeparatePart(s: set<KbNode>, s': set<KbNode>, d: nat)
    requires Separate(s, d) && s' <= s
    ensures Separate(s', d) && Foot(s') <= Foot(s)
  {
  }

  lemma SeparatePlus(s: set<KbNode>, g: set<KbNode>, d: nat)
    requires Separate(s, d) && Separate(g, d) && Foot(s) !! Foot(g)
    ensures Separate(s + g, d)
  {
    forall x, y | x in s && y in g ensures x.keys != y.keys && x.ptrs != y.ptrs {
      assert x.keys as object in Foot(s) && y.keys as object in Foot(g);
      assert x.ptrs as object in Foot(s) && y.ptrs as object in Foot(g);
    }
  }

  lemma FootMono(s: set<KbNode>, s': set<KbNode>)
    requires s <= s'
    ensures Foot(s) <= Foot(s')
  {
  }

  lemma FootSplits(s: set<KbNode>, s': set<KbNode>, s'': set<KbNode>)
    requires s <= s' <= s''
    ensures Foot(s'' - s) == Foot(s'' - s') + Foot(s' - s) && Foot(s') == Foot(s) + Foot(s' - s)
  {
    assert s'' - s == (s'' - s') + (s' - s) && s' == s + (s' - s);
  }

  // What the node at the head of a tree holds.
  lemma See(t: BT, d: nat, h: nat)
    requires Owned(t, d, h)
    ensures var x := t.node;
      && x in Nodes(t) && CellOf(x) == TreeCell(t) && Fits(x) && Sized(x, d) && d >= 2
      && x.n == |t.keys| <= 2 * d - 1 && x.keys[..x.n] == t.keys && (x.isInternal <==> t.kids != [])
      && (t.kids == [] <==> h == 0) && Arity(t)
      && (x.isInternal ==> x.ptrs[..x.n + 1] == Ptrs(t.kids))
  {
  }

  // Its child i.
  lemma SeeKid(t: BT, d: nat, h: nat, i: nat)
    requires Owned(t, d, h) && h > 0 && i < |t.kids|
    ensures |t.kids| == |t.keys| + 1 == t.node.n + 1 && t.node.isInternal && t.node.ptrs.Length == 2 * d
    ensures Owned(t.kids[i], d, h - 1) && d - 1 <= |t.kids[i].keys| && t.node.ptrs[i] == t.kids[i].node
    ensures Nodes(t.kids[i]) <= Nodes(t) - {t.node} && Foot(Nodes(t.kids[i])) <= Foot(Nodes(t))
  {
    hide Tree, Foot, Nodes;
    See(t, d, h);
    KidTree(Snap(Nodes(t)), t, d, h, i);
    TreeFrame(Snap(Nodes(t)), Snap(Nodes(t.kids[i])), t.kids[i], d, h - 1);
    assert t.node.ptrs[..t.node.n + 1][i] == t.kids[i].node;
  }

  lemma SeeSize(t: BT, d: nat, h: nat, i: nat)
    requires Owned(t, d, h) && h > 0 && i < |t.kids|
    ensures i < t.node.ptrs.Length && t.node.ptrs[i] == t.kids[i].node && t.kids[i].node.n == |t.kids[i].keys|
    ensures d - 1 <= |t.kids[i].keys| && d >= 2
  {
    hide Owned;
    See(t, d, h);
    SeeKid(t, d, h, i);
    See(t.kids[i], d, h - 1);
  }

  lemma KidTree(m: Mem, t: BT, d: nat, h: nat, i: nat)
    requires Tree(m, t, d, h) && h > 0 && i < |t.kids|
    ensures Tree(m, t.kids[i], d, h - 1) && d - 1 <= |t.kids[i].keys| && |t.kids| == |t.keys| + 1
    ensures Nodes(t.kids[i]) <= Nodes(t) - {t.node} && Foot(Nodes(t.kids[i])) <= Foot(Nodes(t))
  {
    hide Good;
    GoodKid(t, d, h, i);
    KidNodes(t.kids, t.kids[i]);
    KidApart(t.kids, i);
    SeparatePart(Nodes(t), Nodes(t.kids[i]), d);
  }

  lemma TreeFrame(m: Mem, m': Mem, t: BT, d: nat, h: nat)
    requires Tree(m, t, d, h) && Same(m, m', Nodes(t))
    ensures Tree(m', t, d, h)
  {
    hide Linked, Apart, Good, Separate;
    LinkedFrame(m, m', t);
  }

  lemma {:induction false} KidApart(kids: seq<BT>, i: nat)
    requires ApartAll(kids) && i < |kids|
    ensures Apart(kids[i])
    decreases i
  {
    if i > 0 {
      KidApart(kids[1..], i - 1);
    }
  }

  // The nodes of a tree outside some changed set keep their cells.
  lemma SeeRest(t: BT, d: nat, h: nat, changed: set<KbNode>)
    requires Owned(t, d, h) && changed <= Nodes(t)
    ensures Tree(Snap(Nodes(t)), t, d, h) && Separate(changed, d) && Foot(changed) <= Foot(Nodes(t))
    ensures Foot(Nodes(t) - changed) !! Foot(changed)
    ensures Same(Snap(Nodes(t)), Snap(Nodes(t) - changed), Nodes(t) - changed)
  {
    SeparatePart(Nodes(t), changed, d);
    assert Nodes(t) - changed + changed == Nodes(t);
    FootApart(Nodes(t) - changed, changed, d);
  }

  // The part of the tree outside a run of children and the node above them.
  ghost function Outside(t: BT, i: nat, w: nat): set<KbNode>
    requires i + w <= |t.kids|
  {
    Nodes(t) - {t.node} - NodesOf(t.kids[i..i + w])
  }

  // New children for a run of old ones, each a tree in its own right and none sharing nodes.
  ghost predicate Suits(t: BT, i: nat, w: nat, mid: seq<int>, news: seq<BT>, d: nat, h: nat)
    requires i + w <= |t.kids|
    reads Foot(NodesOf(news))
  {
    && h > 0 && w > 0 && |news| == |mid| + 1 && |t.keys| + |mid| <= 2 * d - 1 + (w - 1)
    && ApartAll(news) && GoodAll(news, d, h - 1) && NodesOf(news) !! Nodes(t) - NodesOf(t.kids[i..i + w])
    && (forall c :: c in news ==> Linked(Snap(NodesOf(news)), c))
    && Separate(Nodes(t) + NodesOf(news), d)
  }

  // The tree with a run of children replaced, once its own node is in place too.
  lemma Rebuilt(m: Mem, t: BT, i: nat, w: nat, mid: seq<int>, news: seq<BT>, d: nat, h: nat)
    requires Tree(m, t, d, h) && i + w <= |t.kids| == |t.keys| + 1 && Suits(t, i, w, mid, news, d, h)
    requires Same(m, Snap(Outside(t, i, w)), Outside(t, i, w))
    requires CellOf(t.node) == TreeCell(Edit(t, i, w, mid, news))
    ensures Owned(Edit(t, i, w, mid, news), d, h)
    ensures Nodes(Edit(t, i, w, mid, news)) == Nodes(t) - NodesOf(t.kids[i..i + w]) + NodesOf(news)
  {
    hide NodesOf, ApartAll, Edit, TreeCell, CellOf, Good, GoodAll;
    var u := Edit(t, i, w, mid, news);
    var m' := Snap(Nodes(u));
    EditApart(t, i, w, mid, news);
    forall c | c in news ensures Linked(m', c) {
      KidNodes(news, c);
      LinkedFrame(Snap(NodesOf(news)), m', c);
    }
    EditNode(t, i, w, mid, news);
    EditLinked(m, m', t, i, w, mid, news);
    EditGood(t, i, w, mid, news, d, h);
  }

  lemma EditNode(t: BT, i: nat, w: nat, mid: seq<int>, news: seq<BT>)
    requires w > 0 && i + w <= |t.kids| == |t.keys| + 1
    ensures Edit(t, i, w, mid, news).node == t.node && t.node in Nodes(Edit(t, i, w, mid, news))
  {
  }

  // A node over children that were in place before, in memory m.
  lemma Assembled(m: Mem, t: BT)
    requires CellOf(t.node) == TreeCell(t) && (t.node.isInternal <==> t.kids != [])
    requires (forall c :: c in t.kids ==> Linked(m, c)) && Same(m, Snap(NodesOf(t.kids)), NodesOf(t.kids))
    ensures Linked(Snap(Nodes(t)), t)
  {
    LinkedFrameAll(m, Snap(Nodes(t)), t.kids);
  }

  // Cells outside the changed nodes keep their values.
  lemma SameRest(m: Mem, s: set<KbNode>, s': set<KbNode>)
    requires s' <= s && Same(m, Snap(s), s)
    ensures Same(m, Snap(s'), s')
  {
  }

  lemma BothLinked(y: BT, z: BT)
    requires Linked(Snap(Nodes(y)), y) && Linked(Snap(Nodes(z)), z)
    ensures forall c :: c in [y, z] ==> Linked(Snap(NodesOf([y, z])), c)
  {
    var m := Snap(NodesOf([y, z]));
    ApartTwo(y, z);
    LinkedFrame(Snap(Nodes(y)), m, y);
    LinkedFrame(Snap(Nodes(z)), m, z);
  }

  lemma TwoSuit(t: BT, i: nat, w: nat, k: int, y: BT, z: BT, d: nat, h: nat)
    requires h > 0 && w > 0 && i + w <= |t.kids| && |t.keys| + 1 <= 2 * d - 1 + (w - 1)
    requires ApartAll([y, z]) && GoodAll([y, z], d, h - 1) && NodesOf([y, z]) !! Nodes(t) - NodesOf(t.kids[i..i + w])
    requires Linked(Snap(Nodes(y)), y) && Linked(Snap(Nodes(z)), z) && Separate(Nodes(t) + NodesOf([y, z]), d)
    ensures Suits(t, i, w, [k], [y, z], d, h)
  {
    hide Linked, GoodAll, ApartAll, Separate, Nodes, NodesOf;
    BothLinked(y, z);
  }

  lemma OneSuits(t: BT, i: nat, w: nat, y: BT, d: nat, h: nat)
    requires h > 0 && w > 0 && i + w <= |t.kids| && |t.keys| <= 2 * d - 1 + (w - 1)
    requires Owned(y, d, h - 1) && d - 1 <= |y.keys| && Nodes(y) !! Nodes(t) - NodesOf(t.kids[i..i + w])
    requires Separate(Nodes(t) + Nodes(y), d)
    ensures Suits(t, i, w, [], [y], d, h)
  {
    ApartOne(y);
    hide Linked, Apart, Separate, Nodes, NodesOf, Good;
  }

  // Child i replaced by a tree with the same head.
  lemma KidReplaced(m: Mem, t: BT, i: nat, y: BT, d: nat, h: nat)
    requires Tree(m, t, d, h) && h > 0 && i < |t.kids| && Owned(y, d, h - 1) && d - 1 <= |y.keys|
    requires y.node == t.kids[i].node && Nodes(y) !! Nodes(t) - Nodes(t.kids[i]) && Separate(Nodes(t) + Nodes(y), d)
    requires var rest := Nodes(t) - Nodes(t.kids[i]); Same(m, Snap(rest), rest)
    ensures |t.kids| == |t.keys| + 1
    ensures var u := Edit(t, i, 1, [], [y]);
      Owned(u, d, h) && u.node == t.node && Nodes(u) == Nodes(t) - Nodes(t.kids[i]) + Nodes(y)
  {
    hide Owned, Good, Linked, Apart, CellOf, Suits, Edit;
    GoodTree(m, t, d, h);
    SeeInside(m, t, i);
    ApartOne(y);
    EditNode(t, i, 1, [], [y]);
    ReplacedCell(t, i, y);
    SameRest(m, Nodes(t) - Nodes(t.kids[i]), Outside(t, i, 1));
    OneSuits(t, i, 1, y, d, h);
    Rebuilt(m, t, i, 1, [], [y], d, h);
  }

  lemma GoodTree(m: Mem, t: BT, d: nat, h: nat)
    requires Tree(m, t, d, h)
    ensures |t.keys| <= 2 * d - 1 && d >= 2 && t.node in m && m[t.node] == TreeCell(t) && t.node in Nodes(t)
    ensures if h == 0 then t.kids == [] else |t.kids| == |t.keys| + 1
  {
  }

  lemma ReplacedCell(t: BT, i: nat, y: BT)
    requires i < |t.kids| == |t.keys| + 1 && y.node == t.kids[i].node
    ensures TreeCell(Edit(t, i, 1, [], [y])) == TreeCell(t)
  {
    var u := Edit(t, i, 1, [], [y]);
    assert u.keys == t.keys;
    assert Ptrs(u.kids) == Ptrs(t.kids);
  }

  // Child i of a linked tree.
  lemma SeeInside(m: Mem, t: BT, i: nat)
    requires Linked(m, t) && Apart(t) && i < |t.kids|
    ensures t.kids[i] in t.kids && Linked(m, t.kids[i]) && Apart(t.kids[i]) && t.node !in Nodes(t.kids[i])
    ensures Nodes(t.kids[i]) <= NodesOf(t.kids) && NodesOf(t.kids[i..i + 1]) == Nodes(t.kids[i])
  {
    var c := t.kids[i];
    assert c in t.kids;
    KidNodes(t.kids, c);
    KidApart(t.kids, i);
    assert t.kids[i..i + 1] == [c];
    ApartOne(c);
  }
}
