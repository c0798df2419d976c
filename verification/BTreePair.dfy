/**
 Moving keys between two neighbouring children of a B-tree node: borrowing from the left or the right
 sibling, and merging the two. None of them changes the key sequence.
 */
module BTreePair {
  import opened BTreeTheory
  import opened BTreeNode
  import opened BTreeHeap

  // Children j and j + 1 of t, and the node above.
  ghost function Trio(t: BT, j: nat): set<KbNode>
    requires j + 1 < |t.kids|
  {
    {t.node, t.kids[j].node, t.kids[j + 1].node}
  }

  lemma SeePair(t: BT, d: nat, h: nat, j: nat)
    requires Owned(t, d, h) && h > 0 && j + 1 < |t.kids|
    ensures Arity(t) && |t.kids| == |t.keys| + 1
    ensures var x, y, z, rest := t.node, t.kids[j].node, t.kids[j + 1].node, Nodes(t) - Trio(t, j);
      && d >= 2 && Separate({x, y, z}, d) && x != y && x != z && y != z && x.isInternal &&
        (y.isInternal <==> z.isInternal)
      && x.n == |t.keys| && y.n == |t.kids[j].keys| && z.n == |t.kids[j + 1].keys| && Fits(x) && Fits(y) && Fits(z)
      && d - 1 <= y.n && d - 1 <= z.n
      && Trio(t, j) == {x, y, z} && Foot({x, y, z}) <= Foot(Nodes(t)) && Foot(rest) !! Foot({x, y, z})
      && Tree(Snap(Nodes(t)), t, d, h) && Same(Snap(Nodes(t)), Snap(rest), rest)
      && CellOf(x) == TreeCell(t) && CellOf(y) == TreeCell(t.kids[j]) && CellOf(z) == TreeCell(t.kids[j + 1])
      && x.ptrs[j] == y && x.ptrs[j + 1] == z
      && x.keys[..x.n] == t.keys && y.keys[..y.n] == t.kids[j].keys && z.keys[..z.n] == t.kids[j + 1].keys
  {
    hide Owned, CellOf, TreeCell, Separate, Foot, Good, Same, Nodes, Snap;
    SeeKid(t, d, h, j);
    SeeKid(t, d, h, j + 1);
    See(t, d, h);
    See(t.kids[j], d, h - 1);
    See(t.kids[j + 1], d, h - 1);
    PairDistinct(t, d, h, j);
    SeeRest(t, d, h, Trio(t, j));
  }

  lemma PairDistinct(t: BT, d: nat, h: nat, j: nat)
    requires Owned(t, d, h) && h > 0 && j + 1 < |t.kids|
    ensures t.kids[j].node != t.kids[j + 1].node && Trio(t, j) <= Nodes(t) && Apart(t)
    ensures ApartAll(t.kids[j..j + 2]) && t.kids[j..j + 2] == [t.kids[j], t.kids[j + 1]]
  {
    var y, z := t.kids[j], t.kids[j + 1];
    ApartWindow(t.kids, j, j + 2);
    assert t.kids[j..j + 2] == [y, z];
    ApartTwo(y, z);
  }

  // The pair y', z' holds the grandchildren of y, z between them.
  ghost predicate Shared(y: BT, z: BT, y': BT, z': BT) {
    y'.node == y.node && z'.node == z.node && y'.kids + z'.kids == y.kids + z.kids
  }

  lemma PairApart(y: BT, z: BT, y': BT, z': BT)
    requires ApartAll([y, z]) && Shared(y, z, y', z')
    ensures ApartAll([y', z']) && NodesOf([y', z']) == NodesOf([y, z])
    ensures NodesOf(y'.kids) <= NodesOf(y.kids) + NodesOf(z.kids) &&
      NodesOf(z'.kids) <= NodesOf(y.kids) + NodesOf(z.kids)
    ensures forall e :: e in y'.kids || e in z'.kids ==> e in y.kids || e in z.kids
  {
    ApartTwo(y, z);
    ApartTwo(y', z');
    ApartConcat(y.kids, z.kids);
    ApartConcat(y'.kids, z'.kids);
    forall e | e in y'.kids || e in z'.kids ensures e in y.kids || e in z.kids {
      assert e in y'.kids + z'.kids;
    }
  }

  // A node over grandchildren below the pair.
  lemma PairLinked(m: Mem, t: BT, j: nat, g: BT)
    requires Linked(m, t) && Apart(t) && j + 1 < |t.kids| && ApartAll([t.kids[j], t.kids[j + 1]])
    requires var rest := Nodes(t) - Trio(t, j); Same(m, Snap(rest), rest)
    requires CellOf(g.node) == TreeCell(g) && (g.node.isInternal <==> g.kids != [])
    requires NodesOf(g.kids) <= NodesOf(t.kids[j].kids) + NodesOf(t.kids[j + 1].kids)
    requires forall e :: e in g.kids ==> e in t.kids[j].kids || e in t.kids[j + 1].kids
    ensures Linked(Snap(Nodes(g)), g)
  {
    hide CellOf, TreeCell;
    var y, z := t.kids[j], t.kids[j + 1];
    SeeInside(m, t, j);
    SeeInside(m, t, j + 1);
    ApartTwo(y, z);
    SameRest(m, Nodes(t) - Trio(t, j), NodesOf(g.kids));
    Assembled(m, g);
  }

  lemma OutsidePair(t: BT, j: nat)
    requires j + 1 < |t.kids|
    ensures NodesOf(t.kids[j..j + 2]) == NodesOf([t.kids[j], t.kids[j + 1]])
    ensures Outside(t, j, 2) <= Nodes(t) - Trio(t, j)
    ensures NodesOf(t.kids[j..j + 2]) <= Nodes(t)
  {
    assert t.kids[j..j + 2] == [t.kids[j], t.kids[j + 1]];
    ApartTwo(t.kids[j], t.kids[j + 1]);
    ApartWindow(t.kids, j, j + 2);
  }

  // Two children changed, and the key between them.
  lemma PairChanged(m: Mem, t: BT, j: nat, k: int, y': BT, z': BT, d: nat, h: nat)
    requires Tree(m, t, d, h) && h > 0 && j + 1 < |t.kids| == |t.keys| + 1 && ApartAll([t.kids[j], t.kids[j + 1]])
    requires var rest := Nodes(t) - Trio(t, j); Same(m, Snap(rest), rest)
    requires Shared(t.kids[j], t.kids[j + 1], y', z') && GoodAll([y', z'], d, h - 1)
    requires CellOf(t.node) == TreeCell(Edit(t, j, 2, [k], [y', z']))
    requires CellOf(y'.node) == TreeCell(y') && (y'.node.isInternal <==> y'.kids != [])
    requires CellOf(z'.node) == TreeCell(z') && (z'.node.isInternal <==> z'.kids != [])
    ensures var u := Edit(t, j, 2, [k], [y', z']); Owned(u, d, h) && u.node == t.node && Nodes(u) == Nodes(t)
  {
    hide CellOf, TreeCell, GoodAll, Good, ApartAll, NodesOf, Edit, Suits, Owned;
    var y, z := t.kids[j], t.kids[j + 1];
    GoodTree(m, t, d, h);
    PairApart(y, z, y', z');
    PairLinked(m, t, j, y');
    PairLinked(m, t, j, z');
    OutsidePair(t, j);
    SameRest(m, Nodes(t) - Trio(t, j), Outside(t, j, 2));
    assert Nodes(t) + NodesOf([y', z']) == Nodes(t);
    TwoSuit(t, j, 2, k, y', z', d, h);
    EditNode(t, j, 2, [k], [y', z']);
    Rebuilt(m, t, j, 2, [k], [y', z'], d, h);
  }

  // Two children made one.
  lemma PairJoined(m: Mem, t: BT, j: nat, g: BT, d: nat, h: nat)
    requires Tree(m, t, d, h) && h > 0 && j + 1 < |t.kids| == |t.keys| + 1 && ApartAll([t.kids[j], t.kids[j + 1]])
    requires var rest := Nodes(t) - Trio(t, j); Same(m, Snap(rest), rest)
    requires g.node == t.kids[j].node && g.kids == t.kids[j].kids + t.kids[j + 1].kids
    requires Good(g, d, h - 1) && d - 1 <= |g.keys|
    requires CellOf(t.node) == TreeCell(Edit(t, j, 2, [], [g]))
    requires CellOf(g.node) == TreeCell(g) && (g.node.isInternal <==> g.kids != [])
    ensures var u := Edit(t, j, 2, [], [g]); Owned(u, d, h) && u.node == t.node && Nodes(u) <= Nodes(t)
  {
    hide CellOf, TreeCell, Good, Edit, Suits;
    var y, z := t.kids[j], t.kids[j + 1];
    GoodTree(m, t, d, h);
    ApartConcat(y.kids, z.kids);
    ApartTwo(y, z);
    PairLinked(m, t, j, g);
    OutsidePair(t, j);
    SameRest(m, Nodes(t) - Trio(t, j), Outside(t, j, 2));
    JoinedSuits(m, t, j, g, d, h);
    EditNode(t, j, 2, [], [g]);
    Rebuilt(m, t, j, 2, [], [g], d, h);
  }

  lemma JoinedSuits(m: Mem, t: BT, j: nat, g: BT, d: nat, h: nat)
    requires Tree(m, t, d, h) && h > 0 && j + 1 < |t.kids| == |t.keys| + 1
    requires Linked(Snap(Nodes(g)), g) && Apart(g) && Good(g, d, h - 1) && d - 1 <= |g.keys|
    requires Nodes(g) <= NodesOf(t.kids[j..j + 2]) <= Nodes(t)
    ensures Suits(t, j, 2, [], [g], d, h)
  {
    hide Linked, Good, NodesOf, Apart;
    GoodTree(m, t, d, h);
    SeparatePart(Nodes(t), Nodes(g), d);
    assert Nodes(t) + Nodes(g) == Nodes(t);
    OneSuits(t, j, 2, g, d, h);
  }

  // ---------- Merging ----------

  // The node work of a merge: y takes the separating key k and all of z, and leaves x's list of children.
  method MergeNodes(x: KbNode, i: nat, y: KbNode, k: int, z: KbNode, d: nat)
    requires d >= 2 && Separate({x, y, z}, d) && x != y && x != z && y != z && x.isInternal
    requires (y.isInternal <==> z.isInternal) && Fits(x) && Fits(y) && Fits(z) && i < x.n && y.n + z.n + 1 <= 2 * d - 1
    modifies Foot({x, y, z})
    ensures CellOf(x) == Without(old(CellOf(x)), i) && CellOf(y) == Absorbing(old(CellOf(y)), k, old(CellOf(z)))
  {
    ghost var cx := CellOf(x);
    Absorb(y, k, z);
    assert CellOf(x) == cx;
    ghost var cy := CellOf(y);
    RemoveAt(x, i);
    assert CellOf(y) == cy;
  }

  // The children i and i + 1 of x, with d - 1 keys each, become one.
  method MergeKids(x: KbNode, i: nat, k: int, d: nat, ghost t: BT, ghost h: nat) returns (ghost u: BT)
    requires Owned(t, d, h) && h > 0 && i + 1 < |t.kids| && t.node == x && i < |t.keys| && k == t.keys[i]
    requires |t.kids[i].keys| == |t.kids[i + 1].keys| == d - 1
    modifies Foot(Nodes(t))
    ensures Owned(u, d, h) && u.node == x && Nodes(u) <= Nodes(t) && InOrder(u) == InOrder(t)
    ensures |u.keys| == |t.keys| - 1 && |u.kids| == |t.kids| - 1 && u.kids[i].node == t.kids[i].node
    ensures |u.kids[i].keys| == 2 * d - 1 && |t.kids| == |t.keys| + 1 && u == Merged(t, i)
    ensures InOrder(u.kids[i]) == InOrder(t.kids[i]) + [k] + InOrder(t.kids[i + 1])
  {
    hide Owned, CellOf, TreeCell, InOrder, Nodes, Foot, Tree, Same, Shared, Without, Absorbing, Separate, Snap;
    ghost var rest := Nodes(t) - Trio(t, i);
    SeePair(t, d, h, i);
    FootAllocated(rest);
    ghost var m, others := Snap(Nodes(t)), Snap(rest);
    MergeNodes(x, i, x.ptrs[i], k, x.ptrs[i + 1], d);
    assert Snap(rest) == others;
    MergedOwned(m, t, i, d, h);
    MergedKeys(t, i);
    u := Merged(t, i);
  }

  ghost function Merged(t: BT, i: nat): BT
    requires i + 1 < |t.kids| == |t.keys| + 1
  {
    Edit(t, i, 2, [], [Join(t.kids[i].node, t.kids[i], t.keys[i], t.kids[i + 1])])
  }

  lemma MergedKeys(t: BT, i: nat)
    requires i + 1 < |t.kids| == |t.keys| + 1 && Arity(t.kids[i]) && Arity(t.kids[i + 1])
    requires t.kids[i].kids == [] <==> t.kids[i + 1].kids == []
    ensures var u, y, k, z := Merged(t, i), t.kids[i], t.keys[i], t.kids[i + 1];
      && InOrder(u) == InOrder(t) && |u.keys| == |t.keys| - 1 && |u.kids| == |t.kids| - 1 && u.kids[i].node == y.node
      && InOrder(u.kids[i]) == InOrder(y) + [k] + InOrder(z) && |u.kids[i].keys| == |y.keys| + 1 + |z.keys|
  {
    hide InOrder, Weave, EditFront, EditRest;
    var y, k, z := t.kids[i], t.keys[i], t.kids[i + 1];
    var g := Join(y.node, y, k, z);
    JoinInOrder(y.node, y, k, z);
    EditInOrder(t, i, 2, [], [g]);
    assert t.kids[i..i + 2] == [y, z] && t.keys[i..i + 1] == [k];
    WeaveOne(g);
    WeaveTwo(y, k, z);
  }

  lemma MergedCells(t: BT, i: nat)
    requires i + 1 < |t.kids| == |t.keys| + 1
    ensures TreeCell(Merged(t, i)) == Without(TreeCell(t), i)
    ensures TreeCell(Merged(t, i).kids[i]) == Absorbing(TreeCell(t.kids[i]), t.keys[i], TreeCell(t.kids[i + 1]))
  {
    hide Ptrs;
    var y, k, z, p := t.kids[i], t.keys[i], t.kids[i + 1], Ptrs(t.kids);
    var g := Join(y.node, y, k, z);
    PtrsConcat(y.kids, z.kids);
    assert TreeCell(g) == Absorbing(TreeCell(y), k, TreeCell(z));
    MergedCell(t, i, g);
  }

  lemma MergedCell(t: BT, i: nat, g: BT)
    requires i + 1 < |t.kids| == |t.keys| + 1 && g.node == t.kids[i].node
    ensures TreeCell(Edit(t, i, 2, [], [g])) == Without(TreeCell(t), i)
  {
    var p := Ptrs(t.kids);
    hide Ptrs;
    EditPtrs(t, i, 2, [g]);
    PtrsOne(g);
    OneFor(p, i);
    assert t.keys[..i] + [] + t.keys[i + 2 - 1..] == t.keys[..i] + t.keys[i + 1..];
  }

  lemma PtrsOne(y: BT)
    ensures Ptrs([y]) == [y.node]
  {
  }

  lemma OneFor(p: seq<KbNode?>, i: nat)
    requires i + 1 < |p|
    ensures p[..i] + [p[i]] + p[i + 2..] == p[..i + 1] + p[i + 2..]
  {
  }

  lemma MergedOwned(m: Mem, t: BT, i: nat, d: nat, h: nat)
    requires Tree(m, t, d, h) && h > 0 && i + 1 < |t.kids| == |t.keys| + 1 &&
      |t.kids[i].keys| + |t.kids[i + 1].keys| + 1 <= 2 * d - 1
    requires var rest := Nodes(t) - Trio(t, i); Same(m, Snap(rest), rest)
    requires CellOf(t.node) == Without(TreeCell(t), i)
    requires CellOf(t.kids[i].node) == Absorbing(TreeCell(t.kids[i]), t.keys[i], TreeCell(t.kids[i + 1]))
    ensures var u := Merged(t, i); Owned(u, d, h) && u.node == t.node && Nodes(u) <= Nodes(t)
    ensures Arity(t.kids[i]) && Arity(t.kids[i + 1]) && (t.kids[i].kids == [] <==> t.kids[i + 1].kids == [])
  {
    hide CellOf, TreeCell, Without, Absorbing, Owned, Nodes, Separate;
    var y, k, z := t.kids[i], t.keys[i], t.kids[i + 1];
    PairTree(m, t, i, d, h);
    MergedCells(t, i);
    JoinGood(y, k, z, d, h - 1);
    PairJoined(m, t, i, Join(y.node, y, k, z), d, h);
  }

  lemma JoinGood(y: BT, k: int, z: BT, d: nat, h: nat)
    requires Good(y, d, h) && Good(z, d, h) && |y.keys| + |z.keys| + 1 <= 2 * d - 1
    ensures Good(Join(y.node, y, k, z), d, h)
  {
  }

  lemma PairTree(m: Mem, t: BT, j: nat, d: nat, h: nat)
    requires Tree(m, t, d, h) && h > 0 && j + 1 < |t.kids|
    ensures var y, z := t.kids[j], t.kids[j + 1];
      && d >= 2 && ApartAll([y, z]) && Good(y, d, h - 1) && Good(z, d, h - 1) && d - 1 <= |y.keys| && d - 1 <= |z.keys|
      && Arity(y) && Arity(z) && (y.kids == [] <==> h == 1) && (z.kids == [] <==> h == 1)
      && (y.node.isInternal <==> y.kids != []) && (z.node.isInternal <==> z.kids != [])
  {
    var y, z := t.kids[j], t.kids[j + 1];
    GoodKid(t, d, h, j);
    GoodKid(t, d, h, j + 1);
    ApartWindow(t.kids, j, j + 2);
    assert t.kids[j..j + 2] == [y, z];
    assert Linked(m, y) && Linked(m, z);
  }

  // ---------- Borrowing ----------

  ghost function Keyed(c: Cell, j: nat, k: int): Cell
    requires j < |c.keys|
  {
    Cell(c.n, c.keys[j := k], c.ptrs)
  }

  method SetKey(x: KbNode, j: nat, k: int)
    requires Fits(x) && j < x.n
    modifies x.keys
    ensures CellOf(x) == Keyed(old(CellOf(x)), j, k)
  {
    x.keys[j] := k;
    assert x.keys[..x.n] == old(x.keys[..x.n])[j := k];
  }

  ghost function LastPtr(c: Cell): KbNode? { if c.ptrs == [] then null else c.ptrs[|c.ptrs| - 1] }

  ghost function FirstPtr(c: Cell): KbNode? { if c.ptrs == [] then null else c.ptrs[0] }

  lemma SeeEnds(x: KbNode, j: nat)
    requires Fits(x) && j < x.n
    ensures var c := CellOf(x); |c.keys| == x.n && c.keys[j] == x.keys[j]
    ensures LastPtr(CellOf(x)) == (if x.isInternal then x.ptrs[x.n] else null)
    ensures FirstPtr(CellOf(x)) == (if x.isInternal then x.ptrs[0] else null)
  {
  }

  // The node work of borrowing the last key of y for its right neighbour z.
  method LendRight(x: KbNode, j: nat, y: KbNode, z: KbNode, d: nat)
    requires d >= 2 && Separate({x, y, z}, d) && x != y && x != z && y != z && (y.isInternal <==> z.isInternal)
    requires Fits(x) && Fits(y) && Fits(z) && j < x.n && 0 < y.n && z.n < 2 * d - 1
    modifies Foot({x, y, z})
    ensures var cx, cy, cz := old(CellOf(x)), old(CellOf(y)), old(CellOf(z));
      && cy.keys != [] && j < |cx.keys|
      && CellOf(x) == Keyed(cx, j, cy.keys[|cy.keys| - 1]) && CellOf(y) == WithoutBack(cy)
      && CellOf(z) == WithFront(cz, cx.keys[j], LastPtr(cy))
  {
    hide CellOf, Keyed, WithoutBack, WithFront, LastPtr;
    ghost var cx, cy := CellOf(x), CellOf(y);
    SeeEnds(x, j);
    SeeEnds(y, y.n - 1);
    PushFront(z, x.keys[j], if z.isInternal then y.ptrs[y.n] else null);
    assert CellOf(x) == cx && CellOf(y) == cy;
    ghost var cz := CellOf(z);
    SetKey(x, j, y.keys[y.n - 1]);
    assert CellOf(y) == cy && CellOf(z) == cz;
    cx := CellOf(x);
    PopBack(y);
    assert CellOf(x) == cx && CellOf(z) == cz;
  }

  // The node work of borrowing the first key of z for its left neighbour y.
  method LendLeft(x: KbNode, j: nat, y: KbNode, z: KbNode, d: nat)
    requires d >= 2 && Separate({x, y, z}, d) && x != y && x != z && y != z && (y.isInternal <==> z.isInternal)
    requires Fits(x) && Fits(y) && Fits(z) && j < x.n && 0 < z.n && y.n < 2 * d - 1
    modifies Foot({x, y, z})
    ensures var cx, cy, cz := old(CellOf(x)), old(CellOf(y)), old(CellOf(z));
      && cz.keys != [] && j < |cx.keys|
      && CellOf(x) == Keyed(cx, j, cz.keys[0]) && CellOf(z) == WithoutFront(cz)
      && CellOf(y) == WithBack(cy, cx.keys[j], FirstPtr(cz))
  {
    hide CellOf, Keyed, WithoutFront, WithBack, FirstPtr;
    ghost var cx, cz := CellOf(x), CellOf(z);
    SeeEnds(x, j);
    SeeEnds(z, 0);
    PushBack(y, x.keys[j], if y.isInternal then z.ptrs[0] else null);
    assert CellOf(x) == cx && CellOf(z) == cz;
    ghost var cy := CellOf(y);
    SetKey(x, j, z.keys[0]);
    assert CellOf(y) == cy && CellOf(z) == cz;
    cx := CellOf(x);
    PopFront(z);
    assert CellOf(x) == cx && CellOf(y) == cy;
  }

  // What y gives away at its back and what z gives away at its front.
  ghost function Butlast(y: BT): BT
    requires y.keys != []
  {
    BT(y.node, y.keys[..|y.keys| - 1], if y.kids == [] then [] else y.kids[..|y.kids| - 1])
  }

  ghost function Butfirst(z: BT): BT
    requires z.keys != []
  {
    BT(z.node, z.keys[1..], if z.kids == [] then [] else z.kids[1..])
  }

  // The loose child that moves along, as a node without keys.
  ghost function LastKid(y: BT): BT { BT(y.node, [], if y.kids == [] then [] else [y.kids[|y.kids| - 1]]) }

  ghost function FirstKid(z: BT): BT { BT(z.node, [], if z.kids == [] then [] else [z.kids[0]]) }

  ghost function LentRight(t: BT, j: nat): BT
    requires j + 1 < |t.kids| == |t.keys| + 1 && t.kids[j].keys != []
  {
    var y, z := t.kids[j], t.kids[j + 1];
    Edit(t, j, 2, [y.keys[|y.keys| - 1]], [Butlast(y), Join(z.node, LastKid(y), t.keys[j], z)])
  }

  ghost function LentLeft(t: BT, j: nat): BT
    requires j + 1 < |t.kids| == |t.keys| + 1 && t.kids[j + 1].keys != []
  {
    var y, z := t.kids[j], t.kids[j + 1];
    Edit(t, j, 2, [z.keys[0]], [Join(y.node, y, t.keys[j], FirstKid(z)), Butfirst(z)])
  }

  lemma ButlastJoin(y: BT)
    requires y.keys != [] && Arity(y)
    ensures InOrder(y) == InOrder(Butlast(y)) + [y.keys[|y.keys| - 1]] + InOrder(LastKid(y))
  {
    var a, n := Butlast(y), |y.keys| - 1;
    assert y.keys == a.keys + [y.keys[n]] + [] && y.kids == a.kids + LastKid(y).kids;
    assert y == Join(y.node, a, y.keys[n], LastKid(y));
    JoinInOrder(y.node, a, y.keys[n], LastKid(y));
  }

  lemma ButfirstJoin(z: BT)
    requires z.keys != [] && Arity(z)
    ensures InOrder(z) == InOrder(FirstKid(z)) + [z.keys[0]] + InOrder(Butfirst(z))
  {
    assert z.keys == [] + [z.keys[0]] + z.keys[1..] && z.kids == FirstKid(z).kids + Butfirst(z).kids;
    assert z == Join(z.node, FirstKid(z), z.keys[0], Butfirst(z));
    JoinInOrder(z.node, FirstKid(z), z.keys[0], Butfirst(z));
  }

  // The key sequence around two neighbours, before and after they and the key between them change.
  lemma EditPair(t: BT, j: nat, k: int, y': BT, z': BT)
    requires j + 1 < |t.kids| == |t.keys| + 1
    ensures InOrder(t)
         == EditFront(t, j) + (InOrder(t.kids[j]) + [t.keys[j]] + InOrder(t.kids[j + 1])) + EditRest(t, j + 2)
    ensures InOrder(Edit(t, j, 2, [k], [y', z']))
         == EditFront(t, j) + (InOrder(y') + [k] + InOrder(z')) + EditRest(t, j + 2)
  {
    hide InOrder, Weave, EditFront, EditRest, Edit;
    var y, z := t.kids[j], t.kids[j + 1];
    EditInOrder(t, j, 2, [k], [y', z']);
    assert t.kids[j..j + 2] == [y, z] && t.keys[j..j + 1] == [t.keys[j]];
    WeaveTwo(y, t.keys[j], z);
    WeaveTwo(y', k, z');
  }

  // Two neighbours replaced by two that spell out the same keys.
  lemma PairKeys(t: BT, j: nat, k: int, y': BT, z': BT)
    requires j + 1 < |t.kids| == |t.keys| + 1
    requires InOrder(t.kids[j]) + [t.keys[j]] + InOrder(t.kids[j + 1]) == InOrder(y') + [k] + InOrder(z')
    ensures InOrder(Edit(t, j, 2, [k], [y', z'])) == InOrder(t)
  {
    hide *;
    EditPair(t, j, k, y', z');
  }

  lemma LentRightKeys(t: BT, j: nat)
    requires j + 1 < |t.kids| == |t.keys| + 1 && t.kids[j].keys != [] && Arity(t.kids[j]) && Arity(t.kids[j + 1])
    requires t.kids[j].kids == [] <==> t.kids[j + 1].kids == []
    ensures InOrder(LentRight(t, j)) == InOrder(t)
    ensures InOrder(LentRight(t, j).kids[j + 1]) == InOrder(LastKid(t.kids[j])) + [t.keys[j]] + InOrder(t.kids[j + 1])
  {
    var y, k, z := t.kids[j], t.keys[j], t.kids[j + 1];
    var y', a, e, z' := Butlast(y), y.keys[|y.keys| - 1], LastKid(y), Join(z.node, LastKid(y), k, z);
    ButlastJoin(y);
    JoinInOrder(z.node, e, k, z);
    hide InOrder;
    Regroup5(InOrder(y'), a, InOrder(e), k, InOrder(z));
    PairKeys(t, j, a, y', z');
  }

  lemma LentLeftKeys(t: BT, j: nat)
    requires j + 1 < |t.kids| == |t.keys| + 1 && t.kids[j + 1].keys != [] && Arity(t.kids[j]) && Arity(t.kids[j + 1])
    requires t.kids[j].kids == [] <==> t.kids[j + 1].kids == []
    ensures InOrder(LentLeft(t, j)) == InOrder(t)
    ensures InOrder(LentLeft(t, j).kids[j]) == InOrder(t.kids[j]) + [t.keys[j]] + InOrder(FirstKid(t.kids[j + 1]))
  {
    hide InOrder;
    var y, k, z := t.kids[j], t.keys[j], t.kids[j + 1];
    var y', a, e, z' := Join(y.node, y, k, FirstKid(z)), z.keys[0], FirstKid(z), Butfirst(z);
    ButfirstJoin(z);
    JoinInOrder(y.node, y, k, e);
    Regroup5(InOrder(y), k, InOrder(e), a, InOrder(z'));
    PairKeys(t, j, a, y', z');
  }

  lemma Regroup5(p: seq<int>, a: int, e: seq<int>, k: int, z: seq<int>)
    ensures (p + [a] + e) + [k] + z == p + [a] + (e + [k] + z)
    ensures p + [a] + (e + [k] + z) == (p + [a] + e) + [k] + z
  {
  }

  lemma LentRightCells(t: BT, j: nat)
    requires j + 1 < |t.kids| == |t.keys| + 1 && t.kids[j].keys != [] && Arity(t.kids[j]) && Arity(t.kids[j + 1])
    requires t.kids[j].kids == [] <==> t.kids[j + 1].kids == []
    ensures var u, y, z, a := LentRight(t, j), t.kids[j], t.kids[j + 1], t.kids[j].keys[|t.kids[j].keys| - 1];
      && TreeCell(u) == Keyed(TreeCell(t), j, a) && TreeCell(Butlast(y)) == WithoutBack(TreeCell(y))
      && TreeCell(Join(z.node, LastKid(y), t.keys[j], z)) == WithFront(TreeCell(z), t.keys[j], LastPtr(TreeCell(y)))
  {
    hide TreeCell, Keyed, WithoutBack, WithFront, LastPtr, Arity;
    var y, z := t.kids[j], t.kids[j + 1];
    SamePtrs(t, j, y.keys[|y.keys| - 1], Butlast(y), Join(z.node, LastKid(y), t.keys[j], z));
    ButlastCell(y);
    FrontCell(y, t.keys[j], z);
  }

  lemma ButlastCell(y: BT)
    requires y.keys != [] && Arity(y)
    ensures TreeCell(Butlast(y)) == WithoutBack(TreeCell(y))
  {
    if y.kids != [] {
      PtrsSlice(y.kids, 0, |y.kids| - 1);
    }
  }

  lemma FrontCell(y: BT, k: int, z: BT)
    requires y.kids == [] <==> z.kids == []
    ensures TreeCell(Join(z.node, LastKid(y), k, z)) == WithFront(TreeCell(z), k, LastPtr(TreeCell(y)))
  {
    if y.kids != [] {
      PtrsConcat([y.kids[|y.kids| - 1]], z.kids);
      PtrsOne(y.kids[|y.kids| - 1]);
    }
  }

  lemma LentLeftCells(t: BT, j: nat)
    requires j + 1 < |t.kids| == |t.keys| + 1 && t.kids[j + 1].keys != [] && Arity(t.kids[j]) && Arity(t.kids[j + 1])
    requires t.kids[j].kids == [] <==> t.kids[j + 1].kids == []
    ensures var u, y, z, a := LentLeft(t, j), t.kids[j], t.kids[j + 1], t.kids[j + 1].keys[0];
      && TreeCell(u) == Keyed(TreeCell(t), j, a) && TreeCell(Butfirst(z)) == WithoutFront(TreeCell(z))
      && TreeCell(Join(y.node, y, t.keys[j], FirstKid(z))) == WithBack(TreeCell(y), t.keys[j], FirstPtr(TreeCell(z)))
  {
    hide TreeCell, Keyed, WithoutFront, WithBack, FirstPtr, Arity;
    var y, z := t.kids[j], t.kids[j + 1];
    SamePtrs(t, j, z.keys[0], Join(y.node, y, t.keys[j], FirstKid(z)), Butfirst(z));
    ButfirstCell(z);
    BackCell(y, t.keys[j], z);
  }

  lemma ButfirstCell(z: BT)
    requires z.keys != [] && Arity(z)
    ensures TreeCell(Butfirst(z)) == WithoutFront(TreeCell(z))
  {
    if z.kids != [] {
      PtrsSlice(z.kids, 1, |z.kids|);
    }
  }

  lemma BackCell(y: BT, k: int, z: BT)
    requires y.kids == [] <==> z.kids == []
    ensures TreeCell(Join(y.node, y, k, FirstKid(z))) == WithBack(TreeCell(y), k, FirstPtr(TreeCell(z)))
  {
    if z.kids != [] {
      PtrsConcat(y.kids, [z.kids[0]]);
      PtrsOne(z.kids[0]);
    }
  }

  lemma SamePtrs(t: BT, j: nat, a: int, y': BT, z': BT)
    requires j + 1 < |t.kids| == |t.keys| + 1 && y'.node == t.kids[j].node && z'.node == t.kids[j + 1].node
    ensures TreeCell(Edit(t, j, 2, [a], [y', z'])) == Keyed(TreeCell(t), j, a)
  {
    var u := Edit(t, j, 2, [a], [y', z']);
    assert u.keys == t.keys[j := a];
    assert Ptrs(u.kids) == Ptrs(t.kids);
  }

  lemma LentRightGood(y: BT, k: int, z: BT, d: nat, h: nat)
    requires Good(y, d, h) && Good(z, d, h) && d <= |y.keys| && |z.keys| == d - 1 && d >= 2
    ensures GoodAll([Butlast(y), Join(z.node, LastKid(y), k, z)], d, h)
  {
  }

  lemma LentRightShared(y: BT, k: int, z: BT)
    requires Arity(y) && Arity(z) && |y.keys| > 1 && (y.kids == [] <==> z.kids == [])
    ensures Shared(y, z, Butlast(y), Join(z.node, LastKid(y), k, z))
    ensures Butlast(y).kids == [] <==> y.kids == []
    ensures Join(z.node, LastKid(y), k, z).kids == [] <==> z.kids == []
  {
    if y.kids != [] {
      assert y.kids == Butlast(y).kids + LastKid(y).kids;
    }
  }

  lemma LentLeftGood(y: BT, k: int, z: BT, d: nat, h: nat)
    requires Good(y, d, h) && Good(z, d, h) && d <= |z.keys| && |y.keys| == d - 1 && d >= 2
    ensures GoodAll([Join(y.node, y, k, FirstKid(z)), Butfirst(z)], d, h)
  {
  }

  lemma LentLeftShared(y: BT, k: int, z: BT)
    requires Arity(y) && Arity(z) && |z.keys| > 1 && (y.kids == [] <==> z.kids == [])
    ensures Shared(y, z, Join(y.node, y, k, FirstKid(z)), Butfirst(z))
    ensures Butfirst(z).kids == [] <==> z.kids == []
    ensures Join(y.node, y, k, FirstKid(z)).kids == [] <==> y.kids == []
  {
    if z.kids != [] {
      assert z.kids == FirstKid(z).kids + Butfirst(z).kids;
    }
  }

  lemma LentRightOwned(m: Mem, t: BT, j: nat, d: nat, h: nat)
    requires Tree(m, t, d, h) && h > 0 && j + 1 < |t.kids| == |t.keys| + 1
    requires d <= |t.kids[j].keys| && |t.kids[j + 1].keys| == d - 1
    requires var rest := Nodes(t) - Trio(t, j); Same(m, Snap(rest), rest)
    requires var y, z, cy := t.kids[j], t.kids[j + 1], TreeCell(t.kids[j]);
      && y.keys != [] && cy.keys != [] && j < |TreeCell(t).keys|
      && CellOf(t.node) == Keyed(TreeCell(t), j, y.keys[|y.keys| - 1]) && CellOf(y.node) == WithoutBack(cy)
      && CellOf(z.node) == WithFront(TreeCell(z), t.keys[j], LastPtr(cy))
    ensures var u := LentRight(t, j); Owned(u, d, h) && u.node == t.node && Nodes(u) == Nodes(t)
  {
    hide CellOf, Owned, Nodes, Separate, WithoutBack, WithFront, LastPtr, Keyed, GoodAll, Edit, Good, TreeCell, Shared;
    var y, k, z := t.kids[j], t.keys[j], t.kids[j + 1];
    PairTree(m, t, j, d, h);
    LentRightCells(t, j);
    LentRightGood(y, k, z, d, h - 1);
    LentRightShared(y, k, z);
    PairChanged(m, t, j, y.keys[|y.keys| - 1], Butlast(y), Join(z.node, LastKid(y), k, z), d, h);
  }

  lemma LentLeftOwned(m: Mem, t: BT, j: nat, d: nat, h: nat)
    requires Tree(m, t, d, h) && h > 0 && j + 1 < |t.kids| == |t.keys| + 1
    requires d <= |t.kids[j + 1].keys| && |t.kids[j].keys| == d - 1
    requires var rest := Nodes(t) - Trio(t, j); Same(m, Snap(rest), rest)
    requires var y, z, cz := t.kids[j], t.kids[j + 1], TreeCell(t.kids[j + 1]);
      && z.keys != [] && cz.keys != [] && j < |TreeCell(t).keys|
      && CellOf(t.node) == Keyed(TreeCell(t), j, z.keys[0]) && CellOf(z.node) == WithoutFront(cz)
      && CellOf(y.node) == WithBack(TreeCell(y), t.keys[j], FirstPtr(cz))
    ensures var u := LentLeft(t, j); Owned(u, d, h) && u.node == t.node && Nodes(u) == Nodes(t)
  {
    hide CellOf, Owned, Nodes, Separate, WithoutFront, WithBack, FirstPtr, Keyed, GoodAll, Edit, Good, TreeCell, Shared;
    var y, k, z := t.kids[j], t.keys[j], t.kids[j + 1];
    PairTree(m, t, j, d, h);
    LentLeftCells(t, j);
    LentLeftGood(y, k, z, d, h - 1);
    LentLeftShared(y, k, z);
    PairChanged(m, t, j, z.keys[0], Join(y.node, y, k, FirstKid(z)), Butfirst(z), d, h);
  }

  // Child j + 1 of x, with d - 1 keys, borrows from child j.
  method BorrowLeft(x: KbNode, j: nat, d: nat, ghost t: BT, ghost h: nat) returns (ghost u: BT)
    requires Owned(t, d, h) && h > 0 && t.node == x && j + 1 < |t.kids| && j < |t.keys|
    requires d <= |t.kids[j].keys| && |t.kids[j + 1].keys| == d - 1
    modifies Foot(Nodes(t))
    ensures Owned(u, d, h) && u.node == x && Nodes(u) == Nodes(t) && InOrder(u) == InOrder(t)
    ensures |u.keys| == |t.keys| && |u.kids| == |t.kids| && u.kids[j + 1].node == t.kids[j + 1].node
    ensures |u.kids[j + 1].keys| == d && |t.kids| == |t.keys| + 1 && u == LentRight(t, j)
    ensures InOrder(u.kids[j + 1]) == InOrder(LastKid(t.kids[j])) + [t.keys[j]] + InOrder(t.kids[j + 1])
  {
    hide Owned, CellOf, InOrder, Nodes, Foot, Tree, Same, Shared, Separate, Snap, WithoutBack, WithFront, LastPtr,
         Keyed;
    ghost var rest := Nodes(t) - Trio(t, j);
    SeePair(t, d, h, j);
    FootAllocated(rest);
    ghost var m, others := Snap(Nodes(t)), Snap(rest);
    LendRight(x, j, x.ptrs[j], x.ptrs[j + 1], d);
    assert Snap(rest) == others;
    LentRightOwned(m, t, j, d, h);
    PairTree(m, t, j, d, h);
    LentRightKeys(t, j);
    u := LentRight(t, j);
  }

  // Child j of x, with d - 1 keys, borrows from child j + 1.
  method BorrowRight(x: KbNode, j: nat, d: nat, ghost t: BT, ghost h: nat) returns (ghost u: BT)
    requires Owned(t, d, h) && h > 0 && t.node == x && j + 1 < |t.kids| && j < |t.keys|
    requires d <= |t.kids[j + 1].keys| && |t.kids[j].keys| == d - 1
    modifies Foot(Nodes(t))
    ensures Owned(u, d, h) && u.node == x && Nodes(u) == Nodes(t) && InOrder(u) == InOrder(t)
    ensures |u.keys| == |t.keys| && |u.kids| == |t.kids| && u.kids[j].node == t.kids[j].node
    ensures |u.kids[j].keys| == d && |t.kids| == |t.keys| + 1 && u == LentLeft(t, j)
    ensures InOrder(u.kids[j]) == InOrder(t.kids[j]) + [t.keys[j]] + InOrder(FirstKid(t.kids[j + 1]))
  {
    hide Owned, CellOf, InOrder, Nodes, Foot, Tree, Same, Shared, Separate, Snap, WithoutFront, WithBack, FirstPtr,
         Keyed;
    ghost var rest := Nodes(t) - Trio(t, j);
    SeePair(t, d, h, j);
    FootAllocated(rest);
    ghost var m, others := Snap(Nodes(t)), Snap(rest);
    LendLeft(x, j, x.ptrs[j], x.ptrs[j + 1], d);
    assert Snap(rest) == others;
    LentLeftOwned(m, t, j, d, h);
    PairTree(m, t, j, d, h);
    LentLeftKeys(t, j);
    u := LentLeft(t, j);
  }
}
