/**
 B-tree insertion: __kb_split and __kb_putp_aux.
 */
module BTreeInsert {
  import opened BTreeTheory
  import opened BTreeNode
  import opened BTreeHeap
  import opened BTreeResults

  // __kb_split on the nodes: the full child y at place i of x keeps its lower half, the fresh z takes the
  // upper one.
  method SplitNodes(x: KbNode, i: nat, y: KbNode, d: nat) returns (z: KbNode)
    requires d >= 2 && Separate({x, y}, d) && x != y && x.isInternal && x.n < 2 * d - 1 && i <= x.n
    requires y.n == 2 * d - 1
    modifies Foot({x, y})
    ensures fresh(z) && fresh(Foot({z})) && Separate({z}, d) && z.isInternal == y.isInternal
    ensures var cx, cy := old(CellOf(x)), old(CellOf(y));
      CellOf(x) == With(cx, i, cy.keys[d - 1], z) && CellOf(y) == Lower(cy, d) && CellOf(z) == Upper(cy, d)
  {
    hide CellOf, Lower, Upper, With;
    z := new KbNode(d, y.isInternal);
    ghost var cx := CellOf(x);
    TakeUpper(z, y, d);
    assert CellOf(x) == cx;
    ghost var cy, cz := CellOf(y), CellOf(z);
    InsertAt(x, i, y.keys[d - 1], z);
    assert CellOf(y) == cy && CellOf(z) == cz;
  }

  // __kb_split: the full child i of x becomes two.
  method SplitKid(x: KbNode, i: nat, y: KbNode, d: nat, ghost t: BT, ghost h: nat)
    returns (ghost u: BT, ghost z: KbNode)
    requires Owned(t, d, h) && h > 0 && CanSplit(t, i, d) && t.node == x && y == t.kids[i].node
    modifies Foot(Nodes(t))
    ensures Owned(u, d, h) && Nodes(t) <= Nodes(u) && fresh(Foot(Nodes(u) - Nodes(t)))
    ensures IsHalved(t, i, u, d) && u == Halved(t, i, z, d) && z in Nodes(u) && z !in Nodes(t)
  {
    hide *;
    ghost var N, rest := Nodes(t), Nodes(t) - {x, y};
    FootAllocated(rest);
    FootAllocated(N);
    SplitReady(t, d, h, i);
    ghost var m, others := Snap(N), Snap(rest);
    var upper := SplitNodes(x, i, y, d);
    z := upper;
    assert Snap(rest) == others;
    SeparatePlus(N, {z}, d);
    HalvedOwned(m, t, i, z, d, h);
    u := Halved(t, i, z, d);
    assert Nodes(u) - N == {z};
  }

  lemma SplitReady(t: BT, d: nat, h: nat, i: nat)
    requires Owned(t, d, h) && h > 0 && CanSplit(t, i, d)
    ensures var x, y, rest := t.node, t.kids[i].node, Nodes(t) - {t.node, t.kids[i].node};
      && d >= 2 && Separate({x, y}, d) && x != y && x.isInternal && x.n < 2 * d - 1 && i <= x.n && y.n == 2 * d - 1
      && Foot({x, y}) <= Foot(Nodes(t)) && Foot(rest) !! Foot({x, y})
      && Separate(Nodes(t), d) && Tree(Snap(Nodes(t)), t, d, h) && Same(Snap(Nodes(t)), Snap(rest), rest)
      && CellOf(x) == TreeCell(t) && CellOf(y) == TreeCell(t.kids[i]) && CellOf(y).keys == t.kids[i].keys
  {
    hide CellOf, Linked, Apart, Separate, Foot, Good, Same;
    SeeKid(t, d, h, i);
    See(t, d, h);
    See(t.kids[i], d, h - 1);
    SeeRest(t, d, h, {t.node, t.kids[i].node});
  }

  // A tree with the same keys in which two half-full children stand for the full one.
  ghost predicate IsHalved(t: BT, i: nat, u: BT, d: nat) {
    && u.node == t.node && InOrder(u) == InOrder(t) && |u.keys| == |t.keys| + 1 == |t.kids| && i < |t.kids|
    && |t.kids[i].keys| == 2 * d - 1 && u.keys == t.keys[..i] + [t.kids[i].keys[d - 1]] + t.keys[i..]
    && |u.kids| == |u.keys| + 1 && i + 1 < |u.kids| && |u.kids[i].keys| == |u.kids[i + 1].keys| == d - 1
  }

  lemma HalvesJoin(c: BT, z: KbNode, d: nat)
    requires |c.keys| == 2 * d - 1 && d >= 2 && Arity(c)
    ensures InOrder(c) == InOrder(LowerHalf(c, d)) + [c.keys[d - 1]] + InOrder(UpperHalf(c, z, d))
  {
    var y', z' := LowerHalf(c, d), UpperHalf(c, z, d);
    assert c.keys == y'.keys + [c.keys[d - 1]] + z'.keys && c.kids == y'.kids + z'.kids;
    assert c == Join(c.node, y', c.keys[d - 1], z');
    JoinInOrder(c.node, y', c.keys[d - 1], z');
  }

  lemma HalvesGood(c: BT, z: KbNode, d: nat, h: nat)
    requires |c.keys| == 2 * d - 1 && d >= 2 && Good(c, d, h) && Arity(c)
    ensures GoodAll([LowerHalf(c, d), UpperHalf(c, z, d)], d, h)
  {
  }

  lemma HalvedKeys(t: BT, i: nat, z: KbNode, d: nat)
    requires CanSplit(t, i, d)
    ensures IsHalved(t, i, Halved(t, i, z, d), d)
  {
    hide InOrder, Weave, EditFront, EditRest;
    var c, u := t.kids[i], Halved(t, i, z, d);
    var y', k, z' := LowerHalf(c, d), c.keys[d - 1], UpperHalf(c, z, d);
    HalvesJoin(c, z, d);
    assert t.kids[i..i + 1] == [c] && t.keys[i..i] == [];
    WeaveOne(c);
    WeaveTwo(y', k, z');
    EditInOrder(t, i, 1, [k], [y', z']);
  }

  // The cells after a split are those of the halves and of the tree over them.
  lemma HalfCells(c: BT, z: KbNode, d: nat)
    requires d >= 2 && |c.keys| == 2 * d - 1 && Arity(c)
    ensures TreeCell(LowerHalf(c, d)) == Lower(TreeCell(c), d) && TreeCell(UpperHalf(c, z, d)) == Upper(TreeCell(c), d)
  {
    if c.kids != [] {
      PtrsSlice(c.kids, 0, d);
      PtrsSlice(c.kids, d, 2 * d);
    }
  }

  lemma HalvedCell(t: BT, i: nat, z: KbNode, d: nat)
    requires CanSplit(t, i, d)
    ensures TreeCell(Halved(t, i, z, d)) == With(TreeCell(t), i, t.kids[i].keys[d - 1], z)
  {
    hide Ptrs;
    var c, p := t.kids[i], Ptrs(t.kids);
    var y', z' := LowerHalf(c, d), UpperHalf(c, z, d);
    EditPtrs(t, i, 1, [y', z']);
    PtrsTwo(y', z');
    TwoFor(p, i, z);
    assert t.keys[i + 1 - 1..] == t.keys[i..];
  }

  lemma TwoFor(p: seq<KbNode?>, i: nat, z: KbNode?)
    requires i < |p|
    ensures p[..i] + [p[i], z] + p[i + 1..] == p[..i + 1] + [z] + p[i + 1..]
  {
  }

  lemma HalvesApart(c: BT, z: KbNode, d: nat)
    requires |c.keys| == 2 * d - 1 && d >= 2 && Arity(c) && Apart(c) && z !in Nodes(c)
    ensures var y', z' := LowerHalf(c, d), UpperHalf(c, z, d);
      && ApartAll([y', z']) && NodesOf([y', z']) == Nodes(c) + {z}
      && NodesOf(y'.kids) <= NodesOf(c.kids) && NodesOf(z'.kids) <= NodesOf(c.kids)
  {
    var y', z' := LowerHalf(c, d), UpperHalf(c, z, d);
    assert c.kids == y'.kids + z'.kids;
    ApartConcat(y'.kids, z'.kids);
    ApartTwo(y', z');
  }

  // The tree whose child i has been halved.
  lemma HalvedOwned(m: Mem, t: BT, i: nat, z: KbNode, d: nat, h: nat)
    requires Tree(m, t, d, h) && h > 0 && CanSplit(t, i, d) && z !in Nodes(t) && Separate(Nodes(t) + {z}, d)
    requires var rest := Nodes(t) - {t.node, t.kids[i].node}; Same(m, Snap(rest), rest)
    requires var x, y, cx, cy := t.node, t.kids[i].node, TreeCell(t), TreeCell(t.kids[i]);
      && CellOf(x) == With(cx, i, t.kids[i].keys[d - 1], z) && CellOf(y) == Lower(cy, d) && CellOf(z) == Upper(cy, d)
      && z.isInternal == y.isInternal
    ensures var u := Halved(t, i, z, d);
      Owned(u, d, h) && Nodes(u) == Nodes(t) + {z} && IsHalved(t, i, u, d)
  {
    hide CellOf, TreeCell, With, Lower, Upper, InOrder, NodesOf, ApartAll, Good, GoodAll, IsHalved, Edit, Suits, Linked;
    var c, u := t.kids[i], Halved(t, i, z, d);
    var y', z' := LowerHalf(c, d), UpperHalf(c, z, d);
    SeeInside(m, t, i);
    GoodKid(t, d, h, i);
    HalfCells(c, z, d);
    HalvedCell(t, i, z, d);
    HalvesApart(c, z, d);
    HalvesGood(c, z, d, h - 1);
    HalvedKeys(t, i, z, d);
    PartLinked(m, t, i, y');
    PartLinked(m, t, i, z');
    TwoSuit(t, i, 1, c.keys[d - 1], y', z', d, h);
    OutsideSmaller(t, i, 1, {t.node, c.node});
    SameRest(m, Nodes(t) - {t.node, c.node}, Outside(t, i, 1));
    Rebuilt(m, t, i, 1, [c.keys[d - 1]], [y', z'], d, h);
  }

  lemma OutsideSmaller(t: BT, i: nat, w: nat, changed: set<KbNode>)
    requires i + w <= |t.kids| && changed <= {t.node} + NodesOf(t.kids[i..i + w])
    ensures Outside(t, i, w) <= Nodes(t) - changed
  {
  }

  // A new node over some of the children of child i.
  lemma PartLinked(m: Mem, t: BT, i: nat, g: BT)
    requires Linked(m, t) && Apart(t) && i < |t.kids|
    requires var rest := Nodes(t) - {t.node, t.kids[i].node}; Same(m, Snap(rest), rest)
    requires CellOf(g.node) == TreeCell(g) && (g.node.isInternal <==> g.kids != [])
    requires NodesOf(g.kids) <= NodesOf(t.kids[i].kids) && forall e :: e in g.kids ==> e in t.kids[i].kids
    ensures Linked(Snap(Nodes(g)), g)
  {
    hide CellOf, TreeCell;
    SeeInside(m, t, i);
    SameRest(m, Nodes(t) - {t.node, t.kids[i].node}, NodesOf(g.kids));
    Assembled(m, g);
  }

  // ---------- Insertion ----------

  // Key k belongs below child i.
  ghost predicate Between(keys: seq<int>, k: int, i: nat) {
    i <= |keys| && (i > 0 ==> keys[i - 1] <= k) && (i < |keys| ==> k <= keys[i])
  }

  lemma PositionBetween(keys: seq<int>, k: int, i: int, r: int)
    requires Sorted(keys) && (if keys == [] then i == -1 else Position(keys, k, i, r))
    ensures 0 <= i + 1 <= |keys| && Between(keys, k, i + 1)
  {
  }

  // Insertion into child i inserts into the tree.
  lemma KidInserted(t: BT, i: nat, y: BT, k: int, q: nat)
    requires |t.kids| == |t.keys| + 1 && i < |t.kids| && Sorted(InOrder(t)) && Between(t.keys, k, i)
    requires Inserted(InOrder(t.kids[i]), InOrder(y), k, q) && Sorted(InOrder(y))
    ensures var u, p := Edit(t, i, 1, [], [y]), |EditFront(t, i)| + q;
      Inserted(InOrder(t), InOrder(u), k, p) && Sorted(InOrder(u))
  {
    hide InOrder, EditFront, EditRest, Inserted;
    AroundKid(t, i);
    EditInOrder(t, i, 1, [], [y]);
    WeaveOne(y);
    var f, c, r := EditFront(t, i), InOrder(t.kids[i]), EditRest(t, i + 1);
    InsertedWithin(f, c, InOrder(y), r, k, q);
    InsertedSorted(f, c, InOrder(y), r, k, q);
  }

  // The place in a node to which a search for k leads, as an insertion uses it.
  method FindSlot(x: KbNode, k: int) returns (i: nat)
    requires Fits(x) && Sorted(x.keys[..x.n])
    ensures i == Slot(x.keys[..x.n], k) && Between(x.keys[..x.n], k, i)
  {
    hide Sorted, Between, Slot, Position;
    var j, r := GetAux(x, k, 0);
    PositionBetween(x.keys[..x.n], k, j, r);
    SlotFound(x.keys[..x.n], k, j, r);
    i := j + 1;
  }

  // The leaf case of __kb_putp_aux.
  method PutLeaf(x: KbNode, k: int, d: nat, ghost t: BT) returns (ghost u: BT, ghost p: nat)
    requires Owned(t, d, 0) && t.node == x && |t.keys| < 2 * d - 1 && Sorted(InOrder(t))
    modifies Foot(Nodes(t))
    ensures Owned(u, d, 0) && u.node == x && Nodes(u) == Nodes(t) && |u.keys| == |t.keys| + 1
    ensures Inserted(InOrder(t), InOrder(u), k, p) && Sorted(InOrder(u)) && PutsInto(t, u, k, d, 0)
  {
    hide Inserted, Sorted, InOrder, Owned, Nodes, Foot, TreeCell, Between, PutsInto, Slot;
    See(t, d, 0);
    LeafAlone(t, d);
    SortedKeys(t);
    var i := FindSlot(x, k);
    PutsInLeaf(t, k, d, i);
    InsertLeaf(x, i, k);
    u, p := BT(x, t.keys[..i] + [k] + t.keys[i..], []), i;
    LeafCell(t, u, k, p);
    LeafInserted(t, u, k, p);
    LeafNow(u, d);
  }

  lemma BetweenSorted(s: seq<int>, k: int, p: nat)
    requires Sorted(s) && Between(s, k, p)
    ensures Sorted(s[..p] + [k] + s[p..])
  {
  }

  lemma LeafAlone(t: BT, d: nat)
    requires Owned(t, d, 0)
    ensures t.kids == [] && Nodes(t) == {t.node} && !t.node.isInternal
    ensures t.node as object in Foot(Nodes(t)) && t.node.keys as object in Foot(Nodes(t))
  {
    FootOne(t.node);
  }

  lemma LeafNow(u: BT, d: nat)
    requires u.kids == [] && d >= 2 && |u.keys| <= 2 * d - 1 && !u.node.isInternal && Sized(u.node, d)
    requires CellOf(u.node) == TreeCell(u)
    ensures Owned(u, d, 0) && Nodes(u) == {u.node}
  {
    assert Nodes(u) == {u.node};
  }

  lemma LeafCell(t: BT, u: BT, k: int, p: nat)
    requires t.kids == [] == u.kids && p <= |t.keys| && u.keys == t.keys[..p] + [k] + t.keys[p..]
    ensures LeafWith(TreeCell(t), p, k) == TreeCell(u)
  {
  }

  lemma LeafInserted(t: BT, u: BT, k: int, p: nat)
    requires t.kids == [] == u.kids && Between(t.keys, k, p) && u.keys == t.keys[..p] + [k] + t.keys[p..]
    requires Sorted(t.keys)
    ensures Inserted(InOrder(t), InOrder(u), k, p) && Sorted(InOrder(u))
  {
    BetweenSorted(t.keys, k, p);
  }

  // __kb_putp_aux: x is not full.
  method PutAux(x: KbNode, k: int, d: nat, ghost t: BT, ghost h: nat) returns (ghost u: BT, ghost p: nat)
    requires Owned(t, d, h) && t.node == x && |t.keys| < 2 * d - 1 && Sorted(InOrder(t))
    modifies Foot(Nodes(t))
    ensures Owned(u, d, h) && u.node == x && Nodes(t) <= Nodes(u) && fresh(Foot(Nodes(u) - Nodes(t)))
    ensures |t.keys| <= |u.keys| && Inserted(InOrder(t), InOrder(u), k, p) && Sorted(InOrder(u))
    ensures PutsInto(t, u, k, d, h)
    decreases h, 3
  {
    hide Owned, Nodes, InOrder, Inserted, Foot, Sorted, Snap, Apart, PutsInto;
    See(t, d, h);
    if !x.isInternal {
      u, p := PutLeaf(x, k, d, t);
      assert Nodes(u) - Nodes(t) == {};
      FootNone();
    } else {
      u, p := PutBelow(x, k, d, t, h);
    }
  }

  // The internal case of __kb_putp_aux.
  method PutBelow(x: KbNode, k: int, d: nat, ghost t: BT, ghost h: nat) returns (ghost u: BT, ghost p: nat)
    requires Owned(t, d, h) && t.node == x && x.isInternal && |t.keys| < 2 * d - 1 && Sorted(InOrder(t))
    modifies Foot(Nodes(t))
    ensures Owned(u, d, h) && u.node == x && Nodes(t) <= Nodes(u) && fresh(Foot(Nodes(u) - Nodes(t)))
    ensures |t.keys| <= |u.keys| && Inserted(InOrder(t), InOrder(u), k, p) && Sorted(InOrder(u))
    ensures PutsInto(t, u, k, d, h)
    decreases h, 2
  {
    hide Owned, Nodes, InOrder, Inserted, Foot, Sorted, Snap, Apart, Between, PutsInto, PutsBelow, Slot;
    FootAllocated(Nodes(t));
    See(t, d, h);
    SortedKeys(t);
    var i := FindSlot(x, k);
    SeeKid(t, d, h, i);
    See(t.kids[i], d, h - 1);
    var y := x.ptrs[i];
    if y.n == 2 * d - 1 {
      u, p := PutFull(x, i, y, k, d, t, h);
    } else {
      u, p := PutKid(x, i, k, d, t, h);
      PutsInRoom(t, u, i, k, d, h);
    }
  }

  // The branch of __kb_putp_aux that splits a full child first.
  method PutFull(x: KbNode, j: nat, y: KbNode, k: int, d: nat, ghost t: BT, ghost h: nat)
    returns (ghost u: BT, ghost p: nat)
    requires Owned(t, d, h) && h > 0 && t.node == x && Sorted(InOrder(t)) && Between(t.keys, k, j)
    requires CanSplit(t, j, d) && y == t.kids[j].node && j == Slot(t.keys, k)
    modifies Foot(Nodes(t))
    ensures Owned(u, d, h) && u.node == x && Nodes(t) <= Nodes(u) && fresh(Foot(Nodes(u) - Nodes(t)))
    ensures |t.keys| <= |u.keys| && Inserted(InOrder(t), InOrder(u), k, p) && Sorted(InOrder(u))
    ensures PutsInto(t, u, k, d, h)
    decreases h, 1
  {
    hide Owned, Nodes, InOrder, Inserted, Foot, Sorted, CellOf, TreeCell, Fits, Sized, Arity, Ptrs, PutsInto, PutsBelow,
      Slot;
    FootAllocated(Nodes(t));
    var i := j;
    ghost var t1, z := SplitKid(x, i, y, d, t, h);
    FootSplits(Nodes(t), Nodes(t1), Nodes(t1));
    SplitBetween(t.keys, k, i, t.kids[i].keys[d - 1], t1.keys);
    See(t1, d, h);
    assert x.keys[..x.n][i] == t1.keys[i];
    if Cmp(k, x.keys[i]) > 0 {
      i := i + 1;
    }
    u, p := PutKid(x, i, k, d, t1, h);
    PutsInHalf(t, u, j, z, k, d, h);
    FootSplits(Nodes(t), Nodes(t1), Nodes(u));
  }

  lemma SplitBetween(keys: seq<int>, k: int, i: nat, mid: int, keys': seq<int>)
    requires Between(keys, k, i) && keys' == keys[..i] + [mid] + keys[i..]
    ensures keys'[i] == mid && Between(keys', k, if k > mid then i + 1 else i)
  {
  }

  // A child that grew by new nodes shares none with the rest of the tree.
  lemma Grown(s: set<KbNode>, c: BT, y: BT, d: nat, h: nat)
    requires Owned(y, d, h) && Separate(s, d) && Nodes(c) <= s && Nodes(c) <= Nodes(y)
    requires s !! Nodes(y) - Nodes(c) && Foot(s) !! Foot(Nodes(y) - Nodes(c))
    ensures Nodes(y) !! s - Nodes(c) && Separate(s + Nodes(y), d) &&
      s - Nodes(c) + Nodes(y) == s + (Nodes(y) - Nodes(c))
  {
    hide Owned, Nodes, Foot;
    SeeRest(y, d, h, Nodes(y) - Nodes(c));
    SeparatePlus(s, Nodes(y) - Nodes(c), d);
    assert s + Nodes(y) == s + (Nodes(y) - Nodes(c));
  }

  // The recursive call of __kb_putp_aux, on child i.
  method PutKid(x: KbNode, i: nat, k: int, d: nat, ghost t: BT, ghost h: nat) returns (ghost u: BT, ghost p: nat)
    requires Owned(t, d, h) && h > 0 && t.node == x && Sorted(InOrder(t)) && Between(t.keys, k, i)
    requires i < |t.kids| && |t.kids[i].keys| < 2 * d - 1
    modifies Foot(Nodes(t))
    ensures Owned(u, d, h) && u.node == x && Nodes(t) <= Nodes(u) && fresh(Foot(Nodes(u) - Nodes(t)))
    ensures |t.keys| <= |u.keys| && Inserted(InOrder(t), InOrder(u), k, p) && Sorted(InOrder(u))
    ensures PutsBelow(t, u, i, k, d, h)
    decreases h, 0
  {
    hide Owned, Nodes, InOrder, Inserted, Foot, Sorted, Snap, PutsInto, PutsBelow;
    ghost var c := t.kids[i];
    ghost var N, rest := Nodes(t), Nodes(t) - Nodes(c);
    FootAllocated(rest);
    FootAllocated(N);
    SeeKid(t, d, h, i);
    SeeRest(t, d, h, Nodes(c));
    AroundKid(t, i);
    ghost var m, others := Snap(N), Snap(rest);
    ghost var y, q := PutAux(x.ptrs[i], k, d, c, h - 1);
    assert Snap(rest) == others;
    FootHas(Nodes(y) - Nodes(c));
    Grown(N, c, y, d, h - 1);
    KidReplaced(m, t, i, y, d, h);
    KidInserted(t, i, y, k, q);
    PutsInKid(t, i, k, d, h, y);
    u, p := Edit(t, i, 1, [], [y]), |EditFront(t, i)| + q;
  }

  // A fresh internal node with no key and the old root as its only child.
  method GrowRoot(r: KbNode, d: nat, ghost t: BT, ghost h: nat) returns (s: KbNode)
    requires Owned(t, d, h) && t.node == r && |t.keys| == 2 * d - 1
    ensures fresh(s) && fresh(Foot({s})) && Owned(BT(s, [], [t]), d, h + 1) && Nodes(BT(s, [], [t])) == Nodes(t) + {s}
    ensures s !in Nodes(t) && InOrder(BT(s, [], [t])) == InOrder(t)
  {
    hide Owned, Foot;
    FootAllocated(Nodes(t));
    See(t, d, h);
    s := new KbNode(d, true);
    FootOne(s);
    assert Foot(Nodes(t)) !! Foot({s});
    s.n := 0;
    s.ptrs[0] := r;
    SeeNew(s, r);
    FootHas(Nodes(t));
    assert Separate({s}, d);
    Rooted(s, t, d, h);
  }

  // The branch of kb_putp for a full root.
  method SplitRoot(r: KbNode, d: nat, ghost t: BT, ghost h: nat) returns (s: KbNode, ghost u: BT, ghost z: KbNode)
    requires Owned(t, d, h) && t.node == r && |t.keys| == 2 * d - 1
    modifies Foot(Nodes(t))
    ensures Owned(u, d, h + 1) && u.node == s && |u.keys| == 1 && InOrder(u) == InOrder(t)
    ensures CanSplit(BT(s, [], [t]), 0, d) && u == Halved(BT(s, [], [t]), 0, z, d) && z in Nodes(u) && z !in Nodes(t)
    ensures Nodes(t) <= Nodes(u) && fresh(Foot(Nodes(u) - Nodes(t)))
  {
    hide Owned, Foot, Nodes, InOrder;
    FootAllocated(Nodes(t));
    See(t, d, h);
    s := GrowRoot(r, d, t, h);
    ghost var g := BT(s, [], [t]);
    assert Nodes(g) - Nodes(t) == {s};
    FootSplits(Nodes(t), Nodes(g), Nodes(g));
    u, z := SplitKid(s, 0, r, d, g, h + 1);
    FootSplits(Nodes(t), Nodes(g), Nodes(u));
  }

  lemma SeeNew(s: KbNode, r: KbNode)
    requires s.n == 0 && s.isInternal && s.ptrs.Length > 0 && s.ptrs[0] == r
    ensures CellOf(s) == Cell(0, [], [r])
  {
    assert s.ptrs[..1] == [r];
  }

  lemma Rooted(s: KbNode, t: BT, d: nat, h: nat)
    requires Owned(t, d, h) && s !in Nodes(t) && CellOf(s) == Cell(0, [], [t.node]) && s.isInternal && d - 1 <= |t.keys|
    requires Separate({s}, d) && Foot(Nodes(t)) !! Foot({s})
    ensures var u := BT(s, [], [t]); Owned(u, d, h + 1) && Nodes(u) == Nodes(t) + {s} && InOrder(u) == InOrder(t)
  {
    hide CellOf, Separate, Foot, Sized;
    var u := BT(s, [], [t]);
    ApartOne(t);
    SeparatePlus(Nodes(t), {s}, d);
    WeaveOne(t);
    InOrderWeave(u);
    assert TreeCell(u) == Cell(0, [], [t.node]);
    assert Linked(Snap(Nodes(t)), t) && Good(t, d, h);
    assert Nodes(u) == Nodes(t) + {s} && Apart(u);
    Assembled(Snap(Nodes(t)), u);
    assert Good(u, d, h + 1);
  }
}
