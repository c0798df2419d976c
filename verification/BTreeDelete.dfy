/**
 B-tree deletion: __kb_delp_aux with its three modes.
 */
module BTreeDelete {
  import opened BTreeTheory
  import opened BTreeNode
  import opened BTreeHeap
  import opened BTreePair
  import opened BTreeResults

  // The keys of child i are still below child j, which is at the same end of the list if i was.
  ghost predicate Carries(t: BT, i: nat, u: BT, j: nat) {
    && i < |t.kids| && j < |u.kids| == |u.keys| + 1 && (i == |t.keys| ==> j == |u.keys|) && (i == 0 ==> j == 0)
    && forall v :: v in InOrder(t.kids[i]) ==> v in InOrder(u.kids[j])
  }

  // The part of __kb_delp_aux that sees to it that the child it will descend to has d keys at least:
  // borrow from the left, else from the right, else merge to the left, else to the right.
  method FixKid(x: KbNode, i: nat, d: nat, ghost t: BT, ghost h: nat) returns (xp: KbNode, ghost u: BT, ghost j: nat)
    requires Owned(t, d, h) && h > 0 && t.node == x && i < |t.kids| && |t.keys| > 0
    modifies Foot(Nodes(t))
    ensures Owned(u, d, h) && u.node == x && Nodes(u) <= Nodes(t) && InOrder(u) == InOrder(t)
    ensures |t.keys| - 1 <= |u.keys| && Carries(t, i, u, j) && xp == u.kids[j].node && d <= |u.kids[j].keys|
    ensures (u, j) == Fixed(t, i, d)
  {
    hide Owned, Nodes, InOrder, Foot, CellOf, TreeCell, Carries, Sized, Fits, LastKid, FirstKid,
      LentRight, LentLeft, Merged, Arity, Ptrs;
    FootAllocated(Nodes(t));
    See(t, d, h);
    SeeSize(t, d, h, i);
    xp, u, j := x.ptrs[i], t, i;
    if i > 0 {
      SeeSize(t, d, h, i - 1);
    }
    if i < x.n {
      SeeSize(t, d, h, i + 1);
    }
    if xp.n == d - 1 {
      if i > 0 && x.ptrs[i - 1].n >= d {
        u := BorrowLeft(x, i - 1, d, t, h);
        CarriesMore(t, i, u, i, InOrder(LastKid(t.kids[i - 1])) + [t.keys[i - 1]], []);
      } else if i < x.n && x.ptrs[i + 1].n >= d {
        u := BorrowRight(x, i, d, t, h);
        CarriesMore(t, i, u, i, [], [t.keys[i]] + InOrder(FirstKid(t.kids[i + 1])));
      } else {
        xp, u, j := MergeKid(x, i, d, t, h);
      }
    } else {
      CarriesSame(t, i);
    }
  }

  // The two merging branches.
  method MergeKid(x: KbNode, i: nat, d: nat, ghost t: BT, ghost h: nat) returns (xp: KbNode, ghost u: BT, ghost j: nat)
    requires Owned(t, d, h) && h > 0 && t.node == x && i < |t.kids| && |t.keys| > 0 && |t.kids[i].keys| == d - 1
    requires |t.kids| == |t.keys| + 1
    requires (i > 0 ==> |t.kids[i - 1].keys| == d - 1)
          && (i < |t.keys| && i + 1 < |t.kids| ==> |t.kids[i + 1].keys| == d - 1)
    modifies Foot(Nodes(t))
    ensures Owned(u, d, h) && u.node == x && Nodes(u) <= Nodes(t) && InOrder(u) == InOrder(t)
    ensures |t.keys| - 1 <= |u.keys| && Carries(t, i, u, j) && xp == u.kids[j].node && d <= |u.kids[j].keys|
    ensures (u, j) == if i > 0 then (Merged(t, i - 1), i - 1) else (Merged(t, i), i)
  {
    hide Owned, Nodes, InOrder, Foot, CellOf, TreeCell, Carries, Sized, Fits, Snap, Arity, Merged, Edit, Ptrs;
    See(t, d, h);
    SeeSize(t, d, h, i);
    xp, u, j := x.ptrs[i], t, i;
    if i > 0 {
      SeeSize(t, d, h, i - 1);
    }
    if i < x.n {
      SeeSize(t, d, h, i + 1);
    }
    if i > 0 && x.ptrs[i - 1].n == d - 1 {
      xp, j := x.ptrs[i - 1], i - 1;
      u := MergeAt(x, i - 1, i, d, t, h);
    } else if i < x.n && x.ptrs[i + 1].n == d - 1 {
      u := MergeAt(x, i, i, d, t, h);
    }
  }

  // Children l and l + 1, of which i is one, are merged around the key between them.
  method MergeAt(x: KbNode, l: nat, ghost i: nat, d: nat, ghost t: BT, ghost h: nat) returns (ghost u: BT)
    requires Owned(t, d, h) && h > 0 && t.node == x && l + 1 < |t.kids| == |t.keys| + 1 && (i == l || i == l + 1)
    requires |t.kids[l].keys| == |t.kids[l + 1].keys| == d - 1
    modifies Foot(Nodes(t))
    ensures Owned(u, d, h) && u.node == x && Nodes(u) <= Nodes(t) && InOrder(u) == InOrder(t) && u == Merged(t, l)
    ensures |t.keys| - 1 <= |u.keys| && Carries(t, i, u, l) && u.kids[l].node == t.kids[l].node
    ensures d <= |u.kids[l].keys|
  {
    hide Owned, Nodes, InOrder, Foot, CellOf, TreeCell, Carries, Sized, Fits, Snap, Arity, Merged, Edit, Ptrs;
    See(t, d, h);
    assert x.keys[..x.n][l] == x.keys[l];
    u := MergeKids(x, l, x.keys[l], d, t, h);
    if i == l {
      CarriesMore(t, i, u, l, [], [t.keys[l]] + InOrder(t.kids[l + 1]));
    } else {
      CarriesMore(t, i, u, l, InOrder(t.kids[l]) + [t.keys[l]], []);
    }
  }

  lemma CarriesSame(t: BT, i: nat)
    requires i < |t.kids| == |t.keys| + 1
    ensures Carries(t, i, t, i)
  {
  }

  lemma CarriesMore(t: BT, i: nat, u: BT, j: nat, a: seq<int>, b: seq<int>)
    requires i < |t.kids| && j < |u.kids| == |u.keys| + 1 && (i == |t.keys| ==> j == |u.keys|) && (i == 0 ==> j == 0)
    requires InOrder(u.kids[j]) == a + InOrder(t.kids[i]) + b
    ensures Carries(t, i, u, j)
  {
    forall v | v in InOrder(t.kids[i]) ensures v in InOrder(u.kids[j]) {
      assert v in a + InOrder(t.kids[i]) + b;
    }
  }

  // The key at place p leaves; which one that is, by mode: k itself, the greatest, or the least.
  ghost predicate Deleted(s: seq<int>, s': seq<int>, mode: int, k: int, kp: int, p: nat) {
    && Removed(s, s', p) && kp == s[p]
    && (mode == 0 ==> kp == k) && (mode == 1 ==> p == |s| - 1) && (mode == 2 ==> p == 0)
  }

  // What __kb_delp_aux may be called on.
  ghost predicate Deletable(t: BT, mode: int, k: int) {
    0 <= mode <= 2 && |t.keys| > 0 && Sorted(InOrder(t)) && (mode == 0 ==> k in InOrder(t))
  }

  // __kb_delp_aux: mode 0 deletes k, mode 1 the greatest key and mode 2 the least.
  method DelAux(x: KbNode, k: int, s: int, d: nat, ghost t: BT, ghost h: nat)
    returns (kp: int, ghost u: BT, ghost p: nat)
    requires Owned(t, d, h) && t.node == x && Deletable(t, s, k)
    modifies Foot(Nodes(t))
    ensures Owned(u, d, h) && u.node == x && Nodes(u) <= Nodes(t) && |t.keys| - 1 <= |u.keys|
    ensures Deleted(InOrder(t), InOrder(u), s, k, kp, p) && (u, kp) == DeletedFrom(t, s, k, d, h)
    decreases h, 3
  {
    hide Owned, Nodes, InOrder, Foot, CellOf, Deleted, DeletedFrom, DeletedIn, Fixed, PlaceOf, Position, Ptrs;
    FootAllocated(Nodes(t));
    See(t, d, h);
    SortedKeys(t);
    var i: int, r: int;
    if s != 0 {
      r := if !x.isInternal then 0 else if s == 1 then 1 else -1;
      i := if s == 1 then x.n - 1 else -1;
    } else {
      i, r := GetAux(x, k, 0);
      PlaceFound(t.keys, k, i, r);
    }
    if !x.isInternal {
      kp, u, p := DelLeaf(x, i, r, k, s, d, t);
    } else if r == 0 {
      kp, u, p := DelHere(x, i, k, d, t, h);
    } else {
      if s == 0 {
        BelowKid(t, k, i, r);
      }
      DeletedBelow(t, s, k, d, h, i + 1);
      kp, u, p := DelBelow(x, i + 1, k, s, d, t, h);
    }
  }

  // The leaf case.
  method DelLeaf(x: KbNode, j: int, r: int, k: int, s: int, d: nat, ghost t: BT)
    returns (kp: int, ghost u: BT, ghost p: nat)
    requires Owned(t, d, 0) && t.node == x && Deletable(t, s, k)
    requires if s == 0 then Position(t.keys, k, j, r) else j == if s == 1 then |t.keys| - 1 else -1
    modifies Foot(Nodes(t))
    ensures Owned(u, d, 0) && u.node == x && Nodes(u) == Nodes(t) && |u.keys| == |t.keys| - 1
    ensures Deleted(InOrder(t), InOrder(u), s, k, kp, p) && (u, kp) == DeletedFrom(t, s, k, d, 0)
  {
    hide Owned, CellOf, LeafWithout, TreeCell, Foot, Nodes, Position, DeletedFrom, PlaceOf;
    See(t, d, 0);
    LeafOrder(t, d);
    FootOne(x);
    var i := j;
    if s == 2 {
      i := i + 1;
    }
    if s == 0 {
      FoundIn(t.keys, k, i, r);
      PlaceFound(t.keys, k, i, r);
    }
    DeletedInLeaf(t, s, k, d, i);
    assert x.keys[..x.n][i] == t.keys[i];
    kp := RemoveLeaf(x, i);
    LeafRemoved(t, i, d);
    u, p := BT(x, t.keys[..i] + t.keys[i + 1..], []), i;
  }

  lemma LeafOrder(t: BT, d: nat)
    requires Owned(t, d, 0)
    ensures InOrder(t) == t.keys && Nodes(t) == {t.node} && t.kids == [] && Tree(Snap(Nodes(t)), t, d, 0)
  {
  }

  lemma LeafRemoved(t: BT, i: nat, d: nat)
    requires d >= 2 && t.kids == [] && i < |t.keys| <= 2 * d - 1 && Sized(t.node, d) && !t.node.isInternal
    requires CellOf(t.node) == LeafWithout(TreeCell(t), i)
    ensures var u := BT(t.node, t.keys[..i] + t.keys[i + 1..], []);
      Owned(u, d, 0) && Nodes(u) == Nodes(t) && InOrder(u) == u.keys
  {
    var u := BT(t.node, t.keys[..i] + t.keys[i + 1..], []);
    assert TreeCell(u) == LeafWithout(TreeCell(t), i);
    Assembled(map[], u);
  }

  lemma FoundIn(keys: seq<int>, k: int, i: int, r: int)
    requires Position(keys, k, i, r) && k in keys
    ensures r == 0 && 0 <= i < |keys| && keys[i] == k
  {
  }

  // A key that is none of the node's own and is in the tree is below the child that the search leads to.
  lemma BelowKid(t: BT, k: int, i: int, r: int)
    requires |t.kids| == |t.keys| + 1 && Sorted(InOrder(t)) && k in InOrder(t)
    requires Position(t.keys, k, i, r) && r != 0
    ensures k in InOrder(t.kids[i + 1])
  {
    hide InOrder, EditFront, EditRest;
    var j: nat := i + 1;
    AroundKid(t, j);
    var f, c, g := EditFront(t, j), InOrder(t.kids[j]), EditRest(t, j + 1);
    assert k in f || k in c || k in g;
  }

  lemma DeletedWithin(f: seq<int>, c: seq<int>, c': seq<int>, g: seq<int>, mode: int, k: int, kp: int, q: nat)
    requires Deleted(c, c', mode, k, kp, q) && (mode == 1 ==> g == []) && (mode == 2 ==> f == [])
    ensures Deleted(f + c + g, f + c' + g, mode, k, kp, |f| + q)
  {
    RemovedWithin(f, c, c', g, q);
  }

  // Deletion in child j deletes from the tree.
  lemma KidDeleted(t: BT, j: nat, y: BT, mode: int, k: int, kp: int, q: nat)
    requires |t.kids| == |t.keys| + 1 && j < |t.kids| && Sorted(InOrder(t))
    requires Deleted(InOrder(t.kids[j]), InOrder(y), mode, k, kp, q)
    requires (mode == 1 ==> j == |t.keys|) && (mode == 2 ==> j == 0)
    ensures Deleted(InOrder(t), InOrder(Edit(t, j, 1, [], [y])), mode, k, kp, |EditFront(t, j)| + q)
  {
    hide InOrder, EditFront, EditRest, Deleted;
    AroundKid(t, j);
    EditInOrder(t, j, 1, [], [y]);
    WeaveOne(y);
    DeletedWithin(EditFront(t, j), InOrder(t.kids[j]), InOrder(y), EditRest(t, j + 1), mode, k, kp, q);
  }

  // Descending into child i.
  method DelBelow(x: KbNode, i: nat, k: int, s: int, d: nat, ghost t: BT, ghost h: nat)
    returns (kp: int, ghost u: BT, ghost p: nat)
    requires Owned(t, d, h) && h > 0 && t.node == x && i < |t.kids| && |t.keys| > 0 && Sorted(InOrder(t)) && 0 <= s <= 2
    requires s == 0 ==> k in InOrder(t.kids[i])
    requires (s == 1 ==> i == |t.keys|) && (s == 2 ==> i == 0)
    modifies Foot(Nodes(t))
    ensures Owned(u, d, h) && u.node == x && Nodes(u) <= Nodes(t) && |t.keys| - 1 <= |u.keys|
    ensures Deleted(InOrder(t), InOrder(u), s, k, kp, p)
    ensures (u, kp) == DeletedIn(Fixed(t, i, d).0, Fixed(t, i, d).1, s, k, d, h)
    decreases h, 1
  {
    hide Owned, Nodes, InOrder, Foot, CellOf, Deleted, Sorted, DeletedFrom, DeletedIn, Fixed;
    FootAllocated(Nodes(t));
    var xp;
    ghost var t1, j;
    xp, t1, j := FixKid(x, i, d, t, h);
    ghost var y, q;
    FootMono(Nodes(t1), Nodes(t));
    SeeKid(t1, d, h, j);
    kp, y, q := DelKid(x, j, xp, k, s, d, t1, h);
    KidDeleted(t1, j, y, s, k, kp, q);
    DeletedInKid(t1, j, s, k, d, h, y, kp);
    u, p := Edit(t1, j, 1, [], [y]), |EditFront(t1, j)| + q;
  }

  // The recursive call, on child j.
  method DelKid(x: KbNode, ghost j: nat, xp: KbNode, k: int, s: int, d: nat, ghost t: BT, ghost h: nat)
    returns (kp: int, ghost y: BT, ghost q: nat)
    requires Owned(t, d, h) && h > 0 && t.node == x && j < |t.kids| && Sorted(InOrder(t)) && 0 <= s <= 2
    requires xp == t.kids[j].node && d <= |t.kids[j].keys| && (s == 0 ==> k in InOrder(t.kids[j]))
    modifies Foot(Nodes(t.kids[j]))
    ensures |t.kids| == |t.keys| + 1 && d - 1 <= |y.keys|
    ensures Deleted(InOrder(t.kids[j]), InOrder(y), s, k, kp, q) && (y, kp) == DeletedFrom(t.kids[j], s, k, d, h - 1)
    ensures var u := Edit(t, j, 1, [], [y]); Owned(u, d, h) && u.node == x && Nodes(u) <= Nodes(t)
    decreases h, 0
  {
    hide Owned, Nodes, InOrder, Foot, CellOf, Deleted, Sorted, Snap, DeletedFrom;
    ghost var c := t.kids[j];
    ghost var N, rest := Nodes(t), Nodes(t) - Nodes(c);
    FootAllocated(rest);
    SeeKid(t, d, h, j);
    SeeRest(t, d, h, Nodes(c));
    AroundKid(t, j);
    ghost var m, others := Snap(N), Snap(rest);
    kp, y, q := DelAux(xp, k, s, d, c, h - 1);
    assert Snap(rest) == others;
    assert N + Nodes(y) == N;
    KidReplaced(m, t, j, y, d, h);
  }

  // ---------- The key is in this node ----------

  ghost function KeyTree(t: BT, i: nat, v: int): BT
    requires i < |t.keys|
  {
    BT(t.node, t.keys[i := v], t.kids)
  }

  // The assignment of the extracted neighbour to the place of the deleted key.
  method ReplaceKey(x: KbNode, i: nat, v: int, d: nat, ghost t: BT, ghost h: nat)
    requires Owned(t, d, h) && t.node == x && i < |t.keys|
    modifies Foot(Nodes(t))
    ensures Owned(KeyTree(t, i, v), d, h) && Nodes(KeyTree(t, i, v)) == Nodes(t)
  {
    hide Owned, Nodes, Foot, CellOf, Tree, Keyed, TreeCell, Snap;
    FootAllocated(Nodes(t) - {x});
    See(t, d, h);
    SeeRest(t, d, h, {x});
    FootOne(x);
    ghost var m, others := Snap(Nodes(t)), Snap(Nodes(t) - {x});
    SetKey(x, i, v);
    assert Snap(Nodes(t) - {x}) == others;
    KeyedOwned(m, t, i, v, d, h);
  }

  lemma KeyedOwned(m: Mem, t: BT, i: nat, v: int, d: nat, h: nat)
    requires Tree(m, t, d, h) && i < |t.keys| && CellOf(t.node) == Keyed(TreeCell(t), i, v)
    requires var rest := Nodes(t) - {t.node}; Same(m, Snap(rest), rest)
    ensures Owned(KeyTree(t, i, v), d, h) && Nodes(KeyTree(t, i, v)) == Nodes(t)
  {
    hide CellOf, Separate;
    var u := KeyTree(t, i, v);
    assert NodesOf(t.kids) <= Nodes(t) - {t.node};
    SameRest(m, Nodes(t) - {t.node}, NodesOf(u.kids));
    Assembled(m, u);
    assert Good(u, d, h);
  }

  lemma KeyTreeLeft(t: BT, i: nat, y: BT, v: int)
    requires i + 1 < |t.kids| == |t.keys| + 1
    ensures KeyTree(Edit(t, i, 1, [], [y]), i, v) == Edit(t, i, 2, [v], [y, t.kids[i + 1]])
  {
    assert Edit(t, i, 1, [], [y]).keys == t.keys;
    assert t.keys[i := v] == t.keys[..i] + [v] + t.keys[i + 1..];
    assert t.kids[i + 1..] == [t.kids[i + 1]] + t.kids[i + 2..];
  }

  lemma KeyTreeRight(t: BT, i: nat, z: BT, v: int)
    requires i + 1 < |t.kids| == |t.keys| + 1
    ensures KeyTree(Edit(t, i + 1, 1, [], [z]), i, v) == Edit(t, i, 2, [v], [t.kids[i], z])
  {
    assert Edit(t, i + 1, 1, [], [z]).keys == t.keys;
    assert t.keys[i := v] == t.keys[..i] + [v] + t.keys[i + 1..];
    assert t.kids[..i + 1] == t.kids[..i] + [t.kids[i]];
  }

  lemma DeletedLast(s: seq<int>, s': seq<int>, v: int, q: nat)
    requires Deleted(s, s', 1, 0, v, q)
    ensures s == s' + [v]
  {
  }

  lemma DeletedFirst(s: seq<int>, s': seq<int>, v: int, q: nat)
    requires Deleted(s, s', 2, 0, v, q)
    ensures s == [v] + s'
  {
  }

  // The key's place taken by the greatest key below its left child.
  lemma PredReplaced(t: BT, i: nat, y: BT, v: int, q: nat)
    requires i + 1 < |t.kids| == |t.keys| + 1 && Deleted(InOrder(t.kids[i]), InOrder(y), 1, 0, v, q)
    ensures var u, p := KeyTree(Edit(t, i, 1, [], [y]), i, v), |EditFront(t, i)| + |InOrder(t.kids[i])|;
      Removed(InOrder(t), InOrder(u), p) && InOrder(t)[p] == t.keys[i]
  {
    var u, z := KeyTree(Edit(t, i, 1, [], [y]), i, v), t.kids[i + 1];
    KeyTreeLeft(t, i, y, v);
    hide *;
    EditPair(t, i, v, y, z);
    DeletedLast(InOrder(t.kids[i]), InOrder(y), v, q);
    MoveBack(EditFront(t, i), InOrder(t.kids[i]), InOrder(y), t.keys[i], v, InOrder(z), EditRest(t, i + 2));
  }

  lemma MoveBack(f: seq<int>, c: seq<int>, c': seq<int>, k: int, v: int, z: seq<int>, g: seq<int>)
    requires c == c' + [v]
    ensures Removed(f + (c + [k] + z) + g, f + (c' + [v] + z) + g, |f| + |c|)
    ensures (f + (c + [k] + z) + g)[|f| + |c|] == k
  {
  }

  // The key's place taken by the least key below its right child.
  lemma SuccReplaced(t: BT, i: nat, z: BT, v: int, q: nat)
    requires i + 1 < |t.kids| == |t.keys| + 1 && Deleted(InOrder(t.kids[i + 1]), InOrder(z), 2, 0, v, q)
    ensures var u, p := KeyTree(Edit(t, i + 1, 1, [], [z]), i, v), |EditFront(t, i)| + |InOrder(t.kids[i])|;
      Removed(InOrder(t), InOrder(u), p) && InOrder(t)[p] == t.keys[i]
  {
    var u, y := KeyTree(Edit(t, i + 1, 1, [], [z]), i, v), t.kids[i];
    KeyTreeRight(t, i, z, v);
    hide *;
    EditPair(t, i, v, y, z);
    DeletedFirst(InOrder(t.kids[i + 1]), InOrder(z), v, q);
    MoveUp(EditFront(t, i), InOrder(y), t.keys[i], v, InOrder(t.kids[i + 1]), InOrder(z), EditRest(t, i + 2));
  }

  lemma MoveUp(f: seq<int>, y: seq<int>, k: int, v: int, c: seq<int>, c': seq<int>, g: seq<int>)
    requires c == [v] + c'
    ensures Removed(f + (y + [k] + c) + g, f + (y + [v] + c') + g, |f| + |y|)
    ensures (f + (y + [k] + c) + g)[|f| + |y|] == k
  {
  }

  // The case r == 0 in an internal node.
  method DelHere(x: KbNode, i: nat, k: int, d: nat, ghost t: BT, ghost h: nat)
    returns (kp: int, ghost u: BT, ghost p: nat)
    requires Owned(t, d, h) && h > 0 && t.node == x && i < |t.keys| && t.keys[i] == k && Sorted(InOrder(t))
    requires PlaceOf(t.keys, k) == i
    modifies Foot(Nodes(t))
    ensures Owned(u, d, h) && u.node == x && Nodes(u) <= Nodes(t) && |t.keys| - 1 <= |u.keys|
    ensures Deleted(InOrder(t), InOrder(u), 0, k, kp, p) && (u, kp) == DeletedFrom(t, 0, k, d, h)
    decreases h, 2
  {
    hide Owned, Nodes, InOrder, Foot, CellOf, Sorted, TreeCell, Deleted, Sized, Fits, Snap, DeletedFrom, PlaceOf,
      Arity, Ptrs;
    See(t, d, h);
    SeeSize(t, d, h, i);
    SeeSize(t, d, h, i + 1);
    var y, z := x.ptrs[i], x.ptrs[i + 1];
    kp := x.keys[i];
    assert x.keys[..x.n][i] == kp;
    if y.n >= d {
      u, p := DelByPred(x, i, y, k, d, t, h);
    } else if z.n >= d {
      u, p := DelBySucc(x, i, z, k, d, t, h);
    } else if y.n == d - 1 && z.n == d - 1 {
      kp, u, p := DelMerged(x, i, y, k, d, t, h);
    }
  }

  // The greatest key below the left child takes the place of the deleted key.
  method DelByPred(x: KbNode, i: nat, y: KbNode, k: int, d: nat, ghost t: BT, ghost h: nat)
    returns (ghost u: BT, ghost p: nat)
    requires Owned(t, d, h) && h > 0 && t.node == x && i < |t.keys| && t.keys[i] == k && Sorted(InOrder(t))
    requires i + 1 < |t.kids| == |t.keys| + 1 && PlaceOf(t.keys, k) == i && y == t.kids[i].node && d <= |t.kids[i].keys|
    modifies Foot(Nodes(t))
    ensures Owned(u, d, h) && u.node == x && Nodes(u) <= Nodes(t) && |t.keys| - 1 <= |u.keys|
    ensures Deleted(InOrder(t), InOrder(u), 0, k, k, p) && (u, k) == DeletedFrom(t, 0, k, d, h)
    decreases h, 1
  {
    hide Owned, Nodes, InOrder, Foot, CellOf, Sorted, TreeCell, Deleted, DeletedFrom, PlaceOf, Arity;
    FootAllocated(Nodes(t));
    SeeKid(t, d, h, i);
    var v;
    ghost var y', q;
    v, y', q := DelKid(x, i, y, 0, 1, d, t, h);
    FootMono(Nodes(Edit(t, i, 1, [], [y'])), Nodes(t));
    PredReplaced(t, i, y', v, q);
    DeletedByPred(t, i, k, d, h, y', v);
    ReplaceKey(x, i, v, d, Edit(t, i, 1, [], [y']), h);
    u, p := KeyTree(Edit(t, i, 1, [], [y']), i, v), |EditFront(t, i)| + |InOrder(t.kids[i])|;
    DeletedHere(InOrder(t), InOrder(u), k, p);
  }

  // The least key below the right child takes the place of the deleted key.
  method DelBySucc(x: KbNode, i: nat, z: KbNode, k: int, d: nat, ghost t: BT, ghost h: nat)
    returns (ghost u: BT, ghost p: nat)
    requires Owned(t, d, h) && h > 0 && t.node == x && i < |t.keys| && t.keys[i] == k && Sorted(InOrder(t))
    requires i + 1 < |t.kids| == |t.keys| + 1 && PlaceOf(t.keys, k) == i && z == t.kids[i + 1].node
    requires |t.kids[i].keys| < d <= |t.kids[i + 1].keys|
    modifies Foot(Nodes(t))
    ensures Owned(u, d, h) && u.node == x && Nodes(u) <= Nodes(t) && |t.keys| - 1 <= |u.keys|
    ensures Deleted(InOrder(t), InOrder(u), 0, k, k, p) && (u, k) == DeletedFrom(t, 0, k, d, h)
    decreases h, 1
  {
    hide Owned, Nodes, InOrder, Foot, CellOf, Sorted, TreeCell, Deleted, DeletedFrom, PlaceOf, Arity;
    FootAllocated(Nodes(t));
    SeeKid(t, d, h, i + 1);
    var v;
    ghost var z', q;
    v, z', q := DelKid(x, i + 1, z, 0, 2, d, t, h);
    FootMono(Nodes(Edit(t, i + 1, 1, [], [z'])), Nodes(t));
    SuccReplaced(t, i, z', v, q);
    DeletedBySucc(t, i, k, d, h, z', v);
    ReplaceKey(x, i, v, d, Edit(t, i + 1, 1, [], [z']), h);
    u, p := KeyTree(Edit(t, i + 1, 1, [], [z']), i, v), |EditFront(t, i)| + |InOrder(t.kids[i])|;
    DeletedHere(InOrder(t), InOrder(u), k, p);
  }

  // The branch that merges both neighbours with the key between them, and goes on from there.
  method DelMerged(x: KbNode, i: nat, y: KbNode, k: int, d: nat, ghost t: BT, ghost h: nat)
    returns (kp: int, ghost u: BT, ghost p: nat)
    requires Owned(t, d, h) && h > 0 && t.node == x && i < |t.keys| && t.keys[i] == k && Sorted(InOrder(t))
    requires PlaceOf(t.keys, k) == i
    requires i + 1 < |t.kids| && y == t.kids[i].node && |t.kids[i].keys| == |t.kids[i + 1].keys| == d - 1
    modifies Foot(Nodes(t))
    ensures Owned(u, d, h) && u.node == x && Nodes(u) <= Nodes(t) && |t.keys| - 1 <= |u.keys|
    ensures Deleted(InOrder(t), InOrder(u), 0, k, kp, p) && (u, kp) == DeletedFrom(t, 0, k, d, h)
    decreases h, 1
  {
    hide Owned, Nodes, InOrder, Foot, CellOf, Sorted, TreeCell, Deleted, Sized, Fits, DeletedFrom, DeletedIn, PlaceOf;
    FootAllocated(Nodes(t));
    See(t, d, h);
    DeletedByMerge(t, i, k, d, h);
    ghost var y', q;
    ghost var t1 := MergeKids(x, i, k, d, t, h);
    FootMono(Nodes(t1), Nodes(t));
    SeeKid(t1, d, h, i);
    kp, y', q := DelKid(x, i, y, k, 0, d, t1, h);
    KidDeleted(t1, i, y', 0, k, kp, q);
    DeletedInKid(t1, i, 0, k, d, h, y', kp);
    u, p := Edit(t1, i, 1, [], [y']), |EditFront(t1, i)| + q;
  }

  lemma DeletedHere(s: seq<int>, s': seq<int>, k: int, p: nat)
    requires Removed(s, s', p) && s[p] == k
    ensures Deleted(s, s', 0, k, k, p)
  {
  }
}
