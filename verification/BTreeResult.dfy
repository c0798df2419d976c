/**
 The trees that insertion and deletion make, in terms of the tree before: which child is split, which one
 lends a key, which two are merged, and where the descent goes on.
 */
module BTreeResults {
  import opened BTreeTheory
  import opened BTreeNode
  import opened BTreePair

  // How many keys lie before the place of k.
  function PlaceOf(keys: seq<int>, k: int): (i: nat)
    ensures i <= |keys|
  {
    if keys == [] || k <= keys[0] then 0 else 1 + PlaceOf(keys[1..], k)
  }

  lemma {:induction false} PlaceIs(keys: seq<int>, k: int, i: nat)
    requires i <= |keys| && (forall j :: 0 <= j < i ==> keys[j] < k) && (i < |keys| ==> k <= keys[i])
    ensures PlaceOf(keys, k) == i
  {
    if i > 0 {
      PlaceIs(keys[1..], k, i - 1);
    }
  }

  // The search in a node finds that place.
  lemma PlaceFound(keys: seq<int>, k: int, i: int, r: int)
    requires Position(keys, k, i, r)
    ensures PlaceOf(keys, k) == (if r == 0 then i else i + 1)
    ensures r == 0 <==> PlaceOf(keys, k) < |keys| && keys[PlaceOf(keys, k)] == k
  {
    PlaceIs(keys, k, if r == 0 then i else i + 1);
  }

  // ---------- Insertion ----------

  ghost predicate CanSplit(t: BT, i: nat, d: nat) {
    d >= 2 && i < |t.kids| == |t.keys| + 1 <= 2 * d - 1 && |t.kids[i].keys| == 2 * d - 1 && Arity(t.kids[i])
  }

  ghost function LowerHalf(c: BT, d: nat): BT
    requires |c.keys| == 2 * d - 1 && d >= 2 && Arity(c)
  {
    BT(c.node, c.keys[..d - 1], if c.kids == [] then [] else c.kids[..d])
  }

  ghost function UpperHalf(c: BT, z: KbNode, d: nat): BT
    requires |c.keys| == 2 * d - 1 && d >= 2 && Arity(c)
  {
    BT(z, c.keys[d..], if c.kids == [] then [] else c.kids[d..])
  }

  ghost function Halved(t: BT, i: nat, z: KbNode, d: nat): BT
    requires CanSplit(t, i, d)
  {
    var c := t.kids[i];
    Edit(t, i, 1, [c.keys[d - 1]], [LowerHalf(c, d), UpperHalf(c, z, d)])
  }

  // The child to which a search for k leads, or the place for k in a leaf: behind the first key not below k
  // if that is k itself.
  function Slot(keys: seq<int>, k: int): (i: nat)
    ensures i <= |keys|
  {
    var i := PlaceOf(keys, k);
    if i < |keys| && keys[i] == k then i + 1 else i
  }

  lemma SlotFound(keys: seq<int>, k: int, i: int, r: int)
    requires if keys == [] then i == -1 else Position(keys, k, i, r)
    ensures i + 1 == Slot(keys, k)
  {
    if keys != [] {
      PlaceFound(keys, k, i, r);
    }
  }

  // u is what __kb_putp_aux makes of t: a full child on the way is split first, its upper half into a new node.
  ghost predicate PutsInto(t: BT, u: BT, k: int, d: nat, h: nat)
    decreases h, 1
  {
    var i := Slot(t.keys, k);
    if h == 0 then u == BT(t.node, t.keys[..i] + [k] + t.keys[i..], [])
    else if CanSplit(t, i, d) then
      exists z :: z in Nodes(u) && z !in Nodes(t)
        && PutsBelow(Halved(t, i, z, d), u, if k > t.kids[i].keys[d - 1] then i + 1 else i, k, d, h)
    else PutsBelow(t, u, i, k, d, h)
  }

  ghost predicate PutsBelow(t: BT, u: BT, j: nat, k: int, d: nat, h: nat)
    requires h > 0
    decreases h, 0
  {
    j < |t.kids| && j < |u.kids| && u == WithKid(t, j, u.kids[j]) && PutsInto(t.kids[j], u.kids[j], k, d, h - 1)
  }

  // u is what kb_putp makes of t: a full root is split below a new one.
  ghost predicate Puts(t: BT, u: BT, k: int, d: nat, h: nat) {
    var top := BT(u.node, [], [t]);
    if CanSplit(top, 0, d) then
      exists z :: z in Nodes(u) && z !in Nodes(t) && PutsInto(Halved(top, 0, z, d), u, k, d, h + 1)
    else PutsInto(t, u, k, d, h)
  }

  lemma PutsInLeaf(t: BT, k: int, d: nat, i: nat)
    requires i == Slot(t.keys, k)
    ensures PutsInto(t, BT(t.node, t.keys[..i] + [k] + t.keys[i..], []), k, d, 0)
  {
  }

  lemma PutsInKid(t: BT, j: nat, k: int, d: nat, h: nat, y: BT)
    requires h > 0 && j < |t.kids| == |t.keys| + 1 && PutsInto(t.kids[j], y, k, d, h - 1)
    ensures PutsBelow(t, Edit(t, j, 1, [], [y]), j, k, d, h)
  {
    EditOne(t, j, y);
  }

  lemma PutsInHalf(t: BT, u: BT, i: nat, z: KbNode, k: int, d: nat, h: nat)
    requires h > 0 && i == Slot(t.keys, k) && CanSplit(t, i, d) && z in Nodes(u) && z !in Nodes(t)
    requires PutsBelow(Halved(t, i, z, d), u, if k > t.kids[i].keys[d - 1] then i + 1 else i, k, d, h)
    ensures PutsInto(t, u, k, d, h)
  {
  }

  lemma PutsInRoom(t: BT, u: BT, i: nat, k: int, d: nat, h: nat)
    requires h > 0 && i == Slot(t.keys, k) && !CanSplit(t, i, d) && PutsBelow(t, u, i, k, d, h)
    ensures PutsInto(t, u, k, d, h)
  {
  }

  lemma PutsTop(t: BT, u: BT, k: int, d: nat, h: nat, z: KbNode)
    requires CanSplit(BT(u.node, [], [t]), 0, d) && z in Nodes(u) && z !in Nodes(t)
    requires PutsInto(Halved(BT(u.node, [], [t]), 0, z, d), u, k, d, h + 1)
    ensures Puts(t, u, k, d, h)
  {
  }

  lemma PutsThrough(t: BT, u: BT, k: int, d: nat, h: nat)
    requires |t.keys| < 2 * d - 1 && PutsInto(t, u, k, d, h)
    ensures Puts(t, u, k, d, h)
  {
  }

  // ---------- Deletion ----------

  // The tree whose child i has been given a key if it had none to spare, and where that child is now.
  ghost function Fixed(t: BT, i: nat, d: nat): (BT, nat) {
    if |t.kids| != |t.keys| + 1 || i >= |t.kids| || |t.kids[i].keys| != d - 1 then (t, i)
    else if i > 0 && |t.kids[i - 1].keys| >= d && d > 0 then (LentRight(t, i - 1), i)
    else if i < |t.keys| && |t.kids[i + 1].keys| >= d && d > 0 then (LentLeft(t, i), i)
    else if i > 0 then (Merged(t, i - 1), i - 1)
    else if i < |t.keys| then (Merged(t, i), i)
    else (t, i)
  }

  ghost function WithKid(t: BT, j: nat, y: BT): BT {
    if j < |t.kids| then BT(t.node, t.keys, t.kids[j := y]) else t
  }

  lemma EditOne(t: BT, j: nat, y: BT)
    requires j < |t.kids| == |t.keys| + 1
    ensures Edit(t, j, 1, [], [y]) == WithKid(t, j, y)
  {
  }

  ghost function LeafLess(t: BT, i: nat): BT {
    if i < |t.keys| then BT(t.node, t.keys[..i] + t.keys[i + 1..], []) else t
  }

  ghost function WithKey(t: BT, i: nat, v: int): BT {
    if i < |t.keys| then BT(t.node, t.keys[i := v], t.kids) else t
  }

  // The place a deletion goes to: mode 0 deletes k, mode 1 the greatest key and mode 2 the least.
  function Target(t: BT, mode: int, k: int): nat {
    if mode == 0 then PlaceOf(t.keys, k) else if mode == 1 then |t.keys| else 0
  }

  // What __kb_delp_aux makes of the tree t of height h, and the key it deletes.
  ghost function DeletedFrom(t: BT, mode: int, k: int, d: nat, h: nat): (BT, int)
    decreases h, 1
  {
    var i := Target(t, mode, k);
    if h == 0 then
      var j := if mode == 1 && i > 0 then i - 1 else i;
      (LeafLess(t, j), if j < |t.keys| then t.keys[j] else k)
    else if mode == 0 && i < |t.keys| && t.keys[i] == k && |t.kids| == |t.keys| + 1 then
      if |t.kids[i].keys| >= d then
        var r := DeletedFrom(t.kids[i], 1, 0, d, h - 1);
        (WithKey(WithKid(t, i, r.0), i, r.1), k)
      else if |t.kids[i + 1].keys| >= d then
        var r := DeletedFrom(t.kids[i + 1], 2, 0, d, h - 1);
        (WithKey(WithKid(t, i + 1, r.0), i, r.1), k)
      else
        DeletedIn(Merged(t, i), i, 0, k, d, h)
    else
      var f := Fixed(t, i, d);
      DeletedIn(f.0, f.1, mode, k, d, h)
  }

  // The deletion in child j.
  ghost function DeletedIn(t: BT, j: nat, mode: int, k: int, d: nat, h: nat): (BT, int)
    requires h > 0
    decreases h, 0
  {
    if j < |t.kids| then
      var r := DeletedFrom(t.kids[j], mode, k, d, h - 1);
      (WithKid(t, j, r.0), r.1)
    else (t, k)
  }

  // The tree without its root, if that has lost its last key.
  function WithoutEmptyRoot(t: BT): BT {
    if t.keys == [] && t.kids != [] then t.kids[0] else t
  }

  lemma DeletedInLeaf(t: BT, mode: int, k: int, d: nat, i: nat)
    requires i < |t.keys| && i == (if mode == 1 then |t.keys| - 1 else Target(t, mode, k))
    ensures DeletedFrom(t, mode, k, d, 0) == (LeafLess(t, i), t.keys[i])
  {
  }

  lemma DeletedBelow(t: BT, mode: int, k: int, d: nat, h: nat, i: nat)
    requires h > 0 && i == Target(t, mode, k) && !(mode == 0 && i < |t.keys| && t.keys[i] == k)
    ensures DeletedFrom(t, mode, k, d, h) == DeletedIn(Fixed(t, i, d).0, Fixed(t, i, d).1, mode, k, d, h)
  {
  }

  lemma DeletedInKid(t: BT, j: nat, mode: int, k: int, d: nat, h: nat, y: BT, kp: int)
    requires h > 0 && j < |t.kids| == |t.keys| + 1 && DeletedFrom(t.kids[j], mode, k, d, h - 1) == (y, kp)
    ensures DeletedIn(t, j, mode, k, d, h) == (Edit(t, j, 1, [], [y]), kp)
  {
    EditOne(t, j, y);
  }

  // The three ways to delete a key of an internal node.
  lemma DeletedByPred(t: BT, i: nat, k: int, d: nat, h: nat, y: BT, v: int)
    requires h > 0 && i < |t.keys| && |t.kids| == |t.keys| + 1 && PlaceOf(t.keys, k) == i && t.keys[i] == k
    requires |t.kids[i].keys| >= d && DeletedFrom(t.kids[i], 1, 0, d, h - 1) == (y, v)
    ensures DeletedFrom(t, 0, k, d, h) == (WithKey(Edit(t, i, 1, [], [y]), i, v), k)
  {
    EditOne(t, i, y);
  }

  lemma DeletedBySucc(t: BT, i: nat, k: int, d: nat, h: nat, z: BT, v: int)
    requires h > 0 && i < |t.keys| && |t.kids| == |t.keys| + 1 && PlaceOf(t.keys, k) == i && t.keys[i] == k
    requires |t.kids[i].keys| < d <= |t.kids[i + 1].keys| && DeletedFrom(t.kids[i + 1], 2, 0, d, h - 1) == (z, v)
    ensures DeletedFrom(t, 0, k, d, h) == (WithKey(Edit(t, i + 1, 1, [], [z]), i, v), k)
  {
    EditOne(t, i + 1, z);
  }

  lemma DeletedByMerge(t: BT, i: nat, k: int, d: nat, h: nat)
    requires h > 0 && i < |t.keys| && |t.kids| == |t.keys| + 1 && PlaceOf(t.keys, k) == i && t.keys[i] == k
    requires |t.kids[i].keys| < d && |t.kids[i + 1].keys| < d
    ensures DeletedFrom(t, 0, k, d, h) == DeletedIn(Merged(t, i), i, 0, k, d, h)
  {
  }
}
