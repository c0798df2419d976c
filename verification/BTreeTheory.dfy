/**
 The abstract side of the B-tree: trees over the real node objects, their in-order key sequence, the
 link predicate that ties a tree to the arrays of its nodes, and what replacing a run of neighbouring
 children does to each.
 */
module BTreeTheory {
  import opened Sequences

  // kbnode_t: n keys and, in an internal node, n + 1 children, at the front of fixed-size arrays.
  class KbNode {
    const isInternal: bool
    const keys: array<int>
    const ptrs: array<KbNode?>
    var n: nat

    // calloc of ilen bytes (internal) or elen bytes (leaf) for minimum degree t.
    constructor (t: nat, internal: bool)
      requires t >= 2
      ensures n == 0 && isInternal == internal && fresh(keys) && fresh(ptrs) && Sized(this, t)
    {
      isInternal := internal;
      n := 0;
      keys := new int[2 * t - 1];
      ptrs := new KbNode?[if internal then 2 * t else 0];
    }
  }

  ghost predicate Sized(x: KbNode, t: nat) {
    x.keys.Length == 2 * t - 1 && x.ptrs.Length == if x.isInternal then 2 * t else 0
  }

  datatype BT = BT(node: KbNode, keys: seq<int>, kids: seq<BT>)

  // ---------- The key sequence ----------

  ghost function InOrder(t: BT): seq<int>
    decreases t
  {
    if t.kids == [] then t.keys else InOrder(t.kids[0]) + Rest(t.keys, t.kids[1..])
  }

  // Keys and children from some key on.
  ghost function Rest(keys: seq<int>, kids: seq<BT>): seq<int>
    decreases kids
  {
    if keys == [] || kids == [] then [] else [keys[0]] + InOrder(kids[0]) + Rest(keys[1..], kids[1..])
  }

  // Children and keys up to some child.
  ghost function Front(keys: seq<int>, kids: seq<BT>): seq<int>
    decreases kids
  {
    if keys == [] || kids == [] then [] else InOrder(kids[0]) + [keys[0]] + Front(keys[1..], kids[1..])
  }

  // A run of children with the keys between them.
  ghost function Weave(keys: seq<int>, kids: seq<BT>): seq<int>
    requires kids != []
  {
    InOrder(kids[0]) + Rest(keys, kids[1..])
  }

  lemma WeaveOne(c: BT)
    ensures Weave([], [c]) == InOrder(c)
  {
  }

  lemma WeaveTwo(y: BT, k: int, z: BT)
    ensures Weave([k], [y, z]) == InOrder(y) + [k] + InOrder(z)
  {
    assert [y, z][1..] == [z];
    assert Rest([k], [z]) == [k] + InOrder(z) + Rest([], []);
  }

  lemma {:induction false} RestConcat(k1: seq<int>, c1: seq<BT>, k2: seq<int>, c2: seq<BT>)
    requires |k1| == |c1|
    ensures Rest(k1 + k2, c1 + c2) == Rest(k1, c1) + Rest(k2, c2)
    decreases |k1|
  {
    if k1 == [] {
      assert k1 + k2 == k2 && c1 + c2 == c2;
    } else {
      assert (k1 + k2)[1..] == k1[1..] + k2 && (c1 + c2)[1..] == c1[1..] + c2;
      RestConcat(k1[1..], c1[1..], k2, c2);
    }
  }

  lemma InOrderWeave(t: BT)
    requires t.kids != []
    ensures InOrder(t) == Weave(t.keys, t.kids)
  {
  }

  lemma RestWeave(keys: seq<int>, kids: seq<BT>)
    requires keys != [] && kids != []
    ensures Rest(keys, kids) == [keys[0]] + Weave(keys[1..], kids)
  {
  }

  lemma Regroup(a: seq<int>, b: seq<int>, f: seq<int>, c: seq<int>, r: seq<int>)
    ensures a + (b + (f + c + r)) == (a + b + f) + c + r
  {
  }

  lemma Regroup4(f: seq<int>, c: seq<int>, r: seq<int>, r': seq<int>)
    ensures f + c + (r + r') == f + (c + r) + r'
  {
  }

  lemma {:induction false} WeaveSplit(keys: seq<int>, kids: seq<BT>, i: nat)
    requires |kids| == |keys| + 1 && i <= |keys|
    ensures Weave(keys, kids) == Front(keys[..i], kids[..i]) + InOrder(kids[i]) + Rest(keys[i..], kids[i + 1..])
    decreases i
  {
    if i == 0 {
      assert keys[..0] == [] && keys[0..] == keys && Front([], kids[..0]) == [];
    } else {
      var f, c, r := Front(keys[1..i], kids[1..i]), InOrder(kids[i]), Rest(keys[i..], kids[i + 1..]);
      assert Weave(keys[1..], kids[1..]) == f + c + r by {
        WeaveSplit(keys[1..], kids[1..], i - 1);
        assert kids[1..][i..] == kids[i + 1..] && keys[1..][i - 1..] == keys[i..];
        assert keys[1..i] == keys[1..][..i - 1] && kids[1..i] == kids[1..][..i - 1];
      }
      RestWeave(keys, kids[1..]);
      assert Front(keys[..i], kids[..i]) == InOrder(kids[0]) + [keys[0]] + f by {
        assert keys[..i][1..] == keys[1..i] && kids[..i][1..] == kids[1..i];
      }
      Regroup(InOrder(kids[0]), [keys[0]], f, c, r);
    }
  }

  lemma WeaveWindow(keys: seq<int>, kids: seq<BT>, i: nat, w: nat)
    requires |kids| == |keys| + 1 && w > 0 && i + w <= |kids|
    ensures Weave(keys, kids)
         == Front(keys[..i], kids[..i]) + Weave(keys[i..i + w - 1], kids[i..i + w])
            + Rest(keys[i + w - 1..], kids[i + w..])
  {
    var e := i + w;
    var c, r1, r2 := InOrder(kids[i]), Rest(keys[i..e - 1], kids[i + 1..e]), Rest(keys[e - 1..], kids[e..]);
    assert Weave(keys[i..e - 1], kids[i..e]) == c + r1 by {
      assert kids[i..e][1..] == kids[i + 1..e] && kids[i..e][0] == kids[i];
    }
    hide InOrder, Rest, Front, Weave;
    assert Rest(keys[i..], kids[i + 1..]) == r1 + r2 by {
      RestConcat(keys[i..e - 1], kids[i + 1..e], keys[e - 1..], kids[e..]);
      assert keys[i..e - 1] + keys[e - 1..] == keys[i..] && kids[i + 1..e] + kids[e..] == kids[i + 1..];
    }
    WeaveSplit(keys, kids, i);
    Regroup4(Front(keys[..i], kids[..i]), c, r1, r2);
  }

  // Children i up to i + w and the keys between them replaced.
  ghost function Edit(t: BT, i: nat, w: nat, mid: seq<int>, news: seq<BT>): BT
    requires w > 0 && i + w <= |t.kids| == |t.keys| + 1
  {
    BT(t.node, t.keys[..i] + mid + t.keys[i + w - 1..], t.kids[..i] + news + t.kids[i + w..])
  }

  ghost function EditFront(t: BT, i: nat): seq<int>
    requires i <= |t.keys| <= |t.kids|
  {
    Front(t.keys[..i], t.kids[..i])
  }

  ghost function EditRest(t: BT, e: nat): seq<int>
    requires 0 < e <= |t.kids| == |t.keys| + 1
  {
    Rest(t.keys[e - 1..], t.kids[e..])
  }

  lemma EditInOrder(t: BT, i: nat, w: nat, mid: seq<int>, news: seq<BT>)
    requires w > 0 && i + w <= |t.kids| == |t.keys| + 1 && |news| == |mid| + 1
    ensures InOrder(t) == EditFront(t, i) + Weave(t.keys[i..i + w - 1], t.kids[i..i + w]) + EditRest(t, i + w)
    ensures InOrder(Edit(t, i, w, mid, news)) == EditFront(t, i) + Weave(mid, news) + EditRest(t, i + w)
  {
    hide Front, Weave, Rest;
    var u, v := Edit(t, i, w, mid, news), |news|;
    InOrderWeave(t);
    InOrderWeave(u);
    WeaveWindow(t.keys, t.kids, i, w);
    WeaveWindow(u.keys, u.kids, i, v);
    assert u.keys[..i] == t.keys[..i] && u.kids[..i] == t.kids[..i];
    assert u.keys[i..i + v - 1] == mid && u.kids[i..i + v] == news;
    assert u.keys[i + v - 1..] == t.keys[i + w - 1..] && u.kids[i + v..] == t.kids[i + w..];
  }

  // Two siblings and the key between them, as one node.
  ghost function Join(x: KbNode, y: BT, k: int, z: BT): BT {
    BT(x, y.keys + [k] + z.keys, y.kids + z.kids)
  }

  ghost predicate Arity(t: BT) { t.kids == [] || |t.kids| == |t.keys| + 1 }

  lemma JoinInOrder(x: KbNode, y: BT, k: int, z: BT)
    requires Arity(y) && Arity(z) && (y.kids == [] <==> z.kids == [])
    ensures InOrder(Join(x, y, k, z)) == InOrder(y) + [k] + InOrder(z)
  {
    if y.kids != [] {
      var t := Join(x, y, k, z);
      InOrderWeave(t);
      InOrderWeave(y);
      InOrderWeave(z);
      WeaveJoin(y.keys, y.kids, k, z.keys, z.kids);
    }
  }

  lemma WeaveJoin(k1: seq<int>, c1: seq<BT>, k: int, k2: seq<int>, c2: seq<BT>)
    requires |c1| == |k1| + 1 && c2 != []
    ensures Weave(k1 + [k] + k2, c1 + c2) == Weave(k1, c1) + [k] + Weave(k2, c2)
  {
    hide InOrder, Rest;
    RestConcat(k1, c1[1..], [k] + k2, c2);
    assert k1 + ([k] + k2) == k1 + [k] + k2 && (c1 + c2)[1..] == c1[1..] + c2 && (c1 + c2)[0] == c1[0];
    RestWeave([k] + k2, c2);
    assert ([k] + k2)[1..] == k2;
  }

  // ---------- Shape: fill and equal depth ----------

  // A subtree of height h in a tree of minimum degree d.
  ghost predicate Good(t: BT, d: nat, h: nat)
    decreases h, 0
  {
    && |t.keys| <= 2 * d - 1
    && if h == 0 then t.kids == []
       else |t.kids| == |t.keys| + 1 && GoodAll(t.kids, d, h - 1)
  }

  ghost predicate GoodAll(kids: seq<BT>, d: nat, h: nat)
    decreases h, 1
  {
    forall c :: c in kids ==> d - 1 <= |c.keys| && Good(c, d, h)
  }

  lemma GoodKid(t: BT, d: nat, h: nat, i: nat)
    requires Good(t, d, h) && h > 0 && i < |t.kids|
    ensures Arity(t) && t.kids[i] in t.kids
    ensures Good(t.kids[i], d, h - 1) && d - 1 <= |t.kids[i].keys| <= 2 * d - 1 && Arity(t.kids[i])
    ensures t.kids[i].kids == [] <==> h == 1
  {
    var c := t.kids[i];
    assert c in t.kids;
    GoodArity(c, d, h - 1);
  }

  lemma GoodArity(t: BT, d: nat, h: nat)
    requires Good(t, d, h)
    ensures Arity(t) && (t.kids == [] <==> h == 0) && |t.keys| <= 2 * d - 1
  {
  }

  lemma EditGood(t: BT, i: nat, w: nat, mid: seq<int>, news: seq<BT>, d: nat, h: nat)
    requires h > 0 && Good(t, d, h) && w > 0 && i + w <= |t.kids| && |news| == |mid| + 1 && GoodAll(news, d, h - 1)
    requires |t.keys| + |mid| <= 2 * d - 1 + (w - 1)
    ensures Good(Edit(t, i, w, mid, news), d, h)
  {
  }

  // ---------- Order ----------

  ghost predicate Sorted(s: seq<int>) {
    forall i, j :: 0 <= i < j < |s| ==> s[i] <= s[j]
  }

  lemma SortedAppend(a: seq<int>, b: seq<int>)
    ensures Sorted(a + b) <==> Sorted(a) && Sorted(b) && forall x, y :: x in a && y in b ==> x <= y
  {
    SortedConcat(a, b, (x: int, y: int) => x <= y);
  }

  // Elements on either side of a child are bounded by the keys next to it.
  lemma {:induction false} FrontLast(keys: seq<int>, kids: seq<BT>)
    requires |keys| == |kids| > 0
    ensures var f := Front(keys, kids); |f| > 0 && f[|f| - 1] == keys[|keys| - 1]
    decreases |keys|
  {
    if |keys| > 1 {
      FrontLast(keys[1..], kids[1..]);
    }
  }

  lemma {:induction false} RestKeys(keys: seq<int>, kids: seq<BT>)
    requires |keys| <= |kids|
    ensures forall k :: k in keys ==> k in Rest(keys, kids)
    ensures Sorted(Rest(keys, kids)) ==> Sorted(keys)
    decreases |keys|
  {
    if keys != [] {
      RestWeave(keys, kids);
      RestKeys(keys[1..], kids[1..]);
      var a, b := [keys[0]] + InOrder(kids[0]), Rest(keys[1..], kids[1..]);
      assert Rest(keys, kids) == a + b;
      SortedAppend(a, b);
      SortedAppend([keys[0]], keys[1..]);
      assert keys == [keys[0]] + keys[1..];
      assert a[0] in a && a[0] == keys[0];
      forall k | k in keys ensures k in Rest(keys, kids) {
        assert k == keys[0] || k in keys[1..];
      }
    }
  }

  lemma SortedKeys(t: BT)
    requires Arity(t) && Sorted(InOrder(t))
    ensures Sorted(t.keys)
  {
    if t.kids != [] {
      RestKeys(t.keys, t.kids[1..]);
      SortedAppend(InOrder(t.kids[0]), Rest(t.keys, t.kids[1..]));
    }
  }

  ghost predicate AtMost(s: seq<int>, k: int) { forall v :: v in s ==> v <= k }

  ghost predicate AtLeast(s: seq<int>, k: int) { forall v :: v in s ==> k <= v }

  // Everything before child i is at most key i - 1, everything behind it at least key i.
  lemma AroundKid(t: BT, i: nat)
    requires |t.kids| == |t.keys| + 1 && i <= |t.keys| && Sorted(InOrder(t))
    ensures InOrder(t) == EditFront(t, i) + InOrder(t.kids[i]) + EditRest(t, i + 1) && Sorted(InOrder(t.kids[i]))
    ensures if i > 0 then AtMost(EditFront(t, i), t.keys[i - 1]) else EditFront(t, i) == []
    ensures if i < |t.keys| then AtLeast(EditRest(t, i + 1), t.keys[i]) else EditRest(t, i + 1) == []
  {
    hide InOrder, Front;
    var f, c, r := EditFront(t, i), InOrder(t.kids[i]), EditRest(t, i + 1);
    InOrderWeave(t);
    WeaveSplit(t.keys, t.kids, i);
    assert InOrder(t) == f + (c + r);
    SortedAppend(f, c + r);
    SortedAppend(c, r);
    if i > 0 {
      FrontLast(t.keys[..i], t.kids[..i]);
      LastGreatest(f);
    }
    if i < |t.keys| {
      RestWeave(t.keys[i..], t.kids[i + 1..]);
      FirstLeast(r);
    }
  }

  lemma LastGreatest(s: seq<int>)
    requires Sorted(s) && s != []
    ensures AtMost(s, s[|s| - 1])
  {
  }

  lemma FirstLeast(s: seq<int>)
    requires Sorted(s) && s != []
    ensures AtLeast(s, s[0])
  {
  }

  // s' is s with k inserted at position p.
  ghost predicate Inserted(s: seq<int>, s': seq<int>, k: int, p: nat) {
    p <= |s| && s' == s[..p] + [k] + s[p..]
  }

  // s' is s without its element at position p.
  ghost predicate Removed(s: seq<int>, s': seq<int>, p: nat) {
    p < |s| && s' == s[..p] + s[p + 1..]
  }

  lemma InsertedWithin(f: seq<int>, c: seq<int>, c': seq<int>, r: seq<int>, k: int, p: nat)
    requires Inserted(c, c', k, p)
    ensures Inserted(f + c + r, f + c' + r, k, |f| + p)
  {
  }

  lemma RemovedWithin(f: seq<int>, c: seq<int>, c': seq<int>, r: seq<int>, p: nat)
    requires Removed(c, c', p)
    ensures Removed(f + c + r, f + c' + r, |f| + p) && (f + c + r)[|f| + p] == c[p]
  {
  }

  lemma InsertedSorted(f: seq<int>, c: seq<int>, c': seq<int>, r: seq<int>, k: int, p: nat)
    requires Sorted(f + c + r) && Inserted(c, c', k, p) && Sorted(c')
    requires AtMost(f, k) && AtLeast(r, k)
    ensures Sorted(f + c' + r)
  {
    assert f + c + r == f + (c + r) && f + c' + r == f + (c' + r);
    SortedAppend(f, c + r);
    SortedAppend(c, r);
    SortedAppend(c', r);
    SortedAppend(f, c' + r);
    assert c == c[..p] + c[p..];
    forall v | v in c' ensures v == k || v in c {
      assert v in c[..p] || v in [k] || v in c[p..];
    }
    forall x, y | x in f && y in c' + r ensures x <= y {
      assert y in c' || y in r;
      assert y == k || y in c + r;
    }
  }

  // ---------- Node sets; no node occurs twice ----------

  ghost function Nodes(t: BT): set<KbNode>
    decreases t
  {
    {t.node} + NodesOf(t.kids)
  }

  ghost function NodesOf(kids: seq<BT>): set<KbNode>
    decreases kids
  {
    if kids == [] then {} else Nodes(kids[0]) + NodesOf(kids[1..])
  }

  ghost predicate Apart(t: BT)
    decreases t
  {
    t.node !in NodesOf(t.kids) && ApartAll(t.kids)
  }

  ghost predicate ApartAll(kids: seq<BT>)
    decreases kids
  {
    kids == [] || (Apart(kids[0]) && Nodes(kids[0]) !! NodesOf(kids[1..]) && ApartAll(kids[1..]))
  }

  lemma {:induction false} ApartConcat(a: seq<BT>, b: seq<BT>)
    ensures NodesOf(a + b) == NodesOf(a) + NodesOf(b)
    ensures ApartAll(a + b) <==> ApartAll(a) && ApartAll(b) && NodesOf(a) !! NodesOf(b)
    decreases |a|
  {
    if a == [] {
      assert a + b == b;
    } else {
      assert (a + b)[1..] == a[1..] + b;
      ApartConcat(a[1..], b);
    }
  }

  lemma ApartOne(y: BT)
    ensures NodesOf([y]) == Nodes(y) && (ApartAll([y]) <==> Apart(y))
  {
    assert [y][1..] == [];
  }

  lemma ApartTwo(y: BT, z: BT)
    ensures NodesOf([y, z]) == Nodes(y) + Nodes(z)
    ensures ApartAll([y, z]) <==> Apart(y) && Apart(z) && Nodes(y) !! Nodes(z)
  {
    assert [y, z][1..] == [z];
    ApartOne(z);
  }

  lemma ApartWindow(kids: seq<BT>, i: nat, e: nat)
    requires i <= e <= |kids|
    ensures NodesOf(kids) == NodesOf(kids[..i]) + NodesOf(kids[i..e]) + NodesOf(kids[e..])
    ensures ApartAll(kids) <==>
      && ApartAll(kids[..i]) && ApartAll(kids[i..e]) && ApartAll(kids[e..])
      && NodesOf(kids[..i]) !! NodesOf(kids[i..e]) !! NodesOf(kids[e..])
  {
    hide NodesOf, ApartAll;
    assert kids == kids[..i] + (kids[i..e] + kids[e..]);
    ApartConcat(kids[..i], kids[i..e] + kids[e..]);
    ApartConcat(kids[i..e], kids[e..]);
  }

  lemma EditApart(t: BT, i: nat, w: nat, mid: seq<int>, news: seq<BT>)
    requires w > 0 && i + w <= |t.kids| == |t.keys| + 1
    requires Apart(t) && ApartAll(news) && NodesOf(news) !! Nodes(t) - NodesOf(t.kids[i..i + w])
    ensures Apart(Edit(t, i, w, mid, news))
    ensures Nodes(Edit(t, i, w, mid, news)) == Nodes(t) - NodesOf(t.kids[i..i + w]) + NodesOf(news)
  {
    hide NodesOf, ApartAll;
    var u, v := Edit(t, i, w, mid, news), |news|;
    ApartWindow(t.kids, i, i + w);
    ApartWindow(u.kids, i, i + v);
    assert u.kids[..i] == t.kids[..i] && u.kids[i..i + v] == news && u.kids[i + v..] == t.kids[i + w..];
  }

  // ---------- Links ----------

  datatype Cell = Cell(n: nat, keys: seq<int>, ptrs: seq<KbNode?>)
  type Mem = map<KbNode, Cell>

  ghost const NO_CELL := Cell(0, [], [])

  ghost function CellOf(x: KbNode): Cell
    reads x, x.keys, x.ptrs
  {
    Cell(x.n,
         if x.n <= x.keys.Length then x.keys[..x.n] else [],
         if x.isInternal && x.n < x.ptrs.Length then x.ptrs[..x.n + 1] else [])
  }

  // The nodes with their arrays.
  ghost function Foot(s: set<KbNode>): set<object> {
    s + (set x | x in s :: x.keys as object) + (set x | x in s :: x.ptrs as object)
  }

  ghost function Snap(s: set<KbNode>): Mem
    reads Foot(s)
  {
    map x | x in s :: if x in s then CellOf(x) else NO_CELL
  }

  ghost function Ptrs(kids: seq<BT>): (p: seq<KbNode?>)
    ensures |p| == |kids| && forall i :: 0 <= i < |kids| ==> p[i] == kids[i].node
  {
    if kids == [] then [] else [kids[0].node] + Ptrs(kids[1..])
  }

  lemma PtrsSlice(kids: seq<BT>, i: nat, e: nat)
    requires i <= e <= |kids|
    ensures Ptrs(kids[i..e]) == Ptrs(kids)[i..e]
  {
  }

  lemma EditPtrs(t: BT, i: nat, w: nat, news: seq<BT>)
    requires i + w <= |t.kids|
    ensures Ptrs(t.kids[..i] + news + t.kids[i + w..]) == Ptrs(t.kids)[..i] + Ptrs(news) + Ptrs(t.kids)[i + w..]
  {
    PtrsConcat(t.kids[..i] + news, t.kids[i + w..]);
    PtrsConcat(t.kids[..i], news);
    PtrsSlice(t.kids, 0, i);
    PtrsSlice(t.kids, i + w, |t.kids|);
  }

  lemma PtrsTwo(y: BT, z: BT)
    ensures Ptrs([y, z]) == [y.node, z.node]
  {
  }

  lemma PtrsConcat(a: seq<BT>, b: seq<BT>)
    ensures Ptrs(a + b) == Ptrs(a) + Ptrs(b)
  {
  }

  // What the node at the head of t must hold.
  ghost function TreeCell(t: BT): Cell { Cell(|t.keys|, t.keys, Ptrs(t.kids)) }

  ghost predicate Linked(m: Mem, t: BT)
    decreases t
  {
    && t.node in m && m[t.node] == TreeCell(t)
    && (t.node.isInternal <==> t.kids != [])
    && forall c :: c in t.kids ==> Linked(m, c)
  }

  ghost predicate Same(m: Mem, m': Mem, s: set<KbNode>) {
    forall x :: x in s && x in m ==> x in m' && m'[x] == m[x]
  }

  lemma {:induction false} KidNodes(kids: seq<BT>, c: BT)
    requires c in kids
    ensures Nodes(c) <= NodesOf(kids)
    decreases |kids|
  {
    if c != kids[0] {
      KidNodes(kids[1..], c);
    }
  }

  lemma {:induction false} LinkedFrame(m: Mem, m': Mem, t: BT)
    requires Linked(m, t) && Same(m, m', Nodes(t))
    ensures Linked(m', t)
    decreases t
  {
    forall c | c in t.kids ensures Linked(m', c) {
      KidNodes(t.kids, c);
      LinkedFrame(m, m', c);
    }
  }

  lemma LinkedFrameAll(m: Mem, m': Mem, kids: seq<BT>)
    requires (forall c :: c in kids ==> Linked(m, c)) && Same(m, m', NodesOf(kids))
    ensures forall c :: c in kids ==> Linked(m', c)
  {
    forall c | c in kids ensures Linked(m', c) {
      KidNodes(kids, c);
      LinkedFrame(m, m', c);
    }
  }

  // The replaced run is linked in the new memory, and of the rest only the parent's own cell changes.
  lemma EditLinked(m: Mem, m': Mem, t: BT, i: nat, w: nat, mid: seq<int>, news: seq<BT>)
    requires w > 0 && i + w <= |t.kids| == |t.keys| + 1 && news != [] && Linked(m, t) && Apart(t)
    requires Same(m, m', Nodes(t) - {t.node} - NodesOf(t.kids[i..i + w]))
    requires forall c :: c in news ==> Linked(m', c)
    requires t.node in m' && m'[t.node] == TreeCell(Edit(t, i, w, mid, news))
    ensures Linked(m', Edit(t, i, w, mid, news))
  {
    hide NodesOf, ApartAll;
    var u := Edit(t, i, w, mid, news);
    ApartWindow(t.kids, i, i + w);
    LinkedFrameAll(m, m', t.kids[..i]);
    LinkedFrameAll(m, m', t.kids[i + w..]);
  }
}
