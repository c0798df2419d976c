/**
 What the reading operations of the B-tree rest on: where a search key stands among the keys of a tree,
 and what an explicit-stack traversal still has to visit.
 */
module BTreeRead {
  import opened Options
  import opened BTreeTheory
  import opened BTreeNode
  import opened BTreeHeap

  ghost predicate Below(s: seq<int>, k: int) { forall v :: v in s ==> v < k }

  ghost predicate Above(s: seq<int>, k: int) { forall v :: v in s ==> k < v }

  function Final(s: seq<int>): Option<int> { if s == [] then None else Some(s[|s| - 1]) }

  function First(s: seq<int>): Option<int> { if s == [] then None else Some(s[0]) }

  // A search that found no match leaves the smaller keys on the left and the greater ones on the right of
  // the child it points to; the keys it points between are the nearest of them.
  lemma SearchSplits(t: BT, k: int, i: int, r: int)
    requires |t.kids| == |t.keys| + 1 && Sorted(InOrder(t)) && Position(t.keys, k, i, r) && r != 0
    ensures var j: nat, f, g := i + 1, EditFront(t, i + 1), EditRest(t, i + 2);
      && InOrder(t) == f + InOrder(t.kids[j]) + g && Sorted(InOrder(t.kids[j])) && Below(f, k) && Above(g, k)
      && Final(f) == (if i >= 0 then Some(t.keys[i]) else None)
      && First(g) == (if i < |t.keys| - 1 then Some(t.keys[i + 1]) else None)
  {
    var j: nat := i + 1;
    AroundKid(t, j);
    if j > 0 {
      FrontLast(t.keys[..j], t.kids[..j]);
    }
    if j < |t.keys| {
      RestWeave(t.keys[j..], t.kids[j + 1..]);
    }
  }

  // Everything outside the subtree the search is in, on its two sides.
  ghost predicate Around(s: seq<int>, a: seq<int>, c: seq<int>, b: seq<int>, k: int) {
    s == a + c + b && Below(a, k) && Above(b, k)
  }

  lemma AroundDeeper(s: seq<int>, a: seq<int>, c: seq<int>, b: seq<int>, k: int, f: seq<int>, e: seq<int>, g: seq<int>)
    requires Around(s, a, c, b, k) && c == f + e + g && Below(f, k) && Above(g, k)
    ensures Around(s, a + f, e, g + b, k)
    ensures Final(a + f) == (if f != [] then Final(f) else Final(a))
    ensures First(g + b) == (if g != [] then First(g) else First(b))
  {
    assert a + (f + e + g) + b == (a + f) + e + (g + b);
  }

  lemma AroundIn(s: seq<int>, a: seq<int>, c: seq<int>, b: seq<int>, k: int)
    requires Around(s, a, c, b, k)
    ensures k in s <==> k in c
    ensures forall v :: v in c ==> v in s
  {
    assert forall v :: v in s <==> v in a || v in c || v in b;
  }

  // The greatest element that is not above k, and the least that is not below it.
  ghost predicate IsFloor(s: seq<int>, k: int, o: Option<int>) {
    match o
    case None => Above(s, k)
    case Some(v) => v in s && v <= k && forall w :: w in s && w <= k ==> w <= v
  }

  ghost predicate IsCeiling(s: seq<int>, k: int, o: Option<int>) {
    match o
    case None => Below(s, k)
    case Some(v) => v in s && k <= v && forall w :: w in s && k <= w ==> v <= w
  }

  lemma FloorCeiling(s: seq<int>, a: seq<int>, b: seq<int>, k: int)
    requires s == a + b && Sorted(s) && Below(a, k) && Above(b, k)
    ensures IsFloor(s, k, Final(a)) && IsCeiling(s, k, First(b))
  {
    SortedAppend(a, b);
    forall w | w in s ensures w in a || w in b {}
    if a != [] {
      LastGreatest(a);
      assert a[|a| - 1] in a;
    }
    if b != [] {
      FirstLeast(b);
      assert b[0] in b;
    }
  }

  lemma FoundBoth(s: seq<int>, k: int)
    requires k in s
    ensures IsFloor(s, k, Some(k)) && IsCeiling(s, k, Some(k))
  {
  }

  lemma AroundAll(s: seq<int>, k: int)
    ensures Around(s, [], s, [], k)
  {
  }

  lemma KeyIn(t: BT, i: nat)
    requires Arity(t) && i < |t.keys|
    ensures t.keys[i] in InOrder(t)
  {
    if t.kids != [] {
      InOrderWeave(t);
      RestKeys(t.keys, t.kids[1..]);
      var k := t.keys[i];
      assert k in t.keys && k in Rest(t.keys, t.kids[1..]);
      assert k in InOrder(t.kids[0]) + Rest(t.keys, t.kids[1..]);
    }
  }

  lemma NotInLeaf(t: BT, k: int, i: int, r: int)
    requires t.kids == [] && (t.keys == [] || (Position(t.keys, k, i, r) && r != 0))
    ensures k !in InOrder(t)
  {
  }

  // The search for k in s has come to the subtree t.
  ghost predicate Searching(s: seq<int>, a: seq<int>, t: BT, b: seq<int>, k: int, d: nat, h: nat)
    reads Foot(Nodes(t))
  {
    Owned(t, d, h) && Sorted(InOrder(t)) && Around(s, a, InOrder(t), b, k) && (h > 0 ==> |t.keys| > 0)
  }

  lemma SearchStart(t: BT, k: int, d: nat, h: nat)
    requires Owned(t, d, h) && Sorted(InOrder(t)) && (h > 0 ==> |t.keys| > 0)
    ensures Searching(InOrder(t), [], t, [], k, d, h)
  {
    AroundAll(InOrder(t), k);
  }

  // What the code sees at the head of t.
  lemma SearchSees(s: seq<int>, a: seq<int>, t: BT, b: seq<int>, k: int, d: nat, h: nat)
    requires Searching(s, a, t, b, k, d, h)
    ensures Fits(t.node) && Sorted(t.keys) && t.node.keys[..t.node.n] == t.keys && |t.keys| == t.node.n
    ensures (t.node.isInternal <==> h > 0) && (h > 0 ==> t.keys != [])
    ensures allocated(Foot(Nodes(t))) && t.node in Nodes(t)
    ensures forall i :: 0 <= i < |t.keys| && t.keys[i] == k ==> k in s
  {
    hide InOrder, Around, Sorted, Owned;
    See(t, d, h);
    SortedKeys(t);
    FootAllocated(Nodes(t));
    AroundIn(s, a, InOrder(t), b, k);
    forall i | 0 <= i < |t.keys| && t.keys[i] == k ensures k in s {
      KeyIn(t, i);
    }
  }

  lemma SearchDeeper(s: seq<int>, a: seq<int>, t: BT, b: seq<int>, k: int, d: nat, h: nat, i: int, r: int)
    requires Searching(s, a, t, b, k, d, h) && h > 0 && Position(t.keys, k, i, r) && r != 0
    ensures |t.kids| == |t.keys| + 1
    ensures var c, a', b' := t.kids[i + 1], a + EditFront(t, i + 1), EditRest(t, i + 2) + b;
      && Searching(s, a', c, b', k, d, h - 1) && Nodes(c) <= Nodes(t)
      && Final(a') == (if i >= 0 then Some(t.keys[i]) else Final(a))
      && First(b') == (if i < |t.keys| - 1 then Some(t.keys[i + 1]) else First(b))
    ensures t.node.ptrs.Length > i + 1 && t.node.ptrs[i + 1] == t.kids[i + 1].node
  {
    hide InOrder, Around, Sorted, Owned, Position, EditFront, EditRest, Foot;
    See(t, d, h);
    PositionBound(t.keys, k, i, r);
    SeeSize(t, d, h, i + 1);
    SeeKid(t, d, h, i + 1);
    SearchSplits(t, k, i, r);
    AroundDeeper(s, a, InOrder(t), b, k, EditFront(t, i + 1), InOrder(t.kids[i + 1]), EditRest(t, i + 2));
  }

  lemma PositionBound(keys: seq<int>, k: int, i: int, r: int)
    requires Position(keys, k, i, r)
    ensures -1 <= i < |keys|
  {
  }

  // A search that ends in a leaf.
  lemma SearchEnds(s: seq<int>, a: seq<int>, t: BT, b: seq<int>, k: int, d: nat, h: nat, i: int, r: int)
    requires Searching(s, a, t, b, k, d, h) && Sorted(s) && h == 0
    requires if t.keys == [] then i == -1 else Position(t.keys, k, i, r) && r != 0
    ensures k !in s && t.kids == []
    ensures IsFloor(s, k, if i >= 0 then Some(t.keys[i]) else Final(a))
    ensures IsCeiling(s, k, if i < |t.keys| - 1 then Some(t.keys[i + 1]) else First(b))
  {
    hide Owned, Around, Sorted, IsFloor, IsCeiling, Below, Above, Position, Foot, Nodes, Final, First;
    See(t, d, h);
    NotInLeaf(t, k, i, r);
    AroundIn(s, a, InOrder(t), b, k);
    LeafHalves(t.keys, k, i, r);
    LeafEnds(t.keys, i);
    var f, g := t.keys[..i + 1], t.keys[i + 1..];
    assert t.keys == f + [] + g;
    AroundDeeper(s, a, t.keys, b, k, f, [], g);
    AroundBoth(s, a + f, g + b, k);
    FloorCeiling(s, a + f, g + b, k);
  }

  lemma AroundBoth(s: seq<int>, a: seq<int>, b: seq<int>, k: int)
    requires Around(s, a, [], b, k)
    ensures s == a + b && Below(a, k) && Above(b, k)
  {
  }

  lemma LeafHalves(keys: seq<int>, k: int, i: int, r: int)
    requires if keys == [] then i == -1 else Position(keys, k, i, r) && r != 0
    ensures -1 <= i < |keys| && Below(keys[..i + 1], k) && Above(keys[i + 1..], k)
  {
  }

  lemma LeafEnds(keys: seq<int>, i: int)
    requires -1 <= i < |keys|
    ensures Final(keys[..i + 1]) == (if i >= 0 then Some(keys[i]) else None)
    ensures First(keys[i + 1..]) == (if i < |keys| - 1 then Some(keys[i + 1]) else None)
    ensures (keys[..i + 1] == [] <==> i == -1) && (keys[i + 1..] == [] <==> i == |keys| - 1)
  {
    var f, g := keys[..i + 1], keys[i + 1..];
    assert |f| == i + 1 && |g| == |keys| - 1 - i;
    if i >= 0 {
      assert f[i] == keys[i];
    }
    if i < |keys| - 1 {
      assert g[0] == keys[i + 1];
    }
  }

  // How a search that has looked into t's node goes on: it has its key, or it ends, or it descends.
  ghost predicate Outcome(s: seq<int>, a: seq<int>, t: BT, b: seq<int>, k: int, d: nat, h: nat, i: int, r: int)
    reads Foot(Nodes(t)) + if 0 <= i + 1 < |t.kids| then Foot(Nodes(t.kids[i + 1])) else {}
  {
    && -1 <= i < |t.keys| && (t.node.isInternal <==> h > 0)
    && if i >= 0 && r == 0 then t.keys[i] == k && k in s
       else if h == 0 then
         && k !in s && IsFloor(s, k, if i >= 0 then Some(t.keys[i]) else Final(a))
         && IsCeiling(s, k, if i < |t.keys| - 1 then Some(t.keys[i + 1]) else First(b))
       else
         && |t.kids| == |t.keys| + 1 && Descends(s, a, t, b, k, d, h, i)
         && t.node.ptrs.Length > i + 1 && t.node.ptrs[i + 1] == t.kids[i + 1].node
  }

  ghost predicate Descends(s: seq<int>, a: seq<int>, t: BT, b: seq<int>, k: int, d: nat, h: nat, i: int)
    requires |t.kids| == |t.keys| + 1 && -1 <= i < |t.keys| && h > 0
    reads Foot(Nodes(t)) + Foot(Nodes(t.kids[i + 1]))
  {
    var c, a', b' := t.kids[i + 1], a + EditFront(t, i + 1), EditRest(t, i + 2) + b;
    && Searching(s, a', c, b', k, d, h - 1) && Nodes(c) <= Nodes(t)
    && Final(a') == (if i >= 0 then Some(t.keys[i]) else Final(a))
    && First(b') == (if i < |t.keys| - 1 then Some(t.keys[i + 1]) else First(b))
  }

  method LookIn(x: KbNode, k: int, r0: int, ghost s: seq<int>, ghost a: seq<int>, ghost t: BT, ghost b: seq<int>,
                ghost d: nat, ghost h: nat)
    returns (i: int, r: int)
    requires Searching(s, a, t, b, k, d, h) && Sorted(s) && t.node == x
    ensures Outcome(s, a, t, b, k, d, h, i, r)
    ensures x.n == |t.keys| <= x.keys.Length && x.keys[..x.n] == t.keys && t.node in Nodes(t)
  {
    hide Searching, Sorted, Foot, Nodes, CellOf, IsFloor, IsCeiling;
    SearchSees(s, a, t, b, k, d, h);
    i, r := GetAux(x, k, r0);
    if !(i >= 0 && r == 0) {
      if h == 0 {
        SearchEnds(s, a, t, b, k, d, h, i, r);
      } else {
        SearchDeeper(s, a, t, b, k, d, h, i, r);
      }
    }
  }

  // ---------- Traversal ----------

  // An entry of the traversal stack: a node (or nothing below a leaf) and the child it has come to.
  datatype Frame = Frame(x: KbNode?, i: nat)

  // The tree behind an entry.
  datatype View = View(t: BT, h: nat, i: nat)

  ghost function Child(t: BT, i: nat): seq<int>
    requires t.kids == [] || i < |t.kids|
  {
    if t.kids == [] then [] else InOrder(t.kids[i])
  }

  // What comes after child i, and from child i on.
  ghost function After(t: BT, i: nat): seq<int>
    requires Arity(t) && i <= |t.keys|
  {
    if t.kids == [] then t.keys[i..] else Rest(t.keys[i..], t.kids[i + 1..])
  }

  ghost function From(t: BT, i: nat): seq<int>
    requires Arity(t) && i <= |t.keys| + 1
  {
    if i <= |t.keys| then Child(t, i) + After(t, i) else []
  }

  lemma FromStart(t: BT)
    requires Arity(t)
    ensures From(t, 0) == InOrder(t)
  {
    if t.kids != [] {
      InOrderWeave(t);
      assert t.keys[0..] == t.keys;
    }
  }

  lemma AfterKey(t: BT, i: nat)
    requires Arity(t) && i <= |t.keys|
    ensures After(t, i) == if i < |t.keys| then [t.keys[i]] + From(t, i + 1) else []
  {
    if t.kids == [] {
      if i < |t.keys| {
        assert t.keys[i..] == [t.keys[i]] + t.keys[i + 1..];
      }
    } else if i < |t.keys| {
      RestWeave(t.keys[i..], t.kids[i + 1..]);
      assert t.keys[i..][1..] == t.keys[i + 1..] && t.kids[i + 1..][1..] == t.kids[i + 2..];
    }
  }

  // A subtree in the memory of the whole.
  ghost predicate Within(v: View, tree: BT, d: nat, h: nat)
    reads Foot(Nodes(tree))
  {
    Tree(Snap(Nodes(tree)), v.t, d, v.h) && Nodes(v.t) <= Nodes(tree)
  }

  // What the code sees at an entry.
  lemma SeeView(v: View, tree: BT, d: nat, h: nat)
    requires Within(v, tree, d, h)
    ensures var x := v.t.node;
      && Fits(x) && x.n == |v.t.keys| && x.keys[..x.n] == v.t.keys && Arity(v.t)
      && (x.isInternal <==> v.t.kids != [])
      && (x.isInternal ==> x.ptrs.Length > x.n && x.ptrs[..x.n + 1] == Ptrs(v.t.kids))
  {
    GoodTree(Snap(Nodes(tree)), v.t, d, v.h);
    assert v.t.node in Nodes(tree) && Sized(v.t.node, d);
  }

  lemma KidArity(t: BT)
    requires t.kids == [] || |t.kids| == |t.keys| + 1
    ensures Arity(t)
  {
  }

  lemma SeeChild(v: View, tree: BT, d: nat, h: nat)
    requires Within(v, tree, d, h) && v.i < |v.t.kids|
    ensures v.h > 0 && Within(View(v.t.kids[v.i], v.h - 1, 0), tree, d, h) && Arity(v.t.kids[v.i])
  {
    hide Good, Tree, Snap, Arity;
    GoodTree(Snap(Nodes(tree)), v.t, d, v.h);
    KidTree(Snap(Nodes(tree)), v.t, d, v.h, v.i);
    GoodTree(Snap(Nodes(tree)), v.t.kids[v.i], d, v.h - 1);
    KidArity(v.t.kids[v.i]);
  }

  // Entries that are each busy with one of their children, and a topmost one that may be done with all.
  ghost predicate Busy(views: seq<View>) { forall v :: v in views ==> Arity(v.t) && v.i <= |v.t.keys| }

  ghost predicate Reaches(below: seq<View>, top: Option<View>) {
    Busy(below) && (top.Some? ==> Arity(top.value.t) && top.value.i <= |top.value.t.keys| + 1)
  }

  ghost function Images(views: seq<View>): seq<Frame> {
    if views == [] then [] else Images(views[..|views| - 1]) + [Image(Some(views[|views| - 1]))]
  }

  // The topmost entry, which may have run off below a leaf.
  ghost function Image(top: Option<View>): Frame {
    match top
    case None => Frame(null, 0)
    case Some(v) => Frame(v.t.node, v.i)
  }

  // What the entries will visit when the children they are busy with are done.
  ghost function Pending(views: seq<View>): seq<int>
    requires Busy(views)
    decreases |views|
  {
    if views == [] then []
    else
      var v := views[|views| - 1];
      After(v.t, v.i) + Pending(views[..|views| - 1])
  }

  // The steps left below an entry that is about to visit child i.
  ghost function Work(t: BT, i: nat): nat
    decreases t, |t.keys| + 1 - i
  {
    if i > |t.keys| then 0
    else 2 + (if i < |t.kids| then Work(t.kids[i], 0) else 0) + Work(t, i + 1)
  }

  ghost function PendingWork(views: seq<View>): nat
    decreases |views|
  {
    if views == [] then 0
    else
      var v := views[|views| - 1];
      1 + Work(v.t, v.i + 1) + PendingWork(views[..|views| - 1])
  }

  // Where a traversal stands.
  ghost predicate Poised(stack: seq<Frame>, below: seq<View>, top: Option<View>, tree: BT, d: nat, h: nat)
    reads Foot(Nodes(tree))
  {
    && stack == Images(below) + [Image(top)] && Reaches(below, top)
    && (forall v :: v in below ==> Within(v, tree, d, h)) && (top.Some? ==> Within(top.value, tree, d, h))
  }

  ghost function Coming(top: Option<View>): seq<int>
    requires top.Some? ==> Arity(top.value.t) && top.value.i <= |top.value.t.keys| + 1
  {
    if top.Some? then From(top.value.t, top.value.i) else []
  }

  ghost function ToCome(below: seq<View>, top: Option<View>): seq<int>
    requires Reaches(below, top)
  {
    Coming(top) + Pending(below)
  }

  ghost function StepsLeft(below: seq<View>, top: Option<View>): nat {
    (if top.Some? then Work(top.value.t, top.value.i) else 0) + PendingWork(below)
  }

  lemma PoisedStart(tree: BT, d: nat, h: nat)
    requires Owned(tree, d, h)
    ensures var v := View(tree, h, 0); Poised([Frame(tree.node, 0)], [], Some(v), tree, d, h)
    ensures var v := View(tree, h, 0); Reaches([], Some(v)) && ToCome([], Some(v)) == InOrder(tree)
  {
    hide InOrder;
    See(tree, d, h);
    FromStart(tree);
  }

  // What the code sees at the top of the stack.
  lemma PoisedSees(stack: seq<Frame>, below: seq<View>, top: Option<View>, tree: BT, d: nat, h: nat)
    requires Poised(stack, below, top, tree, d, h)
    ensures Reaches(below, top) && stack != [] && stack[|stack| - 1] == Image(top) &&
      stack[..|stack| - 1] == Images(below)
    ensures top.Some? ==> top.value.t.node.n == |top.value.t.keys|
  {
    if top.Some? {
      SeeView(top.value, tree, d, h);
    }
  }

  lemma PoisedWithin(stack: seq<Frame>, below: seq<View>, v: View, tree: BT, d: nat, h: nat)
    requires Poised(stack, below, Some(v), tree, d, h)
    ensures Within(v, tree, d, h)
  {
  }

  // Popping an entry that has nothing to come any more.
  lemma Popped(stack: seq<Frame>, below: seq<View>, top: Option<View>, tree: BT, d: nat, h: nat)
    requires Poised(stack, below, top, tree, d, h) && (top.Some? ==> top.value.i > |top.value.t.keys|)
    ensures Reaches(below, top) && stack != [] && stack[..|stack| - 1] == Images(below) && |Images(below)| == |below|
    ensures Pending(below) == ToCome(below, top) && PendingWork(below) == StepsLeft(below, top)
    ensures Busy(below) && (forall v :: v in below ==> Within(v, tree, d, h)) && (below == [] ==> Pending(below) == [])
  {
    hide Within;
    ImagesSize(below);
    if top.Some? {
      AfterLast(top.value.t);
    }
  }

  lemma {:induction false} ImagesSize(views: seq<View>)
    ensures |Images(views)| == |views|
    decreases |views|
  {
    if views != [] {
      ImagesSize(views[..|views| - 1]);
    }
  }

  // The child an entry has come to.
  ghost function Deeper(v: View): Option<View>
    requires v.t.kids == [] || v.i < |v.t.kids|
  {
    if v.t.kids == [] || v.h == 0 then None else Some(View(v.t.kids[v.i], v.h - 1, 0))
  }

  lemma DeeperWithin(v: View, tree: BT, d: nat, h: nat)
    requires Within(v, tree, d, h) && v.i <= |v.t.keys|
    ensures Arity(v.t) && (v.t.kids == [] <==> v.h == 0)
    ensures match Deeper(v)
            case None => v.t.kids == []
            case Some(c) => v.i < |v.t.kids| && c.t == v.t.kids[v.i] && Within(c, tree, d, h) && Arity(c.t) && c.i == 0
  {
    hide Good;
    GoodTree(Snap(Nodes(tree)), v.t, d, v.h);
    if v.t.kids != [] {
      SeeChild(v, tree, d, h);
    }
  }

  // Pushing the child the topmost entry has come to.
  lemma Pushed(stack: seq<Frame>, below: seq<View>, v: View, tree: BT, d: nat, h: nat)
    requires Poised(stack, below, Some(v), tree, d, h) && v.i <= |v.t.keys|
    ensures Arity(v.t) && Reaches(below, Some(v)) && Reaches(below + [v], Deeper(v))
    ensures var c := Deeper(v); Poised(stack + [Image(c)], below + [v], c, tree, d, h)
    ensures ToCome(below + [v], Deeper(v)) == ToCome(below, Some(v))
    ensures StepsLeft(below + [v], Deeper(v)) < StepsLeft(below, Some(v))
  {
    hide Within, InOrder, Coming, From, After, Images, Pending, PendingWork, Work, Busy;
    DeeperWithin(v, tree, d, h);
    PushedViews(below, v);
    PushedComing(v);
    PushedWork(v);
    Regroup3(Coming(Deeper(v)), After(v.t, v.i), Pending(below));
  }

  lemma PushedViews(below: seq<View>, v: View)
    requires Busy(below) && Arity(v.t) && v.i <= |v.t.keys|
    ensures Busy(below + [v]) && Images(below + [v]) == Images(below) + [Image(Some(v))]
    ensures Pending(below + [v]) == After(v.t, v.i) + Pending(below)
    ensures PendingWork(below + [v]) == 1 + Work(v.t, v.i + 1) + PendingWork(below)
  {
    assert (below + [v])[..|below|] == below;
  }

  lemma PushedWork(v: View)
    requires v.i <= |v.t.keys| && (v.t.kids == [] <==> v.h == 0)
    requires v.t.kids != [] ==> v.i < |v.t.kids|
    ensures Work(v.t, v.i) == 2 + (if Deeper(v).Some? then Work(Deeper(v).value.t, 0) else 0) + Work(v.t, v.i + 1)
    ensures Deeper(v).Some? ==> Deeper(v).value.i == 0
  {
  }

  lemma PushedComing(v: View)
    requires Arity(v.t) && v.i <= |v.t.keys| && (v.t.kids == [] <==> v.h == 0)
    requires v.t.kids != [] ==> Arity(v.t.kids[v.i])
    ensures Coming(Deeper(v)) + After(v.t, v.i) == Coming(Some(v))
  {
    if v.t.kids != [] {
      FromStart(v.t.kids[v.i]);
    }
  }

  lemma Regroup3(x: seq<int>, f: seq<int>, p: seq<int>)
    ensures (x + f) + p == x + (f + p)
  {
  }

  // Visiting the key of an entry and moving it on to its next child.
  lemma Advanced(below: seq<View>, tree: BT, d: nat, h: nat) returns (rest: seq<View>, v: View)
    requires Busy(below) && (forall v :: v in below ==> Within(v, tree, d, h)) && below != []
    ensures Images(below) == Images(rest) + [Image(Some(v))] && Within(v, tree, d, h) && v.i <= |v.t.keys|
    ensures var w := Some(View(v.t, v.h, v.i + 1));
      && Poised(Images(rest) + [Image(w)], rest, w, tree, d, h) && Reaches(rest, w)
      && Pending(below) == (if v.i < |v.t.keys| then [v.t.keys[v.i]] else []) + ToCome(rest, w)
      && StepsLeft(rest, w) < PendingWork(below)
  {
    hide Within, InOrder, From, After;
    rest, v := below[..|below| - 1], below[|below| - 1];
    WithinNext(v, tree, d, h);
    AfterKey(v.t, v.i);
    AfterLast(v.t);
    Regroup3(if v.i < |v.t.keys| then [v.t.keys[v.i]] else [], From(v.t, v.i + 1), Pending(rest));
  }

  lemma WithinNext(v: View, tree: BT, d: nat, h: nat)
    requires Within(v, tree, d, h)
    ensures Within(View(v.t, v.h, v.i + 1), tree, d, h)
  {
  }

  lemma AfterLast(t: BT)
    requires Arity(t)
    ensures From(t, |t.keys| + 1) == []
  {
  }

  // ---------- The operations ----------

  lemma NoEnds()
    ensures Final([]) == None && First([]) == None
  {
  }

  // The loop of kb_getp.
  method FindIn(root: KbNode, k: int, ghost tree: BT, ghost t: nat, ghost height: nat) returns (x: KbNode?, i: int)
    requires Owned(tree, t, height) && Sorted(InOrder(tree)) && (height > 0 ==> |tree.keys| > 0) && tree.node == root
    ensures x == null <==> k !in InOrder(tree)
    ensures x != null ==> x in Nodes(tree) && 0 <= i < x.n <= x.keys.Length && x.keys[i] == k
  {
    hide EditFront, EditRest, Owned, Nodes, InOrder, Foot, CellOf, Sorted, Searching, IsFloor, IsCeiling;
    x := root;
    i := -1;
    var r := 0;
    ghost var s, g, h, a, b := InOrder(tree), tree, height, [], [];
    SearchStart(g, k, t, h);
    while x != null
      invariant Nodes(g) <= Nodes(tree)
      invariant if x != null then x == g.node && Searching(s, a, g, b, k, t, h) else k !in s
      decreases h
    {
      i, r := LookIn(x, k, r, s, a, g, b, t, h);
      if i >= 0 && r == 0 {
        assert x.keys[..x.n][i] == x.keys[i];
        return;
      }
      if !x.isInternal {
        return null, i;
      }
      a, b := a + EditFront(g, i + 1), EditRest(g, i + 2) + b;
      x := x.ptrs[i + 1];
      g, h := g.kids[i + 1], h - 1;
    }
  }

  // The loop of kb_intervalp.
  method NearestIn(root: KbNode, k: int, ghost tree: BT, ghost t: nat, ghost height: nat)
    returns (lower: Option<int>, upper: Option<int>)
    requires Owned(tree, t, height) && Sorted(InOrder(tree)) && (height > 0 ==> |tree.keys| > 0) && tree.node == root
    ensures IsFloor(InOrder(tree), k, lower) && IsCeiling(InOrder(tree), k, upper)
  {
    hide EditFront, EditRest, Owned, Nodes, InOrder, Foot, CellOf, Sorted, Searching, IsFloor, IsCeiling, Final, First;
    var x: KbNode? := root;
    var i, r := 0, 0;
    lower, upper := None, None;
    ghost var s, g, h, a, b := InOrder(tree), tree, height, [], [];
    SearchStart(g, k, t, h);
    NoEnds();
    while x != null
      invariant lower == Final(a) && upper == First(b)
      invariant if x != null then x == g.node && Searching(s, a, g, b, k, t, h)
                else IsFloor(s, k, lower) && IsCeiling(s, k, upper)
      decreases h
    {
      i, r := LookIn(x, k, r, s, a, g, b, t, h);
      if i >= 0 && r == 0 {
        FoundBoth(s, k);
        assert x.keys[..x.n][i] == x.keys[i];
        lower := Some(x.keys[i]);
        upper := Some(x.keys[i]);
        return;
      }
      if i >= 0 {
        assert x.keys[..x.n][i] == x.keys[i];
        lower := Some(x.keys[i]);
      }
      if i < x.n - 1 {
        assert x.keys[..x.n][i + 1] == x.keys[i + 1];
        upper := Some(x.keys[i + 1]);
      }
      if !x.isInternal {
        return;
      }
      a, b := a + EditFront(g, i + 1), EditRest(g, i + 2) + b;
      x := x.ptrs[i + 1];
      g, h := g.kids[i + 1], h - 1;
    }
  }

  // The inner loop of __kb_traverse: down to the leftmost unvisited leaf, and off it.
  method Dive(stack: seq<Frame>, ghost below: seq<View>, ghost top: Option<View>, ghost tree: BT, ghost t: nat,
              ghost height: nat)
    returns (stack': seq<Frame>, ghost below': seq<View>, ghost top': Option<View>)
    requires Poised(stack, below, top, tree, t, height)
    ensures Poised(stack', below', top', tree, t, height)
    ensures Reaches(below, top) && Reaches(below', top') && ToCome(below', top') == ToCome(below, top)
    ensures StepsLeft(below', top') <= StepsLeft(below, top)
    ensures top'.Some? ==> top'.value.i > |top'.value.t.keys|
  {
    hide Owned, Nodes, InOrder, Foot, CellOf, Sorted, Poised, ToCome, StepsLeft, Within, Reaches;
    stack', below', top' := stack, below, top;
    PoisedSees(stack, below, top, tree, t, height);
    while stack'[|stack'| - 1].x != null && stack'[|stack'| - 1].i <= stack'[|stack'| - 1].x.n
      invariant Poised(stack', below', top', tree, t, height) && stack' != []
      invariant stack'[|stack'| - 1] == Image(top')
      invariant top'.Some? ==> top'.value.t.node.n == |top'.value.t.keys|
      invariant Reaches(below', top') && ToCome(below', top') == ToCome(below, top)
      invariant StepsLeft(below', top') <= StepsLeft(below, top)
      decreases StepsLeft(below', top')
    {
      ghost var v := top'.value;
      PoisedWithin(stack', below', v, tree, t, height);
      SeeView(v, tree, t, height);
      DeeperWithin(v, tree, t, height);
      Pushed(stack', below', v, tree, t, height);
      var kp := stack'[|stack'| - 1];
      stack' := stack' + [Frame(if kp.x.isInternal then kp.x.ptrs[kp.i] else null, 0)];
      below', top' := below' + [v], Deeper(v);
      PoisedSees(stack', below', top', tree, t, height);
    }
  }

  // The outer loop of __kb_traverse.
  method VisitAll(root: KbNode, ghost tree: BT, ghost t: nat, ghost height: nat) returns (visited: seq<int>)
    requires Owned(tree, t, height) && tree.node == root
    ensures visited == InOrder(tree)
  {
    hide Owned, Nodes, InOrder, Foot, CellOf, Sorted, Poised, ToCome, StepsLeft, Within, Reaches, Pending,
         PendingWork, Images, Busy;
    var stack: seq<Frame> := [Frame(root, 0)];
    visited := [];
    ghost var below, top := [], Some(View(tree, height, 0));
    PoisedStart(tree, t, height);
    while true
      invariant Poised(stack, below, top, tree, t, height)
      invariant Reaches(below, top) && visited + ToCome(below, top) == InOrder(tree)
      decreases StepsLeft(below, top)
    {
      stack, below, top := Dive(stack, below, top, tree, t, height);
      ghost var seen := visited;
      Popped(stack, below, top, tree, t, height);
      stack := stack[..|stack| - 1];
      if stack == [] {
        return;
      }
      ghost var v;
      below, v := Advanced(below, tree, t, height);
      SeeView(v, tree, t, height);
      top := Some(View(v.t, v.h, v.i + 1));
      var kp := stack[|stack| - 1];
      if kp.x != null && kp.i < kp.x.n {
        assert kp.x.keys[..kp.x.n][kp.i] == v.t.keys[v.i];
        visited := visited + [kp.x.keys[kp.i]];
      }
      Regroup3(seen, if v.i < |v.t.keys| then [v.t.keys[v.i]] else [], ToCome(below, top));
      assert stack == Images(below) + [Image(Some(v))];
      stack := stack[|stack| - 1 := Frame(kp.x, kp.i + 1)];
      assert stack == Images(below) + [Image(top)];
    }
  }
}
