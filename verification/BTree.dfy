/**
 kbtree: search, insertion with pre-emptive splits, deletion with borrowing and merging, and traversal.
 */
module BTree {
  import opened Options
  import opened BTreeTheory
  import opened BTreeHeap
  import opened BTreeInsert
  import opened BTreeDelete
  import opened BTreeResults
  import opened BTreeRead

  class KbTree {
    const t: nat
    var root: KbNode
    var nKeys: nat
    ghost var tree: BT
    ghost var height: nat

    ghost predicate Valid()
      reads this, Foot(Nodes(tree))
    {
      && this !in Foot(Nodes(tree)) && tree.node == root && Owned(tree, t, height) && (height > 0 ==> |tree.keys| > 0)
      && nKeys == |InOrder(tree)| && Sorted(InOrder(tree))
    }

    // kb_init with a node size that makes the minimum degree at least 2.
    constructor (degree: nat)
      requires degree >= 2
      ensures Valid() && t == degree && InOrder(tree) == [] && fresh(Foot(Nodes(tree)))
    {
      t, nKeys, height := degree, 0, 0;
      var r := new KbNode(degree, false);
      root, tree := r, BT(r, [], []);
      new;
      assert Nodes(tree) == {r};
      FootOne(r);
      assert this !in Foot(Nodes(tree));
      assert Linked(Snap(Nodes(tree)), tree);
      assert Good(tree, t, 0) && Apart(tree);
      assert Separate(Nodes(tree), t);
    }

    // kb_putp
    method Put(k: int) returns (ghost p: nat)
      requires Valid()
      modifies this, Foot(Nodes(tree))
      ensures Valid() && Inserted(old(InOrder(tree)), InOrder(tree), k, p)
      ensures fresh(Foot(Nodes(tree) - old(Nodes(tree))))
      ensures Puts(old(tree), tree, k, t, old(height))
    {
      hide Owned, Nodes, InOrder, Inserted, Foot, Sorted, PutsInto, Puts, CanSplit, Halved;
      var r := root;
      ghost var g, h, z := tree, height, root;
      FootAllocated(Nodes(g));
      nKeys := nKeys + 1;
      See(g, t, h);
      if r.n == 2 * t - 1 {
        r, g, z := SplitRoot(r, t, g, h);
        root, h := r, h + 1;
      }
      FootSplits(Nodes(tree), Nodes(g), Nodes(g));
      ghost var u, q := PutAux(r, k, t, g, h);
      FootSplits(Nodes(tree), Nodes(g), Nodes(u));
      FootSplits(Nodes(tree), Nodes(u), Nodes(u));
      InsertedSize(InOrder(g), InOrder(u), k, q);
      if h > height {
        PutsTop(tree, u, k, t, height, z);
      } else {
        PutsThrough(tree, u, k, t, height);
      }
      p, tree, height := q, u, h;
    }

    // kb_delp: the key must be present.
    method Delp(k: int) returns (ret: int, ghost p: nat)
      requires Valid() && k in InOrder(tree)
      modifies this, Foot(Nodes(tree))
      ensures Valid() && Nodes(tree) <= old(Nodes(tree))
      ensures Removed(old(InOrder(tree)), InOrder(tree), p) && ret == k == old(InOrder(tree))[p]
      ensures tree == WithoutEmptyRoot(DeletedFrom(old(tree), 0, k, t, old(height)).0)
    {
      hide Owned, Nodes, InOrder, Foot, CellOf, Sorted, Removed, DeletedFrom;
      ghost var g, h := tree, height;
      FootAllocated(Nodes(g));
      See(g, t, h);
      LeafKeys(g, h, k);
      ghost var u, q;
      ret, u, q := DelAux(root, k, 0, t, g, h);
      RemovedSorted(InOrder(g), InOrder(u), q);
      FootMono(Nodes(u), Nodes(g));
      nKeys := nKeys - 1;
      See(u, t, h);
      if root.n == 0 && root.isInternal {
        SeeKid(u, t, h, 0);
        OnlyKid(u);
        FootMono(Nodes(u.kids[0]), Nodes(g));
        root := root.ptrs[0];
        u, h := u.kids[0], h - 1;
      }
      p, tree, height := q, u, h;
    }

    // kb_getp: the node and place of a key equal to k, or null.
    method Getp(k: int) returns (x: KbNode?, i: int)
      requires Valid()
      ensures x == null <==> k !in InOrder(tree)
      ensures x != null ==> x in Nodes(tree) && 0 <= i < x.n <= x.keys.Length && x.keys[i] == k
    {
      x, i := FindIn(root, k, tree, t, height);
    }

    // kb_intervalp: the nearest keys on either side of k, or k twice.
    method Intervalp(k: int) returns (lower: Option<int>, upper: Option<int>)
      requires Valid()
      ensures IsFloor(InOrder(tree), k, lower) && IsCeiling(InOrder(tree), k, upper)
    {
      lower, upper := NearestIn(root, k, tree, t, height);
    }

    // __kb_traverse: the keys handed to the callback, in that order.
    method Traverse() returns (visited: seq<int>)
      requires Valid()
      ensures visited == InOrder(tree)
    {
      visited := VisitAll(root, tree, t, height);
    }
  }

  lemma LeafKeys(t: BT, h: nat, k: int)
    requires k in InOrder(t) && (t.kids == [] <==> h == 0)
    ensures h == 0 ==> |t.keys| > 0
  {
  }

  lemma RemovedSorted(s: seq<int>, s': seq<int>, p: nat)
    requires Removed(s, s', p) && Sorted(s)
    ensures Sorted(s') && |s'| == |s| - 1
  {
  }

  // A root that has lost its last key.
  lemma OnlyKid(t: BT)
    requires |t.kids| == 1 && t.keys == []
    ensures InOrder(t) == InOrder(t.kids[0])
  {
  }

  lemma InsertedSize(s: seq<int>, s': seq<int>, k: int, p: nat)
    requires Inserted(s, s', k, p)
    ensures |s'| == |s| + 1
  {
  }
}
