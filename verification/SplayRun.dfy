/**
 Runs of find, insert and remove on one splay tree: what they answer, and the Balance Theorem on what they cost.
 */
module SplayRuns {
  import opened Sequences
  import opened Splay
  import opened SplayCost
  import opened SplayTheory

  datatype Op = Find(elm: SpNode) | Insert(elm: SpNode) | Remove(elm: SpNode)

  function Keys(t: Tree): set<int> { set x | x in Nodes(t) :: x.key }

  // The operations on a plain set of keys.
  function After(op: Op, keys: set<int>): set<int> {
    match op
    case Find(_) => keys
    case Insert(e) => keys + {e.key}
    case Remove(e) => keys - {e.key}
  }

  function Final(ops: seq<Op>, keys: set<int>): set<int> {
    if ops == [] then keys else After(ops[|ops| - 1], Final(ops[..|ops| - 1], keys))
  }

  // Each operation is told whether its key is there at that moment.
  ghost predicate Answers(ops: seq<Op>, keys: set<int>, found: seq<bool>) {
    |found| == |ops| && forall i :: 0 <= i < |ops| ==> (found[i] <==> ops[i].elm.key in Final(ops[..i], keys))
  }

  function Inserts(ops: seq<Op>): nat {
    if ops == [] then 0 else Inserts(ops[..|ops| - 1]) + if ops[|ops| - 1].Insert? then 1 else 0
  }

  lemma {:induction false} InsertsMonotone(ops: seq<Op>, i: nat)
    requires i <= |ops|
    ensures Inserts(ops[..i]) <= Inserts(ops)
    decreases |ops|
  {
    if i < |ops| {
      assert ops[..|ops| - 1][..i] == ops[..i];
      InsertsMonotone(ops[..|ops| - 1], i);
    } else {
      assert ops[..i] == ops;
    }
  }

  lemma KeysAdded(t: Tree, t': Tree, x: SpNode)
    requires Added(InOrder(t), InOrder(t'), x)
    ensures Keys(t') == Keys(t) + {x.key} && |InOrder(t')| == |InOrder(t)| + 1
  {
    forall y: SpNode ensures y in Nodes(t') <==> y in Nodes(t) || y == x {
      InOrderNodes(t, y);
      InOrderNodes(t', y);
      AddedIn(InOrder(t), InOrder(t'), x, y);
    }
    KeysWith(Nodes(t), Nodes(t'), x);
  }

  lemma KeysDropped(t: Tree, t': Tree, k: int)
    requires Ordered(InOrder(t))
    requires exists x :: x in Nodes(t) && x.key == k && Dropped(InOrder(t), InOrder(t'), x)
    ensures Keys(t') == Keys(t) - {k} && |InOrder(t')| < |InOrder(t)|
  {
    var x :| x in Nodes(t) && x.key == k && Dropped(InOrder(t), InOrder(t'), x);
    forall y: SpNode ensures y in Nodes(t') <==> y in Nodes(t) && y.key != k {
      InOrderNodes(t, y);
      InOrderNodes(t', y);
      DroppedIn(InOrder(t), InOrder(t'), x, y);
    }
    KeysWithout(Nodes(t), Nodes(t'), k);
  }

  lemma KeysWith(s: set<SpNode>, s': set<SpNode>, x: SpNode)
    requires forall y :: y in s' <==> y in s || y == x
    ensures (set y | y in s' :: y.key) == (set y | y in s :: y.key) + {x.key}
  {
    var a, b := set y | y in s' :: y.key, set y | y in s :: y.key;
    assert x in s';
    forall j | j in b ensures j in a {
      var y :| y in s && y.key == j;
      assert y in s';
    }
  }

  lemma KeysWithout(s: set<SpNode>, s': set<SpNode>, k: int)
    requires forall y :: y in s' <==> y in s && y.key != k
    ensures (set x | x in s' :: x.key) == (set x | x in s :: x.key) - {k}
  {
    var a, b := set x | x in s' :: x.key, set x | x in s :: x.key;
    forall j | j in b && j != k ensures j in a {
      var y :| y in s && y.key == j;
      assert y in s';
    }
  }

  lemma AddedIn(s: seq<SpNode>, s': seq<SpNode>, x: SpNode, y: SpNode)
    requires Added(s, s', x)
    ensures y in s' <==> y in s || y == x
  {
    var i :| 0 <= i <= |s| && s' == s[..i] + [x] + s[i..];
    assert s == s[..i] + s[i..];
  }

  lemma DroppedIn(s: seq<SpNode>, s': seq<SpNode>, x: SpNode, y: SpNode)
    requires Ordered(s) && Dropped(s, s', x)
    ensures y in s' <==> y in s && y.key != x.key
  {
    hide Ordered;
    var i :| 0 <= i < |s| && s[i] == x && s' == s[..i] + s[i + 1..];
    if y in s' {
      var j :| 0 <= j < |s'| && s'[j] == y;
      KeysApart(s, i, if j < i then j else j + 1);
    }
  }

  lemma KeysApart(s: seq<SpNode>, i: nat, j: nat)
    requires Ordered(s) && i < |s| && j < |s| && i != j
    ensures s[i].key != s[j].key
  {
  }

  // One operation, as the loop of a run sees it.
  method Step(head: SplayHead, op: Op) returns (found: bool)
    requires head.Good()
    modifies head, Nodes(head.tree), op.elm
    ensures head.Good() && Nodes(head.tree) <= old(Nodes(head.tree)) + {op.elm}
    ensures found <==> op.elm.key in old(Keys(head.tree))
    ensures Keys(head.tree) == After(op, old(Keys(head.tree)))
    ensures |InOrder(head.tree)| <= |old(InOrder(head.tree))| + if op.Insert? then 1 else 0
    ensures Descent(old(head.tree), op.elm.key) <= 2 * (head.turns - old(head.turns)) + 1
    ensures Paid(old(head.turns), old(head.tree), head.turns, head.tree,
                 Price(|old(InOrder(head.tree))| + if op.Insert? then 1 else 0))
  {
    hide Ordered, Added, Dropped, Paid, Price, InOrder, Nodes;
    ghost var t := head.tree;
    if t.Node? {
      TurnsDescend(t, op.elm.key);
    }
    match op
    case Find(e) =>
      var x := head.Find(e);
      found := x != null;
    case Insert(e) =>
      var x := head.Insert(e);
      found := x != null;
      if x == null {
        KeysAdded(t, head.tree, e);
      }
      PriceMonotone(|InOrder(head.tree)|, |InOrder(t)| + 1);
      PaidMore(old(head.turns), t, head.turns, head.tree, Price(|InOrder(head.tree)|), Price(|InOrder(t)| + 1));
    case Remove(e) =>
      var x := head.Remove(e);
      found := x != null;
      if found {
        KeysDropped(t, head.tree, e.key);
      }
  }

  function Elms(ops: seq<Op>): set<SpNode> { set op | op in ops :: op.elm }

  // The Balance Theorem: m operations with n insertions take O((m + n) lg n) turns on an initially empty tree, and
  // from a tree of n0 nodes no more than n0 lg (n0 + 1) twice over on top of that, which its shape may hide.
  method Run(head: SplayHead, ops: seq<Op>) returns (found: seq<bool>)
    requires head.Good()
    modifies head, Nodes(head.tree), Elms(ops)
    ensures head.Good() && Keys(head.tree) == Final(ops, old(Keys(head.tree)))
    ensures Answers(ops, old(Keys(head.tree)), found)
    ensures var n := |old(InOrder(head.tree))|;
      head.turns - old(head.turns) <= |ops| * Price(n + Inserts(ops)) + 2 * (n * Lg(n + 1))
  {
    hide Ordered, Paid, Price, InOrder, Nodes, Lg, Keys, Answers;
    ghost var t, keys, n, total := head.tree, Keys(head.tree), |InOrder(head.tree)|, Inserts(ops);
    ghost var n0, price := head.turns, Price(n + total);
    StartPaid(n0, t, price);
    NoAnswers(keys);
    found := [];
    for i := 0 to |ops|
      invariant head.Good() && Nodes(head.tree) <= old(Nodes(head.tree)) + Elms(ops)
      invariant Keys(head.tree) == Final(ops[..i], keys) && Answers(ops[..i], keys, found)
      invariant |InOrder(head.tree)| <= n + Inserts(ops[..i])
      invariant Paid(n0, t, head.turns, head.tree, i * price)
    {
      ghost var t1, n1, size := head.tree, head.turns, |InOrder(head.tree)| + if ops[i].Insert? then 1 else 0;
      assert ops[..i + 1][..i] == ops[..i];
      InsertsMonotone(ops, i + 1);
      PriceMonotone(size, n + total);
      var ok := Step(head, ops[i]);
      NextPaid(n0, t, n1, t1, head.turns, head.tree, i, Price(size), price);
      AnswersMore(ops, i, keys, found, ok);
      found := found + [ok];
    }
    assert ops[..|ops|] == ops;
    Settled(n0, t, head.turns, head.tree, |ops| * price);
  }

  lemma NoAnswers(keys: set<int>)
    ensures Answers([], keys, [])
  {
  }

  lemma AnswersMore(ops: seq<Op>, i: nat, keys: set<int>, found: seq<bool>, ok: bool)
    requires i < |ops| && Answers(ops[..i], keys, found) && (ok <==> ops[i].elm.key in Final(ops[..i], keys))
    ensures Answers(ops[..i + 1], keys, found + [ok])
  {
    forall j | 0 <= j <= i ensures (found + [ok])[j] <==> ops[..i + 1][j].elm.key in Final(ops[..i + 1][..j], keys) {
      assert ops[..i + 1][..j] == ops[..j];
      if j < i {
        assert ops[..i][..j] == ops[..j];
      }
    }
  }
}
