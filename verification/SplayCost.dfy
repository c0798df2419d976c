/**
 The cost of splaying, on trees alone: which tree the loop of _SPLAY makes and how many turns it takes for that,
 and the amortised bound on the turns with Sleator and Tarjan's potential over rounded-down logarithms.
 */
module SplayCost {
  import opened SplayTheory

  // ---------- Splaying as a function ----------

  // The tree that stands in the end when s is what the rest of the splay makes of u's left (right) subtree.
  function OverLeft(s: Tree, u: Tree): Tree
    requires s.Node? && u.Node?
  {
    Node(s.left, s.elm, Node(s.right, u.elm, u.right))
  }

  function OverRight(s: Tree, u: Tree): Tree
    requires s.Node? && u.Node?
  {
    Node(Node(u.left, u.elm, s.left), s.elm, s.right)
  }

  // The root is rotated away if the key lies beyond its child as well.
  function TurnedRight(t: Tree, k: int): (u: Tree)
    requires t.Node? && t.left.Node?
    ensures u.Node? && Size(u) == Size(t) && Size(u.left) < Size(t)
  {
    if k < t.left.elm.key then RotRight(t) else t
  }

  function TurnedLeft(t: Tree, k: int): (u: Tree)
    requires t.Node? && t.right.Node?
    ensures u.Node? && Size(u) == Size(t) && Size(u.right) < Size(t)
  {
    if t.right.elm.key < k then RotLeft(t) else t
  }

  function Splayed(t: Tree, k: int): (s: Tree)
    requires t.Node?
    ensures s.Node? && Size(s) == Size(t)
    decreases Size(t)
  {
    if k < t.elm.key && t.left.Node? then
      var u := TurnedRight(t, k);
      if u.left.Leaf? then u else OverLeft(Splayed(u.left, k), u)
    else if t.elm.key < k && t.right.Node? then
      var u := TurnedLeft(t, k);
      if u.right.Leaf? then u else OverRight(Splayed(u.right, k), u)
    else t
  }

  // How often the loop body runs.
  function Turns(t: Tree, k: int): nat
    requires t.Node?
    decreases Size(t)
  {
    if k == t.elm.key then 0
    else if k < t.elm.key && t.left.Node? then
      var u := TurnedRight(t, k);
      if u.left.Leaf? then 1 else 1 + Turns(u.left, k)
    else if t.elm.key < k && t.right.Node? then
      var u := TurnedLeft(t, k);
      if u.right.Leaf? then 1 else 1 + Turns(u.right, k)
    else 1
  }

  // How many nodes a search for k looks at.
  function Descent(t: Tree, k: int): nat {
    if t.Leaf? then 0 else if k == t.elm.key then 1 else 1 + Descent(if k < t.elm.key then t.left else t.right, k)
  }

  // Each turn goes past one node of the search path or past two.
  lemma {:induction false} TurnsDescend(t: Tree, k: int)
    requires t.Node?
    ensures Turns(t, k) <= Descent(t, k) <= 2 * Turns(t, k) + 1
    decreases Size(t)
  {
    if k < t.elm.key && t.left.Node? {
      var u := TurnedRight(t, k);
      assert Descent(t, k) == 1 + Descent(t.left, k);
      if u.left.Node? {
        TurnsDescend(u.left, k);
      }
    } else if t.elm.key < k && t.right.Node? {
      var u := TurnedLeft(t, k);
      assert Descent(t, k) == 1 + Descent(t.right, k);
      if u.right.Node? {
        TurnsDescend(u.right, k);
      }
    }
  }

  // ---------- What the operations make of a tree ----------

  function AfterSplay(t: Tree, k: int): Tree { if t.Leaf? then t else Splayed(t, k) }

  function TurnsOf(t: Tree, k: int): nat { if t.Leaf? then 0 else Turns(t, k) }

  // The new node on top, with the old root on the side of its key.
  function OnTop(t: Tree, e: SpNode): Tree {
    if t.Leaf? then Node(Leaf, e, Leaf) else if e.key < t.elm.key then BelowRoot(t, e) else AboveRoot(t, e)
  }

  // The root gone, and the left subtree, splayed for k, on top of the right one.
  function WithoutTop(t: Tree, k: int): Tree
    requires t.Node?
  {
    if t.left.Leaf? then t.right else var a := Splayed(t.left, k); Node(a.left, a.elm, t.right)
  }

  // ---------- Logarithms and the potential ----------

  // The logarithm to base two, rounded down.
  function Lg(n: nat): nat
    requires n > 0
  {
    if n == 1 then 0 else 1 + Lg(n / 2)
  }

  lemma {:induction false} LgMonotone(m: nat, n: nat)
    requires 0 < m <= n
    ensures Lg(m) <= Lg(n)
  {
    if m > 1 {
      LgMonotone(m / 2, n / 2);
    }
  }

  // The parts of a whole cannot both have its rounded logarithm.
  lemma LgParts(a: nat, b: nat, c: nat)
    requires a > 0 && b > 0 && a + b <= c
    ensures Lg(a) + Lg(b) < 2 * Lg(c)
  {
    LgMonotone(a, c);
    LgMonotone(b, c);
    if a <= b {
      LgMonotone(a, c / 2);
    } else {
      LgMonotone(b, c / 2);
    }
  }

  function Rank(t: Tree): nat { Lg(Size(t) + 1) }

  function Potential(t: Tree): nat {
    if t.Leaf? then 0 else 2 * Rank(t) + Potential(t.left) + Potential(t.right)
  }

  lemma RankMonotone(t: Tree, t': Tree)
    requires Size(t) <= Size(t')
    ensures Rank(t) <= Rank(t')
  {
    hide Size, Lg;
    LgMonotone(Size(t) + 1, Size(t') + 1);
  }

  lemma RankParts(t: Tree, t': Tree, whole: Tree)
    requires Size(t) + Size(t') < Size(whole)
    ensures Rank(t) + Rank(t') < 2 * Rank(whole)
  {
    hide Size, Lg;
    LgParts(Size(t) + 1, Size(t') + 1, Size(whole) + 1);
  }

  // ---------- The amortised bound ----------

  // n turns that make s of t are paid for by 6 lg (|t| + 1) + 2 and what the potential falls by.
  ghost predicate Cheap(n: nat, t: Tree, s: Tree) {
    n + Potential(s) <= Potential(t) + 6 * Rank(t) + 2
  }

  lemma Unfold(l: Tree, x: SpNode, r: Tree)
    ensures Size(Node(l, x, r)) == Size(l) + 1 + Size(r)
    ensures Potential(Node(l, x, r)) == 2 * Rank(Node(l, x, r)) + Potential(l) + Potential(r)
  {
  }

  // Two turns at most, which change the root with its child.
  lemma LastTurn(a: Tree, y: SpNode, b: Tree, z: SpNode, c: Tree)
    ensures Cheap(2, Node(Node(a, y, b), z, c), Node(a, y, Node(b, z, c)))
  {
    hide Size, Potential, Rank;
    var t, low, high, t' := Node(Node(a, y, b), z, c), Node(a, y, b), Node(b, z, c), Node(a, y, Node(b, z, c));
    Unfold(a, y, b);
    Unfold(low, z, c);
    Unfold(b, z, c);
    Unfold(a, y, high);
    RankMonotone(t', t);
    RankMonotone(high, t);
  }

  // The tree of a double turn: a and b stay below y and w on one side, e and c go below z on the other.
  lemma LastTurns(a: Tree, y: SpNode, b: Tree, w: SpNode, e: Tree, z: SpNode, c: Tree)
    ensures Cheap(2, Node(Node(a, y, Node(b, w, e)), z, c), Node(Node(a, y, b), w, Node(e, z, c)))
  {
    hide Size, Potential, Rank;
    var inner, high := Node(b, w, e), Node(e, z, c);
    var low, low' := Node(a, y, inner), Node(a, y, b);
    var t, t' := Node(low, z, c), Node(low', w, high);
    Unfold(b, w, e);
    Unfold(a, y, inner);
    Unfold(low, z, c);
    Unfold(a, y, b);
    Unfold(e, z, c);
    Unfold(low', w, high);
    RankMonotone(t', t);
    RankMonotone(low', low);
    RankMonotone(high, t);
  }

  // A turn that rotates and links, on the way to a.
  lemma ZigZig(n: nat, a: Tree, y: SpNode, b: Tree, z: SpNode, c: Tree, s: Tree)
    requires s.Node? && Size(s) == Size(a) && Cheap(n, a, s)
    ensures Cheap(n + 1, Node(Node(a, y, b), z, c), Node(s.left, s.elm, Node(s.right, y, Node(b, z, c))))
  {
    hide Size, Potential, Rank;
    var low, top := Node(a, y, b), Node(b, z, c);
    var high := Node(s.right, y, top);
    var t, t' := Node(low, z, c), Node(s.left, s.elm, high);
    Unfold(a, y, b);
    Unfold(low, z, c);
    Unfold(b, z, c);
    Unfold(s.right, y, top);
    Unfold(s.left, s.elm, high);
    Unfold(s.left, s.elm, s.right);
    RankMonotone(t', t);
    RankMonotone(high, t);
    RankMonotone(a, low);
    RankMonotone(a, t);
    RankMonotone(a, s);
    RankMonotone(s, a);
    RankParts(a, top, t);
  }

  // Two turns that link to one side and then to the other, on the way to w.
  lemma ZigZag(n: nat, a: Tree, y: SpNode, w: Tree, z: SpNode, c: Tree, s: Tree)
    requires s.Node? && Size(s) == Size(w) && Cheap(n, w, s)
    ensures Cheap(n + 2, Node(Node(a, y, w), z, c), Node(Node(a, y, s.left), s.elm, Node(s.right, z, c)))
  {
    hide Size, Potential, Rank;
    var low, low', high := Node(a, y, w), Node(a, y, s.left), Node(s.right, z, c);
    var t, t' := Node(low, z, c), Node(low', s.elm, high);
    Unfold(a, y, w);
    Unfold(low, z, c);
    Unfold(a, y, s.left);
    Unfold(s.right, z, c);
    Unfold(low', s.elm, high);
    Unfold(s.left, s.elm, s.right);
    RankMonotone(t', t);
    RankMonotone(w, low);
    RankMonotone(w, t);
    RankMonotone(w, s);
    RankMonotone(s, w);
    RankParts(low', high, t);
  }

  // The same with a rotation in the second turn, on the way to d.
  lemma ZigZagZag(n: nat, a: Tree, y: SpNode, b: Tree, w: SpNode, d: Tree, z: SpNode, c: Tree, s: Tree)
    requires s.Node? && Size(s) == Size(d) && Cheap(n, d, s)
    ensures Cheap(n + 2, Node(Node(a, y, Node(b, w, d)), z, c),
                  Node(Node(Node(a, y, b), w, s.left), s.elm, Node(s.right, z, c)))
  {
    hide Size, Potential, Rank;
    var inner, rest, high := Node(b, w, d), Node(a, y, b), Node(s.right, z, c);
    var low, low' := Node(a, y, inner), Node(rest, w, s.left);
    var t, t' := Node(low, z, c), Node(low', s.elm, high);
    Unfold(b, w, d);
    Unfold(a, y, inner);
    Unfold(low, z, c);
    Unfold(a, y, b);
    Unfold(rest, w, s.left);
    Unfold(s.right, z, c);
    Unfold(low', s.elm, high);
    Unfold(s.left, s.elm, s.right);
    RankMonotone(t', t);
    RankMonotone(rest, low);
    RankMonotone(d, inner);
    RankMonotone(d, t);
    RankMonotone(d, s);
    RankMonotone(s, d);
    RankParts(low', high, t);
  }

  // ---------- Left and right ----------

  function Mirrored(t: Tree): (m: Tree)
    ensures Size(m) == Size(t) && Potential(m) == Potential(t)
  {
    if t.Leaf? then Leaf else Node(Mirrored(t.right), t.elm, Mirrored(t.left))
  }

  lemma CheapMirrored(n: nat, t: Tree, s: Tree)
    ensures Cheap(n, Mirrored(t), Mirrored(s)) <==> Cheap(n, t, s)
  {
  }

  // ---------- Every splay ----------

  // Sleator and Tarjan's access lemma for _SPLAY: the turns and the change of potential together are logarithmic.
  lemma {:induction false} Access(t: Tree, k: int)
    requires t.Node?
    ensures Cheap(Turns(t, k), t, Splayed(t, k))
    decreases t
  {
    if k < t.elm.key && t.left.Node? {
      AccessLeft(t, k);
    } else if t.elm.key < k && t.right.Node? {
      AccessRight(t, k);
    }
  }

  lemma {:induction false} AccessLeft(t: Tree, k: int)
    requires t.Node? && k < t.elm.key && t.left.Node?
    ensures Cheap(Turns(t, k), t, Splayed(t, k))
    decreases t, 0
  {
    hide Potential, Rank, Cheap;
    var z, c := t.elm, t.right;
    var y, a, b := t.left.elm, t.left.left, t.left.right;
    Fewer(2, t, RotRight(t));
    LastTurn(a, y, b, z, c);
    if k < y.key {
      if a.Node? {
        Access(a, k);
        ZigZig(Turns(a, k), a, y, b, z, c, Splayed(a, k));
      }
    } else if k > y.key && b.Node? {
      var d := b.right;
      if b.elm.key < k {
        if d.Node? {
          Access(d, k);
          ZigZagZag(Turns(d, k), a, y, b.left, b.elm, d, z, c, Splayed(d, k));
        } else {
          LastTurns(a, y, b.left, b.elm, d, z, c);
        }
      } else {
        Access(b, k);
        ZigZag(Turns(b, k), a, y, b, z, c, Splayed(b, k));
      }
    }
  }

  lemma {:induction false} AccessRight(t: Tree, k: int)
    requires t.Node? && t.elm.key < k && t.right.Node?
    ensures Cheap(Turns(t, k), t, Splayed(t, k))
    decreases t, 0
  {
    hide Potential, Rank, Cheap;
    var z, c := t.elm, t.left;
    var y, a, b := t.right.elm, t.right.right, t.right.left;
    assert Mirrored(t) == Node(Node(Mirrored(a), y, Mirrored(b)), z, Mirrored(c));
    CheapMirrored(Turns(t, k), t, Splayed(t, k));
    LastTurn(Mirrored(a), y, Mirrored(b), z, Mirrored(c));
    Fewer(2, Mirrored(t), Node(Mirrored(a), y, Mirrored(Node(c, z, b))));
    if k > y.key {
      if a.Node? {
        Access(a, k);
        CheapMirrored(Turns(a, k), a, Splayed(a, k));
        ZigZig(Turns(a, k), Mirrored(a), y, Mirrored(b), z, Mirrored(c), Mirrored(Splayed(a, k)));
      }
    } else if k < y.key && b.Node? {
      var d := b.left;
      assert Mirrored(Node(b.right, y, a)) == Node(Mirrored(a), y, Mirrored(b.right));
      if k < b.elm.key {
        if d.Node? {
          var s := Splayed(d, k);
          assert Splayed(t, k) == Node(Node(c, z, s.left), s.elm, Node(s.right, b.elm, Node(b.right, y, a)));
          Access(d, k);
          CheapMirrored(Turns(d, k), d, s);
          ZigZagZag(Turns(d, k), Mirrored(a), y, Mirrored(b.right), b.elm, Mirrored(d), z, Mirrored(c), Mirrored(s));
        } else {
          assert Splayed(t, k) == Node(Node(c, z, d), b.elm, Node(b.right, y, a));
          LastTurns(Mirrored(a), y, Mirrored(b.right), b.elm, Mirrored(d), z, Mirrored(c));
        }
      } else {
        Access(b, k);
        CheapMirrored(Turns(b, k), b, Splayed(b, k));
        ZigZag(Turns(b, k), Mirrored(a), y, Mirrored(b), z, Mirrored(c), Mirrored(Splayed(b, k)));
      }
    }
  }

  lemma Fewer(n: nat, t: Tree, s: Tree)
    ensures Cheap(n, t, s) ==> forall m: nat :: m <= n ==> Cheap(m, t, s)
  {
  }

  // ---------- The loop follows the function ----------

  // A turn from w to w' leads to the same end with one turn less to go; it is the last if done.
  ghost predicate Follows(w: Torn, w': Torn, k: int, done: bool) {
    && w.t.Node? && w'.t.Node?
    && Assembled(w'.(t := Splayed(w'.t, k))) == Assembled(w.(t := Splayed(w.t, k)))
    && Turns(w.t, k) == 1 + (if done then 0 else Turns(w'.t, k))
    && (done ==> Splayed(w'.t, k) == w'.t)
  }

  lemma AssembledWhole(t: Tree)
    requires t.Node?
    ensures Assembled(Torn(Nil, t, Nil)) == t
  {
  }

  lemma FoundAtOnce(t: Tree, k: int)
    requires t.Node?
    ensures t.elm.key == k ==> Splayed(t, k) == t && Turns(t, k) == 0
  {
  }

  lemma TurnLeft(w: Torn, k: int)
    requires w.t.Node? && k < w.t.elm.key
    ensures w.t.left.Leaf? ==> Follows(w, w, k, true)
    ensures w.t.left.Node? ==> var w' := w.(t := TurnedRight(w.t, k));
      if w'.t.left.Leaf? then Follows(w, w', k, true) else Follows(w, LinkedOverLeft(w'), k, false)
  {
  }

  lemma TurnRight(w: Torn, k: int)
    requires w.t.Node? && k > w.t.elm.key
    ensures w.t.right.Leaf? ==> Follows(w, w, k, true)
    ensures w.t.right.Node? ==> var w' := w.(t := TurnedLeft(w.t, k));
      if w'.t.right.Leaf? then Follows(w, w', k, true) else Follows(w, LinkedOverRight(w'), k, false)
  {
  }

  // ---------- What the operations pay ----------

  // From t with n turns behind it to t' with n': the turns come out of the potential and the price.
  ghost predicate Paid(n: nat, t: Tree, n': nat, t': Tree, price: int) {
    n' + Potential(t') <= n + Potential(t) + price
  }

  // For an operation on a tree of n nodes at most.
  function Price(n: nat): nat { 12 * Lg(n + 1) + 4 }

  lemma PriceMonotone(m: nat, n: nat)
    requires m <= n
    ensures Price(m) <= Price(n)
  {
    LgMonotone(m + 1, n + 1);
  }

  lemma {:induction false} SizeInOrder(t: Tree)
    ensures Size(t) == |InOrder(t)|
  {
    if t.Node? {
      SizeInOrder(t.left);
      SizeInOrder(t.right);
    }
  }

  lemma PriceOf(t: Tree)
    ensures Price(|InOrder(t)|) == 12 * Rank(t) + 4
  {
    SizeInOrder(t);
  }

  lemma NothingPaid(n: nat, t: Tree)
    ensures Paid(n, t, n, t, Price(|InOrder(t)|))
  {
  }

  // The first node of a tree.
  lemma FirstPaid(n: nat, e: SpNode)
    ensures Paid(n, Leaf, n, Node(Leaf, e, Leaf), Price(|InOrder(Node(Leaf, e, Leaf))|))
  {
    SizeInOrder(Node(Leaf, e, Leaf));
  }

  // A splay alone.
  lemma SplayPaid(n: nat, t: Tree, k: int)
    requires t.Node?
    ensures Paid(n, t, n + Turns(t, k), Splayed(t, k), Price(|InOrder(t)|))
  {
    hide Price, Rank, Potential, InOrder, Size;
    Access(t, k);
    PriceOf(t);
  }

  // A splay and the new node above its result, on whichever side the old root goes.
  lemma InsertPaid(n: nat, t: Tree, e: SpNode)
    requires t.Node?
    ensures var s := Splayed(t, e.key);
      && Paid(n, t, n + Turns(t, e.key), BelowRoot(s, e), Price(|InOrder(BelowRoot(s, e))|))
      && Paid(n, t, n + Turns(t, e.key), AboveRoot(s, e), Price(|InOrder(AboveRoot(s, e))|))
  {
    hide Size, Rank, Potential, Splayed, Turns, InOrder;
    Access(t, e.key);
    var s := Splayed(t, e.key);
    var l, x, r := s.left, s.elm, s.right;
    Unfold(l, x, r);
    Unfold(Leaf, x, r);
    Unfold(l, x, Leaf);
    LeafNothing();
    NewRoot(t, l, e, Node(Leaf, x, r));
    NewRoot(t, Node(l, x, Leaf), e, r);
    RankMonotone(Node(Leaf, x, r), s);
    RankMonotone(Node(l, x, Leaf), s);
  }

  lemma LeafNothing()
    ensures Size(Leaf) == 0 && Potential(Leaf) == 0
  {
  }

  lemma NewRoot(t: Tree, l: Tree, e: SpNode, r: Tree)
    requires Size(t) <= Size(l) + Size(r)
    ensures Potential(Node(l, e, r)) == 2 * Rank(Node(l, e, r)) + Potential(l) + Potential(r)
    ensures 12 * Rank(Node(l, e, r)) + 4 == Price(|InOrder(Node(l, e, r))|) && Rank(t) <= Rank(Node(l, e, r))
  {
    hide Lg, InOrder, Size, Potential;
    Unfold(l, e, r);
    PriceOf(Node(l, e, r));
    RankMonotone(t, Node(l, e, r));
  }

  // A splay, and the root goes with a second splay of its left subtree, or without one if there is none.
  lemma RemovePaid(n: nat, t: Tree, k: int)
    requires t.Node?
    ensures var s := Splayed(t, k);
      if s.left.Leaf? then Paid(n, t, n + Turns(t, k), s.right, Price(|InOrder(t)|)) else
        var a := Splayed(s.left, k);
        Paid(n, t, n + Turns(t, k) + Turns(s.left, k), Node(a.left, a.elm, s.right), Price(|InOrder(t)|))
  {
    hide Price, Rank, Potential, InOrder, Size, Splayed, Turns;
    var s := Splayed(t, k);
    Access(t, k);
    PriceOf(t);
    Unfold(s.left, s.elm, s.right);
    if s.left.Node? {
      var a := Splayed(s.left, k);
      Access(s.left, k);
      Unfold(a.left, a.elm, a.right);
      Unfold(a.left, a.elm, s.right);
      RankMonotone(s.left, t);
      RankMonotone(s, t);
      RankMonotone(Node(a.left, a.elm, s.right), s);
    }
  }

  lemma PaidMore(n: nat, t: Tree, n': nat, t': Tree, p: int, q: int)
    requires Paid(n, t, n', t', p) && p <= q
    ensures Paid(n, t, n', t', q)
  {
  }

  lemma StartPaid(n: nat, t: Tree, price: int)
    ensures Paid(n, t, n, t, 0 * price)
  {
  }

  // One more operation at a price that is not exceeded.
  lemma NextPaid(n: nat, t: Tree, n': nat, t': Tree, n'': nat, t'': Tree, i: nat, p: int, price: int)
    requires Paid(n, t, n', t', i * price) && Paid(n', t', n'', t'', p) && p <= price
    ensures Paid(n, t, n'', t'', (i + 1) * price)
  {
    assert (i + 1) * price == i * price + price;
  }

  // What a tree can have in store.
  lemma {:induction false} PotentialBound(t: Tree)
    ensures Potential(t) <= 2 * (Size(t) * Rank(t))
  {
    hide Rank, Lg;
    if t.Node? {
      PotentialBound(t.left);
      PotentialBound(t.right);
      RankMonotone(t.left, t);
      RankMonotone(t.right, t);
      Shares(Size(t.left), Rank(t.left), Size(t.right), Rank(t.right), Rank(t));
    }
  }

  lemma Shares(m: nat, a: nat, n: nat, b: nat, c: nat)
    requires a <= c && b <= c
    ensures c + m * a + n * b <= (1 + m + n) * c
  {
    assert m * a <= m * c;
    assert n * b <= n * c;
  }

  lemma Settled(n: nat, t: Tree, n': nat, t': Tree, price: int)
    requires Paid(n, t, n', t', price)
    ensures n' - n <= price + 2 * (|InOrder(t)| * Lg(|InOrder(t)| + 1))
  {
    PotentialBound(t);
    SizeInOrder(t);
  }
}
