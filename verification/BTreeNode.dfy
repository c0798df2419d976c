/**
 The array work inside B-tree nodes: memmove and memcpy, and each group of shifts the B-tree code does
 on one node, stated as what it does to the node's keys and children.
 */
module BTreeNode {
  import opened BTreeTheory

  // memmove within one array.
  method Memmove<T>(a: array<T>, dst: nat, src: nat, len: nat)
    requires dst + len <= a.Length && src + len <= a.Length
    modifies a
    ensures a[..] == old(a[..dst] + a[src..src + len] + a[dst + len..])
  {
    if dst <= src {
      MoveDown(a, dst, src, len);
    } else {
      MoveUp(a, dst, src, len);
    }
  }

  lemma MoveIs<T>(s: seq<T>, r: seq<T>, dst: nat, u: seq<T>, src: nat, len: nat)
    requires |r| == |s| && dst + len <= |s| && src + len <= |u|
    requires forall j :: dst <= j < dst + len ==> r[j] == u[j - dst + src]
    requires forall j :: 0 <= j < dst || dst + len <= j < |s| ==> r[j] == s[j]
    ensures r == s[..dst] + u[src..src + len] + s[dst + len..]
  {
  }

  method MoveDown<T>(a: array<T>, dst: nat, src: nat, len: nat)
    requires dst <= src && src + len <= a.Length
    modifies a
    ensures a[..] == old(a[..dst] + a[src..src + len] + a[dst + len..])
  {
    ghost var s := a[..];
    for i := 0 to len
      invariant forall j :: dst <= j < dst + i ==> a[j] == s[j - dst + src]
      invariant forall j :: 0 <= j < dst || dst + i <= j < a.Length ==> a[j] == s[j]
    {
      a[dst + i] := a[src + i];
    }
    MoveIs(s, a[..], dst, s, src, len);
  }

  method MoveUp<T>(a: array<T>, dst: nat, src: nat, len: nat)
    requires src < dst && dst + len <= a.Length
    modifies a
    ensures a[..] == old(a[..dst] + a[src..src + len] + a[dst + len..])
  {
    ghost var s := a[..];
    for i := len downto 0
      invariant forall j :: dst + i <= j < dst + len ==> a[j] == s[j - dst + src]
      invariant forall j :: 0 <= j < dst + i || dst + len <= j < a.Length ==> a[j] == s[j]
    {
      a[dst + i] := a[src + i];
    }
    MoveIs(s, a[..], dst, s, src, len);
  }

  // The first m elements of b behind the first n of a.
  method CopyBehind<T>(a: array<T>, n: nat, b: array<T>, m: nat)
    requires n + m <= a.Length && m <= b.Length && a != b
    modifies a
    ensures a[..n + m] == old(a[..n]) + b[..m]
  {
    Memcpy(a, n, b, 0, m);
  }

  // Room for one more among the first n elements, and the element.
  method OpenGap<T>(a: array<T>, i: nat, n: nat, v: T)
    requires i <= n < a.Length
    modifies a
    ensures var s := old(a[..n]); a[..n + 1] == s[..i] + [v] + s[i..]
  {
    Memmove(a, i + 1, i, n - i);
    a[i] := v;
  }

  method OpenFront<T>(a: array<T>, n: nat, v: T)
    requires n < a.Length
    modifies a
    ensures a[..n + 1] == [v] + old(a[..n])
  {
    OpenGap(a, 0, n, v);
  }

  method CloseGap<T>(a: array<T>, i: nat, n: nat)
    requires i < n <= a.Length
    modifies a
    ensures var s := old(a[..n]); a[..n - 1] == s[..i] + s[i + 1..]
  {
    Memmove(a, i, i + 1, n - i - 1);
  }

  method CloseFront<T>(a: array<T>, n: nat)
    requires 0 < n <= a.Length
    modifies a
    ensures a[..n - 1] == old(a[..n])[1..]
  {
    CloseGap(a, 0, n);
  }

  // memcpy from one array to another.
  method Memcpy<T>(a: array<T>, dst: nat, b: array<T>, src: nat, len: nat)
    requires dst + len <= a.Length && src + len <= b.Length && a != b
    modifies a
    ensures a[..] == old(a[..dst] + b[src..src + len] + a[dst + len..])
  {
    ghost var s := a[..];
    for i := 0 to len
      invariant forall j :: dst <= j < dst + i ==> a[j] == b[j - dst + src]
      invariant forall j :: 0 <= j < dst || dst + i <= j < a.Length ==> a[j] == s[j]
    {
      a[dst + i] := b[src + i];
    }
    MoveIs(s, a[..], dst, b[..], src, len);
  }

  // ---------- What each operation does to a node's contents ----------

  ghost function With(c: Cell, i: nat, k: int, z: KbNode): Cell
    requires i <= |c.keys| && i < |c.ptrs|
  {
    Cell(c.n + 1, c.keys[..i] + [k] + c.keys[i..], c.ptrs[..i + 1] + [z] + c.ptrs[i + 1..])
  }

  ghost function Without(c: Cell, i: nat): Cell
    requires c.n > 0 && i < |c.keys| && i + 1 < |c.ptrs|
  {
    Cell(c.n - 1, c.keys[..i] + c.keys[i + 1..], c.ptrs[..i + 1] + c.ptrs[i + 2..])
  }

  ghost function LeafWith(c: Cell, i: nat, k: int): Cell
    requires i <= |c.keys|
  {
    Cell(c.n + 1, c.keys[..i] + [k] + c.keys[i..], [])
  }

  ghost function LeafWithout(c: Cell, i: nat): Cell
    requires c.n > 0 && i < |c.keys|
  {
    Cell(c.n - 1, c.keys[..i] + c.keys[i + 1..], [])
  }

  ghost function WithFront(c: Cell, k: int, p: KbNode?): Cell {
    Cell(c.n + 1, [k] + c.keys, if c.ptrs == [] then [] else [p] + c.ptrs)
  }

  ghost function WithBack(c: Cell, k: int, p: KbNode?): Cell {
    Cell(c.n + 1, c.keys + [k], if c.ptrs == [] then [] else c.ptrs + [p])
  }

  ghost function WithoutFront(c: Cell): Cell
    requires c.n > 0 && c.keys != []
  {
    Cell(c.n - 1, c.keys[1..], if c.ptrs == [] then [] else c.ptrs[1..])
  }

  ghost function WithoutBack(c: Cell): Cell
    requires c.n > 0 && c.keys != []
  {
    Cell(c.n - 1, c.keys[..|c.keys| - 1], if c.ptrs == [] then [] else c.ptrs[..|c.ptrs| - 1])
  }

  ghost function Absorbing(c: Cell, k: int, e: Cell): Cell {
    Cell(c.n + 1 + e.n, c.keys + [k] + e.keys, c.ptrs + e.ptrs)
  }

  ghost function Lower(c: Cell, t: nat): Cell
    requires t > 0 && t - 1 <= |c.keys| && (c.ptrs == [] || t <= |c.ptrs|)
  {
    Cell(t - 1, c.keys[..t - 1], if c.ptrs == [] then [] else c.ptrs[..t])
  }

  ghost function Upper(c: Cell, t: nat): Cell
    requires t > 0 && t <= |c.keys| && (c.ptrs == [] || t <= |c.ptrs|)
  {
    Cell(t - 1, c.keys[t..], if c.ptrs == [] then [] else c.ptrs[t..])
  }

  // ---------- The operations ----------

  // The node's arrays have room for what it claims to hold.
  ghost predicate Fits(x: KbNode)
    reads x
  {
    && x.n <= x.keys.Length && (x.isInternal ==> x.n < x.ptrs.Length)
  }

  // Key k goes to place i of a leaf.
  method InsertLeaf(x: KbNode, i: nat, k: int)
    requires Fits(x) && !x.isInternal && x.n < x.keys.Length && i <= x.n
    modifies x, x.keys
    ensures CellOf(x) == LeafWith(old(CellOf(x)), i, k)
  {
    OpenGap(x.keys, i, x.n, k);
    x.n := x.n + 1;
  }

  // Key i leaves a leaf.
  method RemoveLeaf(x: KbNode, i: nat) returns (kp: int)
    requires Fits(x) && !x.isInternal && i < x.n
    modifies x, x.keys
    ensures kp == old(x.keys[i]) && CellOf(x) == LeafWithout(old(CellOf(x)), i)
  {
    kp := x.keys[i];
    CloseGap(x.keys, i, x.n);
    x.n := x.n - 1;
  }

  // Key k goes to place i of an internal node, child z to its right.
  method InsertAt(x: KbNode, i: nat, k: int, z: KbNode)
    requires Fits(x) && x.isInternal && x.n < x.keys.Length && x.n + 1 < x.ptrs.Length && i <= x.n
    modifies x, x.keys, x.ptrs
    ensures CellOf(x) == With(old(CellOf(x)), i, k, z)
  {
    OpenGap(x.ptrs, i + 1, x.n + 1, z);
    ghost var ptrs := x.ptrs[..x.n + 2];
    OpenGap(x.keys, i, x.n, k);
    assert x.ptrs[..x.n + 2] == ptrs;
    x.n := x.n + 1;
  }

  // Key i leaves an internal node together with the child to its right.
  method RemoveAt(x: KbNode, i: nat)
    requires Fits(x) && x.isInternal && i < x.n
    modifies x, x.keys, x.ptrs
    ensures CellOf(x) == Without(old(CellOf(x)), i)
  {
    CloseGap(x.keys, i, x.n);
    ghost var keys := x.keys[..x.n - 1];
    CloseGap(x.ptrs, i + 1, x.n + 1);
    assert x.keys[..x.n - 1] == keys;
    x.n := x.n - 1;
  }

  // A key, and in an internal node a child, enters at the front.
  method PushFront(x: KbNode, k: int, p: KbNode?)
    requires Fits(x) && x.n < x.keys.Length && (x.isInternal ==> x.n + 1 < x.ptrs.Length)
    modifies x, x.keys, x.ptrs
    ensures CellOf(x) == WithFront(old(CellOf(x)), k, p)
  {
    OpenFront(x.keys, x.n, k);
    if x.isInternal {
      OpenFront(x.ptrs, x.n + 1, p);
    }
    x.n := x.n + 1;
  }

  // A key, and in an internal node a child, enters at the back.
  method PushBack(x: KbNode, k: int, p: KbNode?)
    requires Fits(x) && x.n < x.keys.Length && (x.isInternal ==> x.n + 1 < x.ptrs.Length)
    modifies x, x.keys, x.ptrs
    ensures CellOf(x) == WithBack(old(CellOf(x)), k, p)
  {
    x.keys[x.n] := k;
    x.n := x.n + 1;
    if x.isInternal {
      x.ptrs[x.n] := p;
    }
  }

  // The first key, and in an internal node the first child, leaves.
  method PopFront(x: KbNode)
    requires Fits(x) && x.n > 0
    modifies x, x.keys, x.ptrs
    ensures CellOf(x) == WithoutFront(old(CellOf(x)))
  {
    CloseFront(x.keys, x.n);
    if x.isInternal {
      CloseFront(x.ptrs, x.n + 1);
    }
    x.n := x.n - 1;
  }

  // The last key, and in an internal node the last child, leaves.
  method PopBack(x: KbNode)
    requires Fits(x) && x.n > 0
    modifies x
    ensures CellOf(x) == WithoutBack(old(CellOf(x)))
  {
    x.n := x.n - 1;
  }

  // y takes the key k and all that its right neighbour z holds.
  method Absorb(y: KbNode, k: int, z: KbNode)
    requires Fits(y) && Fits(z) && y.keys != z.keys && y.ptrs != z.ptrs && y != z && (y.isInternal <==> z.isInternal)
    requires y.n + 1 + z.n <= y.keys.Length && (y.isInternal ==> y.n + z.n + 2 <= y.ptrs.Length)
    modifies y, y.keys, y.ptrs
    ensures CellOf(y) == Absorbing(old(CellOf(y)), k, CellOf(z))
  {
    y.keys[y.n] := k;
    y.n := y.n + 1;
    assert y.keys[..y.n] == old(y.keys[..y.n]) + [k];
    CopyBehind(y.keys, y.n, z.keys, z.n);
    assert y.keys[..y.n + z.n] == old(y.keys[..y.n]) + [k] + z.keys[..z.n];
    if y.isInternal {
      CopyBehind(y.ptrs, y.n, z.ptrs, z.n + 1);
    }
    y.n := y.n + z.n;
  }

  // The fresh node z takes the upper t - 1 keys of the full node y, which keeps the lower t - 1.
  method TakeUpper(z: KbNode, y: KbNode, t: nat)
    requires t >= 2 && Sized(y, t) && Sized(z, t) && y.n == 2 * t - 1 && (y.isInternal <==> z.isInternal)
    requires y.keys != z.keys && y.ptrs != z.ptrs && y != z
    modifies z, z.keys, z.ptrs, y`n
    ensures CellOf(z) == Upper(old(CellOf(y)), t) && CellOf(y) == Lower(old(CellOf(y)), t)
    ensures y.keys[t - 1] == old(CellOf(y)).keys[t - 1]
  {
    z.n := t - 1;
    Memcpy(z.keys, 0, y.keys, t, t - 1);
    assert z.keys[..t - 1] == y.keys[t..y.n];
    if y.isInternal {
      Memcpy(z.ptrs, 0, y.ptrs, t, t);
      assert z.ptrs[..t] == y.ptrs[t..y.n + 1];
    }
    y.n := t - 1;
  }

  // ---------- Search within a node ----------

  function Cmp(a: int, b: int): int { if a < b then -1 else if a > b then 1 else 0 }

  // Key k stands against the keys of a node as __kb_getp_aux reports it: index i and comparison r.
  ghost predicate Position(keys: seq<int>, k: int, i: int, r: int) {
    && -1 <= i < |keys|
    && (forall j :: 0 <= j < i ==> keys[j] < k)
    && (r == 0 ==> i >= 0 && keys[i] == k && AtLeast(keys[i..], k))
    && (r != 0 ==> (i >= 0 ==> keys[i] < k) && (forall j :: i < j < |keys| ==> k < keys[j]))
    && (r > 0 ==> i == |keys| - 1)
  }

  // The first key that is not below k determines the position.
  lemma PositionAt(s: seq<int>, k: int, begin: nat)
    requires Sorted(s) && s != [] && begin <= |s|
    requires (forall j :: 0 <= j < begin ==> s[j] < k) && forall j :: begin <= j < |s| ==> k <= s[j]
    ensures begin == |s| ==> Position(s, k, |s| - 1, 1)
    ensures begin < |s| && k < s[begin] ==> Position(s, k, begin - 1, -1)
    ensures begin < |s| && k >= s[begin] ==> Cmp(k, s[begin]) == 0 && Position(s, k, begin, 0)
  {
    if begin < |s| && k >= s[begin] {
      forall v | v in s[begin..] ensures k <= v {
        var j :| 0 <= j < |s[begin..]| && s[begin..][j] == v;
        assert v == s[begin + j];
      }
    }
  }

  // __kb_getp_aux; r0 is what r holds before.
  method GetAux(x: KbNode, k: int, r0: int) returns (i: int, r: int)
    requires Fits(x) && Sorted(x.keys[..x.n])
    ensures if x.n == 0 then i == -1 && r == r0 else Position(x.keys[..x.n], k, i, r)
  {
    hide Position, AtLeast;
    r := r0;
    if x.n == 0 {
      return -1, r;
    }
    ghost var s := x.keys[..x.n];
    var begin, end := 0, x.n;
    while begin < end
      invariant 0 <= begin <= end <= x.n
      invariant forall j :: 0 <= j < begin ==> s[j] < k
      invariant forall j :: end <= j < x.n ==> k <= s[j]
    {
      var mid := (begin + end) / 2;
      assert x.keys[mid] == s[mid];
      if Cmp(x.keys[mid], k) < 0 {
        begin := mid + 1;
      } else {
        end := mid;
      }
    }
    PositionAt(s, k, begin);
    if begin == x.n {
      return x.n - 1, 1;
    }
    assert x.keys[begin] == s[begin];
    r := Cmp(k, x.keys[begin]);
    i := if r < 0 then begin - 1 else begin;
  }
}
