/** Byte strings laid out over a chain of blocks: positions, prefixes, suffixes, slices and cuts. */
module BufBlkTheory {
  newtype byte = x: int | 0 <= x < 256

  /** The readable bytes of a chain, given the readable bytes of its blocks. */
  function Flatten(ts: seq<seq<byte>>): seq<byte> {
    if ts == [] then [] else ts[0] + Flatten(ts[1..])
  }

  lemma {:induction false} FlattenAppend(a: seq<seq<byte>>, b: seq<seq<byte>>)
    ensures Flatten(a + b) == Flatten(a) + Flatten(b)
  {
    if a == [] {
      assert a + b == b;
    } else {
      assert (a + b)[1..] == a[1..] + b;
      FlattenAppend(a[1..], b);
    }
  }

  /** The position in the chain's bytes at which block `k` begins. */
  function Start(ts: seq<seq<byte>>, k: nat): nat
    requires k <= |ts|
  {
    |Flatten(ts[..k])|
  }

  lemma StartNext(ts: seq<seq<byte>>, k: nat)
    requires k < |ts|
    ensures Start(ts, k + 1) == Start(ts, k) + |ts[k]|
    ensures Start(ts, k + 1) <= |Flatten(ts)|
  {
    assert ts[..k + 1] == ts[..k] + [ts[k]];
    FlattenAppend(ts[..k], [ts[k]]);
    assert ts == ts[..k + 1] + ts[k + 1..];
    FlattenAppend(ts[..k + 1], ts[k + 1..]);
  }

  lemma StartEnds(ts: seq<seq<byte>>)
    ensures Start(ts, 0) == 0 && Start(ts, |ts|) == |Flatten(ts)|
  {
    assert ts[..|ts|] == ts;
  }

  lemma {:induction false} StartMonotone(ts: seq<seq<byte>>, j: nat, k: nat)
    requires j <= k <= |ts|
    ensures Start(ts, j) <= Start(ts, k) <= |Flatten(ts)|
    decreases k - j
  {
    if j < k {
      StartNext(ts, j);
      StartMonotone(ts, j + 1, k);
    } else {
      assert ts == ts[..k] + ts[k..];
      FlattenAppend(ts[..k], ts[k..]);
    }
  }

  /** The bytes up to a point inside block `i`. */
  lemma PrefixAt(ts: seq<seq<byte>>, i: nat, n: nat)
    requires i < |ts| && n <= |ts[i]|
    ensures Start(ts, i) + n <= |Flatten(ts)|
    ensures Flatten(ts)[..Start(ts, i) + n] == Flatten(ts[..i] + [ts[i][..n]])
  {
    StartNext(ts, i);
    assert ts == ts[..i] + ts[i..];
    FlattenAppend(ts[..i], ts[i..]);
    assert ts[i..][0] == ts[i];
    FlattenAppend(ts[..i], [ts[i][..n]]);
    assert Flatten([ts[i][..n]]) == ts[i][..n];
  }

  /** The bytes from a point inside block `e` on. */
  lemma SuffixAt(ts: seq<seq<byte>>, e: nat, d: nat)
    requires e < |ts| && d <= |ts[e]|
    ensures Start(ts, e) + d <= |Flatten(ts)|
    ensures Flatten(ts)[Start(ts, e) + d..] == Flatten([ts[e][d..]] + ts[e + 1..])
  {
    StartNext(ts, e);
    assert ts == ts[..e] + ts[e..];
    FlattenAppend(ts[..e], ts[e..]);
    assert ts[e..][0] == ts[e] && ts[e..][1..] == ts[e + 1..];
    FlattenAppend([ts[e][d..]], ts[e + 1..]);
    assert Flatten([ts[e][d..]]) == ts[e][d..];
  }

  /** `t` without its bytes `[from, from + size)`, or without all from `from` on if it is shorter. */
  function Cut(t: seq<byte>, from: nat, size: nat): seq<byte> {
    if from >= |t| then t
    else if from + size >= |t| then t[..from]
    else t[..from] + t[from + size..]
  }

  /** The bytes of a chain around one of its blocks. */
  lemma Around(a: seq<seq<byte>>, x: seq<byte>, b: seq<seq<byte>>)
    ensures Flatten(a + [x] + b) == Flatten(a) + x + Flatten(b)
  {
    FlattenAppend(a + [x], b);
    FlattenAppend(a, [x]);
    assert Flatten([x]) == x;
  }

  lemma Replaced(ts: seq<seq<byte>>, i: nat, x: seq<byte>)
    requires i < |ts|
    ensures ts[i := x] == ts[..i] + [x] + ts[i + 1..]
  {
  }

  /** A cut that stays inside block `i`, in terms of what precedes and follows the block. */
  lemma CutInsideSpelled(ts: seq<seq<byte>>, i: nat, need: nat, size: nat)
    requires i < |ts| && need + size <= |ts[i]| && need < |ts[i]|
    ensures Cut(Flatten(ts), Start(ts, i) + need, size)
         == Flatten(ts[..i]) + (ts[i][..need] + ts[i][need + size..]) + Flatten(ts[i + 1..])
  {
    hide Flatten, Start;
    var x, y := ts[i][..need], ts[i][need + size..];
    PrefixAt(ts, i, need);
    SuffixAt(ts, i, need + size);
    StartNext(ts, i);
    Around(ts[..i], x, []);
    Around([], y, ts[i + 1..]);
    FlattenNothing();
    assert ts[..i] + [x] + [] == ts[..i] + [x] && [] + [y] + ts[i + 1..] == [y] + ts[i + 1..];
  }

  lemma FlattenNothing()
    ensures Flatten([]) == []
  {
  }

  /** A cut that stays inside block `i` changes that block alone. */
  lemma CutInside(ts: seq<seq<byte>>, i: nat, need: nat, size: nat)
    requires i < |ts| && need + size <= |ts[i]| && need < |ts[i]|
    ensures Cut(Flatten(ts), Start(ts, i) + need, size)
         == Flatten(ts[i := ts[i][..need] + ts[i][need + size..]])
  {
    hide *;
    CutInsideSpelled(ts, i, need, size);
    Around(ts[..i], ts[i][..need] + ts[i][need + size..], ts[i + 1..]);
    Replaced(ts, i, ts[i][..need] + ts[i][need + size..]);
  }

  /** A cut that takes exactly block `i`. */
  lemma CutBlock(ts: seq<seq<byte>>, i: nat)
    requires i < |ts| && |ts[i]| > 0
    ensures Cut(Flatten(ts), Start(ts, i), |ts[i]|) == Flatten(ts[..i] + ts[i + 1..])
  {
    hide *;
    CutInsideSpelled(ts, i, 0, |ts[i]|);
    FlattenAppend(ts[..i], ts[i + 1..]);
    assert ts[i][..0] + ts[i][0 + |ts[i]|..] == [];
  }

  /** A cut from inside block `i` to a point inside the later block `e`. */
  lemma CutAcross(ts: seq<seq<byte>>, i: nat, need: nat, e: nat, d: nat, size: nat)
    requires i < e < |ts| && need < |ts[i]| && d <= |ts[e]|
    requires Start(ts, i) + need + size == Start(ts, e) + d
    ensures Cut(Flatten(ts), Start(ts, i) + need, size)
         == Flatten(ts[..i] + [ts[i][..need]] + ([ts[e][d..]] + ts[e + 1..]))
  {
    PrefixAt(ts, i, need);
    SuffixAt(ts, e, d);
    StartNext(ts, i);
    FlattenAppend(ts[..i] + [ts[i][..need]], [ts[e][d..]] + ts[e + 1..]);
  }

  /** A cut from inside block `i` to the end of the chain or beyond it. */
  lemma CutToEnd(ts: seq<seq<byte>>, i: nat, need: nat, size: nat)
    requires i < |ts| && need < |ts[i]|
    requires Start(ts, i) + need + size >= |Flatten(ts)|
    ensures Cut(Flatten(ts), Start(ts, i) + need, size) == Flatten(ts[..i] + [ts[i][..need]])
  {
    PrefixAt(ts, i, need);
    StartNext(ts, i);
  }

  /** A slice that stays inside block `i`. */
  lemma SliceInside(ts: seq<seq<byte>>, i: nat, need: nat, size: nat)
    requires i < |ts| && need + size <= |ts[i]|
    ensures Start(ts, i) + need + size <= |Flatten(ts)|
    ensures Flatten(ts)[Start(ts, i) + need..Start(ts, i) + need + size] == ts[i][need..need + size]
  {
    PrefixAt(ts, i, need + size);
    FlattenAppend(ts[..i], [ts[i][..need + size]]);
    assert Flatten([ts[i][..need + size]]) == ts[i][..need + size];
    var t := Flatten(ts[..i]) + ts[i][..need + size];
    assert Flatten(ts)[Start(ts, i) + need..Start(ts, i) + need + size] == t[Start(ts, i) + need..];
  }

  /** Whether a slice that begins in block `i` lies in the chain. */
  lemma SliceFits(ts: seq<seq<byte>>, i: nat, need: nat, size: nat)
    requires i < |ts| && need < |ts[i]|
    ensures Start(ts, i) + need < |Flatten(ts)|
    ensures need + size <= |ts[i]| ==>
      && Start(ts, i) + need + size <= |Flatten(ts)|
      && Flatten(ts)[Start(ts, i) + need..Start(ts, i) + need + size] == ts[i][need..need + size]
    ensures i + 1 == |ts| && need + size > |ts[i]| ==> Start(ts, i) + need + size > |Flatten(ts)|
  {
    StartNext(ts, i);
    if need + size <= |ts[i]| {
      SliceInside(ts, i, need, size);
    }
    if i + 1 == |ts| {
      StartEnds(ts);
    }
  }

  /** A slice grows by the first bytes of the block it has reached. */
  lemma SliceGrows(ts: seq<seq<byte>>, from: nat, e: nat, n: nat)
    requires e < |ts| && from <= Start(ts, e) && n <= |ts[e]|
    ensures Start(ts, e) + n <= |Flatten(ts)|
    ensures Flatten(ts)[from..Start(ts, e) + n] == Flatten(ts)[from..Start(ts, e)] + ts[e][..n]
  {
    SliceInside(ts, e, 0, n);
  }

  /**
   * Block `k` lies wholly inside the cut `[from, from + size)`: all its bytes are cut, and a
   * block without bytes stands strictly inside the cut.
   */
  predicate WhollyEaten(ts: seq<seq<byte>>, k: nat, from: nat, size: nat)
    requires k < |ts|
  {
    && from <= Start(ts, k) < from + size
    && Start(ts, k) + |ts[k]| <= from + size
    && (|ts[k]| > 0 || from < Start(ts, k))
  }

  /** The cut begins with the first byte of a block and runs past that block's last byte. */
  ghost predicate OverrunsAtStart(ts: seq<seq<byte>>, from: nat, size: nat) {
    exists i: nat :: i < |ts| && Start(ts, i) == from && 0 < |ts[i]| < size
  }

  /** How many bytes of block `k` lie before position `at` of the chain. */
  function Upto(ts: seq<seq<byte>>, k: nat, at: nat): (n: nat)
    requires k < |ts|
    ensures n <= |ts[k]|
  {
    if at < Start(ts, k) then 0 else if at - Start(ts, k) > |ts[k]| then |ts[k]| else at - Start(ts, k)
  }

  /** The cut begins behind the first byte of block `i` and ends before its last, so that bytes must be moved. */
  predicate Moves(ts: seq<seq<byte>>, i: nat, from: nat, size: nat) {
    i < |ts| && Start(ts, i) < from && from + size < Start(ts, i) + |ts[i]|
  }

  ghost predicate NoneMoves(ts: seq<seq<byte>>, from: nat, size: nat) {
    forall i: nat :: !Moves(ts, i, from, size)
  }

  /** The memory `m` when the bytes `[at + size, end)` have been moved down to `at`. */
  function MovedDown(m: seq<byte>, at: int, size: nat, end: int): (r: seq<byte>)
    ensures |r| == |m|
  {
    if 0 <= at && at + size <= end <= |m| then m[..at] + m[at + size..end] + m[end - size..] else m
  }

  lemma UptoOutside(ts: seq<seq<byte>>, j: nat, k: nat, at: nat)
    requires j < |ts| && k < |ts| && j != k && Start(ts, j) <= at <= Start(ts, j) + |ts[j]|
    ensures Upto(ts, k, at) == if k < j then |ts[k]| else 0
  {
    if k < j {
      StartNext(ts, k);
      StartMonotone(ts, k + 1, j);
    } else {
      StartNext(ts, j);
      StartMonotone(ts, j + 1, k);
    }
  }

  /** A cut that stays in block `i` leaves the others alone. */
  lemma UptoWithin(ts: seq<seq<byte>>, i: nat, need: nat, size: nat, k: nat)
    requires i < |ts| && need + size <= |ts[i]| && k < |ts|
    ensures var from := Start(ts, i) + need;
      if k == i then Upto(ts, k, from) == need && Upto(ts, k, from + size) == need + size
      else Upto(ts, k, from) == Upto(ts, k, from + size) == if k < i then |ts[k]| else 0
  {
    hide Start;
    if k != i {
      UptoOutside(ts, i, k, Start(ts, i) + need);
      UptoOutside(ts, i, k, Start(ts, i) + need + size);
    }
  }

  /** A cut from block `i` to byte `d` of block `e`. */
  lemma UptoAcross(ts: seq<seq<byte>>, i: nat, need: nat, size: nat, e: nat, d: nat, k: nat)
    requires StopsAt(ts, i, need, size, e, d) && (e < |ts| ==> d <= |ts[e]|) && k < |ts|
    ensures k < i ==> Upto(ts, k, Start(ts, i) + need) == Upto(ts, k, Start(ts, i) + need + size) == |ts[k]|
    ensures k == i ==> Upto(ts, k, Start(ts, i) + need) == need && Upto(ts, k, Start(ts, i) + need + size) == |ts[k]|
    ensures k > i ==> Upto(ts, k, Start(ts, i) + need) == 0
    ensures k >= e ==> Upto(ts, k, Start(ts, i) + need + size) == if k == e then d else 0
  {
    hide Start;
    var from := Start(ts, i) + need;
    if k != i {
      UptoOutside(ts, i, k, from);
    }
    StartNext(ts, i);
    if k < i {
      StartNext(ts, k);
      StartMonotone(ts, k + 1, i);
    } else if k > e {
      UptoOutside(ts, e, k, from + size);
    }
  }

  /** Bytes are moved in one block only, and a cut that moves them leaves the others alone. */
  lemma MovesOnce(ts: seq<seq<byte>>, i: nat, from: nat, size: nat)
    requires Moves(ts, i, from, size)
    ensures Upto(ts, i, from + size) == Upto(ts, i, from) + size && 0 < Upto(ts, i, from)
    ensures forall j: nat :: Moves(ts, j, from, size) ==> j == i
    ensures forall j: nat :: j < |ts| && j != i ==> Upto(ts, j, from) == Upto(ts, j, from + size)
  {
    hide Start;
    forall j: nat | j < |ts| && j != i
      ensures !Moves(ts, j, from, size) && Upto(ts, j, from) == Upto(ts, j, from + size)
    {
      UptoOutside(ts, i, j, from);
      UptoOutside(ts, i, j, from + size);
    }
  }

  lemma MovesSpelled(ts: seq<seq<byte>>, i: nat, from: nat, size: nat)
    requires Moves(ts, i, from, size)
    ensures i < |ts| && 0 < Upto(ts, i, from) && Upto(ts, i, from + size) < |ts[i]|
  {
  }

  lemma UptoOrder(ts: seq<seq<byte>>, k: nat, from: nat, size: nat)
    requires k < |ts| && !Moves(ts, k, from, size)
    ensures Upto(ts, k, from) <= Upto(ts, k, from + size)
    ensures Upto(ts, k, from) == 0 || Upto(ts, k, from + size) == |ts[k]|
  {
  }

  /** Whether bytes are moved, in terms of the block the cut begins in. */
  lemma MovesWhen(ts: seq<seq<byte>>, i: nat, need: nat, from: nat, size: nat)
    requires i < |ts| && need < |ts[i]| && from == Start(ts, i) + need
    ensures forall j: nat :: Moves(ts, j, from, size) <==> j == i && need > 0 && need + size < |ts[i]|
    ensures NoneMoves(ts, from, size) <==> need == 0 || need + size >= |ts[i]|
  {
    hide Start;
    assert Moves(ts, i, from, size) <==> need > 0 && need + size < |ts[i]|;
    forall j: nat | j < |ts| && j != i ensures !Moves(ts, j, from, size) {
      UptoOutside(ts, i, j, from);
    }
  }

  lemma MovesNowhere(ts: seq<seq<byte>>, from: nat, size: nat)
    requires |Flatten(ts)| <= from
    ensures NoneMoves(ts, from, size) && forall j: nat :: !Moves(ts, j, from, size)
    ensures forall k: nat :: k < |ts| ==> Upto(ts, k, from) == Upto(ts, k, from + size) == |ts[k]|
  {
    forall k: nat | k < |ts| ensures Start(ts, k) + |ts[k]| <= from {
      StartNext(ts, k);
    }
  }

  /** `x` is the bytes `[from, from + size)` of `t`. */
  ghost predicate IsSlice(x: seq<byte>, t: seq<byte>, from: nat, size: nat) {
    from + size <= |t| && x == t[from..from + size]
  }

  lemma SliceIs(x: seq<byte>, t: seq<byte>, from: nat, size: nat)
    requires from + size <= |t| && x == t[from..from + size]
    ensures IsSlice(x, t, from, size)
  {
  }

  /** The bytes `[from, from + size)` begin and end in block `j`. */
  predicate InBlock(ts: seq<seq<byte>>, j: nat, from: nat, size: nat)
    requires j < |ts|
  {
    Start(ts, j) <= from < Start(ts, j) + |ts[j]| && from + size <= Start(ts, j) + |ts[j]|
  }

  /** The bytes from `from` on begin in block `j`. */
  predicate BeginIn(ts: seq<seq<byte>>, j: nat, from: nat) {
    j < |ts| && Start(ts, j) <= from < Start(ts, j) + |ts[j]|
  }

  /** They begin in a block, and end in it or go on behind it. */
  ghost predicate TakenUp(ts: seq<seq<byte>>, from: nat, size: nat) {
    exists j: nat :: BeginIn(ts, j, from) && (InBlock(ts, j, from, size) || j + 1 < |ts|)
  }

  lemma TakenUpWhen(ts: seq<seq<byte>>, i: nat, need: nat, from: nat, size: nat)
    requires i < |ts| && need < |ts[i]| && from == Start(ts, i) + need
    ensures TakenUp(ts, from, size) <==> need + size <= |ts[i]| || i + 1 < |ts|
  {
    hide InBlock, Start;
    BlockOf(ts, i, need, from, 0);
    BlockOf(ts, i, need, from, size);
    assert BeginIn(ts, i, from);
    forall j: nat | BeginIn(ts, j, from) ensures j == i {
      assert InBlock(ts, j, from, 0) by {
        BeginsThere(ts, j, from);
      }
    }
  }

  lemma BeginsThere(ts: seq<seq<byte>>, j: nat, from: nat)
    requires BeginIn(ts, j, from)
    ensures InBlock(ts, j, from, 0)
  {
  }

  lemma NotTakenUp(ts: seq<seq<byte>>, from: nat, size: nat)
    requires |Flatten(ts)| <= from
    ensures !TakenUp(ts, from, size)
  {
    forall j: nat | j < |ts| ensures !BeginIn(ts, j, from) {
      StartNext(ts, j);
    }
  }

  /** They begin in one block only. */
  lemma BlockOf(ts: seq<seq<byte>>, i: nat, need: nat, from: nat, size: nat)
    requires i < |ts| && need < |ts[i]| && from == Start(ts, i) + need
    ensures forall j :: 0 <= j < |ts| && InBlock(ts, j, from, size) ==> j == i
    ensures InBlock(ts, i, from, size) <==> need + size <= |ts[i]|
  {
    StartNext(ts, i);
    forall j | 0 <= j < |ts| && InBlock(ts, j, from, size) ensures j == i {
      StartNext(ts, j);
      if j < i {
        StartMonotone(ts, j + 1, i);
      } else if i < j {
        StartMonotone(ts, i + 1, j);
      }
    }
  }

  /** The blocks `[a, b)` are exactly those wholly inside the cut. */
  ghost predicate EatenRange(ts: seq<seq<byte>>, a: nat, b: nat, from: nat, size: nat) {
    a <= b <= |ts| && forall k :: 0 <= k < |ts| ==> (WhollyEaten(ts, k, from, size) <==> a <= k < b)
  }

  lemma BeforeTheCut(ts: seq<seq<byte>>, i: nat, need: nat, k: nat, size: nat)
    requires k < i < |ts|
    ensures !WhollyEaten(ts, k, Start(ts, i) + need, size)
  {
    StartNext(ts, k);
    StartMonotone(ts, k + 1, i);
  }

  lemma BehindTheCut(ts: seq<seq<byte>>, e: nat, k: nat, from: nat, size: nat)
    requires e <= k < |ts| && Start(ts, e) <= from + size
    requires from + size == Start(ts, e) || from + size < Start(ts, e) + |ts[e]|
    ensures !WhollyEaten(ts, k, from, size)
  {
    if e < k {
      StartNext(ts, e);
      StartMonotone(ts, e + 1, k);
    }
  }

  /** No block is eaten by a cut that does not reach any byte. */
  lemma EatenNowhere(ts: seq<seq<byte>>, from: nat, size: nat)
    requires |Flatten(ts)| <= from
    ensures EatenRange(ts, 0, 0, from, size) && !OverrunsAtStart(ts, from, size)
    ensures Cut(Flatten(ts), from, size) == Flatten(ts)
  {
    forall k: nat | k < |ts| ensures !WhollyEaten(ts, k, from, size) {
      StartNext(ts, k);
    }
    forall i: nat | i < |ts| && Start(ts, i) == from ensures |ts[i]| == 0 {
      StartNext(ts, i);
    }
  }

  /** What a cut inside block `i` eats: the block, if it is all of the block. */
  lemma EatenInside(ts: seq<seq<byte>>, i: nat, need: nat, size: nat)
    requires i < |ts| && need < |ts[i]| && need + size <= |ts[i]|
    ensures need == 0 && size == |ts[i]| ==> EatenRange(ts, i, i + 1, Start(ts, i), size)
    ensures need > 0 || size < |ts[i]| ==> EatenRange(ts, i, i, Start(ts, i) + need, size)
  {
    var from := Start(ts, i) + need;
    StartNext(ts, i);
    forall k: nat | k < |ts| && k != i ensures !WhollyEaten(ts, k, from, size) {
      if k < i {
        BeforeTheCut(ts, i, need, k, size);
      } else {
        StartMonotone(ts, i + 1, k);
      }
    }
  }

  /** What a cut from block `i` to block `e` eats: the blocks between, and block `i` if it begins there. */
  lemma EatenAcross(ts: seq<seq<byte>>, i: nat, need: nat, e: nat, d: nat, size: nat)
    requires i < e <= |ts| && need < |ts[i]| < need + size
    requires Start(ts, e) <= Start(ts, i) + need + size
    requires i + 1 < e ==> Start(ts, e - 1) < Start(ts, i) + need + size
    requires e < |ts| ==> Start(ts, e) + d == Start(ts, i) + need + size && (d == 0 || d < |ts[e]|)
    ensures EatenRange(ts, if need > 0 then i + 1 else i, e, Start(ts, i) + need, size)
  {
    var from := Start(ts, i) + need;
    StartNext(ts, i);
    forall k: nat | k < |ts| && k != i ensures WhollyEaten(ts, k, from, size) <==> i < k < e {
      if k < i {
        BeforeTheCut(ts, i, need, k, size);
      } else if k < e {
        StartMonotone(ts, i + 1, k);
        StartMonotone(ts, k, e - 1);
        StartNext(ts, k);
        StartMonotone(ts, k + 1, e);
      } else {
        BehindTheCut(ts, e, k, from, size);
      }
    }
  }

  /** Which cuts overrun a block they begin with, in terms of the block that holds the first byte cut. */
  lemma OverrunsWhen(ts: seq<seq<byte>>, i: nat, need: nat, size: nat)
    requires i < |ts| && need < |ts[i]|
    ensures OverrunsAtStart(ts, Start(ts, i) + need, size) <==> need == 0 && |ts[i]| < size
  {
    var from := Start(ts, i) + need;
    StartNext(ts, i);
    forall j: nat | j < |ts| && Start(ts, j) == from && |ts[j]| > 0 ensures j == i && need == 0 {
      StartNext(ts, j);
      if j < i {
        StartMonotone(ts, j + 1, i);
      } else if i < j {
        StartMonotone(ts, i + 1, j);
      }
    }
    if need == 0 && |ts[i]| < size {
      assert Start(ts, i) == from;
    }
  }

  /** The blocks of a chain after a cut from byte `need` of block `i` up to byte `d` of block `e`. */
  function Trimmed(ts: seq<seq<byte>>, i: nat, need: nat, e: nat, d: nat): (r: seq<seq<byte>>)
    requires i < e <= |ts| && need <= |ts[i]| && (e < |ts| ==> d <= |ts[e]|)
    ensures |r| == |ts|
  {
    var first := if need > 0 then ts[i := ts[i][..need]] else ts;
    if e < |ts| then first[e := ts[e][d..]] else first
  }

  /** Where a cut that runs past block `i` stops: at byte `d` of block `e`, or at the end. */
  ghost predicate StopsAt(ts: seq<seq<byte>>, i: nat, need: nat, size: nat, e: nat, d: nat) {
    && i < e <= |ts| && need < |ts[i]| < need + size
    && Start(ts, e) <= Start(ts, i) + need + size
    && (i + 1 < e ==> Start(ts, e - 1) < Start(ts, i) + need + size)
    && (e < |ts| ==> Start(ts, e) + d == Start(ts, i) + need + size && (d == 0 || d < |ts[e]|))
  }

  /** The texts when block `e`, if there is one, has lost the first `d` bytes of its text in `ts`. */
  function FrontGone(was: seq<seq<byte>>, ts: seq<seq<byte>>, e: nat, d: nat): (r: seq<seq<byte>>)
    ensures |r| == |was|
  {
    if e < |was| && e < |ts| && d <= |ts[e]| then was[e := ts[e][d..]] else was
  }

  lemma FrontStays(was: seq<seq<byte>>, ts: seq<seq<byte>>, e: nat, d: nat)
    ensures e < |was| && e < |ts| && was[e] == ts[e] ==> FrontGone(was, ts, e, 0) == was
    ensures e >= |was| || e >= |ts| ==> FrontGone(was, ts, e, d) == was
    ensures e < |was| && e < |ts| && d <= |ts[e]| ==> FrontGone(was, ts, e, d) == was[e := ts[e][d..]]
  {
  }

  /** A cut of `size` bytes from the first byte of block `i` on runs past it, and reaches block `e` or the end. */
  ghost predicate RunsTo(ts: seq<seq<byte>>, i: nat, size: nat, e: nat) {
    exists d: nat :: StopsAt(ts, i, 0, size, e, d)
  }

  lemma TrimmedInSteps(ts: seq<seq<byte>>, first: seq<seq<byte>>, last: seq<seq<byte>>,
      i: nat, need: nat, size: nat, e: nat, d: nat)
    requires i < e <= |ts| && need < |ts[i]| < need + size && (e < |ts| ==> d <= |ts[e]|)
    requires first == if need > 0 then ts[i := ts[i][..need]] else ts
    requires last == FrontGone(first, ts, e, d)
    requires Start(ts, e) <= Start(ts, i + 1) + (need + size - |ts[i]|)
    requires i + 1 < e ==> Start(ts, e - 1) < Start(ts, i + 1) + (need + size - |ts[i]|)
    requires e < |ts| ==>
      Start(ts, e) + d == Start(ts, i + 1) + (need + size - |ts[i]|) && (d == 0 || d < |ts[e]|)
    ensures last == Trimmed(ts, i, need, e, d) && StopsAt(ts, i, need, size, e, d)
  {
    StartNext(ts, i);
  }

  /** What is left after the eaten blocks are taken out is the old bytes without the cut. */
  lemma TrimmedIsCut(ts: seq<seq<byte>>, i: nat, need: nat, size: nat, e: nat, d: nat)
    requires StopsAt(ts, i, need, size, e, d) && (e < |ts| ==> d <= |ts[e]|)
    requires need > 0
    ensures Flatten(Trimmed(ts, i, need, e, d)[..i + 1] + Trimmed(ts, i, need, e, d)[e..])
         == Cut(Flatten(ts), Start(ts, i) + need, size)
    ensures EatenRange(ts, i + 1, e, Start(ts, i) + need, size)
  {
    hide Flatten, Start, Cut, WhollyEaten, EatenRange;
    EatenAcross(ts, i, need, e, d, size);
    var r := Trimmed(ts, i, need, e, d);
    assert r[..i + 1] == ts[..i] + [ts[i][..need]];
    if e < |ts| {
      CutAcross(ts, i, need, e, d, size);
      assert r[e..] == [ts[e][d..]] + ts[e + 1..];
    } else {
      StartEnds(ts);
      CutToEnd(ts, i, need, size);
      assert r[e..] == [];
      assert r[..i + 1] + r[e..] == ts[..i] + [ts[i][..need]];
    }
  }

  /** A cut of three bytes that begins with the first of two two-byte blocks overruns the first. */
  lemma OverrunsTwoBlocks()
    ensures OverrunsAtStart([[1, 2], [3, 4]], 0, 3) && WhollyEaten([[1, 2], [3, 4]], 0, 0, 3)
  {
    StartEnds([[1, 2], [3, 4]]);
    assert [[1, 2], [3, 4]][0] == [1 as byte, 2];
  }

  /** The bytes from byte `off` of block `k` on. */
  function Rest(ts: seq<seq<byte>>, k: nat, off: nat): seq<byte>
    requires k <= |ts| && off <= |Flatten(ts[k..])|
  {
    Flatten(ts[k..])[off..]
  }

  lemma RestSplits(ts: seq<seq<byte>>, k: nat, off: nat)
    requires k < |ts| && off <= |ts[k]|
    ensures off <= |Flatten(ts[k..])|
    ensures Rest(ts, k, off) == ts[k][off..] + Rest(ts, k + 1, 0)
  {
    assert ts[k..][0] == ts[k] && ts[k..][1..] == ts[k + 1..];
  }

  lemma RestWithin(ts: seq<seq<byte>>, k: nat, off: nat, n: nat)
    requires k < |ts| && off + n <= |ts[k]|
    ensures off + n <= |Flatten(ts[k..])|
    ensures Rest(ts, k, off) == ts[k][off..off + n] + Rest(ts, k, off + n)
  {
    RestSplits(ts, k, off);
    RestSplits(ts, k, off + n);
    assert ts[k][off..] == ts[k][off..off + n] + ts[k][off + n..];
  }

  lemma RestEnds(ts: seq<seq<byte>>)
    ensures Rest(ts, |ts|, 0) == [] && Rest(ts, 0, 0) == Flatten(ts)
  {
    assert ts[0..] == ts;
  }
}
