/**
 * Reference-counted memory blocks and the chained windows onto them.
 * Pointers into a block are offsets from the block's base. Every method takes, as ghost data,
 * the objects not yet deleted and the chain it works on.
 */
module Buffers {
  import opened BufBlkTheory

  /** The objects not yet deleted. `delete` takes an object out of these sets. */
  datatype Live = Live(bufs: set<BufBlk>, mems: set<MemBlk>)

  /** A chunk of memory that counts how many windows look at it. */
  class MemBlk {
    const base: array<byte>
    var refCount: int

    constructor (size: nat)
      ensures fresh(base) && base.Length == size && refCount == 1
    {
      refCount := 1;
      base := new byte[size];
    }

    method Checkout()
      modifies `refCount
      ensures refCount == old(refCount) + 1
    {
      refCount := refCount + 1;
    }

    /** Gives up one count, and deletes the block exactly when that was the last. */
    method Release(ghost live: Live) returns (ghost now: Live)
      modifies `refCount
      ensures refCount == old(refCount) - 1
      ensures now == if old(refCount) <= 1 then live.(mems := live.mems - {this}) else live
    {
      var remove := false;
      refCount := refCount - 1;
      if refCount < 1 {
        remove := true;
      }
      now := live;
      if remove {
        now := live.(mems := live.mems - {this});
      }
    }

    method DeepCopy() returns (r: MemBlk)
      ensures fresh(r) && fresh(r.base) && r.base[..] == base[..] && r.refCount == 1
    {
      r := new MemBlk(base.Length);
      forall i | 0 <= i < base.Length {
        r.base[i] := base[i];
      }
    }
  }

  /** `now` has `b` and its memory besides what there was. */
  ghost predicate Adds(live: Live, now: Live, b: BufBlk)
    reads b`blk
  {
    b.blk != null && now == Live(live.bufs + {b}, live.mems + {b.blk})
  }

  lemma AddsIs(live: Live, now: Live, b: BufBlk)
    requires b.blk != null && now == Live(live.bufs + {b}, live.mems + {b.blk})
    ensures Adds(live, now, b)
  {
  }

  /** What a window shows: which part of which memory. */
  datatype View = View(mem: MemBlk?, rd: int, wr: int)

  /** The readable bytes of one window. */
  function Text(b: BufBlk): seq<byte>
    reads b`blk, b`rdPtr, b`wrPtr, b.Memory()
  {
    if b.blk != null && 0 <= b.rdPtr <= b.wrPtr <= b.blk.base.Length
    then b.blk.base[b.rdPtr..b.wrPtr]
    else []
  }

  function Texts(s: seq<BufBlk>): (ts: seq<seq<byte>>)
    reads s`blk, s`rdPtr, s`wrPtr, Arrays(s)
    ensures |ts| == |s|
    ensures forall k :: 0 <= k < |s| ==> ts[k] == Text(s[k])
    decreases |s|
  {
    hide Text, Arrays;
    if s == [] then []
    else
      ArraysOfRest(s);
      [Text(s[0])] + Texts(s[1..])
  }

  lemma ArraysOfRest(s: seq<BufBlk>)
    requires s != []
    ensures Arrays(s[1..]) <= Arrays(s) && s[0].Memory() <= Arrays(s)
  {
    assert forall k :: 0 <= k < |s| - 1 ==> s[1..][k] == s[k + 1];
  }

  function Arrays(s: seq<BufBlk>): (r: set<array<byte>>)
    reads s`blk
    ensures forall k :: 0 <= k < |s| ==> s[k].Memory() <= r
  {
    set k, o | 0 <= k < |s| && o in s[k].Memory() :: o
  }

  ghost function Bytes(s: seq<BufBlk>): seq<byte>
    reads s`blk, s`rdPtr, s`wrPtr, Arrays(s)
  {
    Flatten(Texts(s))
  }

  ghost function Objs(s: seq<BufBlk>): set<BufBlk> {
    set b | b in s
  }

  lemma ObjsAre(s: seq<BufBlk>)
    ensures forall b :: b in Objs(s) <==> b in s
  {
  }

  /** `s` lists, in order and once each, the windows reached from `h` by `nextblk`. */
  ghost predicate Chain(h: BufBlk?, s: seq<BufBlk>)
    reads s`nextblk
  {
    && h == NodeAt(s, 0)
    && (forall k :: 0 <= k < |s| ==> s[k].nextblk == NodeAt(s, k + 1))
    && Distinct(s)
  }

  ghost predicate Distinct(s: seq<BufBlk>) {
    forall j, k :: 0 <= j < k < |s| ==> s[j] != s[k]
  }

  lemma DistinctAppend(s: seq<BufBlk>, t: seq<BufBlk>)
    requires Distinct(s) && Distinct(t) && Objs(s) !! Objs(t)
    ensures Distinct(s + t)
  {
    forall j, k | 0 <= j < k < |s + t| ensures (s + t)[j] != (s + t)[k] {
      if j < |s| <= k {
        assert s[j] in Objs(s) && t[k - |s|] in Objs(t);
      }
    }
  }

  ghost function NodeAt(s: seq<BufBlk>, k: nat): BufBlk? {
    if k < |s| then s[k] else null
  }

  lemma NodeIs(s: seq<BufBlk>, k: nat)
    ensures NodeAt(s, k) == if k < |s| then s[k] else null
  {
  }

  lemma ChainSpelled(h: BufBlk?, s: seq<BufBlk>, bufs: set<BufBlk>)
    requires Chain(h, s) && Objs(s) <= bufs
    ensures h == NodeAt(s, 0)
    ensures forall k :: 0 <= k < |s| ==> s[k].nextblk == NodeAt(s, k + 1)
    ensures forall k :: 0 <= k < |s| ==> s[k] in bufs
    ensures Distinct(s)
  {
    InChain(s, bufs);
  }

  /** Windows that show the same show the same bytes. */
  lemma SameBytes(c: seq<BufBlk>, s: seq<BufBlk>)
    requires SameWindows(c, s)
    ensures Texts(c) == Texts(s) && Bytes(c) == Bytes(s)
  {
  }

  /** Deep copies show the same bytes. */
  lemma DeepBytes(c: seq<BufBlk>, s: seq<BufBlk>)
    requires DeepCopies(c, s)
    ensures Texts(c) == Texts(s) && Bytes(c) == Bytes(s)
  {
    forall k | 0 <= k < |s| ensures Text(c[k]) == Text(s[k]) {
      assert DeepCopyOf(c[k], s[k]);
    }
  }

  lemma NothingCopied(s: seq<BufBlk>)
    ensures DeepFirst([], s) && OwnMemory([]) && LookInto([], {})
  {
  }

  lemma ArraysHave(s: seq<BufBlk>, i: nat)
    requires i < |s|
    ensures s[i].blk != null ==> s[i].blk.base in Arrays(s) && s[i].Memory() == {s[i].blk.base}
  {
  }

  lemma ArraysAllocated(s: seq<BufBlk>)
    ensures allocated(Arrays(s))
  {
  }

  lemma ChainFits(s: seq<BufBlk>, live: Live)
    requires Sound(live) && Objs(s) <= live.bufs
    ensures forall k :: 0 <= k < |s| ==> s[k].Fits() && s[k] in live.bufs
  {
    InChain(s, live.bufs);
  }

  lemma TextsInPlace(s: seq<BufBlk>, live: Live)
    requires Sound(live) && Objs(s) <= live.bufs
    ensures |Texts(s)| == |s| && forall k :: 0 <= k < |s| ==> Texts(s)[k] == Text(s[k])
    ensures forall k :: 0 <= k < |s| ==> |Text(s[k])| == s[k].Length()
    ensures allocated(Arrays(s))
  {
    InChain(s, live.bufs);
  }

  lemma SliceText(b: BufBlk, o: BufBlk, need: nat, size: nat)
    requires b.blk == o.blk && o.blk != null && o.Fits() && need + size <= |Text(o)|
    requires b.rdPtr == o.rdPtr + need && b.wrPtr == b.rdPtr + size
    ensures b.Fits() && Text(b) == Text(o)[need..need + size]
  {
    ghost var a := o.blk.base[..];
    assert Text(o) == a[o.rdPtr..o.wrPtr] && Text(b) == a[b.rdPtr..b.wrPtr];
  }

  /** `b` holds the bytes `[from, to)` of the chain `s`. */
  ghost predicate Gathered(b: BufBlk, s: seq<BufBlk>, from: nat, to: nat)
    reads b`blk, b`rdPtr, b`wrPtr, b.Memory(), s`blk, s`rdPtr, s`wrPtr, Arrays(s)
  {
    from <= to <= |Bytes(s)| && Text(b) == Bytes(s)[from..to]
  }

  lemma GatheredFits(b: BufBlk, s: seq<BufBlk>, from: nat, to: nat)
    requires Gathered(b, s, from, to)
    ensures from <= to <= |Bytes(s)| && Text(b) == Bytes(s)[from..to]
  {
  }

  lemma TailGathered(b: BufBlk, s: seq<BufBlk>, i: nat, need: nat)
    requires i < |s| && need <= |Text(s[i])| && Text(b) == Text(s[i])[need..]
    ensures Gathered(b, s, Start(Texts(s), i) + need, Start(Texts(s), i + 1))
  {
    hide Flatten, Start, Texts, Text;
    StartNext(Texts(s), i);
    SliceInside(Texts(s), i, need, |Texts(s)[i]| - need);
  }

  lemma TextIs(b: BufBlk)
    requires b.Fits()
    ensures |Text(b)| == b.Length()
    ensures b.blk == null ==> Text(b) == []
    ensures b.blk != null ==> Text(b) == b.blk.base[..][b.rdPtr..b.wrPtr]
  {
  }

  lemma Appended(was: seq<byte>, now: seq<byte>, rd: nat, at: nat, src: seq<byte>)
    requires rd <= at && at + |src| <= |was| == |now|
    requires now[..at] == was[..at] && now[at..at + |src|] == src
    ensures now[rd..at + |src|] == was[rd..at] + src
  {
    assert now[rd..at + |src|] == now[..at][rd..] + now[at..at + |src|];
  }

  lemma PrefixOfSlice(t: seq<byte>, rd: nat, wr: nat, size: nat)
    requires rd + size <= wr <= |t|
    ensures t[rd..wr][..wr - rd - size] == t[rd..wr - size]
  {
  }

  lemma RestOfSlice(t: seq<byte>, rd: nat, wr: nat, size: nat)
    requires rd + size <= wr <= |t|
    ensures t[rd..wr][size..] == t[rd + size..wr]
  {
  }

  /** The memory `m` with a copy of the `n` bytes from `from` on at `to`. */
  function Copied(m: seq<byte>, to: nat, from: nat, n: nat): seq<byte>
    requires to + n <= |m| && from + n <= |m|
  {
    m[..to] + m[from..from + n] + m[to + n..]
  }

  /** What becomes of `was[rd..wr]` when its part behind `need` moves `size` to the left. */
  lemma MovedText(was: seq<byte>, rd: nat, wr: nat, need: nat, size: nat)
    requires rd + need + size <= wr <= |was|
    ensures Copied(was, rd + need, rd + need + size, wr - rd - size - need) == MovedDown(was, rd + need, size, wr)
    ensures MovedDown(was, rd + need, size, wr)[rd..wr - size] == was[rd..wr][..need] + was[rd..wr][need + size..]
  {
  }

  lemma Others(s: seq<BufBlk>, i: nat)
    requires i < |s| && Distinct(s) && OwnMemory(s)
    ensures forall k :: 0 <= k < |s| && k != i ==> s[k] != s[i] && s[k].Memory() !! s[i].Memory()
  {
  }

  function Without(s: seq<BufBlk>, a: nat, b: nat): seq<BufBlk>
    requires a <= b <= |s|
  {
    s[..a] + s[b..]
  }

  lemma WithoutAt(s: seq<BufBlk>, a: nat, b: nat, k: nat)
    requires a <= b <= |s| && k < |s| - (b - a)
    ensures |Without(s, a, b)| == |s| - (b - a)
    ensures Without(s, a, b)[k] == s[if k < a then k else k - a + b]
  {
  }

  /** What unlinking `s[a..b]` leaves is a chain. */
  lemma UnlinkedRest(s: seq<BufBlk>, a: nat, b: nat)
    requires a < b <= |s| && Distinct(s)
    requires forall k :: 0 <= k < |s| && k != a - 1 && k != b - 1 ==> s[k].nextblk == NodeAt(s, k + 1)
    requires a > 0 ==> s[a - 1].nextblk == NodeAt(s, b)
    ensures Chain(NodeAt(s, if a > 0 then 0 else b), Without(s, a, b))
  {
    hide NodeAt, Without, Distinct;
    var rest := Without(s, a, b);
    WithoutLength(s, a, b);
    forall k | 0 <= k < |rest| ensures rest[k].nextblk == NodeAt(rest, k + 1) {
      NodeOfRest(s, a, b, k);
    }
    NodeIs(rest, 0);
    NodeIs(s, 0);
    NodeIs(s, b);
    if rest != [] {
      WithoutAt(s, a, b, 0);
    }
    DistinctWithout(s, a, b);
  }

  lemma NodeOfRest(s: seq<BufBlk>, a: nat, b: nat, k: nat)
    requires a < b <= |s| && k < |s| - (b - a)
    ensures |Without(s, a, b)| == |s| - (b - a)
    ensures k < a ==> Without(s, a, b)[k] == s[k]
    ensures k >= a ==> Without(s, a, b)[k] == s[k - a + b]
    ensures k + 1 < a ==> NodeAt(Without(s, a, b), k + 1) == NodeAt(s, k + 1)
    ensures k + 1 == a ==> NodeAt(Without(s, a, b), k + 1) == NodeAt(s, b)
    ensures k + 1 > a ==> NodeAt(Without(s, a, b), k + 1) == NodeAt(s, k - a + b + 1)
  {
    WithoutAt(s, a, b, k);
    if k + 1 < |s| - (b - a) {
      WithoutAt(s, a, b, k + 1);
    }
  }

  lemma DistinctWithout(s: seq<BufBlk>, a: nat, b: nat)
    requires a <= b <= |s| && Distinct(s)
    ensures Distinct(Without(s, a, b))
  {
    var rest := Without(s, a, b);
    forall j, k | 0 <= j < k < |rest| ensures rest[j] != rest[k] {
      WithoutAt(s, a, b, j);
      WithoutAt(s, a, b, k);
    }
  }

  /** What unlinking `s[a..b]` takes out is a chain. */
  lemma UnlinkedPart(s: seq<BufBlk>, a: nat, b: nat)
    requires a < b <= |s| && Distinct(s)
    requires forall k :: a <= k < b - 1 ==> s[k].nextblk == NodeAt(s, k + 1)
    requires s[b - 1].nextblk == null
    ensures Chain(s[a], s[a..b]) && Objs(s[a..b]) <= Objs(s)
  {
    hide NodeAt;
    var part := s[a..b];
    forall k | 0 <= k < |part| ensures part[k].nextblk == NodeAt(part, k + 1) {
      NodeIs(part, k + 1);
      NodeIs(s, a + k + 1);
      assert part[k] == s[a + k];
    }
    NodeIs(part, 0);
  }

  lemma NothingWithout(s: seq<BufBlk>, a: nat)
    requires a <= |s|
    ensures Without(s, a, a) == s && s[a..a] == [] && Objs(s[a..a]) == {}
  {
  }

  lemma NoOtherSpot(s: seq<BufBlk>, j: nat)
    requires j < |s| && Distinct(s)
    ensures forall k :: 0 <= k < |s| && k != j ==> s[k] != s[j]
  {
  }

  lemma SameSpot(s: seq<BufBlk>, j: nat, k: nat)
    requires j < |s| && k < |s| && Distinct(s) && s[j] == s[k]
    ensures j == k
  {
  }

  lemma ApartAfter(s: seq<BufBlk>, a: nat, b: nat)
    requires a <= b <= |s| && Distinct(s)
    ensures allocated(Without(s, a, b))
    ensures forall j, k :: 0 <= j < |Without(s, a, b)| && 0 <= k < |s[a..b]| ==>
      Without(s, a, b)[j] != s[a..b][k]
  {
    forall j, k | 0 <= j < |Without(s, a, b)| && 0 <= k < |s[a..b]|
      ensures Without(s, a, b)[j] != s[a..b][k]
    {
      WithoutAt(s, a, b, j);
    }
  }

  lemma TextsWithout(s: seq<BufBlk>, a: nat, b: nat)
    requires a <= b <= |s|
    ensures Texts(Without(s, a, b)) == Texts(s)[..a] + Texts(s)[b..]
  {
    hide *;
    WithoutLength(s, a, b);
    TextsHave(s);
    TextsHave(Without(s, a, b));
    forall k | 0 <= k < |s| - (b - a)
      ensures Texts(Without(s, a, b))[k] == Texts(s)[if k < a then k else k - a + b]
    {
      WithoutAt(s, a, b, k);
    }
    SplitOut(Texts(Without(s, a, b)), Texts(s), a, b);
  }

  lemma SplitOut(r: seq<seq<byte>>, ts: seq<seq<byte>>, a: nat, b: nat)
    requires a <= b <= |ts| && |r| == |ts| - (b - a)
    requires forall k :: 0 <= k < |r| ==> r[k] == ts[if k < a then k else k - a + b]
    ensures r == ts[..a] + ts[b..]
  {
  }

  lemma WithoutLength(s: seq<BufBlk>, a: nat, b: nat)
    requires a <= b <= |s|
    ensures |Without(s, a, b)| == |s| - (b - a)
  {
  }

  lemma ChainLinks(h: BufBlk?, s: seq<BufBlk>)
    requires Chain(h, s)
    ensures h == NodeAt(s, 0) && forall k :: 0 <= k < |s| ==> s[k].nextblk == NodeAt(s, k + 1)
  {
  }

  lemma TextsFit(s: seq<BufBlk>)
    requires forall k :: 0 <= k < |s| ==> s[k].Fits()
    ensures |Texts(s)| == |s| && forall k :: 0 <= k < |s| ==> Texts(s)[k] == Text(s[k])
    ensures forall k :: 0 <= k < |s| ==> |Text(s[k])| == s[k].Length()
  {
  }

  lemma TextsHave(s: seq<BufBlk>)
    ensures |Texts(s)| == |s| && forall k :: 0 <= k < |s| ==> Texts(s)[k] == Text(s[k])
  {
  }

  /** Of the windows of `s` exactly those wholly inside the cut are gone. */
  ghost predicate EatsExactly(s: seq<BufBlk>, ts: seq<seq<byte>>, from: nat, size: nat, bufs: set<BufBlk>)
    requires |ts| == |s|
  {
    forall k :: 0 <= k < |s| ==> (s[k] in bufs <==> !WhollyEaten(ts, k, from, size))
  }

  lemma StaysUneaten(s: seq<BufBlk>, ts: seq<seq<byte>>, k: nat, from: nat, size: nat, bufs: set<BufBlk>)
    requires |ts| == |s| && k < |s| && s[k] in bufs && WhollyEaten(ts, k, from, size)
    ensures !EatsExactly(s, ts, from, size, bufs)
  {
  }

  lemma RangeEaten(s: seq<BufBlk>, ts: seq<seq<byte>>, a: nat, b: nat, from: nat, size: nat,
      bufs: set<BufBlk>)
    requires |ts| == |s| && Distinct(s) && Objs(s) <= bufs && EatenRange(ts, a, b, from, size)
    ensures EatsExactly(s, ts, from, size, bufs - Objs(s[a..b]))
  {
    InChain(s, bufs);
    forall k | 0 <= k < |s| ensures s[k] in Objs(s[a..b]) <==> a <= k < b {
      if a <= k < b {
        assert s[k] == s[a..b][k - a];
      }
    }
  }

  lemma EatsTwo(ts: seq<seq<byte>>, i: nat, size: nat, e: nat, d: nat)
    requires StopsAt(ts, i, 0, size, e, d)
    ensures WhollyEaten(ts, i, Start(ts, i), size)
    ensures i + 1 < e ==> WhollyEaten(ts, i + 1, Start(ts, i), size)
  {
    EatenAcross(ts, i, 0, e, d, size);
  }

  /** The chain that is released when the links of `s[i]` skip to `s[e]`. */
  lemma SkippedChain(s: seq<BufBlk>, i: nat, e: nat)
    requires i < e <= |s| && Distinct(s) && s[i].nextblk == NodeAt(s, e)
    requires forall k :: e <= k < |s| ==> s[k].nextblk == NodeAt(s, k + 1)
    ensures Chain(s[i], [s[i]] + s[e..]) && Objs([s[i]] + s[e..]) <= Objs(s)
    ensures i + 1 < e ==> s[i + 1] !in Objs([s[i]] + s[e..])
  {
    hide NodeAt;
    var c := [s[i]] + s[e..];
    forall k | 0 <= k < |c| ensures c[k].nextblk == NodeAt(c, k + 1) {
      NodeIs(c, k + 1);
      NodeIs(s, e + k);
      assert k > 0 ==> c[k] == s[e + k - 1];
    }
    NodeIs(c, 0);
  }

  /** What a cut from the first byte of `s[i]` to somewhere in `s[e]` releases. */
  ghost function Dropped(s: seq<BufBlk>, i: nat, e: nat): set<BufBlk>
    requires i < e <= |s|
  {
    if e == i + 1 then {} else Objs([s[i]] + s[e..])
  }

  lemma DroppedIs(s: seq<BufBlk>, i: nat, e: nat)
    requires i < e <= |s|
    ensures Dropped(s, i, e) == if e == i + 1 then {} else Objs([s[i]] + s[e..])
  {
  }

  lemma IsRun(ts: seq<seq<byte>>, i: nat, size: nat, e: nat, d: nat)
    requires StopsAt(ts, i, 0, size, e, d)
    ensures RunsTo(ts, i, size, e)
  {
  }

  lemma BytesAre(s: seq<BufBlk>)
    ensures Bytes(s) == Flatten(Texts(s))
  {
  }

  lemma LastIsNew(h: BufBlk, c: seq<BufBlk>, b: BufBlk)
    requires Chain(h, c + [b])
    ensures forall k :: 0 <= k < |c| ==> c[k] != b
  {
    forall k | 0 <= k < |c| ensures c[k] != b {
      assert (c + [b])[k] != (c + [b])[|c|];
    }
  }

  lemma DeepIsAll(c: seq<BufBlk>, s: seq<BufBlk>)
    requires DeepFirst(c, s) && |c| == |s|
    ensures DeepCopies(c, s)
  {
  }

  lemma DeepGrows(c: seq<BufBlk>, s: seq<BufBlk>, b: BufBlk)
    requires DeepFirst(c, s) && |c| < |s| && DeepCopyOf(b, s[|c|])
    ensures DeepFirst(c + [b], s)
  {
  }

  lemma MemoryGrows(c: seq<BufBlk>, b: BufBlk, mems: set<MemBlk>, more: set<MemBlk>)
    requires OwnMemory(c) && LookInto(c, mems)
    requires mems <= more && (b.blk == null || b.blk in more)
    requires forall m :: m in mems && b.blk != null ==> m.base != b.blk.base
    ensures OwnMemory(c + [b]) && LookInto(c + [b], more)
  {
  }

  lemma FirstWindow(b: BufBlk, s: seq<BufBlk>)
    requires s != [] && b.Shows() == s[0].Shows()
    ensures FirstWindows([b], s)
  {
  }

  lemma FirstGrows(c: seq<BufBlk>, s: seq<BufBlk>, b: BufBlk)
    requires FirstWindows(c, s) && |c| < |s| && b.Shows() == s[|c|].Shows()
    ensures FirstWindows(c + [b], s)
  {
  }

  lemma FirstIsSame(c: seq<BufBlk>, s: seq<BufBlk>)
    requires FirstWindows(c, s) && |c| == |s|
    ensures SameWindows(c, s)
  {
  }

  lemma OneIsChain(b: BufBlk)
    requires b.nextblk == null
    ensures Chain(b, [b]) && Objs([b]) == {b}
  {
  }

  lemma ObjsGrow(s: seq<BufBlk>, b: BufBlk)
    ensures Objs(s + [b]) == Objs(s) + {b}
    ensures b !in Objs(s) ==> Objs(s) !! Objs([b])
  {
  }

  lemma InChain(s: seq<BufBlk>, bufs: set<BufBlk>)
    requires Objs(s) <= bufs
    ensures forall k :: 0 <= k < |s| ==> s[k] in bufs
  {
    assert forall k :: 0 <= k < |s| ==> s[k] in Objs(s);
  }

  lemma LinkedAppend(h: BufBlk, last: BufBlk, s: seq<BufBlk>, b: BufBlk?, t: seq<BufBlk>)
    requires s != [] && h == s[0] && last == s[|s| - 1] && last.nextblk == b && b == NodeAt(t, 0)
    requires forall k :: 0 <= k < |s| - 1 ==> s[k].nextblk == s[k + 1]
    requires forall k :: 0 <= k < |t| ==> t[k].nextblk == NodeAt(t, k + 1)
    requires Distinct(s + t)
    ensures Chain(h, s + t)
  {
    hide Distinct;
    forall k | 0 <= k < |s + t| ensures (s + t)[k].nextblk == NodeAt(s + t, k + 1) {
      if k >= |s| {
        assert (s + t)[k] == t[k - |s|];
      } else if k < |s| - 1 {
        assert (s + t)[k] == s[k];
      }
    }
  }

  /** The windows of `c` show, one by one, what the first of `s` show. */
  ghost predicate FirstWindows(c: seq<BufBlk>, s: seq<BufBlk>)
    reads c`blk, c`rdPtr, c`wrPtr, s`blk, s`rdPtr, s`wrPtr
  {
    |c| <= |s| && forall k :: 0 <= k < |c| ==> c[k].Shows() == s[k].Shows()
  }

  /** The windows of `c` show, one by one, what those of `s` show. */
  ghost predicate SameWindows(c: seq<BufBlk>, s: seq<BufBlk>)
    reads c`blk, c`rdPtr, c`wrPtr, s`blk, s`rdPtr, s`wrPtr
  {
    |c| == |s| && FirstWindows(c, s)
  }

  /** `b` shows that part of the window of `s` in which the bytes begin and end, if there is one. */
  ghost predicate SharesWith(b: BufBlk, s: seq<BufBlk>, from: nat, size: nat)
    reads b`blk, b`rdPtr, b`wrPtr, s`blk, s`rdPtr, s`wrPtr, Arrays(s)
  {
    forall j :: 0 <= j < |s| && InBlock(Texts(s), j, from, size) ==>
      b.Shows() == PartOf(s[j].Shows(), from - Start(Texts(s), j), size)
  }

  /** `size` bytes of the window `v`, from its byte `n` on. */
  function PartOf(v: View, n: int, size: int): View { View(v.mem, v.rd + n, v.rd + n + size) }

  ghost predicate NoSingle(s: seq<BufBlk>, from: nat, size: nat)
    reads s`blk, s`rdPtr, s`wrPtr, Arrays(s)
  {
    forall j :: 0 <= j < |s| ==> !InBlock(Texts(s), j, from, size)
  }

  lemma SharesOne(b: BufBlk, s: seq<BufBlk>, i: nat, need: nat, from: nat, size: nat)
    requires i < |s| && need + size <= |Text(s[i])| && need < |Text(s[i])| && Start(Texts(s), i) + need == from
    requires b.Shows() == PartOf(s[i].Shows(), need, size)
    ensures SharesWith(b, s, from, size) && !NoSingle(s, from, size)
  {
    hide Text, InBlock, Start, PartOf;
    BlockOf(Texts(s), i, need, from, size);
  }

  lemma SharesNone(b: BufBlk, s: seq<BufBlk>, i: nat, need: nat, from: nat, size: nat)
    requires i < |s| && need < |Text(s[i])| < need + size && Start(Texts(s), i) + need == from
    ensures SharesWith(b, s, from, size) && NoSingle(s, from, size)
  {
    hide Text, InBlock, Start;
    BlockOf(Texts(s), i, need, from, size);
  }

  /** The windows that look at `m`. */
  ghost function Holders(bufs: set<BufBlk>, m: MemBlk): set<BufBlk>
    reads bufs`blk
  {
    set b | b in bufs && b.blk == m
  }

  lemma HoldersGrow(bufs: set<BufBlk>, b: BufBlk, m: MemBlk)
    requires b !in bufs
    ensures |Holders(bufs + {b}, m)| == |Holders(bufs, m)| + if b.blk == m then 1 else 0
  {
    if b.blk == m {
      assert Holders(bufs + {b}, m) == Holders(bufs, m) + {b};
    } else {
      assert Holders(bufs + {b}, m) == Holders(bufs, m);
    }
  }

  /** Every window lies inside the memory it looks at, and that memory is not deleted. */
  ghost predicate Windows(bufs: set<BufBlk>, mems: set<MemBlk>)
    reads bufs`blk, bufs`rdPtr, bufs`wrPtr
  {
    forall b :: b in bufs ==> b.Fits() && (b.blk == null || b.blk in mems)
  }

  /** `b` shows the same part of a copy of the memory `o` looks at. */
  ghost predicate DeepCopyOf(b: BufBlk, o: BufBlk)
    reads b`blk, b`rdPtr, b`wrPtr, o`blk, o`rdPtr, o`wrPtr, b.Memory(), o.Memory()
  {
    && b.rdPtr == o.rdPtr && b.wrPtr == o.wrPtr
    && (b.blk == null <==> o.blk == null)
    && (b.blk != null ==> b.blk.base[..] == o.blk.base[..])
  }

  /** `c` holds, window by window, deep copies of the first of `s`. */
  ghost predicate DeepFirst(c: seq<BufBlk>, s: seq<BufBlk>)
    reads c`blk, c`rdPtr, c`wrPtr, Arrays(c), s`blk, s`rdPtr, s`wrPtr, Arrays(s)
  {
    forall k :: 0 <= k < |c| ==> k < |s| && DeepCopyOf(c[k], s[k])
  }

  ghost predicate DeepCopies(c: seq<BufBlk>, s: seq<BufBlk>)
    reads c`blk, c`rdPtr, c`wrPtr, Arrays(c), s`blk, s`rdPtr, s`wrPtr, Arrays(s)
  {
    |c| == |s| && DeepFirst(c, s)
  }

  /** What each window shows. */
  function Views(s: seq<BufBlk>): (vs: seq<View>)
    reads s`blk, s`rdPtr, s`wrPtr
    ensures |vs| == |s|
    ensures forall k :: 0 <= k < |s| ==> vs[k] == s[k].Shows()
  {
    if s == [] then [] else [s[0].Shows()] + Views(s[1..])
  }

  /** The window `v` without the bytes `[lo, hi)` of those it shows. */
  function CutView(v: View, lo: nat, hi: nat): View {
    if lo == 0 then v.(rd := v.rd + hi) else v.(wr := v.wr - (hi - lo))
  }

  /** The views when the `k`-th, if there is one, has lost its first `n` bytes, or its last. */
  function Forwarded(vs: seq<View>, k: nat, n: int): (ws: seq<View>)
    ensures |ws| == |vs|
  {
    if k < |vs| then vs[k := vs[k].(rd := vs[k].rd + n)] else vs
  }

  function Shortened(vs: seq<View>, k: nat, n: int): (ws: seq<View>)
    ensures |ws| == |vs|
  {
    if k < |vs| then vs[k := vs[k].(wr := vs[k].wr - n)] else vs
  }

  lemma ShortenedIsCut(vs: seq<View>, i: nat, need: nat, size: nat)
    requires i < |vs| && need > 0
    ensures Shortened(vs, i, size) == vs[i := CutView(vs[i], need, need + size)]
  {
  }

  lemma OneObj(s: seq<BufBlk>, i: nat)
    requires i < |s|
    ensures s[i] in Objs(s[i..i + 1])
  {
    assert s[i..i + 1][0] == s[i];
  }

  lemma NothingForwarded(vs: seq<View>, k: nat)
    ensures Forwarded(vs, k, 0) == vs
  {
  }

  /** The windows of `s` after the first part of a cut from the `i`-th on, which keeps `need` bytes of it. */
  ghost predicate TrimShows(s: seq<BufBlk>, vs: seq<View>, ts: seq<seq<byte>>, i: nat, need: nat, e: nat, d: nat)
    requires |vs| == |ts| == |s| && i < |s|
    reads s`blk, s`rdPtr, s`wrPtr
  {
    forall k :: 0 <= k < |s| ==>
      s[k].Shows() == (if k == i && need > 0 then vs[k].(wr := vs[k].wr - (|ts[i]| - need))
                       else if k == e then vs[k].(rd := vs[k].rd + d) else vs[k])
  }

  lemma TrimIsCut(s: seq<BufBlk>, vs: seq<View>, ts: seq<seq<byte>>, i: nat, need: nat, size: nat, e: nat, d: nat,
      bufs: set<BufBlk>)
    requires |vs| == |ts| == |s| && i < |s| && need > 0 && Distinct(s)
    requires StopsAt(ts, i, need, size, e, d) && (e < |ts| ==> d <= |ts[e]|)
    requires TrimShows(s, vs, ts, i, need, e, d) && bufs !! Objs(s[i + 1..e])
    ensures AreCut(s, Views(s), vs, ts, Start(ts, i) + need, size, bufs)
  {
    hide Upto, Start, Distinct;
    forall k | i < k < e ensures s[k] !in bufs {
      assert s[k] == s[i + 1..e][k - i - 1];
    }
    forall k | 0 <= k < |s| && s[k] in bufs
      ensures s[k].Shows() == CutView(vs[k], Upto(ts, k, Start(ts, i) + need), Upto(ts, k, Start(ts, i) + need + size))
    {
      UptoAcross(ts, i, need, size, e, d, k);
    }
  }

  lemma TrimInSteps(s: seq<BufBlk>, vs: seq<View>, mid: seq<View>, ts: seq<seq<byte>>, i: nat, need: nat, e: nat,
      d: nat)
    requires |mid| == |vs| == |ts| == |s| && i < |s| && i < e
    requires mid == if need > 0 then Shortened(vs, i, |ts[i]| - need) else vs
    requires Views(s) == Forwarded(mid, e, d)
    ensures TrimShows(s, vs, ts, i, need, e, d)
  {
    hide Views;
    ViewsAre(s);
  }

  /** The views `ws` of those of `s` that are left are what a cut leaves of their views `vs` and texts `ts`. */
  ghost predicate AreCut(s: seq<BufBlk>, ws: seq<View>, vs: seq<View>, ts: seq<seq<byte>>, from: nat, size: nat,
      bufs: set<BufBlk>)
  {
    forall k :: 0 <= k < |s| && s[k] in bufs ==>
      k < |ws| && k < |vs| && k < |ts| && ws[k] == CutView(vs[k], Upto(ts, k, from), Upto(ts, k, from + size))
  }

  /** A cut that stays in the `i`-th window. */
  lemma WithinIsCut(s: seq<BufBlk>, ws: seq<View>, vs: seq<View>, ts: seq<seq<byte>>, i: nat, need: nat, size: nat,
      bufs: set<BufBlk>)
    requires |ws| == |vs| == |ts| == |s| && i < |s| && need + size <= |ts[i]|
    requires forall k :: 0 <= k < |s| && k != i && s[k] in bufs ==> ws[k] == vs[k]
    requires s[i] in bufs ==> ws[i] == CutView(vs[i], need, need + size)
    ensures AreCut(s, ws, vs, ts, Start(ts, i) + need, size, bufs)
  {
    hide Upto, Start;
    forall k | 0 <= k < |s| && s[k] in bufs
      ensures ws[k] == CutView(vs[k], Upto(ts, k, Start(ts, i) + need), Upto(ts, k, Start(ts, i) + need + size))
    {
      UptoWithin(ts, i, need, size, k);
    }
  }

  /** A cut behind the last byte. */
  lemma NoneCut(s: seq<BufBlk>, vs: seq<View>, ts: seq<seq<byte>>, from: nat, size: nat, bufs: set<BufBlk>)
    requires |vs| == |ts| == |s| && |Flatten(ts)| <= from
    ensures AreCut(s, vs, vs, ts, from, size, bufs)
  {
    hide Upto;
    MovesNowhere(ts, from, size);
  }

  /** The windows of `s` that are among `bufs` show `ws`. */
  ghost predicate StillShow(s: seq<BufBlk>, ws: seq<View>, bufs: set<BufBlk>)
    reads s`blk, s`rdPtr, s`wrPtr
  {
    forall k :: 0 <= k < |s| && s[k] in bufs ==> k < |ws| && s[k].Shows() == ws[k]
  }

  lemma ShowSame(s: seq<BufBlk>, ws: seq<View>, bufs: set<BufBlk>)
    requires |ws| == |s| && forall k :: 0 <= k < |s| && s[k] in bufs ==> s[k].Shows() == ws[k]
    ensures StillShow(s, ws, bufs)
  {
  }

  lemma ShowsSpelled(s: seq<BufBlk>, ws: seq<View>, bufs: set<BufBlk>)
    requires StillShow(s, ws, bufs)
    ensures forall k :: 0 <= k < |s| && s[k] in bufs ==> k < |ws| && Views(s)[k] == ws[k]
  {
  }

  lemma StillCut(s: seq<BufBlk>, ws: seq<View>, vs: seq<View>, ts: seq<seq<byte>>, from: nat, size: nat,
      bufs: set<BufBlk>)
    requires |ws| == |vs| == |ts| == |s| && AreCut(s, ws, vs, ts, from, size, bufs)
    requires StillShow(s, ws, bufs)
    ensures AreCut(s, Views(s), vs, ts, from, size, bufs)
  {
  }

  lemma ViewsAre(s: seq<BufBlk>)
    ensures forall k :: 0 <= k < |s| ==> Views(s)[k] == s[k].Shows()
  {
  }

  /** No two windows of `s` look into the same memory. */
  ghost predicate OwnMemory(s: seq<BufBlk>)
    reads s`blk
  {
    forall j, k :: 0 <= j < k < |s| ==> s[j].Memory() !! s[k].Memory()
  }

  /** The windows of `s` look into memory of `mems` only. */
  ghost predicate LookInto(s: seq<BufBlk>, mems: set<MemBlk>)
    reads s`blk
  {
    forall k :: 0 <= k < |s| ==> s[k].blk == null || s[k].blk in mems
  }

  /**
   * What every operation keeps: the count of each memory block is the number of windows that
   * look at it, at least one, and no window looks at memory that is deleted.
   */
  ghost predicate Sound(l: Live)
    reads l.bufs`blk, l.bufs`rdPtr, l.bufs`wrPtr, l.mems`refCount
  {
    && Windows(l.bufs, l.mems)
    && forall m :: m in l.mems ==> m.refCount == |Holders(l.bufs, m)| > 0
  }

  lemma WindowOf(l: Live, b: BufBlk)
    requires Sound(l) && b in l.bufs
    ensures b.Fits() && (b.blk == null || b.blk in l.mems)
  {
  }

  /** Memory that is not yet allocated has no windows. */
  lemma NothingHolds(l: Live)
    requires Sound(l)
    ensures forall b, m :: b in l.bufs && b.blk == m ==> m == null || m in l.mems
    ensures forall m :: m !in l.mems ==> |Holders(l.bufs, m)| == 0
  {
  }

  lemma Leaves(l: Live, b: BufBlk)
    requires Sound(l) && b in l.bufs
    ensures Windows(l.bufs - {b}, l.mems)
    ensures forall m :: m in l.mems ==>
      |Holders(l.bufs, m)| == |Holders(l.bufs - {b}, m)| + (if b.blk == m then 1 else 0)
  {
    assert l.bufs - {b} + {b} == l.bufs;
    forall m | m in l.mems
      ensures |Holders(l.bufs, m)| == |Holders(l.bufs - {b}, m)| + if b.blk == m then 1 else 0
    {
      HoldersGrow(l.bufs - {b}, b, m);
    }
  }

  /** A new window that has counted itself in keeps every count right. */
  lemma Joins(bufs: set<BufBlk>, mems: set<MemBlk>, b: BufBlk, more: set<MemBlk>)
    requires Windows(bufs, mems) && b !in bufs
    requires b.Fits() && (b.blk == null || b.blk in mems + more)
    requires forall m :: m in mems + more ==>
      m.refCount == |Holders(bufs, m)| + (if b.blk == m then 1 else 0) > 0
    ensures Sound(Live(bufs + {b}, mems + more))
  {
    hide Holders;
    forall m | m in mems + more ensures m.refCount == |Holders(bufs + {b}, m)| {
      HoldersGrow(bufs, b, m);
    }
  }

  /** A memory block is there exactly as long as some window looks at it. */
  lemma AliveWhileHeld(l: Live, m: MemBlk)
    requires Sound(l)
    ensures m in l.mems <==> exists b :: b in l.bufs && b.blk == m
  {
    if m in l.mems {
      var b :| b in Holders(l.bufs, m);
      assert b in l.bufs && b.blk == m;
    }
  }

  /** A window onto a memory block, and the link to the window that follows it. */
  class BufBlk {
    var blk: MemBlk?
    var rdPtr: int
    var wrPtr: int
    var nextblk: BufBlk?

    function Memory(): set<array<byte>>
      reads `blk
    {
      if blk == null then {} else {blk.base}
    }

    function Shows(): View
      reads `blk, `rdPtr, `wrPtr
    {
      View(blk, rdPtr, wrPtr)
    }

    predicate Fits()
      reads `blk, `rdPtr, `wrPtr
    {
      if blk == null then rdPtr == 0 && wrPtr == 0
      else 0 <= rdPtr <= wrPtr <= blk.base.Length
    }

    constructor Empty()
      ensures blk == null && nextblk == null && rdPtr == 0 && wrPtr == 0
    {
      blk, rdPtr, wrPtr, nextblk := null, 0, 0, null;
    }

    constructor OnMemory(m: MemBlk)
      modifies m`refCount
      ensures blk == m && nextblk == null && rdPtr == 0 && wrPtr == 0
      ensures m.refCount == old(m.refCount) + 1
    {
      blk, rdPtr, wrPtr, nextblk := m, 0, 0, null;
      new;
      m.Checkout();
    }

    constructor (size: nat, next: BufBlk?)
      ensures blk != null && fresh(blk) && fresh(blk.base) && blk.base.Length == size
      ensures blk.refCount == 1
      ensures rdPtr == 0 && wrPtr == 0 && nextblk == next
    {
      blk, rdPtr, wrPtr, nextblk := null, 0, 0, next;
      new;
      blk := new MemBlk(size);
    }

    function Length(): int
      reads `rdPtr, `wrPtr
    {
      wrPtr - rdPtr
    }

    function Freespace(): int
      requires blk != null
      reads `blk, `wrPtr
    {
      blk.base.Length - wrPtr
    }

    /** Appends as much of `src` as there is room for behind the readable bytes. */
    method CopyFrom(src: seq<byte>, ghost live: Live) returns (n: nat)
      requires Sound(live) && this in live.bufs && blk != null
      modifies `wrPtr, blk.base
      ensures Sound(live)
      ensures n == if |src| <= old(Freespace()) then |src| else old(Freespace())
      ensures Freespace() == old(Freespace()) - n
      ensures Text(this) == old(Text(this)) + src[..n]
      ensures blk.base[..][..old(wrPtr)] == old(blk.base[..])[..old(wrPtr)]
      ensures blk.base[..][old(wrPtr)..wrPtr] == src[..n]
      ensures blk.base[..][wrPtr..] == old(blk.base[..])[wrPtr..]
    {
      hide Sound, Text;
      WindowOf(live, this);
      TextIs(this);
      n := |src|;
      if Freespace() < |src| {
        n := Freespace();
      }
      ghost var was := blk.base[..];
      var at := wrPtr;
      Fill(at, src[..n]);
      Appended(was, blk.base[..], rdPtr, at, src[..n]);
      IncWrPtr(n, live);
      TextIs(this);
    }

    /** Copies the bytes `src` into the memory from `at` on. */
    method Fill(at: nat, src: seq<byte>)
      requires blk != null && at + |src| <= blk.base.Length
      modifies blk.base
      ensures blk.base[..][..at] == old(blk.base[..])[..at]
      ensures blk.base[..][at..at + |src|] == src
      ensures blk.base[..][at + |src|..] == old(blk.base[..])[at + |src|..]
    {
      forall i | 0 <= i < |src| {
        blk.base[at + i] := src[i];
      }
    }

    method IncWrPtr(n: nat, ghost live: Live)
      requires Sound(live) && this in live.bufs && blk != null && wrPtr + n <= blk.base.Length
      modifies `wrPtr
      ensures Sound(live) && wrPtr == old(wrPtr) + n
    {
      hide Holders;
      WindowOf(live, this);
      wrPtr := wrPtr + n;
    }

    method TotalLength(ghost s: seq<BufBlk>) returns (n: int)
      requires Chain(this, s) && forall k :: 0 <= k < |s| ==> s[k].Fits()
      ensures n == |Bytes(s)|
    {
      hide Chain, NodeAt, Text, Texts, Bytes, Start, Flatten, Arrays;
      ChainLinks(this, s);
      StartEnds(Texts(s));
      NodeIs(s, 0);
      var look: BufBlk? := this;
      n := 0;
      ghost var i: nat := 0;
      while look != null
        invariant i <= |s| && look == NodeAt(s, i)
        invariant i <= |Texts(s)| && n == Start(Texts(s), i)
        decreases |s| - i
      {
        NodeIs(s, i);
        NodeIs(s, i + 1);
        TextsFit(s);
        StartNext(Texts(s), i);
        n := n + look.Length();
        look := look.nextblk;
        i := i + 1;
      }
      NodeIs(s, i);
      TextsFit(s);
      StartEnds(Texts(s));
      BytesAre(s);
    }

    /** Hangs the chain `t`, which begins with `b`, behind this last window of the chain `s`. */
    method SetNexblk(b: BufBlk?, ghost h: BufBlk, ghost s: seq<BufBlk>, ghost t: seq<BufBlk>,
        ghost live: Live)
      requires s != [] && this == s[|s| - 1]
      requires Chain(h, s) && Chain(b, t) && Objs(s) !! Objs(t) && Sound(live)
      modifies `nextblk
      ensures nextblk == b
      ensures Chain(h, s + t) && Sound(live)
    {
      assert forall k :: 0 <= k < |s| ==> s[k] in Objs(s);
      assert forall k :: 0 <= k < |t| ==> t[k] in Objs(t);
      DistinctAppend(s, t);
      nextblk := b;
      hide Distinct, Sound;
      LinkedAppend(h, this, s, b, t);
    }

    /** Hangs the chain `b` behind this chain. */
    method AddToEnd(b: BufBlk?, ghost s: seq<BufBlk>, ghost t: seq<BufBlk>, ghost live: Live)
      requires Chain(this, s) && Chain(b, t) && Objs(s) !! Objs(t) && Sound(live)
      modifies s`nextblk
      ensures Chain(this, s + t) && Sound(live)
    {
      hide Sound, Distinct, Objs;
      var look: BufBlk := this;
      ghost var i: nat := 0;
      while look.nextblk != null
        invariant i < |s| && look == s[i]
        modifies {}
        decreases |s| - i
      {
        look := look.nextblk;
        i := i + 1;
      }
      look.SetNexblk(b, this, s, t, live);
    }

    /** Gives up the memory this window looks at and deletes the window. */
    method LetGo(ghost live: Live) returns (ghost now: Live)
      requires Sound(live) && this in live.bufs
      modifies this, live.mems`refCount
      ensures Sound(now)
      ensures now.bufs == live.bufs - {this}
      ensures now.mems <= live.mems
    {
      ghost var bufs := live.bufs - {this};
      Leaves(live, this);
      hide Holders;
      now := live;
      if blk != null {
        now := blk.Release(now);
      }
      nextblk := null;
      blk := null;
      now := now.(bufs := bufs);
    }

    /** Deletes the chain, and with it every memory block that no other window looks at. */
    method Release(ghost s: seq<BufBlk>, ghost live: Live) returns (ghost now: Live)
      requires Sound(live) && Chain(this, s) && Objs(s) <= live.bufs
      modifies s, live.mems`refCount
      ensures Sound(now)
      ensures now.bufs == live.bufs - Objs(s)
      ensures now.mems <= live.mems
      decreases |s|
    {
      hide Sound;
      now := live;
      if nextblk != null {
        assert nextblk == s[1];
        now := nextblk.Release(s[1..], live);
      }
      now := LetGo(now);
    }

    /** Makes this new window look at what `o` looks at. */
    method LookWith(o: BufBlk, ghost live: Live) returns (ghost now: Live)
      requires Sound(live) && o in live.bufs && this !in live.bufs
      modifies this, live.mems`refCount
      ensures Sound(now) && now == live.(bufs := live.bufs + {this})
      ensures Shows() == o.Shows() && nextblk == null
    {
      hide Windows, Holders;
      WindowOf(live, o);
      if o.blk != null {
        o.blk.Checkout();
      }
      blk := o.blk;
      nextblk := null;
      rdPtr := o.rdPtr;
      wrPtr := o.wrPtr;
      Joins(live.bufs, live.mems, this, {});
      assert live.mems + {} == live.mems;
      now := live.(bufs := live.bufs + {this});
    }

    /** A new window that shows what `o` shows. */
    static method CopyOf(o: BufBlk, ghost live: Live) returns (b: BufBlk, ghost now: Live)
      requires Sound(live) && o in live.bufs && o.blk != null
      modifies live.mems`refCount
      ensures Sound(now) && now == live.(bufs := live.bufs + {b})
      ensures b.Shows() == o.Shows() && b.nextblk == null
      ensures fresh(b)
    {
      hide Windows, Holders;
      WindowOf(live, o);
      b := new BufBlk.OnMemory(o.blk);
      b.rdPtr := o.rdPtr;
      b.wrPtr := o.wrPtr;
      Joins(live.bufs, live.mems, b, {});
      assert live.mems + {} == live.mems;
      now := live.(bufs := live.bufs + {b});
    }

    /** Hangs a new window that shows what `o` shows behind this last window of the chain `c`. */
    method CopyBehind(o: BufBlk, ghost h: BufBlk, ghost c: seq<BufBlk>, ghost live: Live)
      returns (b: BufBlk, ghost now: Live)
      requires Sound(live) && o in live.bufs && o.blk != null
      requires Chain(h, c) && c != [] && this == c[|c| - 1] && Objs(c) <= live.bufs
      modifies `nextblk, live.mems`refCount
      ensures Sound(now) && now == live.(bufs := live.bufs + {b})
      ensures Objs(c + [b]) == Objs(c) + {b}
      ensures b.Shows() == o.Shows() && fresh(b)
      ensures nextblk == b && b.nextblk == null && Chain(h, c + [b])
    {
      hide *;
      b, now := CopyOf(o, live);
      OneIsChain(b);
      ObjsGrow(c, b);
      SetNexblk(b, h, c, [b], now);
    }

    /** Makes this window look at what `o` looks at, followed by copies of the windows behind `o`. */
    method AssignFromBlk(o: BufBlk, ghost s: seq<BufBlk>, ghost live: Live)
      returns (ghost c: seq<BufBlk>, ghost now: Live)
      requires Sound(live) && Chain(o, s) && Objs(s) <= live.bufs
      requires forall k :: 1 <= k < |s| ==> s[k].blk != null
      requires this !in live.bufs
      modifies this, live.mems`refCount
      ensures Sound(now)
      ensures now == live.(bufs := live.bufs + Objs(c))
      ensures Chain(this, c) && SameWindows(c, s)
      ensures forall k :: 1 <= k < |c| ==> fresh(c[k])
    {
      hide *;
      ChainSpelled(o, s, live.bufs);
      NodeIs(s, 0);
      now := LookWith(o, live);
      NodeIs(s, 1);
      var walko := o.nextblk;
      var walk := this;
      c := [this];
      OneIsChain(this);
      FirstWindow(this, s);
      while walko != null
        invariant 1 <= |c| <= |s| && walko == NodeAt(s, |c|)
        invariant walk == c[|c| - 1] && (walk == this || fresh(walk))
        invariant Sound(now) && now == live.(bufs := live.bufs + Objs(c))
        invariant Chain(this, c)
        invariant FirstWindows(c, s)
        invariant forall k :: 1 <= k < |c| ==> fresh(c[k])
        decreases |s| - |c|
      {
        NodeIs(s, |c|);
        NodeIs(s, |c| + 1);
        var b: BufBlk;
        b, now := walk.CopyBehind(walko, this, c, now);
        FirstGrows(c, s, b);
        c := c + [b];
        walk := b;
        walko := walko.nextblk;
      }
      NodeIs(s, |c|);
      FirstIsSame(c, s);
    }

    method Duplicate(ghost s: seq<BufBlk>, ghost live: Live)
      returns (r: BufBlk, ghost c: seq<BufBlk>, ghost now: Live)
      requires Sound(live) && Chain(this, s) && Objs(s) <= live.bufs
      requires forall k :: 1 <= k < |s| ==> s[k].blk != null
      modifies live.mems`refCount
      ensures Sound(now)
      ensures now == live.(bufs := live.bufs + Objs(c))
      ensures Chain(r, c) && SameWindows(c, s)
      ensures forall k :: 0 <= k < |c| ==> fresh(c[k])
    {
      r := new BufBlk.Empty();
      c, now := r.AssignFromBlk(this, s, live);
    }

    /** A new window onto new memory of `size` bytes, none of them readable yet. */
    static method Make(size: nat, next: BufBlk?, ghost live: Live) returns (b: BufBlk, ghost now: Live)
      requires Sound(live)
      ensures fresh(b) && b.blk != null && fresh(b.blk) && fresh(b.blk.base)
      ensures b.blk.base.Length == size && b.rdPtr == 0 && b.wrPtr == 0 && b.nextblk == next
      ensures Text(b) == [] && b.Freespace() == size
      ensures Sound(now) && now == Live(live.bufs + {b}, live.mems + {b.blk})
    {
      NothingHolds(live);
      hide Windows, Holders;
      b := new BufBlk(size, next);
      assert |Holders(live.bufs, b.blk)| == 0;
      Joins(live.bufs, live.mems, b, {b.blk});
      now := Live(live.bufs + {b}, live.mems + {b.blk});
    }

    static method MakeEmpty(ghost live: Live) returns (b: BufBlk, ghost now: Live)
      requires Sound(live)
      ensures fresh(b) && b.blk == null && b.nextblk == null
      ensures Sound(now) && now == live.(bufs := live.bufs + {b})
    {
      hide Windows, Holders;
      b := new BufBlk.Empty();
      Joins(live.bufs, live.mems, b, {});
      assert live.mems + {} == live.mems;
      now := live.(bufs := live.bufs + {b});
    }

    /** Makes this empty window look at a copy of the memory `o` looks at. */
    method FillFrom(o: BufBlk, ghost live: Live) returns (ghost now: Live)
      requires Sound(live) && this in live.bufs && o in live.bufs && blk == null && this != o
      modifies `blk, `rdPtr, `wrPtr
      ensures Sound(now) && now.bufs == live.bufs
      ensures DeepCopyOf(this, o)
      ensures blk == null ==> now.mems == live.mems
      ensures blk != null ==> fresh(blk) && fresh(blk.base) && now.mems == live.mems + {blk}
    {
      now := live;
      if o.blk != null {
        WindowOf(live, o);
        NothingHolds(live);
        ghost var bufs := live.bufs - {this};
        Leaves(live, this);
        assert bufs + {this} == live.bufs;
        hide Windows, Holders;
        blk := o.blk.DeepCopy();
        rdPtr := o.rdPtr;
        wrPtr := o.wrPtr;
        assert |Holders(bufs, blk)| == 0;
        Joins(bufs, live.mems, this, {blk});
        now := live.(mems := live.mems + {blk});
      } else {
        WindowOf(live, o);
        WindowOf(live, this);
      }
    }

    /** Hangs a new empty window behind this last window of the chain `c`. */
    method HangEmpty(ghost h: BufBlk, ghost c: seq<BufBlk>, ghost s: seq<BufBlk>, ghost mems: set<MemBlk>,
        ghost live: Live)
      returns (b: BufBlk, ghost now: Live)
      requires Sound(live) && Chain(h, c) && c != [] && this == c[|c| - 1] && Objs(c) <= live.bufs
      requires DeepFirst(c, s) && OwnMemory(c) && LookInto(c, mems)
      modifies `nextblk
      ensures DeepFirst(c, s) && OwnMemory(c) && LookInto(c, mems)
      ensures Sound(now) && now == live.(bufs := live.bufs + {b})
      ensures Objs(c + [b]) == Objs(c) + {b}
      ensures fresh(b) && b.blk == null
      ensures nextblk == b && b.nextblk == null && Chain(h, c + [b])
    {
      hide *;
      ArraysAllocated(c);
      ArraysAllocated(s);
      b, now := MakeEmpty(live);
      OneIsChain(b);
      ObjsGrow(c, b);
      SetNexblk(b, h, c, [b], now);
    }

    /** Fills this empty window from `o`, the next window of `s` after those copied into `done`. */
    method FillNext(o: BufBlk, ghost done: seq<BufBlk>, ghost s: seq<BufBlk>, ghost others: set<MemBlk>,
        ghost live: Live)
      returns (ghost now: Live)
      requires Sound(live) && this in live.bufs && o in live.bufs && blk == null
      requires |done| < |s| && o == s[|done|] && others <= live.mems
      requires forall k :: 0 <= k < |done| ==> done[k] != this
      requires forall k :: 0 <= k < |s| ==> s[k] != this
      requires DeepFirst(done, s) && OwnMemory(done) && LookInto(done, live.mems - others)
      modifies `blk, `rdPtr, `wrPtr
      ensures Sound(now) && now.bufs == live.bufs && live.mems <= now.mems
      ensures forall m :: m in now.mems ==> m in live.mems || (fresh(m) && fresh(m.base))
      ensures DeepFirst(done + [this], s)
      ensures OwnMemory(done + [this]) && LookInto(done + [this], now.mems - others)
    {
      hide *;
      ArraysAllocated(done);
      ArraysAllocated(s);
      now := FillFrom(o, live);
      DeepGrows(done, s, this);
      MemoryGrows(done, this, live.mems - others, now.mems - others);
    }

    /** A chain of the same shape and contents in memory of its own. */
    method DeepCopy(ghost s: seq<BufBlk>, ghost live: Live)
      returns (ret: BufBlk, ghost c: seq<BufBlk>, ghost now: Live)
      requires Sound(live) && Chain(this, s) && Objs(s) <= live.bufs
      ensures Sound(now)
      ensures Chain(ret, c) && DeepCopies(c, s)
      ensures now.bufs == live.bufs + Objs(c) && live.mems <= now.mems
      ensures OwnMemory(c) && LookInto(c, now.mems - live.mems)
      ensures forall k :: 0 <= k < |c| ==> fresh(c[k])
      ensures forall m :: m in now.mems ==> m in live.mems || (fresh(m) && fresh(m.base))
    {
      hide *;
      ChainSpelled(this, s, live.bufs);
      NodeIs(s, 0);
      ret, now := MakeEmpty(live);
      var walknew := ret;
      var walk: BufBlk? := this;
      c := [ret];
      ghost var done: seq<BufBlk> := [];
      OneIsChain(ret);
      ObjsAre(c);
      NothingCopied(s);
      assert ret in now.bufs;
      assert now.mems - live.mems == {};
      while walk != null
        invariant |done| <= |s| && walk == NodeAt(s, |done|)
        invariant c != [] && c == if walk == null then done else done + [walknew]
        invariant walk != null ==> walknew.blk == null && walknew in now.bufs
        invariant fresh(walknew)
        invariant Sound(now) && now.bufs == live.bufs + Objs(c) && live.mems <= now.mems
        invariant Chain(ret, c)
        invariant DeepFirst(done, s)
        invariant OwnMemory(done) && LookInto(done, now.mems - live.mems)
        invariant fresh(Objs(c))
        invariant forall m :: m in now.mems ==> m in live.mems || (fresh(m) && fresh(m.base))
        decreases |s| - |done|
      {
        NodeIs(s, |done|);
        NodeIs(s, |done| + 1);
        LastIsNew(ret, done, walknew);
        now := walknew.FillNext(walk, done, s, live.mems, now);
        done := done + [walknew];
        walk := walk.nextblk;
        if walk != null {
          walknew, now := walknew.HangEmpty(ret, c, s, now.mems - live.mems, now);
          c := c + [walknew];
        }
      }
      NodeIs(s, |done|);
      DeepIsAll(c, s);
      ObjsAre(c);
      assert forall k :: 0 <= k < |c| ==> c[k] in c;
    }

    /** Walks to the window in which byte `rdOffset` of the chain lies. */
    method Locate(rdOffset: nat, ghost s: seq<BufBlk>)
      returns (look: BufBlk?, prev: BufBlk?, need: nat, ghost i: nat)
      requires Chain(this, s) && forall k :: 0 <= k < |s| ==> s[k].Fits()
      ensures look != null ==>
        i < |s| && look == s[i] && Start(Texts(s), i) + need == rdOffset && need < |Text(look)|
      ensures look != null ==> prev == if i == 0 then null else s[i - 1]
      ensures look == null ==> |Bytes(s)| <= rdOffset
    {
      hide Chain, NodeAt, Text, Texts, Bytes, Start, Flatten, Arrays;
      ChainLinks(this, s);
      TextsFit(s);
      StartEnds(Texts(s));
      NodeIs(s, 0);
      need := rdOffset;
      look, prev, i := this, null, 0;
      while need >= 0 && look != null
        invariant i <= |s| && look == NodeAt(s, i) && Start(Texts(s), i) + need == rdOffset
        invariant prev == if i == 0 then null else s[i - 1]
        decreases |s| - i
      {
        NodeIs(s, i);
        NodeIs(s, i + 1);
        TextsFit(s);
        StartNext(Texts(s), i);
        if look.Length() > need {
          break;
        }
        need := need - look.Length();
        prev := look;
        look := look.nextblk;
        i := i + 1;
      }
      NodeIs(s, i);
      StartEnds(Texts(s));
      BytesAre(s);
    }

    /** A window onto `size` bytes from the `need`-th readable byte of this window on. */
    method Slice(need: nat, size: nat, ghost live: Live) returns (b: BufBlk, ghost now: Live)
      requires Sound(live) && this in live.bufs && need < |Text(this)| && need + size <= |Text(this)|
      modifies live.mems`refCount
      ensures fresh(b) && b.nextblk == null && b.blk == blk != null && blk in live.mems
      ensures b.Shows() == PartOf(Shows(), need, size)
      ensures Text(b) == Text(this)[need..need + size]
      ensures Sound(now) && now == live.(bufs := live.bufs + {b})
    {
      WindowOf(live, this);
      assert blk != null;
      hide Windows, Holders, Text, BufBlk.Fits;
      b := new BufBlk.OnMemory(blk);
      b.rdPtr := rdPtr + need;
      b.wrPtr := b.rdPtr + size;
      SliceText(b, this, need, size);
      Joins(live.bufs, live.mems, b, {});
      assert live.mems + {} == live.mems;
      now := live.(bufs := live.bufs + {b});
    }

    /** Appends the first `need` readable bytes of the window `look`, which is the `e`-th of `s`. */
    method CopyOn(look: BufBlk, need: nat, ghost s: seq<BufBlk>, ghost e: nat, ghost from: nat,
        ghost live: Live)
      requires Sound(live) && Objs(s) <= live.bufs && e < |s| && look == s[e]
      requires this in live.bufs && blk != null && need <= |Text(look)| && need <= Freespace()
      requires this !in Objs(s) && blk.base !in Arrays(s)
      requires Gathered(this, s, from, Start(Texts(s), e))
      modifies `wrPtr, blk.base
      ensures Sound(live) && Texts(s) == old(Texts(s)) && Freespace() == old(Freespace()) - need
      ensures Gathered(this, s, from, Start(Texts(s), e) + need)
    {
      hide Sound, Objs, Text, Texts, Bytes, Flatten, Start, Arrays;
      TextsInPlace(s, live);
      BytesAre(s);
      SliceGrows(Texts(s), from, e, need);
      var n := CopyFrom(Text(look)[..need], live);
      BytesAre(s);
    }

    /**
     * Appends to this window up to `total` bytes out of the windows of the chain `s` from the
     * `e`-th, `first`, on. Tells how many bytes were wanting.
     */
    method CopyRest(first: BufBlk?, total: nat, ghost s: seq<BufBlk>, ghost e: nat, ghost from: nat,
        ghost live: Live)
      returns (left: nat)
      requires Sound(live) && Objs(s) <= live.bufs && e <= |s| && first == NodeAt(s, e)
      requires forall k :: 0 <= k < |s| ==> s[k].nextblk == NodeAt(s, k + 1)
      requires this in live.bufs && blk != null && total <= Freespace()
      requires this !in Objs(s) && blk.base !in Arrays(s)
      requires Gathered(this, s, from, Start(Texts(s), e))
      modifies `wrPtr, blk.base
      ensures Sound(live) && Texts(s) == old(Texts(s))
      ensures left <= total && (left == 0 <==> Start(Texts(s), e) + total <= |Bytes(s)|)
      ensures Gathered(this, s, from, if left == 0 then Start(Texts(s), e) + total else |Bytes(s)|)
    {
      hide *;
      ghost var ts := Texts(s);
      TextsInPlace(s, live);
      BytesAre(s);
      left := total;
      var look := first;
      ghost var k := e;
      while look != null && left > 0
        invariant e <= k <= |s| && look == NodeAt(s, k)
        invariant Sound(live) && left <= total && left <= Freespace()
        invariant Texts(s) == ts
        invariant left > 0 ==> Start(ts, e) + total - left == Start(ts, k)
        invariant Gathered(this, s, from, Start(ts, e) + total - left)
        decreases |s| - k
      {
        NodeIs(s, k);
        NodeIs(s, k + 1);
        TextsInPlace(s, live);
        var need := if look.Length() < left then look.Length() else left;
        CopyOn(look, need, s, k, from, live);
        StartNext(ts, k);
        left := left - need;
        look := look.nextblk;
        k := k + 1;
      }
      NodeIs(s, k);
      StartEnds(ts);
      GatheredFits(this, s, from, Start(ts, e) + total - left);
      BytesAre(s);
    }

    /** Copies `size` bytes, as far as there are so many, out of this window and those behind it. */
    method Gather(need: nat, size: nat, ghost s: seq<BufBlk>, ghost i: nat, ghost live: Live)
      returns (ok: bool, outblk: BufBlk, ghost now: Live)
      requires Sound(live) && Objs(s) <= live.bufs && i < |s| && this == s[i]
      requires forall k :: 0 <= k < |s| ==> s[k].nextblk == NodeAt(s, k + 1)
      requires need < |Text(this)| < need + size
      ensures fresh(outblk) && outblk.nextblk == null
      ensures outblk.blk != null && fresh(outblk.blk) && fresh(outblk.blk.base)
      ensures outblk.rdPtr == 0 && outblk.blk.base.Length == size
      ensures Sound(now) && now == Live(live.bufs + {outblk}, live.mems + {outblk.blk})
      ensures ok <==> Start(Texts(s), i) + need + size <= |Bytes(s)|
      ensures var from := Start(Texts(s), i) + need;
        Gathered(outblk, s, from, if ok then from + size else |Bytes(s)|)
    {
      hide *;
      ghost var ts := Texts(s);
      ghost var from := Start(ts, i) + need;
      TextsInPlace(s, live);
      outblk, now := Make(size, null, live);
      var n := outblk.CopyFrom(Text(this)[need..], now);
      TailGathered(outblk, s, i, need);
      StartNext(ts, i);
      var total := size - (Length() - need);
      total := outblk.CopyRest(nextblk, total, s, i + 1, from, now);
      ok := total == 0;
    }

    /**
     * One window onto the bytes `[rdOffset, rdOffset + size)` of the chain: a second view of the
     * memory when a single window shows them all, else a copy. If there are not so many bytes, a copy of
     * those there are is left with the caller, unless they all lie in the last window.
     */
    method GetContigBlock(rdOffset: nat, size: nat, ghost s: seq<BufBlk>, ghost live: Live)
      returns (ok: bool, outblk: BufBlk?, ghost now: Live)
      requires Sound(live) && Chain(this, s) && Objs(s) <= live.bufs
      modifies live.mems`refCount
      ensures ok <==> rdOffset < |Bytes(s)| && rdOffset + size <= |Bytes(s)|
      ensures ok ==> outblk != null && IsSlice(Text(outblk), Bytes(s), rdOffset, size)
      ensures outblk != null <==> TakenUp(Texts(s), rdOffset, size)
      ensures outblk != null && !ok ==>
        fresh(outblk.blk) && rdOffset <= |Bytes(s)| && Text(outblk) == Bytes(s)[rdOffset..]
      ensures outblk != null ==>
        && outblk.blk != null
        && SharesWith(outblk, s, rdOffset, size) && (fresh(outblk.blk) <==> NoSingle(s, rdOffset, size))
        && (fresh(outblk.blk) ==> outblk.rdPtr == 0 && outblk.blk.base.Length == size)
      ensures Sound(now) && (outblk == null ==> now == live)
      ensures outblk != null ==>
        && fresh(outblk) && outblk.nextblk == null
        && outblk.blk != null && (outblk.blk in live.mems || (fresh(outblk.blk) && fresh(outblk.blk.base)))
        && Adds(live, now, outblk)
    {
      hide *;
      ChainFits(s, live);
      ChainSpelled(this, s, live.bufs);
      TextsInPlace(s, live);
      BytesAre(s);
      ok, outblk, now := false, null, live;
      ghost var i;
      var look, prev, need;
      look, prev, need, i := Locate(rdOffset, s);
      if look != null && look.Length() > need {
        NodeIs(s, i + 1);
        SliceFits(Texts(s), i, need, size);
        TakenUpWhen(Texts(s), i, need, rdOffset, size);
        if look.Length() - need - size >= 0 {
          outblk, now := look.Slice(need, size, live);
          assert live.mems + {outblk.blk} == live.mems;
          ok := true;
          SharesOne(outblk, s, i, need, rdOffset, size);
          SliceIs(Text(outblk), Bytes(s), rdOffset, size);
          AddsIs(live, now, outblk);
        } else {
          if look.nextblk != null {
            ok, outblk, now := look.Gather(need, size, s, i, live);
            SharesNone(outblk, s, i, need, rdOffset, size);
            AddsIs(live, now, outblk);
            GatheredFits(outblk, s, rdOffset, if ok then rdOffset + size else |Bytes(s)|);
            if ok {
              SliceIs(Text(outblk), Bytes(s), rdOffset, size);
            }
          }
        }
      } else {
        NotTakenUp(Texts(s), rdOffset, size);
      }
    }

    /** Moves the `n` bytes from `from` on to `to`, as if through a copy: the ranges may overlap. */
    method Memmove(to: nat, from: nat, n: nat)
      requires blk != null && to + n <= blk.base.Length && from + n <= blk.base.Length
      modifies blk.base
      ensures blk.base[..] == Copied(old(blk.base[..]), to, from, n)
    {
      forall k | 0 <= k < n {
        blk.base[to + k] := blk.base[from + k];
      }
    }

    /** Drops the last `n` readable bytes. */
    method DecWrPtr(n: nat, ghost live: Live)
      requires Sound(live) && this in live.bufs && n <= |Text(this)|
      modifies `wrPtr
      ensures Sound(live) && wrPtr == old(wrPtr) - n
      ensures Text(this) == old(Text(this))[..|old(Text(this))| - n]
    {
      hide Holders, Text;
      WindowOf(live, this);
      TextIs(this);
      if blk != null {
        PrefixOfSlice(blk.base[..], rdPtr, wrPtr, n);
      }
      wrPtr := wrPtr - n;
      TextIs(this);
    }

    /** Drops the first `n` readable bytes. */
    method IncRdPtr(n: nat, ghost live: Live)
      requires Sound(live) && this in live.bufs && n <= |Text(this)|
      modifies `rdPtr
      ensures Sound(live) && rdPtr == old(rdPtr) + n
      ensures Text(this) == old(Text(this))[n..]
    {
      hide Holders, Text;
      WindowOf(live, this);
      TextIs(this);
      if blk != null {
        RestOfSlice(blk.base[..], rdPtr, wrPtr, n);
      }
      rdPtr := rdPtr + n;
      TextIs(this);
    }

    /** A cut that leaves something of this window behind it. */
    method EatInside(need: nat, size: nat, ghost live: Live)
      requires Sound(live) && this in live.bufs && need + size < |Text(this)|
      modifies `rdPtr, `wrPtr, Memory()
      ensures Sound(live) && blk != null
      ensures Text(this) == old(Text(this))[..need] + old(Text(this))[need + size..]
      ensures Shows() == CutView(old(Shows()), need, need + size)
      ensures need == 0 ==> unchanged(blk.base)
      ensures need > 0 ==> blk.base[..] == MovedDown(old(blk.base[..]), old(rdPtr) + need, size, old(wrPtr))
    {
      hide Sound, Text, MovedDown;
      WindowOf(live, this);
      TextIs(this);
      if need > 0 {
        ShiftLeft(need, size, live);
      } else {
        IncRdPtr(size, live);
      }
    }

    /** Moves the bytes behind the cut to the left over it, and the end of the readable bytes with them. */
    method ShiftLeft(need: nat, size: nat, ghost live: Live)
      requires Sound(live) && this in live.bufs && need > 0 && need + size < |Text(this)|
      modifies `wrPtr, Memory()
      ensures Sound(live) && blk != null && wrPtr == old(wrPtr) - size
      ensures Text(this) == old(Text(this))[..need] + old(Text(this))[need + size..]
      ensures blk.base[..] == MovedDown(old(blk.base[..]), rdPtr + need, size, old(wrPtr))
    {
      hide Sound, Text, Holders, Windows, MovedDown, Copied;
      WindowOf(live, this);
      TextIs(this);
      MovedText(blk.base[..], rdPtr, wrPtr, need, size);
      Memmove(rdPtr + need, rdPtr + need + size, Length() - size - need);
      TextIs(this);
      PrefixOfSlice(blk.base[..], rdPtr, wrPtr, size);
      DecWrPtr(size, live);
    }

    /** `EatInside`, seen from the chain `s` whose `i`-th window this is. */
    method EatInsideChain(need: nat, size: nat, ghost s: seq<BufBlk>, ghost i: nat, ghost live: Live)
      requires Sound(live) && Objs(s) <= live.bufs && i < |s| && this == s[i]
      requires Distinct(s) && need + size < |Text(this)|
      modifies `rdPtr, `wrPtr, Memory()
      ensures Sound(live) && blk != null
      ensures OwnMemory(s) || need == 0 ==>
        Texts(s) == old(Texts(s))[i := old(Text(this))[..need] + old(Text(this))[need + size..]]
      ensures Views(s) == old(Views(s))[i := CutView(old(Views(s))[i], need, need + size)]
      ensures need == 0 ==> unchanged(blk.base)
      ensures need > 0 ==> blk.base[..] == MovedDown(old(blk.base[..]), old(rdPtr) + need, size, old(wrPtr))
    {
      hide Sound, Text, Texts, Arrays, MovedDown, CutView, Views;
      TextsInPlace(s, live);
      ghost var ts := Texts(s);
      ghost var own := OwnMemory(s);
      if own {
        Others(s, i);
      }
      EatInside(need, size, live);
      assert own || need == 0 ==> forall k :: 0 <= k < |s| && k != i ==> Text(s[k]) == ts[k];
      TextsInPlace(s, live);
    }

    method DecWrPtrChain(n: nat, ghost s: seq<BufBlk>, ghost i: nat, ghost live: Live)
      requires Sound(live) && Objs(s) <= live.bufs && i < |s| && this == s[i] && Distinct(s)
      requires n <= |Text(this)|
      modifies `wrPtr
      ensures Sound(live)
      ensures Views(s) == Shortened(old(Views(s)), i, n)
      ensures Texts(s) == old(Texts(s))[i := old(Text(this))[..|old(Text(this))| - n]]
    {
      hide Sound, Text, Texts, Arrays, Views;
      TextsInPlace(s, live);
      ghost var ts := Texts(s);
      DecWrPtr(n, live);
      assert forall k :: 0 <= k < |s| && k != i ==> Text(s[k]) == ts[k];
      TextsInPlace(s, live);
    }

    method IncRdPtrChain(n: nat, ghost s: seq<BufBlk>, ghost i: nat, ghost live: Live)
      requires Sound(live) && Objs(s) <= live.bufs && i < |s| && this == s[i] && Distinct(s)
      requires n <= |Text(this)|
      modifies `rdPtr
      ensures Sound(live)
      ensures Views(s) == Forwarded(old(Views(s)), i, n)
      ensures Texts(s) == old(Texts(s))[i := old(Text(this))[n..]]
    {
      hide Sound, Text, Texts, Arrays, Views;
      TextsInPlace(s, live);
      ghost var ts := Texts(s);
      IncRdPtr(n, live);
      assert forall k :: 0 <= k < |s| && k != i ==> Text(s[k]) == ts[k];
      TextsInPlace(s, live);
    }

    /** Walks over the windows from `s[i + 1]` on that `left` more bytes swallow, and trims the next. */
    method Swallow(first: BufBlk?, front: BufBlk?, left: int, ghost s: seq<BufBlk>, ghost i: nat,
        ghost ts: seq<seq<byte>>, ghost live: Live)
      returns (look: BufBlk?, back: BufBlk?, size: nat, ghost e: nat, ghost d: nat)
      requires Sound(live) && Objs(s) <= live.bufs && i < |s| == |ts| && Distinct(s)
      requires forall k :: 0 <= k < |s| ==> s[k].nextblk == NodeAt(s, k + 1)
      requires forall k :: i < k < |s| ==> Texts(s)[k] == ts[k]
      requires first == NodeAt(s, i + 1) && left > 0
      modifies s`rdPtr
      ensures Sound(live) && look == NodeAt(s, e) && i < e <= |s|
      ensures back == if e == i + 1 then front else s[e - 1]
      ensures e == i + 1 && look != null ==> size > 0
      ensures e < |s| ==> d <= |ts[e]|
      ensures Views(s) == Forwarded(old(Views(s)), e, d)
      ensures Texts(s) == FrontGone(old(Texts(s)), ts, e, d)
      ensures Start(ts, e) <= Start(ts, i + 1) + left
      ensures i + 1 < e ==> Start(ts, e - 1) < Start(ts, i + 1) + left
      ensures e < |ts| ==> Start(ts, e) + d == Start(ts, i + 1) + left && (d == 0 || d < |ts[e]|)
    {
      hide *;
      ghost var was, vs := Texts(s), Views(s);
      size := left;
      look := first;
      back := front;
      e, d := i + 1, 0;
      while look != null && size > 0
        invariant i < e <= |s| && look == NodeAt(s, e)
        invariant e == i + 1 ==> size == left
        invariant back == if e == i + 1 then front else s[e - 1]
        invariant Sound(live) && Texts(s) == was && d == 0
        invariant Views(s) == vs
        invariant Start(ts, e) + size == Start(ts, i + 1) + left
        invariant i + 1 < e ==> Start(ts, e - 1) < Start(ts, i + 1) + left
        decreases |s| - e
      {
        NodeIs(s, e);
        NodeIs(s, e + 1);
        TextsInPlace(s, live);
        StartNext(ts, e);
        if size < look.Length() {
          look.IncRdPtrChain(size, s, e, live);
          d := size;
          break;
        } else {
          size := size - look.Length();
        }
        back := look;
        look := look.nextblk;
        e := e + 1;
      }
      NothingForwarded(vs, e);
      FrontStays(was, ts, e, d);
      NodeIs(s, e);
      TextsInPlace(s, live);
    }

    /** Keeps `need` bytes of this window, the `i`-th of `s`, and finds the first of those that go. */
    method Shorten(need: nat, ghost s: seq<BufBlk>, ghost i: nat, ghost live: Live) returns (front: BufBlk?)
      requires Sound(live) && Objs(s) <= live.bufs && i < |s| && this == s[i] && Distinct(s)
      requires forall k :: 0 <= k < |s| ==> s[k].nextblk == NodeAt(s, k + 1)
      requires need <= |Text(this)|
      modifies `wrPtr
      ensures Sound(live) && front == NodeAt(s, if need > 0 then i + 1 else i)
      ensures Texts(s) == if need > 0 then old(Texts(s))[i := old(Text(this))[..need]] else old(Texts(s))
      ensures Views(s) ==
        if need > 0 then Shortened(old(Views(s)), i, |old(Text(this))| - need) else old(Views(s))
    {
      hide Sound, Objs, Distinct, NodeAt, Text, Texts, Arrays, Views;
      TextsInPlace(s, live);
      NodeIs(s, i);
      if need > 0 {
        ghost var t := Text(this);
        var frontsz := Length() - need;
        assert t[..|t| - frontsz] == t[..need];
        DecWrPtrChain(frontsz, s, i, live);
        front := nextblk;
      } else {
        front := this;
      }
    }

    /**
     * Eats on from this window, the `i`-th of `s`, of which it keeps `need` bytes: shortens this
     * window, walks over the windows that the cut swallows, and trims the one it ends in.
     */
    method EatForward(need: nat, size: nat, ghost s: seq<BufBlk>, ghost i: nat, ghost live: Live)
      returns (look: BufBlk?, front: BufBlk?, back: BufBlk?, left: nat, ghost e: nat, ghost d: nat)
      requires Sound(live) && Objs(s) <= live.bufs && i < |s| && this == s[i] && Distinct(s)
      requires forall k :: 0 <= k < |s| ==> s[k].nextblk == NodeAt(s, k + 1)
      requires need < |Text(this)| < need + size
      modifies s`rdPtr, `wrPtr
      ensures Sound(live)
      ensures StopsAt(old(Texts(s)), i, need, size, e, d) && i < e <= |s|
      ensures e < |s| ==> d <= |old(Texts(s))[e]|
      ensures Texts(s) == Trimmed(old(Texts(s)), i, need, e, d)
      ensures TrimShows(s, old(Views(s)), old(Texts(s)), i, need, e, d)
      ensures look == NodeAt(s, e)
      ensures front == NodeAt(s, if need > 0 then i + 1 else i)
      ensures back == if e == i + 1 then front else s[e - 1]
      ensures e == i + 1 && look != null ==> left > 0
    {
      hide *;
      TextsInPlace(s, live);
      ghost var ts, vs := Texts(s), Views(s);
      StartNext(ts, i);
      var frontsz := Length() - need;
      front := Shorten(need, s, i, live);
      TextsInPlace(s, live);
      ghost var first, mid := Texts(s), Views(s);
      look, back, left, e, d := Swallow(nextblk, front, size - frontsz, s, i, ts, live);
      TrimmedInSteps(ts, first, Texts(s), i, need, size, e, d);
      TrimInSteps(s, vs, mid, ts, i, need, e, d);
    }

    /** Releases the windows `s[a..b]`, this one first, after they have been taken out of the chain. */
    method ReleaseRange(ghost s: seq<BufBlk>, ghost a: nat, ghost b: nat, ghost live: Live)
      returns (ghost now: Live)
      requires Sound(live) && Objs(s) <= live.bufs && a < b <= |s| && this == s[a] && Distinct(s)
      requires forall k :: 0 <= k < |s| && k != a - 1 && k != b - 1 ==> s[k].nextblk == NodeAt(s, k + 1)
      requires a > 0 ==> s[a - 1].nextblk == NodeAt(s, b)
      requires s[b - 1].nextblk == null
      modifies s, live.mems`refCount
      ensures Sound(now) && now.bufs == live.bufs - Objs(s[a..b]) && now.mems <= live.mems
      ensures Chain(NodeAt(s, if a > 0 then 0 else b), Without(s, a, b))
      ensures Texts(Without(s, a, b)) == old(Texts(s))[..a] + old(Texts(s))[b..]
      ensures StillShow(s, old(Views(s)), now.bufs)
    {
      hide *;
      UnlinkedPart(s, a, b);
      UnlinkedRest(s, a, b);
      TextsWithout(s, a, b);
      ApartAfter(s, a, b);
      ArraysAllocated(Without(s, a, b));
      ObjsAre(s[a..b]);
      now := Release(s[a..b], live);
      ShowSame(s, old(Views(s)), now.bufs);
    }

    /**
     * Takes the eaten windows `s[i + 1..e]` out of the chain, behind this window, and releases them.
     * The end of eatBytes for a cut that keeps bytes of the window it begins in; `EatFromStart` has
     * it for the other cuts.
     */
    method UnlinkBehind(look: BufBlk?, front: BufBlk?, back: BufBlk?, left: nat, ghost s: seq<BufBlk>,
        ghost i: nat, ghost e: nat, ghost live: Live)
      returns (ghost now: Live)
      requires Sound(live) && Objs(s) <= live.bufs && i < e <= |s| && this == s[i] && Distinct(s)
      requires Chain(NodeAt(s, 0), s)
      requires forall k :: 0 <= k < |s| ==> s[k].nextblk == NodeAt(s, k + 1)
      requires look == NodeAt(s, e) && front == NodeAt(s, i + 1)
      requires back == if e == i + 1 then front else s[e - 1]
      requires e == i + 1 && look != null ==> left > 0
      modifies s, live.mems`refCount
      ensures Sound(now) && now.bufs == live.bufs - Objs(s[i + 1..e]) && now.mems <= live.mems
      ensures Chain(NodeAt(s, 0), Without(s, i + 1, e))
      ensures Texts(Without(s, i + 1, e)) == old(Texts(s))[..i + 1] + old(Texts(s))[e..]
      ensures StillShow(s, old(Views(s)), now.bufs)
    {
      hide *;
      NodeIs(s, i + 1);
      NodeIs(s, e);
      NothingWithout(s, i + 1);
      TextsWithout(s, i + 1, e);
      ShowSame(s, Views(s), live.bufs);
      now := live;
      if front != null {
        if back != front {
          now := Unhook(look, front, back, s, i, e, live);
        } else {
          if look == front && left > 0 {
            SameSpot(s, i + 1, e);
          } else {
            NoOtherSpot(s, i + 1);
            now := Unhook(look, front, front, s, i, e, live);
          }
        }
      }
    }

    /** Links this window to `look` and releases the windows from `front` to `back`, which lie between them. */
    method Unhook(look: BufBlk?, front: BufBlk, back: BufBlk, ghost s: seq<BufBlk>, ghost i: nat, ghost e: nat,
        ghost live: Live)
      returns (ghost now: Live)
      requires Sound(live) && Objs(s) <= live.bufs && i + 1 < e <= |s| && this == s[i] && Distinct(s)
      requires forall k :: 0 <= k < |s| ==> s[k].nextblk == NodeAt(s, k + 1)
      requires look == NodeAt(s, e) && front == s[i + 1] && back == s[e - 1]
      modifies s, live.mems`refCount
      ensures Sound(now) && now.bufs == live.bufs - Objs(s[i + 1..e]) && now.mems <= live.mems
      ensures Chain(NodeAt(s, 0), Without(s, i + 1, e))
      ensures Texts(Without(s, i + 1, e)) == old(Texts(s))[..i + 1] + old(Texts(s))[e..]
      ensures StillShow(s, old(Views(s)), now.bufs)
    {
      hide *;
      NoOtherSpot(s, i);
      NoOtherSpot(s, e - 1);
      ArraysAllocated(s);
      ghost var ts, vs := Texts(s), Views(s);
      back.nextblk := null;
      nextblk := look;
      assert Texts(s) == ts && Views(s) == vs;
      now := front.ReleaseRange(s, i + 1, e, live);
    }

    /** A cut that keeps `need > 0` bytes of this window and runs past it. */
    method EatBehind(need: nat, size: nat, ghost s: seq<BufBlk>, ghost i: nat, ghost live: Live)
      returns (ghost e: nat, ghost now: Live)
      requires Sound(live) && Objs(s) <= live.bufs && i < |s| && this == s[i]
      requires Chain(NodeAt(s, 0), s) && 0 < need < |Text(this)| < need + size
      modifies s, live.mems`refCount
      ensures Sound(now) && i < e <= |s| && now.bufs == live.bufs - Objs(s[i + 1..e]) && now.mems <= live.mems
      ensures Chain(NodeAt(s, 0), Without(s, i + 1, e))
      ensures Bytes(Without(s, i + 1, e)) == Cut(old(Bytes(s)), old(Start(Texts(s), i)) + need, size)
      ensures EatenRange(old(Texts(s)), i + 1, e, old(Start(Texts(s), i)) + need, size)
      ensures AreCut(s, Views(s), old(Views(s)), old(Texts(s)), old(Start(Texts(s), i)) + need, size, now.bufs)
    {
      hide *;
      ghost var ts, vs := Texts(s), Views(s);
      BytesAre(s);
      ChainSpelled(NodeAt(s, 0), s, live.bufs);
      TextsInPlace(s, live);
      var look, front, back, left;
      ghost var d;
      look, front, back, left, e, d := EatForward(need, size, s, i, live);
      TrimmedIsCut(ts, i, need, size, e, d);
      TrimIsCut(s, vs, ts, i, need, size, e, d, live.bufs - Objs(s[i + 1..e]));
      now := UnlinkCut(look, front, back, left, s, i, e, vs, ts, Start(ts, i) + need, size, live);
    }

    /** `UnlinkBehind`, after the windows have been trimmed. */
    method UnlinkCut(look: BufBlk?, front: BufBlk?, back: BufBlk?, left: nat, ghost s: seq<BufBlk>, ghost i: nat,
        ghost e: nat, ghost vs: seq<View>, ghost ts: seq<seq<byte>>, ghost from: nat, ghost size: nat,
        ghost live: Live)
      returns (ghost now: Live)
      requires Sound(live) && Objs(s) <= live.bufs && i < e <= |s| && this == s[i] && Distinct(s)
      requires Chain(NodeAt(s, 0), s)
      requires forall k :: 0 <= k < |s| ==> s[k].nextblk == NodeAt(s, k + 1)
      requires look == NodeAt(s, e) && front == NodeAt(s, i + 1)
      requires back == if e == i + 1 then front else s[e - 1]
      requires e == i + 1 && look != null ==> left > 0
      requires |vs| == |ts| == |s| && AreCut(s, Views(s), vs, ts, from, size, live.bufs - Objs(s[i + 1..e]))
      modifies s, live.mems`refCount
      ensures Sound(now) && now.bufs == live.bufs - Objs(s[i + 1..e]) && now.mems <= live.mems
      ensures Chain(NodeAt(s, 0), Without(s, i + 1, e))
      ensures Bytes(Without(s, i + 1, e)) == Flatten(old(Texts(s))[..i + 1] + old(Texts(s))[e..])
      ensures AreCut(s, Views(s), vs, ts, from, size, now.bufs)
    {
      hide *;
      ghost var trimmed := Views(s);
      now := UnlinkBehind(look, front, back, left, s, i, e, live);
      StillCut(s, trimmed, vs, ts, from, size, now.bufs);
      BytesAre(Without(s, i + 1, e));
    }

    /** Takes exactly this window out of the chain. */
    method EatWhole(head0: BufBlk, prev: BufBlk?, ghost s: seq<BufBlk>, ghost i: nat, ghost live: Live)
      returns (head: BufBlk?, ghost now: Live)
      requires Sound(live) && Objs(s) <= live.bufs && i < |s| && this == s[i] && Chain(head0, s)
      requires prev == if i == 0 then null else s[i - 1]
      requires 0 < |Text(this)|
      modifies s, live.mems`refCount
      ensures Sound(now) && now.bufs == live.bufs - Objs(s[i..i + 1]) && now.mems <= live.mems
      ensures Chain(head, Without(s, i, i + 1))
      ensures Bytes(Without(s, i, i + 1)) == Cut(old(Bytes(s)), old(Start(Texts(s), i)), |old(Text(this))|)
      ensures StillShow(s, old(Views(s)), now.bufs)
    {
      hide *;
      ghost var ts, vs := Texts(s), Views(s);
      ChainSpelled(head0, s, live.bufs);
      TextsInPlace(s, live);
      BytesAre(s);
      NodeIs(s, 0);
      NodeIs(s, i + 1);
      NoOtherSpot(s, i);
      if i > 0 {
        NoOtherSpot(s, i - 1);
      }
      CutBlock(ts, i);
      head := head0;
      if prev != null {
        prev.nextblk := nextblk;
      }
      if head == this {
        head := nextblk;
      }
      nextblk := null;
      assert Texts(s) == ts && Views(s) == vs;
      now := ReleaseRange(s, i, i + 1, live);
      BytesAre(Without(s, i, i + 1));
    }

    /**
     * A cut that begins with the first byte of this window and runs past its last. The window is
     * meant to go, with those behind it up to `s[e]` that the cut swallows. The links are set so that
     * it goes with all windows from `s[e]` on, or if it swallows no other, none.
     */
    method EatFromStart(head0: BufBlk, size: nat, ghost s: seq<BufBlk>, ghost i: nat, ghost live: Live)
      returns (head: BufBlk?, ghost e: nat, ghost now: Live)
      requires Sound(live) && Objs(s) <= live.bufs && i < |s| && this == s[i]
      requires Chain(head0, s) && 0 < |Text(this)| < size
      modifies s, live.mems`refCount
      ensures Sound(now) && now.bufs <= live.bufs && now.mems <= live.mems
      ensures !EatsExactly(s, old(Texts(s)), old(Start(Texts(s), i)), size, now.bufs)
      ensures i < e <= |s| && RunsTo(old(Texts(s)), i, size, e)
      ensures now.bufs == live.bufs - Dropped(s, i, e) && head == if i == 0 then NodeAt(s, e) else head0
    {
      hide *;
      ghost var ts := Texts(s);
      ChainSpelled(head0, s, live.bufs);
      TextsInPlace(s, live);
      var look, front, back, left;
      ghost var d;
      look, front, back, left, e, d := EatForward(0, size, s, i, live);
      IsRun(ts, i, size, e, d);
      NodeIs(s, 0);
      NodeIs(s, i);
      NodeIs(s, i + 1);
      NodeIs(s, e);
      EatsTwo(ts, i, size, e, d);
      NoOtherSpot(s, i);
      DroppedIs(s, i, e);
      head, now := head0, live;
      if front != null {
        if front == head {
          head := look;
        }
        if back != front {
          NoOtherSpot(s, e - 1);
          back.nextblk := null;
          nextblk := look;
          SkippedChain(s, i, e);
          now := front.Release([front] + s[e..], live);
          StaysUneaten(s, ts, i + 1, Start(ts, i), size, now.bufs);
        } else {
          StaysUneaten(s, ts, i, Start(ts, i), size, now.bufs);
        }
      }
    }

    lemma HasMemory(live: Live)
      requires Sound(live) && this in live.bufs
      ensures Text(this) != [] ==> blk != null
    {
    }

    /** A cut that begins and ends in this window. */
    method EatWithin(head0: BufBlk, prev: BufBlk?, need: nat, size: nat, ghost s: seq<BufBlk>, ghost i: nat,
        ghost live: Live)
      returns (head: BufBlk?, ghost a: nat, ghost b: nat, ghost now: Live)
      requires Sound(live) && Objs(s) <= live.bufs && i < |s| && this == s[i] && Chain(head0, s)
      requires prev == if i == 0 then null else s[i - 1]
      requires need < |Text(this)| && need + size <= |Text(this)|
      modifies s, Memory(), live.mems`refCount
      ensures Sound(now) && a <= b <= |s| && now.bufs == live.bufs - Objs(s[a..b]) && now.mems <= live.mems
      ensures EatenRange(old(Texts(s)), a, b, old(Start(Texts(s), i)) + need, size)
      ensures Chain(head, Without(s, a, b))
      ensures AreCut(s, Views(s), old(Views(s)), old(Texts(s)), old(Start(Texts(s), i)) + need, size, now.bufs)
      ensures old(blk) != null
      ensures 0 < need && need + size < |old(Text(this))| ==>
        old(blk).base[..] == MovedDown(old(blk.base[..]), old(rdPtr) + need, size, old(wrPtr))
      ensures need == 0 || need + size == |old(Text(this))| ==> unchanged(old(blk).base)
      ensures old(OwnMemory(s)) || need == 0 || need + size == |old(Text(this))| ==>
        Bytes(Without(s, a, b)) == Cut(old(Bytes(s)), old(Start(Texts(s), i)) + need, size)
    {
      hide *;
      ghost var ts, vs := Texts(s), Views(s);
      ViewsAre(s);
      ChainSpelled(head0, s, live.bufs);
      HasMemory(live);
      TextsInPlace(s, live);
      BytesAre(s);
      EatenInside(ts, i, need, size);
      CutInside(ts, i, need, size);
      head, now, a, b := head0, live, i, i;
      NothingWithout(s, i);
      if Length() - need - size > 0 {
        EatInsideChain(need, size, s, i, live);
      } else if need > 0 {
        assert ts[i][..need] + ts[i][need + size..] == ts[i][..|ts[i]| - size];
        DecWrPtrChain(size, s, i, live);
        ShortenedIsCut(vs, i, need, size);
      } else {
        b := i + 1;
        OneObj(s, i);
        head, now := EatWhole(head0, prev, s, i, live);
        ShowsSpelled(s, vs, now.bufs);
      }
      BytesAre(s);
      WithinIsCut(s, Views(s), vs, ts, i, need, size, now.bufs);
    }

    /**
     * A cut that begins with byte `need` of this window, the `i`-th: inside it, behind its first bytes, or with
     * its first byte. Memory changes only where bytes have to be moved down.
     */
    method EatFound(head0: BufBlk, prev: BufBlk?, need: nat, size: nat, ghost s: seq<BufBlk>, ghost i: nat,
        ghost live: Live)
      returns (head: BufBlk?, ghost a: nat, ghost b: nat, ghost now: Live)
      requires Sound(live) && Objs(s) <= live.bufs && i < |s| && this == s[i] && Chain(head0, s)
      requires prev == if i == 0 then null else s[i - 1]
      requires need < |Text(this)|
      modifies s, Memory(), live.mems`refCount
      ensures Sound(now) && now.bufs <= live.bufs && now.mems <= live.mems && old(blk) != null
      ensures if 0 < need && need + size < |old(Text(this))| then
          old(blk).base[..] == MovedDown(old(blk.base[..]), old(rdPtr) + need, size, old(wrPtr))
        else unchanged(old(blk).base)
      ensures if need == 0 && |old(Text(this))| < size then
          && !EatsExactly(s, old(Texts(s)), old(Start(Texts(s), i)) + need, size, now.bufs)
          && a == i < b <= |s| && RunsTo(old(Texts(s)), a, size, b)
          && now.bufs == live.bufs - Dropped(s, a, b) && head == (if a == 0 then NodeAt(s, b) else head0)
        else
          && a <= b <= |s| && now.bufs == live.bufs - Objs(s[a..b]) && Chain(head, Without(s, a, b))
          && EatenRange(old(Texts(s)), a, b, old(Start(Texts(s), i)) + need, size)
          && AreCut(s, Views(s), old(Views(s)), old(Texts(s)), old(Start(Texts(s), i)) + need, size, now.bufs)
      ensures need > 0 || size <= |old(Text(this))| ==>
        old(OwnMemory(s)) || need == 0 || need + size >= |old(Text(this))| ==>
          Bytes(Without(s, a, b)) == Cut(old(Bytes(s)), old(Start(Texts(s), i)) + need, size)
    {
      hide *;
      TextsInPlace(s, live);
      ChainSpelled(head0, s, live.bufs);
      HasMemory(live);
      head, now, a, b := head0, live, 0, 0;
      if Length() - need - size >= 0 {
        head, a, b, now := EatWithin(head0, prev, need, size, s, i, live);
      } else if need > 0 {
        a := i + 1;
        b, now := EatBehind(need, size, s, i, live);
      } else {
        a := i;
        head, b, now := EatFromStart(head0, size, s, i, live);
      }
    }

    /**
     * Removes the bytes `[rdOffset, rdOffset + size)` from the chain and releases the windows
     * wholly inside the cut, `s[a..b]`. Holds unless the cut begins with the first byte of a window, `s[a]`,
     * and runs past it to `s[b]`, and then the wrong windows are released. Only a cut that leaves something of
     * one window, the `i`-th, on either side of it moves bytes, where any window onto the same memory may read them.
     */
    method EatBytes(rdOffset: nat, size: nat, ghost s: seq<BufBlk>, ghost live: Live)
      returns (head: BufBlk?, ghost a: nat, ghost b: nat, ghost i: nat, ghost now: Live)
      requires Sound(live) && Chain(this, s) && Objs(s) <= live.bufs
      modifies s, Arrays(s), live.mems`refCount
      ensures Sound(now) && now.bufs <= live.bufs && now.mems <= live.mems
      ensures NoneMoves(old(Texts(s)), rdOffset, size) ==> forall m :: m in live.mems ==> unchanged(m.base)
      ensures !NoneMoves(old(Texts(s)), rdOffset, size) ==>
        && i < |s| && Moves(old(Texts(s)), i, rdOffset, size) && old(s[i].blk) != null
        && (forall m :: m in live.mems && m.base != old(s[i].blk.base) ==> unchanged(m.base))
        && old(s[i].blk.base)[..] == MovedDown(old(s[i].blk.base[..]),
             old(s[i].rdPtr) + Upto(old(Texts(s)), i, rdOffset), size, old(s[i].wrPtr))
      ensures var ts := old(Texts(s));
        EatsExactly(s, ts, rdOffset, size, now.bufs) <==> !OverrunsAtStart(ts, rdOffset, size)
      ensures var ts := old(Texts(s)); OverrunsAtStart(ts, rdOffset, size) ==>
        && a < b <= |s| && Start(ts, a) == rdOffset && RunsTo(ts, a, size, b)
        && now.bufs == live.bufs - Dropped(s, a, b) && head == if a == 0 then NodeAt(s, b) else this
      ensures var ts := old(Texts(s)); !OverrunsAtStart(ts, rdOffset, size) ==>
        && a <= b <= |s| && now.bufs == live.bufs - Objs(s[a..b]) && Chain(head, Without(s, a, b))
        && EatenRange(ts, a, b, rdOffset, size)
        && AreCut(s, Views(s), old(Views(s)), ts, rdOffset, size, now.bufs)
        && (old(OwnMemory(s)) || NoneMoves(ts, rdOffset, size) ==>
             Bytes(Without(s, a, b)) == Cut(old(Bytes(s)), rdOffset, size))
    {
      hide *;
      ghost var ts, vs := Texts(s), Views(s);
      ChainFits(s, live);
      ChainSpelled(this, s, live.bufs);
      TextsInPlace(s, live);
      BytesAre(s);
      head, now, a, b := this, live, 0, 0;
      var look, prev, need;
      look, prev, need, i := Locate(rdOffset, s);
      if look != null && look.Length() > need {
        OverrunsWhen(ts, i, need, size);
        MovesWhen(ts, i, need, rdOffset, size);
        UptoWithin(ts, i, need, 0, i);
        ViewsAre(s);
        ArraysHave(s, i);
        head, a, b, now := look.EatFound(this, prev, need, size, s, i, live);
      } else {
        EatenNowhere(ts, rdOffset, size);
        MovesNowhere(ts, rdOffset, size);
        NoneCut(s, vs, ts, rdOffset, size, now.bufs);
        NothingWithout(s, a);
        assert now.bufs == live.bufs - Objs(s[a..b]);
        BytesAre(Without(s, a, b));
      }
      if !OverrunsAtStart(ts, rdOffset, size) {
        RangeEaten(s, ts, a, b, rdOffset, size, live.bufs);
      }
    }
  }

  lemma NothingLive()
    ensures Sound(Live({}, {}))
  {
  }

  /** A window onto new memory that holds just two bytes. */
  method TwoBytes(x: byte, y: byte, next: BufBlk?, ghost live: Live) returns (b: BufBlk, ghost now: Live)
    requires Sound(live)
    ensures fresh(b) && b.blk != null && fresh(b.blk) && fresh(b.blk.base) && b.nextblk == next
    ensures Text(b) == [x, y]
    ensures Sound(now) && now == Live(live.bufs + {b}, live.mems + {b.blk})
  {
    hide Sound, Text;
    b, now := BufBlk.Make(2, next, live);
    var n := b.CopyFrom([x, y], now);
    assert [] + [x, y][..2] == [x, y];
  }

  /** A chain of two windows of two bytes each. */
  method TwoBlocks() returns (s: seq<BufBlk>, ghost now: Live)
    ensures |s| == 2 && Chain(s[0], s) && Sound(now) && now.bufs == Objs(s) && OwnMemory(s)
    ensures Texts(s) == [[1, 2], [3, 4]]
    ensures fresh(s[0]) && fresh(s[1]) && fresh(Arrays(s)) && fresh(now.mems)
  {
    NothingLive();
    hide Sound, Text, Texts, Arrays, OwnMemory;
    var b, c;
    c, now := TwoBytes(3, 4, null, Live({}, {}));
    b, now := TwoBytes(1, 2, c, now);
    s := [b, c];
    TextsHave(s);
    TwoWindows(b, c);
  }

  lemma TwoWindows(b: BufBlk, c: BufBlk)
    ensures Arrays([b, c]) == b.Memory() + c.Memory()
    ensures b.Memory() !! c.Memory() ==> OwnMemory([b, c])
  {
    var s := [b, c];
    assert s[0] == b && s[1] == c;
  }

  /**
   * A cut of three bytes from the first byte of such a chain on: the first window is wholly inside the
   * cut, and the windows inside it are not those released.
   */
  method EatTwoBlocks() returns (s: seq<BufBlk>, ghost ts: seq<seq<byte>>, ghost now: Live)
    ensures ts == [[1, 2], [3, 4]] && |s| == 2 && WhollyEaten(ts, 0, 0, 3)
    ensures Sound(now) && !EatsExactly(s, ts, 0, 3, now.bufs)
  {
    hide *;
    s, now := TwoBlocks();
    ts := Texts(s);
    OverrunsTwoBlocks();
    var head;
    ghost var x, y, z;
    head, x, y, z, now := s[0].EatBytes(0, 3, s, now);
  }
}
