/** The iterator over the readable bytes of a chain, which holds a duplicate of the chain. */
module BufferIteration {
  import opened BufBlkTheory
  import opened Buffers

  /** The bytes of the chain `c` from byte `off` of window `k` on. */
  ghost function BytesFrom(c: seq<BufBlk>, k: nat, off: nat): seq<byte>
    reads c`blk, c`rdPtr, c`wrPtr, Arrays(c)
  {
    if k <= |c| && off <= |Flatten(Texts(c)[k..])| then Rest(Texts(c), k, off) else []
  }

  lemma FromSplits(c: seq<BufBlk>, k: nat, off: nat)
    requires k < |c| && off <= |Text(c[k])|
    ensures BytesFrom(c, k, off) == Text(c[k])[off..] + BytesFrom(c, k + 1, 0)
  {
    RestSplits(Texts(c), k, off);
  }

  lemma FromWithin(c: seq<BufBlk>, k: nat, off: nat, n: nat)
    requires k < |c| && off + n <= |Text(c[k])|
    ensures BytesFrom(c, k, off) == Text(c[k])[off..off + n] + BytesFrom(c, k, off + n)
  {
    RestWithin(Texts(c), k, off, n);
  }

  lemma FromEnds(c: seq<BufBlk>)
    ensures BytesFrom(c, |c|, 0) == [] && BytesFrom(c, 0, 0) == Bytes(c)
  {
    RestEnds(Texts(c));
  }

  lemma Joined(live: Live, c: seq<BufBlk>)
    ensures Objs(c) <= live.bufs + Objs(c)
  {
  }

  class BufBlkIter {
    const start: BufBlk
    var cur: BufBlk?
    var rdOffset: int
    ghost const chain: seq<BufBlk>
    ghost var at: nat

    /** The iterator stands `rdOffset` bytes into the window `at` of its chain. */
    ghost predicate Valid(live: Live)
      reads this, chain`nextblk, chain`rdPtr, chain`wrPtr
      reads live.bufs`blk, live.bufs`rdPtr, live.bufs`wrPtr, live.mems`refCount
    {
      && Sound(live) && Objs(chain) <= live.bufs
      && Chain(start, chain) && at <= |chain| && cur == NodeAt(chain, at)
      && 0 <= rdOffset <= if at < |chain| then chain[at].Length() else 0
    }

    /** The bytes not yet handed out. */
    ghost function Left(): seq<byte>
      reads this, chain`blk, chain`rdPtr, chain`wrPtr, Arrays(chain)
    {
      if rdOffset < 0 then [] else BytesFrom(chain, at, rdOffset)
    }

    /** Starts at the first readable byte of the chain `b`, holding every memory block of it once more. */
    constructor (b: BufBlk, ghost s: seq<BufBlk>, ghost live: Live)
      requires Sound(live) && Chain(b, s) && Objs(s) <= live.bufs
      requires forall k :: 1 <= k < |s| ==> s[k].blk != null
      modifies live.mems`refCount
      ensures Valid(live.(bufs := live.bufs + Objs(chain)))
      ensures SameWindows(chain, s) && Left() == Bytes(s) && at == 0
      ensures forall k :: 0 <= k < |chain| ==> fresh(chain[k])
    {
      hide Sound, Chain, Objs, NodeAt, BytesFrom, Bytes, Text, Texts, Arrays, SameWindows;
      ChainSpelled(b, s, live.bufs);
      ArraysAllocated(s);
      var dup;
      ghost var c, now;
      dup, c, now := b.Duplicate(s, live);
      start := dup;
      cur := dup;
      rdOffset := 0;
      chain := c;
      at := 0;
      new;
      SameBytes(c, s);
      FromEnds(c);
      Joined(live, c);
      ChainSpelled(dup, c, now.bufs);
      NodeIs(c, 0);
      ChainFits(c, now);
    }

    /** Releases the duplicate. */
    method Destroy(ghost live: Live) returns (ghost now: Live)
      requires Sound(live) && Objs(chain) <= live.bufs && Chain(start, chain)
      modifies chain, live.mems`refCount
      ensures Sound(now) && now.bufs == live.bufs - Objs(chain) && now.mems <= live.mems
    {
      now := start.Release(chain, live);
    }

    /**
     * Hands out the next bytes, all from one window: what is left of it, or `max` bytes if that
     * is less. `max == -1` sets no limit. A chunk of `max` bytes never uses up its window, so that
     * the step to the next window that the source takes in that case is not there.
     */
    method GetNextChunk(max: int, ghost live: Live) returns (ok: bool, chunk: seq<byte>)
      requires Valid(live) && max >= -1
      modifies `cur, `rdOffset, `at
      ensures Valid(live)
      ensures ok <==> old(cur) != null
      ensures old(Left()) == chunk + Left()
      ensures ok ==> var there := old(cur).Length() - old(rdOffset);
        if max == -1 || there <= max then |chunk| == there && at == old(at) + 1 else |chunk| == max && at == old(at)
      ensures !ok ==> chunk == [] && Left() == [] && at == old(at)
    {
      hide Sound, Chain, Objs, NodeAt, BytesFrom, Bytes, Text, Texts, Arrays, SameWindows;
      NodeIs(chain, at);
      NodeIs(chain, at + 1);
      ChainSpelled(start, chain, live.bufs);
      TextsInPlace(chain, live);
      FromEnds(chain);
      if cur != null {
        FromSplits(chain, at, rdOffset);
        if max == -1 {
          chunk := Text(cur)[rdOffset..];
          rdOffset := 0;
          cur := cur.nextblk;
          at := at + 1;
        } else {
          if max >= cur.Length() - rdOffset {
            chunk := Text(cur)[rdOffset..];
            rdOffset := 0;
            cur := cur.nextblk;
            at := at + 1;
          } else {
            FromWithin(chain, at, rdOffset, max);
            chunk := Text(cur)[rdOffset..rdOffset + max];
            rdOffset := rdOffset + max;
          }
        }
        ok := true;
      } else {
        ok, chunk := false, [];
      }
    }
  }
}
