/** Runs: any sequence of buffer operations, over any number of handles to chains and iterators. */
module BufferRuns {
  import opened BufBlkTheory
  import opened BufferIteration
  import opened BufferPictures
  import opened BufferReading
  import opened Buffers

  ghost predicate Owns(h: Handle, c: seq<BufBlk>)
    reads Its(h), c`nextblk, c`rdPtr, c`wrPtr
  {
    match h
    case Gone => c == []
    case Buf(b) => Chain(b, c)
    case Iter(it) =>
      && Chain(it.start, c) && c == it.chain && it.at <= |c| && it.cur == NodeAt(c, it.at)
      && 0 <= it.rdOffset <= if it.at < |c| then c[it.at].Length() else 0
  }

  /** Each handle has a chain of its own, and every window belongs to one of them. */
  ghost predicate Table(hs: seq<Handle>, chains: seq<seq<BufBlk>>, bufs: set<BufBlk>)
    reads Iters(hs), bufs`nextblk, bufs`rdPtr, bufs`wrPtr
  {
    && |hs| == |chains|
    && (forall k :: 0 <= k < |hs| ==> Objs(chains[k]) <= bufs && Owns(hs[k], chains[k]))
    && (forall j, k :: 0 <= j < k < |hs| ==> Objs(chains[j]) !! Objs(chains[k]))
    && forall b :: b in bufs ==> exists k :: 0 <= k < |chains| && b in Objs(chains[k])
  }

  ghost predicate AllLook(bufs: set<BufBlk>)
    reads bufs`blk
  {
    forall b :: b in bufs ==> b.blk != null
  }

  lemma TableGrows(hs: seq<Handle>, chains: seq<seq<BufBlk>>, bufs: set<BufBlk>, h: Handle, c: seq<BufBlk>)
    requires Table(hs, chains, bufs) && Owns(h, c) && Objs(c) !! bufs
    ensures Table(hs + [h], chains + [c], bufs + Objs(c))
  {
    hide Objs, Owns;
    var chains' := chains + [c];
    forall b | b in bufs + Objs(c) ensures exists k :: 0 <= k < |chains'| && b in Objs(chains'[k]) {
      if b in Objs(c) {
        assert b in Objs(chains'[|chains|]);
      } else {
        var k :| 0 <= k < |chains| && b in Objs(chains[k]);
        assert b in Objs(chains'[k]);
      }
    }
  }

  lemma TableDrops(hs: seq<Handle>, chains: seq<seq<BufBlk>>, bufs: set<BufBlk>, h: nat)
    requires Table(hs, chains, bufs) && h < |hs|
    ensures Table(hs[h := Gone], chains[h := []], bufs - Objs(chains[h]))
    ensures Objs(chains[h]) <= bufs && Owns(hs[h], chains[h])
  {
    var chains' := chains[h := []];
    assert Objs([]) == {} && Owns(Gone, []);
    hide Objs, Owns;
    forall b | b in bufs - Objs(chains[h])
      ensures exists k :: 0 <= k < |chains'| && b in Objs(chains'[k])
    {
      var k :| 0 <= k < |chains| && b in Objs(chains[k]);
      assert k != h && b in Objs(chains'[k]);
    }
  }

  lemma TablePuts(hs: seq<Handle>, chains: seq<seq<BufBlk>>, bufs: set<BufBlk>, at: nat, h: Handle, c: seq<BufBlk>)
    requires Table(hs, chains, bufs) && at < |hs| && chains[at] == []
    requires Owns(h, c) && Objs(c) !! bufs
    ensures Table(hs[at := h], chains[at := c], bufs + Objs(c))
  {
    var chains' := chains[at := c];
    assert Objs([]) == {};
    hide Objs, Owns;
    forall b | b in bufs + Objs(c) ensures exists k :: 0 <= k < |chains'| && b in Objs(chains'[k]) {
      if b in Objs(c) {
        assert b in Objs(chains'[at]);
      } else {
        var k :| 0 <= k < |chains| && b in Objs(chains[k]);
        assert b in Objs(chains'[k]);
      }
    }
  }

  lemma LooksGrow(bufs: set<BufBlk>, c: seq<BufBlk>, s: seq<BufBlk>)
    requires AllLook(bufs) && Objs(s) <= bufs
    requires SameWindows(c, s) || DeepCopies(c, s)
    ensures AllLook(bufs + Objs(c))
  {
    InChain(s, bufs);
    forall k | 0 <= k < |c| ensures c[k].blk != null {
      assert SameWindows(c, s) ==> c[k].Shows() == s[k].Shows();
      assert DeepCopies(c, s) ==> DeepCopyOf(c[k], s[k]);
    }
  }

  lemma LooksToo(bufs: set<BufBlk>, b: BufBlk)
    requires AllLook(bufs) && b.blk != null
    ensures AllLook(bufs + {b})
  {
  }

  lemma LooksStill(bufs: set<BufBlk>, fewer: set<BufBlk>)
    requires AllLook(bufs) && fewer <= bufs
    ensures AllLook(fewer)
  {
  }

  lemma NotAmong(c: seq<BufBlk>, bufs: set<BufBlk>)
    requires Objs(c) !! bufs
    ensures forall k :: 0 <= k < |c| ==> c[k] !in bufs
  {
    assert forall k :: 0 <= k < |c| ==> c[k] in Objs(c);
  }

  lemma LookEach(bufs: set<BufBlk>, s: seq<BufBlk>)
    requires AllLook(bufs) && Objs(s) <= bufs
    ensures forall k :: 0 <= k < |s| ==> s[k].blk != null
  {
    InChain(s, bufs);
  }

  /** What the proofs keep of a run: the chains of the handles, the live objects, and the picture. */
  datatype Book = Book(chains: seq<seq<BufBlk>>, live: Live, t: seq<Holding>)

  /** What holds between the operations of a run. */
  ghost predicate Good(hs: seq<Handle>, g: Book)
    reads Iters(hs), g.live.bufs, g.live.mems`refCount, Bases(g.live.mems)
  {
    && Sound(g.live) && AllLook(g.live.bufs) && Table(hs, g.chains, g.live.bufs)
    && Shows(g.t, hs, g.chains, g.live)
  }

  /** When everything is released nothing is left: no window and no memory leaks. */
  lemma NothingLeaks(hs: seq<Handle>, g: Book)
    requires Good(hs, g)
    requires forall k :: 0 <= k < |hs| ==> hs[k] == Gone
    ensures g.live.bufs == {} && g.live.mems == {}
  {
    assert Objs([]) == {};
    forall k | 0 <= k < |hs| ensures g.chains[k] == [] {
      assert Owns(hs[k], g.chains[k]);
    }
    forall m | m in g.live.mems ensures false {
      AliveWhileHeld(g.live, m);
    }
  }

  /** What an operation leaves behind is from before or new. */
  twostate predicate OnlyNew(hs: seq<Handle>, live: Live, new r: seq<Handle>, new now: Live) {
    && (forall b :: b in now.bufs ==> b in live.bufs || fresh(b))
    && (forall m :: m in now.mems ==> m in live.mems || (fresh(m) && fresh(m.base)))
    && (forall i :: i in Iters(r) ==> i in Iters(hs) || fresh(i))
  }

  lemma ShowsGrow(hs: seq<Handle>, g: Book, h: Handle, c: seq<BufBlk>, now: Live)
    requires Shows(g.t, hs, g.chains, g.live) && Sound(now) && Objs(c) <= now.bufs
    requires g.live.bufs <= now.bufs && g.live.mems <= now.mems
    ensures Shows(g.t + [Held(h, c)], hs + [h], g.chains + [c], now)
  {
    hide Held, Sound, Objs, Arrays;
    ArraysIn(c, now);
    assert Bases(g.live.mems) <= Bases(now.mems);
  }

  /** An operation that makes a new chain for a new handle. */
  lemma Joined(hs: seq<Handle>, g: Book, h: Handle, c: seq<BufBlk>, now: Live) returns (g': Book)
    requires Table(hs, g.chains, g.live.bufs) && Owns(h, c) && Shows(g.t, hs, g.chains, g.live)
    requires forall k :: 0 <= k < |c| ==> c[k] !in g.live.bufs
    requires now.bufs == g.live.bufs + Objs(c) && g.live.mems <= now.mems && Sound(now) && AllLook(now.bufs)
    ensures g' == Book(g.chains + [c], now, g.t + [Held(h, c)]) && Good(hs + [h], g')
    ensures Grown(g.t, g'.t) && g'.t[|g.t|] == Held(h, c) && Iters(hs + [h]) == Iters(hs) + Its(h)
    ensures forall b :: b in now.bufs && b !in g.live.bufs ==> b in c
  {
    TableGrows(hs, g.chains, g.live.bufs, h, c);
    hide Sound, Table, AllLook, Owns, Held, Shows, Objs;
    ObjsAre(c);
    ShowsGrow(hs, g, h, c, now);
    IterMore(hs, h);
    g' := Book(g.chains + [c], now, g.t + [Held(h, c)]);
  }

  lemma IterMore(hs: seq<Handle>, h: Handle)
    ensures Iters(hs + [h]) == Iters(hs) + Its(h)
  {
    var r := hs + [h];
    assert r[|hs|] == h && forall k :: 0 <= k < |hs| ==> r[k] == hs[k];
  }

  /** What is on record of a handle. */
  lemma Recorded(hs: seq<Handle>, g: Book, h: nat)
    requires Good(hs, g) && h < |hs|
    ensures |g.chains| == |hs| == |g.t| && g.t[h] == Held(hs[h], g.chains[h])
    ensures g.t[h].handle == hs[h] && (!hs[h].Iter? ==> g.t[h].left == NOWHERE)
    ensures Objs(g.chains[h]) <= g.live.bufs && Owns(hs[h], g.chains[h])
    ensures Views(g.chains[h]) == g.t[h].views && Texts(g.chains[h]) == g.t[h].texts
    ensures Bytes(g.chains[h]) == Flatten(g.t[h].texts)
    ensures forall k :: 0 <= k < |g.chains[h]| ==> g.chains[h][k].blk != null
  {
    LookEach(g.live.bufs, g.chains[h]);
    BytesAre(g.chains[h]);
  }

  lemma Shown(hs: seq<Handle>, g: Book, h: nat)
    requires Shows(g.t, hs, g.chains, g.live) && h < |hs|
    ensures |g.t| == |hs| == |g.chains| && g.t[h] == Held(hs[h], g.chains[h])
    ensures Views(g.chains[h]) == g.t[h].views && Texts(g.chains[h]) == g.t[h].texts
    ensures Bytes(g.chains[h]) == Flatten(g.t[h].texts)
  {
    BytesAre(g.chains[h]);
  }

  lemma MemoriesAre(h: Handle, c: seq<BufBlk>)
    ensures Memories(Held(h, c)) == Arrays(c)
  {
    var x := Held(h, c);
    assert forall k :: 0 <= k < |c| ==> x.views[k] == c[k].Shows();
  }

  lemma AreUnshared(hs: seq<Handle>, g: Book, x: Holding)
    requires Shows(g.t, hs, g.chains, g.live) && Memories(x) !! Bases(g.live.mems)
    ensures Unshared(g.t, x)
  {
    hide Held, Arrays, Memories;
    forall k | 0 <= k < |g.t| ensures Memories(g.t[k]) !! Memories(x) {
      MemoriesAre(hs[k], g.chains[k]);
    }
  }

  lemma OneWindow(b: BufBlk)
    ensures Held(Buf(b), [b]) == Holding(Buf(b), [b.Shows()], [Text(b)], NOWHERE)
    ensures b.blk != null ==> Memories(Held(Buf(b), [b])) == {b.blk.base}
  {
  }

  lemma AreAllocated(hs: seq<Handle>, live: Live)
    ensures allocated(Iters(hs)) && allocated(Bases(live.mems))
    ensures forall k :: 0 <= k < |hs| ==> allocated(Its(hs[k]))
  {
  }

  method DoNew(size: nat, hs: seq<Handle>, ghost g: Book) returns (r: seq<Handle>, ghost g': Book)
    requires Good(hs, g)
    ensures Good(r, g') && OnlyNew(hs, g.live, r, g'.live)
    ensures Grown(g.t, g'.t) && IsNew(g.t, g'.t[|g.t|], size)
  {
    hide Table, Sound, AllLook, Objs, Chain, Held, Shows, Memories, Text, Iters, Bases;
    AreAllocated(hs, g.live);
    var b;
    ghost var now;
    b, now := BufBlk.Make(size, null, g.live);
    OneIsChain(b);
    LooksToo(g.live.bufs, b);
    g' := Joined(hs, g, Buf(b), [b], now);
    OneWindow(b);
    AreUnshared(hs, g, Held(Buf(b), [b]));
    r := hs + [Buf(b)];
  }

  lemma SameHolding(h: Handle, c: seq<BufBlk>, g: Handle, s: seq<BufBlk>)
    requires SameWindows(c, s) && h.Buf? && g.Buf?
    ensures Held(h, c) == Held(g, s).(handle := h)
  {
    SameBytes(c, s);
  }

  /** `b` heads the chain of handle `h`. */
  method DoDuplicate(b: BufBlk, h: nat, hs: seq<Handle>, ghost g: Book) returns (r: seq<Handle>, ghost g': Book)
    requires Good(hs, g) && h < |hs| && hs[h] == Buf(b)
    modifies g.live.mems`refCount
    ensures Good(r, g') && OnlyNew(hs, g.live, r, g'.live)
    ensures |g.t| == |hs| && Grown(g.t, g'.t) && g'.t[|g.t|].handle.Buf?
    ensures g'.t[|g.t|] == g.t[h].(handle := g'.t[|g.t|].handle)
  {
    hide Table, Sound, AllLook, Objs, Chain, Held, Shows, Iters, Bases, SameWindows, Text, Texts;
    Recorded(hs, g, h);
    AreAllocated(hs, g.live);
    ghost var s := g.chains[h];
    var d;
    ghost var c, now;
    d, c, now := b.Duplicate(s, g.live);
    LooksGrow(g.live.bufs, c, s);
    Shown(hs, g, h);
    SameHolding(Buf(d), c, hs[h], s);
    g' := Joined(hs, g, Buf(d), c, now);
    r := hs + [Buf(d)];
  }

  /** Deep copies show the same bytes in memory that nobody else looks at. */
  lemma DeepHolding(h: Handle, c: seq<BufBlk>, g: Handle, s: seq<BufBlk>, mems: set<MemBlk>)
    requires DeepCopies(c, s) && OwnMemory(c) && LookInto(c, mems) && h.Buf?
    ensures var x, o := Held(h, c), Held(g, s);
      && x.handle == h && x.texts == o.texts && x.left == NOWHERE && |x.views| == |o.views| && Separate(x.views)
      && (forall k :: 0 <= k < |x.views| ==> x.views[k].rd == o.views[k].rd && x.views[k].wr == o.views[k].wr)
      && Memories(x) <= Bases(mems)
  {
    DeepBytes(c, s);
    forall k | 0 <= k < |c| ensures c[k].rdPtr == s[k].rdPtr && c[k].wrPtr == s[k].wrPtr {
      assert DeepCopyOf(c[k], s[k]);
    }
    SeparateViews(c);
    hide Texts, Text, DeepFirst, DeepCopies, OwnMemory, Separate;
    MemoriesAre(h, c);
  }

  lemma SeparateViews(c: seq<BufBlk>)
    ensures OwnMemory(c) <==> Separate(Views(c))
  {
    forall j, k | 0 <= j < k < |c| ensures c[j].Memory() !! c[k].Memory() <==>
      c[j].blk == null || c[k].blk == null || c[j].blk.base != c[k].blk.base
    {
      if c[j].blk != null && c[k].blk != null && c[j].blk.base == c[k].blk.base {
        assert c[j].blk.base in c[j].Memory() * c[k].Memory();
      }
    }
  }

  method DoDeepCopy(b: BufBlk, h: nat, hs: seq<Handle>, ghost g: Book) returns (r: seq<Handle>, ghost g': Book)
    requires Good(hs, g) && h < |hs| && hs[h] == Buf(b)
    ensures Good(r, g') && OnlyNew(hs, g.live, r, g'.live)
    ensures |g.t| == |hs| && Grown(g.t, g'.t) && IsDeepCopy(g.t, g'.t[|g.t|], g.t[h])
  {
    hide Table, Sound, AllLook, Objs, Chain, Held, Shows, Iters, DeepCopies, OwnMemory, LookInto, Separate, Unshared,
      Memories, Text, Texts;
    Recorded(hs, g, h);
    AreAllocated(hs, g.live);
    ghost var s := g.chains[h];
    var d;
    ghost var c, now;
    d, c, now := b.DeepCopy(s, g.live);
    LooksGrow(g.live.bufs, c, s);
    g' := Joined(hs, g, Buf(d), c, now);
    Shown(hs, g, h);
    DeepHolding(Buf(d), c, hs[h], s, now.mems - g.live.mems);
    AreUnshared(hs, g, Held(Buf(d), c));
    r := hs + [Buf(d)];
  }

  method DoContig(b: BufBlk, offset: nat, size: nat, h: nat, hs: seq<Handle>, ghost g: Book)
    returns (r: seq<Handle>, ghost g': Book)
    requires Good(hs, g) && h < |hs| && hs[h] == Buf(b)
    modifies g.live.mems`refCount
    ensures Good(r, g') && OnlyNew(hs, g.live, r, g'.live)
    ensures |g.t| == |hs|
    ensures var x, bytes := g.t[h], Flatten(g.t[h].texts);
      if offset < |bytes| && offset + size <= |bytes| then
        Grown(g.t, g'.t) && |x.views| == |x.texts| && IsContig(g.t, g'.t[|g.t|], x, offset, size)
      else if TakenUp(x.texts, offset, size) then Grown(g.t, g'.t) && IsPartial(g.t, g'.t[|g.t|], x, offset, size)
      else g'.t == g.t
  {
    hide Table, Sound, AllLook, Objs, Chain, Held, Shows, Iters, Text, Texts, Bytes, Flatten, InBlock, TakenUp,
      Memories, Views;
    Recorded(hs, g, h);
    AreAllocated(hs, g.live);
    ghost var s := g.chains[h];
    r, g' := hs, g;
    var ok, out;
    ghost var now;
    ok, out, now := b.GetContigBlock(offset, size, s, g.live);
    Shown(hs, g, h);
    if out != null {
      TextIs(out) by {
        WindowOf(now, out);
      }
      OneIsChain(out);
      LooksToo(g.live.bufs, out);
      g' := Joined(hs, g, Buf(out), [out], now);
      OneWindow(out);
      if fresh(out.blk) {
        AreUnshared(hs, g, Held(Buf(out), [out]));
      }
      r := hs + [Buf(out)];
    }
  }

  method DoOpenIter(b: BufBlk, h: nat, hs: seq<Handle>, ghost g: Book) returns (r: seq<Handle>, ghost g': Book)
    requires Good(hs, g) && h < |hs| && hs[h] == Buf(b)
    modifies g.live.mems`refCount
    ensures Good(r, g') && OnlyNew(hs, g.live, r, g'.live)
    ensures |g.t| == |hs| && Grown(g.t, g'.t) && g'.t[|g.t|].handle.Iter?
    ensures g'.t[|g.t|] == g.t[h].(handle := g'.t[|g.t|].handle, left := Ahead(0, Flatten(g.t[h].texts)))
  {
    hide Table, Sound, AllLook, Objs, Chain, Held, Shows, Iters, Bases, SameWindows, Bytes, BytesFrom, Text, Texts;
    Recorded(hs, g, h);
    AreAllocated(hs, g.live);
    ghost var s := g.chains[h];
    var it := new BufBlkIter(b, s, g.live);
    ghost var c := it.chain;
    ghost var now := g.live.(bufs := g.live.bufs + Objs(c));
    LooksGrow(g.live.bufs, c, s);
    Shown(hs, g, h);
    IterHolding(it, hs[h], s);
    g' := Joined(hs, g, Iter(it), c, now);
    r := hs + [Iter(it)];
  }

  lemma IterHolding(it: BufBlkIter, h: Handle, s: seq<BufBlk>)
    requires SameWindows(it.chain, s) && it.Left() == Bytes(s) && it.rdOffset >= 0 && it.at == 0 && h.Buf?
    ensures Held(Iter(it), it.chain) == Held(h, s).(handle := Iter(it), left := Ahead(0, Flatten(Held(h, s).texts)))
  {
    SameBytes(it.chain, s);
  }

  lemma AllLooks(hs: seq<Handle>, g: Book)
    requires Shows(g.t, hs, g.chains, g.live)
    ensures |g.t| == |hs| == |g.chains|
    ensures forall k :: 0 <= k < |hs| ==> Looks(g.t[k], hs[k], g.chains[k])
  {
    forall k | 0 <= k < |hs| ensures Looks(g.t[k], hs[k], g.chains[k]) {
      LooksHeld(g.t[k], hs[k], g.chains[k]);
    }
  }

  /** A book whose picture is that of each handle. */
  lemma Booked(hs: seq<Handle>, g: Book)
    requires Sound(g.live) && AllLook(g.live.bufs) && Table(hs, g.chains, g.live.bufs) && |g.t| == |hs|
    requires forall k :: 0 <= k < |hs| && k < |g.chains| ==> Looks(g.t[k], hs[k], g.chains[k])
    ensures Good(hs, g)
  {
    hide Sound, AllLook, Table, Held, Objs, Arrays, Looks;
    TableObjs(hs, g.chains, g.live.bufs);
    forall k | 0 <= k < |hs| ensures Arrays(g.chains[k]) <= Bases(g.live.mems) {
      ArraysIn(g.chains[k], g.live);
    }
    forall k | 0 <= k < |hs| ensures g.t[k] == Held(hs[k], g.chains[k]) {
      LooksHeld(g.t[k], hs[k], g.chains[k]);
    }
  }

  lemma TableObjs(hs: seq<Handle>, chains: seq<seq<BufBlk>>, bufs: set<BufBlk>)
    requires Table(hs, chains, bufs)
    ensures |hs| == |chains| && forall k :: 0 <= k < |hs| ==> Objs(chains[k]) <= bufs
  {
  }

  /** No window of one handle is a window of another. */
  lemma Strangers(hs: seq<Handle>, chains: seq<seq<BufBlk>>, bufs: set<BufBlk>, h: nat)
    requires Table(hs, chains, bufs) && h < |hs|
    ensures forall k :: 0 <= k < |hs| && k != h ==> forall b :: b in chains[k] ==> b !in chains[h]
  {
    forall k, b | 0 <= k < |hs| && k != h && b in chains[k] ensures b !in chains[h] {
      assert Objs(chains[if k < h then k else h]) !! Objs(chains[if k < h then h else k]);
      assert b in Objs(chains[k]);
    }
  }

  lemma NothingHeld()
    ensures Looks(NOTHING, Gone, [])
  {
  }

  lemma IterLess(hs: seq<Handle>, h: nat)
    requires h < |hs|
    ensures Iters(hs[h := Gone]) <= Iters(hs)
  {
    var r := hs[h := Gone];
    assert forall k :: 0 <= k < |hs| && k != h ==> r[k] == hs[k];
  }

  method Drop(h: Handle, ghost s: seq<BufBlk>, ghost live: Live) returns (ghost now: Live)
    requires Owns(h, s) && !h.Gone? && Sound(live) && Objs(s) <= live.bufs
    modifies s, live.mems`refCount
    ensures Sound(now) && now.bufs == live.bufs - Objs(s) && now.mems <= live.mems
  {
    hide Sound, Objs, Chain, NodeAt;
    if h.Buf? {
      now := h.b.Release(s, live);
    } else {
      now := h.it.Destroy(live);
    }
  }

  /** Releases a chain, or an iterator. */
  method LetGo(h: nat, hs: seq<Handle>, ghost g: Book) returns (r: seq<Handle>, ghost g': Book)
    requires Good(hs, g) && h < |hs| && !hs[h].Gone?
    modifies g.live.bufs, g.live.mems`refCount
    ensures Good(r, g') && OnlyNew(hs, g.live, r, g'.live)
    ensures |g.t| == |hs| && g'.t == g.t[h := NOTHING]
  {
    hide Table, Sound, AllLook, Objs, Chain, Held, Iters, Arrays, Owns;
    ghost var s, bufs := g.chains[h], g.live.bufs - Objs(g.chains[h]);
    AreAllocated(hs, g.live);
    AllArraysAllocated(g.chains);
    TableDrops(hs, g.chains, g.live.bufs, h);
    Strangers(hs, g.chains, g.live.bufs, h);
    LooksStill(g.live.bufs, bufs);
    InChain(s, g.live.bufs);
    NotAmong(s, bufs);
    IterLess(hs, h);
    NothingHeld();
    AllLooks(hs, g);
    ghost var now := Drop(hs[h], s, g.live);
    forall k | 0 <= k < |hs| && k != h ensures Looks(g.t[k], hs[k], g.chains[k]) {
      assert forall j :: 0 <= j < |g.chains[k]| ==> g.chains[k][j] in g.chains[k];
    }
    r, g' := hs[h := Gone], Book(g.chains[h := []], now, g.t[h := NOTHING]);
    Booked(r, g');
  }

  lemma AllArraysAllocated(chains: seq<seq<BufBlk>>)
    ensures forall k :: 0 <= k < |chains| ==> allocated(Arrays(chains[k]))
  {
  }

  lemma JoinedObjs(s: seq<BufBlk>, t: seq<BufBlk>)
    ensures Objs(s + t) == Objs(s) + Objs(t)
  {
  }

  lemma JoinedHolding(h: Handle, s: seq<BufBlk>, x: Holding, o: Handle, t: seq<BufBlk>, y: Holding)
    requires Looks(x, h, s) && Looks(y, o, t) && !h.Iter?
    ensures Looks(Merged(x, y), h, s + t)
  {
  }

  lemma TwoChains(hs: seq<Handle>, chains: seq<seq<BufBlk>>, bufs: set<BufBlk>, h: nat, other: nat)
    requires Table(hs, chains, bufs) && h < |hs| && other < |hs| && h != other && hs[h].Buf? && hs[other].Buf?
    ensures Chain(hs[h].b, chains[h]) && Chain(hs[other].b, chains[other]) && Objs(chains[h]) !! Objs(chains[other])
    ensures forall b :: b in chains[h] ==> b in bufs
  {
    assert Owns(hs[h], chains[h]) && Owns(hs[other], chains[other]);
    ObjsAre(chains[h]);
  }

  /** The chain `s` of handle `h`, which is not among the others, gets that of `other` behind it. */
  lemma TableMerges(hs: seq<Handle>, chains: seq<seq<BufBlk>>, bufs: set<BufBlk>, h: nat, other: nat)
    requires h < |hs| == |chains| && other < |hs| && h != other && hs[h].Buf? && Objs(chains[h]) <= bufs
    requires Table(hs[h := Gone], chains[h := []], bufs - Objs(chains[h]))
    requires Chain(hs[h].b, chains[h] + chains[other])
    ensures Table(hs[other := Gone], chains[h := chains[h] + chains[other]][other := []], bufs)
  {
    hide Table, Chain, Objs;
    var s, t := chains[h], chains[other];
    var hs1, chains1 := hs[h := Gone], chains[h := []];
    TableDrops(hs1, chains1, bufs - Objs(s), other);
    JoinedObjs(s, t);
    TablePuts(hs1[other := Gone], chains1[other := []], bufs - Objs(s) - Objs(t), h, hs[h], s + t);
    assert bufs - Objs(s) - Objs(t) + Objs(s + t) == bufs;
    assert hs1[other := Gone][h := hs[h]] == hs[other := Gone];
    assert chains1[other := []][h := s + t] == chains[h := s + t][other := []];
  }

  /** Hangs the chain of handle `other` behind that of handle `h`, which then owns both. */
  method DoAddToEnd(h: nat, other: nat, hs: seq<Handle>, ghost g: Book) returns (r: seq<Handle>, ghost g': Book)
    requires Good(hs, g) && h < |hs| && other < |hs| && h != other && hs[h].Buf? && hs[other].Buf?
    modifies g.live.bufs`nextblk
    ensures Good(r, g') && OnlyNew(hs, g.live, r, g'.live) && |g.t| == |hs|
    ensures g'.t == g.t[h := Merged(g.t[h], g.t[other])][other := NOTHING]
  {
    hide Table, Sound, AllLook, Objs, Chain, Held, Iters, Arrays, Merged;
    AreAllocated(hs, g.live);
    AllArraysAllocated(g.chains);
    TableDrops(hs, g.chains, g.live.bufs, h);
    TwoChains(hs, g.chains, g.live.bufs, h, other);
    NotAmong(g.chains[h], g.live.bufs - Objs(g.chains[h]));
    IterLess(hs, h);
    IterLess(hs, other);
    NothingHeld();
    AllLooks(hs, g);
    ghost var s, t := g.chains[h], g.chains[other];
    hs[h].b.AddToEnd(hs[other].b, s, t, g.live);
    forall k | 0 <= k < |hs| ensures Looks(g.t[k], hs[k], g.chains[k]) {
    }
    JoinedHolding(hs[h], s, g.t[h], hs[other], t, g.t[other]);
    TableMerges(hs, g.chains, g.live.bufs, h, other);
    r := hs[other := Gone];
    g' := Book(g.chains[h := s + t][other := []], g.live, g.t[h := Merged(g.t[h], g.t[other])][other := NOTHING]);
    Booked(r, g');
  }

  lemma PictureReads(hs: seq<Handle>, g: Book)
    requires Good(hs, g)
    ensures |g.t| == |g.chains| == |hs| && forall k :: 0 <= k < |hs| ==> Reads(g.t[k])
    ensures forall k :: 0 <= k < |hs| ==> Looks(g.t[k], hs[k], g.chains[k])
    ensures forall k :: 0 <= k < |hs| && !hs[k].Iter? ==> g.t[k].left == NOWHERE
  {
    hide Held, Sound, Objs, Chain, Looks, Reads, AllLook, Table;
    AllLooks(hs, g);
    forall k | 0 <= k < |hs| && !hs[k].Iter? ensures g.t[k].left == NOWHERE {
      NothingLeft(g.t[k], hs[k], g.chains[k]);
    }
    forall k | 0 <= k < |hs| ensures Reads(g.t[k]) {
      ChainFits(g.chains[k], g.live);
      LooksReads(g.t[k], hs[k], g.chains[k]);
    }
  }

  /** The first window of the chain of handle `h`. */
  lemma FirstOf(hs: seq<Handle>, g: Book, h: nat)
    requires Good(hs, g) && h < |hs| && hs[h].Buf?
    ensures |g.chains| == |hs| && g.chains[h] != [] && g.chains[h][0] == hs[h].b && hs[h].b in g.live.bufs
    ensures hs[h].b.blk != null && hs[h].b.blk in g.live.mems && Chain(hs[h].b, g.chains[h])
    ensures forall j :: 0 < j < |g.chains[h]| ==> g.chains[h][j] != hs[h].b
    ensures hs[h].b in Objs(g.chains[h])
  {
    hide Sound, Objs, Held, Shows, Text, Texts, Views;
    assert Owns(hs[h], g.chains[h]);
    ObjsAre(g.chains[h]);
    WindowOf(g.live, hs[h].b);
  }

  /** Handle `h` back in its place. */
  lemma TableBack(hs: seq<Handle>, chains: seq<seq<BufBlk>>, bufs: set<BufBlk>, h: nat)
    requires h < |hs| == |chains| && Objs(chains[h]) <= bufs && Owns(hs[h], chains[h])
    requires Table(hs[h := Gone], chains[h := []], bufs - Objs(chains[h]))
    ensures Table(hs, chains, bufs)
  {
    hide Table, Owns, Objs;
    TablePuts(hs[h := Gone], chains[h := []], bufs - Objs(chains[h]), h, hs[h], chains[h]);
    assert hs[h := Gone][h := hs[h]] == hs && chains[h := []][h := chains[h]] == chains;
    assert bufs - Objs(chains[h]) + Objs(chains[h]) == bufs;
  }

  /** What is known before a write. */
  lemma BeforeFill(hs: seq<Handle>, g: Book, h: nat)
    requires Good(hs, g) && h < |hs| && hs[h].Buf?
    ensures |g.t| == |g.chains| == |hs| && g.chains[h] != [] && g.chains[h][0] == hs[h].b && hs[h].b.blk != null
    ensures hs[h].b in g.live.bufs && hs[h].b in Objs(g.chains[h]) && Chain(hs[h].b, g.chains[h])
    ensures Objs(g.chains[h]) <= g.live.bufs && Arrays(g.chains[h]) <= Bases(g.live.mems) && g.t[h].left == NOWHERE
    ensures forall j :: 0 < j < |g.chains[h]| ==> g.chains[h][j] != hs[h].b
    ensures forall k :: 0 <= k < |hs| ==> Looks(g.t[k], hs[k], g.chains[k])
    ensures Table(hs[h := Gone], g.chains[h := []], g.live.bufs - Objs(g.chains[h]))
    ensures forall k :: 0 <= k < |hs| && k != h ==> forall b :: b in g.chains[k] ==> b !in g.chains[h]
  {
    hide Table, Sound, AllLook, Objs, Chain, Held, Iters, Arrays, Shows, ReadsAs, Text, Owns, LeftIn, Looks;
    FirstOf(hs, g, h);
    PictureReads(hs, g);
    TableDrops(hs, g.chains, g.live.bufs, h);
    ArraysIn(g.chains[h], g.live);
    Strangers(hs, g.chains, g.live.bufs, h);
  }

  /** Writes `src` behind the readable bytes of the first window of handle `h`. */
  method DoFill(h: nat, src: seq<byte>, hs: seq<Handle>, ghost g: Book) returns (ghost g': Book)
    requires Good(hs, g) && h < |hs| && hs[h].Buf?
    modifies g.live.bufs`wrPtr, Bases(g.live.mems)
    ensures Good(hs, g') && g'.live == g.live && |g.t| == |hs| && Filled(g.t, h, src, g'.t)
  {
    hide Table, Sound, AllLook, Objs, Chain, Held, Iters, Arrays, Shows, Reads, ReadsAs, Text, Owns, LeftIn,
      Written, AllReadIn, ReadIn, Rewritten, Overwritten;
    AreAllocated(hs, g.live);
    LooksParts(hs, g);
    var n;
    ghost var was;
    n, g', was := FillFirst(h, src, hs, g);
    LooksParts(hs, g');
    ghost var v, xs := g.t[h].views[0], src[..n];
    forall k | 0 <= k < |hs| && k != h ensures Overwritten(g.t[k], g'.t[k], v.mem, v.wr, xs) {
      WindowsKept(v.mem, was, g.t[k], g'.t[k], hs[k]);
      ElsewhereWritten(v.mem, was, v.wr, xs, g.t[k], g'.t[k]);
    }
  }

  /** The write, with what the memory held before it. */
  method FillFirst(h: nat, src: seq<byte>, hs: seq<Handle>, ghost g: Book)
    returns (n: nat, ghost g': Book, ghost was: seq<byte>)
    requires Good(hs, g) && h < |hs| && hs[h].Buf?
    modifies g.live.bufs`wrPtr, Bases(g.live.mems)
    ensures Good(hs, g') && g'.live == g.live && |g.t| == |g'.t| == |hs| && FillsOwn(g.t[h], g'.t[h], src, n, was)
    ensures forall k :: 0 <= k < |hs| ==> AllReadIn(g.t[k], g.t[h].views[0].mem, was) && Reads(g'.t[k])
    ensures forall k :: 0 <= k < |hs| && k != h ==> |g'.t[k].views| == |g.t[k].views|
    ensures forall k, j :: 0 <= k < |hs| && k != h && 0 <= j < |g.t[k].views| ==> g'.t[k].views[j] == g.t[k].views[j]
  {
    hide Table, Sound, AllLook, Objs, Chain, Held, Iters, Arrays, Shows, Reads, Text, Owns, LeftIn, Written, AllReadIn,
      Rewritten, FillsOwn;
    BeforeFill(hs, g, h);
    AreAllocated(hs, g.live);
    var b := hs[h].b;
    IterLess(hs, h);
    n, was := FillWindow(h, src, hs, g);
    OwnsBuf(hs[h], g.chains[h]);
    TableBack(hs, g.chains, g.live.bufs, h);
    TableObjs(hs, g.chains, g.live.bufs);
    ghost var t' := Picture(hs, g.chains, g.live, |hs|);
    g' := g.(t := t');
    PictureReads(hs, g');
    forall k, j | 0 <= k < |hs| && 0 <= j < |g.t[k].views| && (k != h || j != 0)
      ensures g'.t[k].views[j] == g.t[k].views[j]
    {
      assert g.chains[k][j] in g.chains[k] && g.chains[k][j] != b;
    }
    OwnFilled(g.t[h], g'.t[h], src, n, was);
  }

  method FillWindow(h: nat, src: seq<byte>, hs: seq<Handle>, ghost g: Book) returns (n: nat, ghost was: seq<byte>)
    requires Good(hs, g) && h < |hs| == |g.chains| == |g.t| && hs[h].Buf?
    requires g.chains[h] != [] && g.chains[h][0] == hs[h].b && hs[h].b.blk != null
    requires |g.t[h].views| == |g.chains[h]| && g.t[h].views[0] == hs[h].b.Shows()
    modifies hs[h].b`wrPtr, Arrays(g.chains[h])
    ensures Sound(g.live) && n <= |src| && Text(hs[h].b) == old(Text(hs[h].b)) + src[..n]
    ensures hs[h].b.Shows() == old(hs[h].b.Shows()).(wr := old(hs[h].b.wrPtr) + n) && 0 <= old(hs[h].b.wrPtr)
    ensures n == if |src| <= old(hs[h].b.Freespace()) then |src| else old(hs[h].b.Freespace())
    ensures Written(hs[h].b.blk, was, old(hs[h].b.wrPtr), src[..n])
    ensures forall k :: 0 <= k < |hs| ==> AllReadIn(g.t[k], hs[h].b.blk, was)
  {
    hide Table, AllLook, Objs, Chain, Held, Iters, Arrays, Shows, Reads, Text, Owns, LeftIn, Written, AllReadIn, Sound;
    FirstOf(hs, g, h);
    ArraysHave(g.chains[h], 0);
    MemoriesLive(hs, g);
    WindowOf(g.live, hs[h].b);
    was := hs[h].b.blk.base[..];
    n := hs[h].b.CopyFrom(src, g.live);
    WrittenIs(hs[h].b.blk, was, old(hs[h].b.wrPtr), src[..n]);
    forall k, j | 0 <= k < |hs| && 0 <= j < |g.t[k].views|
      ensures ReadIn(g.t[k].views[j], g.t[k].texts[j], hs[h].b.blk, was)
    {
      assert old(ReadsAs(g.t[k].views[j], g.t[k].texts[j]));
    }
    AllAreReadIn(g.t, hs[h].b.blk, was);
  }

  lemma WrittenIs(m: MemBlk, was: seq<byte>, at: nat, xs: seq<byte>)
    requires at + |xs| <= |was| == m.base.Length && m.base[..][..at] == was[..at]
    requires m.base[..][at..at + |xs|] == xs && m.base[..][at + |xs|..] == was[at + |xs|..]
    ensures Written(m, was, at, xs)
  {
    assert m.base[..] == m.base[..][..at] + m.base[..][at..at + |xs|] + m.base[..][at + |xs|..];
  }

  /** The part of `Filled` about the chain that is written to. */
  ghost predicate FillsOwn(x: Holding, y: Holding, src: seq<byte>, n: nat, was: seq<byte>)
    reads if x.views == [] || x.views[0].mem == null then {} else {x.views[0].mem.base}
  {
    && 0 < |x.views| == |x.texts| == |y.texts| && x.views[0].mem != null && n <= |src|
    && var v := x.views[0];
       && n == (if |src| <= v.mem.base.Length - v.wr then |src| else v.mem.base.Length - v.wr)
       && v.wr >= 0 && Written(v.mem, was, v.wr, src[..n]) && y.handle == x.handle && y.left == x.left
       && y.views == x.views[0 := View(v.mem, v.rd, v.wr + n)] && y.texts[0] == x.texts[0] + src[..n]
       && forall j :: 0 < j < |x.views| ==> y.texts[j] == Rewritten(x.views[j], x.texts[j], v.mem, v.wr, src[..n])
  }

  lemma OwnFilled(x: Holding, y: Holding, src: seq<byte>, n: nat, was: seq<byte>)
    requires 0 < |x.views| == |y.views| == |x.texts| == |y.texts| && x.views[0].mem != null && n <= |src|
    requires var v := x.views[0];
      && n == (if |src| <= v.mem.base.Length - v.wr then |src| else v.mem.base.Length - v.wr)
      && v.wr >= 0 && Written(v.mem, was, v.wr, src[..n]) && AllReadIn(x, v.mem, was)
      && y.views[0] == View(v.mem, v.rd, v.wr + n) && y.texts[0] == x.texts[0] + src[..n]
    requires y.handle == x.handle && y.left == x.left && Reads(y)
    requires forall j :: 0 < j < |x.views| ==> y.views[j] == x.views[j]
    ensures FillsOwn(x, y, src, n, was)
  {
    hide Written, ReadsAs, ReadIn, Rewritten;
    var v := x.views[0];
    forall j | 0 < j < |x.views| ensures y.texts[j] == Rewritten(x.views[j], x.texts[j], v.mem, v.wr, src[..n]) {
      assert ReadIn(x.views[j], x.texts[j], v.mem, was) && ReadsAs(y.views[j], y.texts[j]);
      WrittenRead(x.views[j], x.texts[j], y.texts[j], v.mem, was, v.wr, src[..n]);
    }
  }

  lemma OwnsBuf(h: Handle, c: seq<BufBlk>)
    requires h.Buf? && Chain(h.b, c)
    ensures Owns(h, c)
  {
  }

  /** What a caller can look up before a cut: whether it begins with the first byte of a window and runs past it. */
  method Overruns(b: BufBlk, offset: nat, size: nat, ghost s: seq<BufBlk>, ghost live: Live) returns (yes: bool)
    requires Sound(live) && Chain(b, s) && Objs(s) <= live.bufs
    ensures yes <==> OverrunsAtStart(Texts(s), offset, size)
  {
    hide *;
    ChainFits(s, live);
    TextsInPlace(s, live);
    BytesAre(s);
    var look, prev, need;
    ghost var i;
    look, prev, need, i := b.Locate(offset, s);
    if look == null {
      EatenNowhere(Texts(s), offset, size);
      yes := false;
    } else {
      OverrunsWhen(Texts(s), i, need, size);
      yes := need == 0 && look.Length() < size;
    }
  }

  lemma SeparateHolding(x: Holding, h: Handle, c: seq<BufBlk>)
    requires Looks(x, h, c)
    ensures Separate(x.views) <==> OwnMemory(c)
  {
    assert x.views == Views(c);
    SeparateViews(c);
  }

  /** The handle of what is left of a chain. */
  function Rehung(head: BufBlk?): Handle { if head == null then Gone else Buf(head) }

  lemma OwnsRehung(head: BufBlk?, c: seq<BufBlk>)
    requires Chain(head, c)
    ensures Owns(Rehung(head), c) && (c == [] <==> head == null)
  {
  }

  /** The book after a cut has taken the windows `s[a..b]` out of the chain `s` of handle `h`. */
  lemma CutBook(hs: seq<Handle>, g: Book, h: nat, head: BufBlk?, a: nat, b: nat, now: Live)
    returns (g': Book)
    requires h < |hs| == |g.chains| && a <= b <= |g.chains[h]| && Distinct(g.chains[h])
    requires var s := g.chains[h]; var bufs := g.live.bufs - Objs(s);
      && Objs(s) <= g.live.bufs && Table(hs[h := Gone], g.chains[h := []], bufs) && AllLook(bufs)
      && Chain(head, Without(s, a, b)) && Sound(now) && now.bufs == g.live.bufs - Objs(s[a..b])
      && forall k :: 0 <= k < |s| && s[k] in now.bufs ==> s[k].blk != null
    ensures g'.chains == g.chains[h := Without(g.chains[h], a, b)] && g'.live == now
    ensures Good(hs[h := Rehung(head)], g') && Iters(hs[h := Rehung(head)]) <= Iters(hs)
    ensures head == null <==> Without(g.chains[h], a, b) == []
  {
    hide Table, Sound, AllLook, Objs, Chain, Held, Shows, Owns, Without, Iters;
    var s, c, bufs := g.chains[h], Without(g.chains[h], a, b), g.live.bufs - Objs(g.chains[h]);
    var r := hs[h := Rehung(head)];
    var chains' := g.chains[h := c];
    OwnsRehung(head, c);
    WithoutObjs(s, a, b);
    TablePuts(hs[h := Gone], g.chains[h := []], bufs, h, Rehung(head), c);
    assert hs[h := Gone][h := Rehung(head)] == r && g.chains[h := []][h := c] == chains';
    assert bufs + Objs(c) == now.bufs;
    LooksLeft(bufs, s, now.bufs);
    TableObjs(r, chains', now.bufs);
    IterRehung(hs, h, head);
    var t' := Picture(r, chains', now, |r|);
    g' := Book(chains', now, t');
  }

  lemma IterRehung(hs: seq<Handle>, h: nat, head: BufBlk?)
    requires h < |hs|
    ensures Iters(hs[h := Rehung(head)]) <= Iters(hs)
  {
    var r := hs[h := Rehung(head)];
    assert forall k :: 0 <= k < |hs| && k != h ==> r[k] == hs[k];
  }

  lemma InObjs(s: seq<BufBlk>, bufs: set<BufBlk>)
    requires Objs(s) <= bufs
    ensures (forall b :: b in s ==> b in bufs) && forall b :: b in bufs - Objs(s) ==> b !in s
  {
  }

  /** What is known before a cut. */
  lemma BeforeCut(hs: seq<Handle>, g: Book, h: nat)
    requires Good(hs, g) && h < |hs| && hs[h].Buf?
    ensures |g.t| == |g.chains| == |hs| && Chain(hs[h].b, g.chains[h]) && Distinct(g.chains[h])
    ensures Objs(g.chains[h]) <= g.live.bufs && Arrays(g.chains[h]) <= Bases(g.live.mems)
    ensures forall b :: b in g.chains[h] ==> b in g.live.bufs
    ensures forall b :: b in g.live.bufs - Objs(g.chains[h]) ==> b !in g.chains[h]
    ensures forall k :: 0 <= k < |hs| ==> Looks(g.t[k], hs[k], g.chains[k])
    ensures Table(hs[h := Gone], g.chains[h := []], g.live.bufs - Objs(g.chains[h]))
    ensures AllLook(g.live.bufs - Objs(g.chains[h]))
    ensures forall k :: 0 <= k < |hs| && k != h ==> forall b :: b in g.chains[k] ==> b !in g.chains[h]
    ensures Separate(g.t[h].views) <==> OwnMemory(g.chains[h])
    ensures Texts(g.chains[h]) == g.t[h].texts && Bytes(g.chains[h]) == Flatten(g.t[h].texts)
    ensures Views(g.chains[h]) == g.t[h].views && forall j :: 0 <= j < |g.t[h].views| ==> g.t[h].views[j].mem != null
  {
    hide Table, Sound, AllLook, Objs, Chain, Held, Iters, Arrays, Shows, Reads, Text, Texts, Bytes, Owns, LeftIn,
      Separate, OwnMemory, Memories, Flatten, Views;
    ChainOf(hs, g, h);
    ghost var s := g.chains[h];
    ChainSpelled(hs[h].b, s, g.live.bufs);
    ArraysIn(s, g.live);
    InObjs(s, g.live.bufs);
    PictureReads(hs, g);
    TableDrops(hs, g.chains, g.live.bufs, h);
    LooksStill(g.live.bufs, g.live.bufs - Objs(s));
    Strangers(hs, g.chains, g.live.bufs, h);
    SeparateHolding(g.t[h], hs[h], s);
    BytesLook(g.t[h], hs[h], s);
    Recorded(hs, g, h);
  }

  /** Every window looks at memory that is not deleted, and reads its text there. */
  lemma MemoriesLive(hs: seq<Handle>, g: Book)
    requires Good(hs, g)
    ensures |g.t| == |hs| && forall k :: 0 <= k < |hs| ==> |g.t[k].views| == |g.t[k].texts|
    ensures forall k, j :: 0 <= k < |hs| && 0 <= j < |g.t[k].views| ==>
      && g.t[k].views[j].mem != null && g.t[k].views[j].mem in g.live.mems
      && ReadsAs(g.t[k].views[j], g.t[k].texts[j])
  {
    hide Sound, AllLook, Table, Text, ReadsAs;
    AllLooks(hs, g);
    PictureReads(hs, g);
    forall k, j | 0 <= k < |hs| && 0 <= j < |g.t[k].views|
      ensures g.t[k].views[j].mem != null && g.t[k].views[j].mem in g.live.mems
      ensures ReadsAs(g.t[k].views[j], g.t[k].texts[j])
    {
      assert Reads(g.t[k]);
      ChainFits(g.chains[k], g.live);
      LookEach(g.live.bufs, g.chains[k]);
      WindowOf(g.live, g.chains[k][j]);
    }
  }

  lemma CutKeeps(s: seq<BufBlk>, ws: seq<View>, vs: seq<View>, ts: seq<seq<byte>>, from: nat, size: nat,
      bufs: set<BufBlk>)
    requires |ts| == |vs| == |s| && AreCut(s, ws, vs, ts, from, size, bufs)
    ensures forall k :: 0 <= k < |s| && s[k] in bufs ==> k < |ws| && ws[k].mem == vs[k].mem
  {
    hide Upto;
  }

  lemma NotAllLeave(s: seq<BufBlk>, a: nat, b: nat, bufs: set<BufBlk>)
    requires a <= b <= |s| && Distinct(s) && Objs(s) <= bufs
    ensures forall j :: 0 <= j < |s| && (j < a || b <= j) ==> s[j] in bufs - Objs(s[a..b])
  {
    InChain(s, bufs);
    ObjsAre(s[a..b]);
  }

  /** What a cut has left of the chain `s`. */
  lemma WhatIsLeft(x: Holding, y: Holding, s: seq<BufBlk>, a: nat, b: nat, h: Handle, offset: nat, size: nat,
      m: MemBlk?, was: seq<byte>, bufs: set<BufBlk>)
    requires |x.views| == |x.texts| == |s| && MemoryAfter(x, offset, size, m, was) && AllReadIn(x, m, was)
    requires a <= b <= |s| && Reads(y) && Looks(y, h, Without(s, a, b))
    requires AreCut(s, Views(s), x.views, x.texts, offset, size, bufs)
    requires forall j :: 0 <= j < |s| && (j < a || b <= j) ==> s[j] in bufs
    requires forall j :: 0 <= j < |s| ==> x.views[j].mem != null
    ensures CutDown(x, y, a, b, offset, size)
  {
    hide Upto, MemoryAfter, AllReadIn, Without, ReadsAs, LeftIn, CutView, CutWindow, Views, Text;
    WithoutLength(s, a, b);
    ViewsAre(s);
    forall j: nat | j < |x.views| && (j < a || b <= j)
      ensures CutWindow(x, j, offset, size, y.views[Spot(j, a, b)], y.texts[Spot(j, a, b)])
    {
      var k := Spot(j, a, b);
      WithoutAt(s, a, b, k);
      assert y.views[k] == s[j].Shows() && ReadsAs(y.views[k], y.texts[k]);
      RereadOwn(x, j, offset, size, m, was, y.views[k], y.texts[k]);
    }
  }

  lemma HandleLeft(y: Holding, head: BufBlk?, c: seq<BufBlk>)
    requires Looks(y, Rehung(head), c) && (head == null <==> c == [])
    ensures y.left == NOWHERE && Bytes(c) == Flatten(y.texts)
    ensures if y.views == [] then y.handle.Gone? else y.handle.Buf?
  {
    hide Bytes, Flatten, Texts, Text;
    BytesLook(y, Rehung(head), c);
  }

  /** The part of `Eaten` about the chain that is cut. */
  ghost predicate Left(x: Holding, y: Holding, a: nat, b: nat, offset: nat, size: nat) {
    && |x.views| == |x.texts| && y.left == NOWHERE
    && EatenRange(x.texts, a, b, offset, size) && CutDown(x, y, a, b, offset, size)
    && (if y.views == [] then y.handle.Gone? else y.handle.Buf?)
    && (Separate(x.views) || NoneMoves(x.texts, offset, size) ==>
          Flatten(y.texts) == Cut(Flatten(x.texts), offset, size))
  }

  lemma AllAreReadIn(t: seq<Holding>, m: MemBlk?, was: seq<byte>)
    requires forall k :: 0 <= k < |t| ==> |t[k].views| == |t[k].texts|
    requires forall k, j :: 0 <= k < |t| && 0 <= j < |t[k].views| ==> ReadIn(t[k].views[j], t[k].texts[j], m, was)
    ensures forall k :: 0 <= k < |t| ==> AllReadIn(t[k], m, was)
  {
    hide ReadIn;
  }

  /** The memory after a cut, in terms of the picture before it. */
  lemma MovedAt(x: Holding, offset: nat, size: nat, i: nat, m: MemBlk?, was: seq<byte>)
    requires |x.views| == |x.texts|
    requires m != null ==>
      && Moves(x.texts, i, offset, size) && x.views[i].mem == m
      && m.base[..] == MovedDown(was, x.views[i].rd + Upto(x.texts, i, offset), size, x.views[i].wr)
    requires m == null ==> NoneMoves(x.texts, offset, size)
    ensures MemoryAfter(x, offset, size, m, was)
  {
  }

  /** The cut, with what the memory `m` held in which bytes are moved. */
  method EatChain(h: nat, offset: nat, size: nat, hs: seq<Handle>, ghost g: Book)
    returns (head: BufBlk?, ghost m: MemBlk?, ghost was: seq<byte>, ghost a: nat, ghost b: nat, ghost now: Live)
    requires Good(hs, g) && h < |hs| && hs[h].Buf?
    requires |g.t| == |hs| == |g.chains| && |g.t[h].views| == |g.t[h].texts| == |g.chains[h]|
    requires Objs(g.chains[h]) <= g.live.bufs && !OverrunsAtStart(g.t[h].texts, offset, size)
    modifies g.chains[h], Arrays(g.chains[h]), g.live.mems`refCount
    ensures Sound(now) && a <= b <= |g.chains[h]| && now.bufs == g.live.bufs - Objs(g.chains[h][a..b])
    ensures now.mems <= g.live.mems && Chain(head, Without(g.chains[h], a, b))
    ensures EatenRange(g.t[h].texts, a, b, offset, size)
    ensures AreCut(g.chains[h], Views(g.chains[h]), g.t[h].views, g.t[h].texts, offset, size, now.bufs)
    ensures Separate(g.t[h].views) || NoneMoves(g.t[h].texts, offset, size) ==>
      Bytes(Without(g.chains[h], a, b)) == Cut(Flatten(g.t[h].texts), offset, size)
    ensures MemoryAfter(g.t[h], offset, size, m, was)
    ensures forall k :: 0 <= k < |hs| ==> AllReadIn(g.t[k], m, was)
  {
    hide Table, Sound, AllLook, Objs, Chain, Held, Iters, Arrays, Shows, Reads, Text, Texts, Bytes, Owns, LeftIn,
      Separate, OwnMemory, Memories, EatsExactly, OverrunsAtStart, EatenRange, Without, Flatten, Cut, Rehung, Left,
      Views, AreCut, NoneMoves, Moves, MovedDown, MemoryAfter, AllReadIn, CutDown, Upto;
    BeforeCut(hs, g, h);
    MemoriesLive(hs, g);
    ghost var s, x := g.chains[h], g.t[h];
    ghost var i;
    head, a, b, i, now := hs[h].b.EatBytes(offset, size, s, g.live);
    m := if NoneMoves(x.texts, offset, size) then null else x.views[i].mem;
    was := if m == null then [] else old(m.base[..]);
    forall k, j | 0 <= k < |hs| && 0 <= j < |g.t[k].views| ensures ReadIn(g.t[k].views[j], g.t[k].texts[j], m, was) {
      assert old(ReadsAs(g.t[k].views[j], g.t[k].texts[j]));
    }
    AllAreReadIn(g.t, m, was);
    MovedAt(x, offset, size, i, m, was);
  }

  /** A cut that does not overrun the window it begins with. */
  method CutOut(h: nat, offset: nat, size: nat, hs: seq<Handle>, ghost g: Book)
    returns (r: seq<Handle>, ghost g': Book, ghost m: MemBlk?, ghost was: seq<byte>, ghost a: nat, ghost b: nat)
    requires Good(hs, g) && h < |hs| && hs[h].Buf?
    requires |g.t| == |hs| && !OverrunsAtStart(g.t[h].texts, offset, size)
    modifies g.live.bufs, Bases(g.live.mems), g.live.mems`refCount
    ensures Good(r, g') && OnlyNew(hs, g.live, r, g'.live) && |r| == |g'.t| == |hs|
    ensures Left(g.t[h], g'.t[h], a, b, offset, size) && MemoryAfter(g.t[h], offset, size, m, was)
    ensures forall k :: 0 <= k < |hs| ==> AllReadIn(g.t[k], m, was) && Reads(g'.t[k])
    ensures forall k :: 0 <= k < |hs| && k != h ==> r[k] == hs[k] && (r[k].Iter? ==> unchanged(r[k].it))
    ensures forall k :: 0 <= k < |hs| && k != h ==> |g.t[k].views| == |g'.t[k].views|
    ensures forall k, j :: 0 <= k < |hs| && k != h && 0 <= j < |g.t[k].views| ==>
      g'.t[k].views[j] == g.t[k].views[j]
  {
    hide Table, Sound, AllLook, Objs, Chain, Held, Iters, Arrays, Shows, Reads, Text, Texts, Bytes, Owns, LeftIn,
      Separate, OwnMemory, Memories, EatsExactly, OverrunsAtStart, EatenRange, Without, Flatten, Cut, Rehung,
      Views, AreCut, NoneMoves, Moves, MovedDown, MemoryAfter, AllReadIn, CutDown, Upto;
    BeforeCut(hs, g, h);
    AreAllocated(hs, g.live);
    IterLess(hs, h);
    ghost var s, x := g.chains[h], g.t[h];
    var head;
    ghost var now;
    head, m, was, a, b, now := EatChain(h, offset, size, hs, g);
    ViewsAre(s);
    CutKeeps(s, Views(s), x.views, x.texts, offset, size, now.bufs);
    g' := CutBook(hs, g, h, head, a, b, now);
    r := hs[h := Rehung(head)];
    PictureReads(r, g');
    forall k, j | 0 <= k < |hs| && k != h && 0 <= j < |g.chains[k]| ensures g'.t[k].views[j] == g.t[k].views[j] {
      assert g.chains[k][j] in g.chains[k];
    }
    NotAllLeave(s, a, b, g.live.bufs);
    WhatIsLeft(x, g'.t[h], s, a, b, r[h], offset, size, m, was, now.bufs);
    HandleLeft(g'.t[h], head, Without(s, a, b));
  }

  /** A cut that does not overrun the window it begins with. */
  method DoEat(h: nat, offset: nat, size: nat, hs: seq<Handle>, ghost g: Book)
    returns (r: seq<Handle>, ghost g': Book)
    requires Good(hs, g) && h < |hs| && hs[h].Buf?
    requires |g.t| == |hs| && !OverrunsAtStart(g.t[h].texts, offset, size)
    modifies g.live.bufs, Bases(g.live.mems), g.live.mems`refCount
    ensures Good(r, g') && OnlyNew(hs, g.live, r, g'.live)
    ensures Eaten(g.t, h, offset, size, g'.t)
  {
    hide Table, Sound, AllLook, Objs, Chain, Held, Shows, Reads, Text, Texts, Owns, LeftIn, Separate, Memories,
      OverrunsAtStart, EatenRange, Flatten, Cut, Bases, OnlyNew, SeenElsewhere, CutDown, MemoryAfter, AllReadIn,
      NoneMoves;
    LooksParts(hs, g);
    AreAllocated(hs, g.live);
    ghost var m, was, a, b;
    r, g', m, was, a, b := CutOut(h, offset, size, hs, g);
    LooksParts(r, g');
    forall k | 0 <= k < |hs| && k != h ensures SeenElsewhere(g.t[h], offset, size, g.t[k], g'.t[k]) {
      WindowsKept(m, was, g.t[k], g'.t[k], hs[k]);
      Elsewhere(g.t[h], offset, size, m, was, g.t[k], g'.t[k]);
    }
  }

  /** A handle onto none of the memory to which a cut moves bytes sees nothing of the cut. */
  lemma Unseen(hs: seq<Handle>, g: Book, h: nat, offset: nat, size: nat, t': seq<Holding>, k: nat)
    requires Good(hs, g) && h < |hs| && k < |hs| && k != h && |g.t| == |hs| && Eaten(g.t, h, offset, size, t')
    requires NoneShown(g.t[h], offset, size, g.t[k])
    ensures t'[k] == g.t[k]
  {
    hide Sound, AllLook, Table, Shows, LeftIn, ReadsAs, SeenElsewhere, NoneShown, StandsStill;
    StandsWell(hs, g, k);
    NothingSeen(g.t[h], offset, size, g.t[k], t'[k]);
  }

  lemma StandsWell(hs: seq<Handle>, g: Book, k: nat)
    requires Good(hs, g) && k < |hs| && |g.t| == |hs|
    ensures StandsStill(g.t[k], g.t[k]) && |g.t[k].views| == |g.t[k].texts|
    ensures forall j :: 0 <= j < |g.t[k].views| ==> |g.t[k].texts[j]| == g.t[k].views[j].wr - g.t[k].views[j].rd
  {
    hide Sound, AllLook, Table, Shows, LeftIn, StandsStill;
    LooksParts(hs, g);
    MemoriesLive(hs, g);
    Stood(g.t[k], g.t[k], hs[k]);
  }

  lemma LooksParts(hs: seq<Handle>, g: Book)
    requires Good(hs, g)
    ensures |g.t| == |hs| == |g.chains|
    ensures forall k :: 0 <= k < |hs| ==> g.t[k].handle == hs[k] && |g.t[k].views| == |g.t[k].texts|
    ensures forall k :: 0 <= k < |hs| ==> g.t[k].left == LeftIn(hs[k], g.t[k].texts)
  {
    hide Sound, AllLook, Table;
    AllLooks(hs, g);
  }

  lemma BytesLook(x: Holding, h: Handle, c: seq<BufBlk>)
    requires Looks(x, h, c)
    ensures Texts(c) == x.texts && Bytes(c) == Flatten(x.texts) && |x.views| == |x.texts| == |c|
    ensures forall j :: 0 <= j < |c| ==> x.views[j].mem == c[j].blk
    ensures x.handle == h && (!h.Iter? ==> x.left == NOWHERE)
  {
    LooksHeld(x, h, c);
    BytesAre(c);
  }

  lemma ChainOf(hs: seq<Handle>, g: Book, h: nat)
    requires Good(hs, g) && h < |hs| && hs[h].Buf?
    ensures |g.chains| == |hs| && Chain(hs[h].b, g.chains[h]) && Objs(g.chains[h]) <= g.live.bufs
    ensures forall j :: 0 <= j < |g.chains[h]| ==> g.chains[h][j].blk != null
  {
    hide Sound, Held, Shows, Text, Texts, Views;
    assert Owns(hs[h], g.chains[h]);
    LookEach(g.live.bufs, g.chains[h]);
  }

  lemma WithoutObjs(s: seq<BufBlk>, a: nat, b: nat)
    requires a <= b <= |s| && Distinct(s)
    ensures Objs(Without(s, a, b)) == Objs(s) - Objs(s[a..b]) && Objs(s[a..b]) <= Objs(s)
  {
    forall x | x in s[a..b] ensures x !in s[..a] && x !in s[b..] {
    }
    assert s == s[..a] + s[a..b] + s[b..];
  }

  lemma LooksLeft(bufs: set<BufBlk>, s: seq<BufBlk>, now: set<BufBlk>)
    requires AllLook(bufs) && now <= bufs + Objs(s)
    requires forall k :: 0 <= k < |s| && s[k] in now ==> s[k].blk != null
    ensures AllLook(now)
  {
    forall x | x in now && x !in bufs ensures x.blk != null {
      assert x in s;
    }
  }

  lemma IterHas(h: Handle, c: seq<BufBlk>)
    requires Owns(h, c) && h.Iter?
    ensures c == h.it.chain && h.it.start in Objs(c)
  {
  }

  /** No other handle has the same iterator. */
  lemma OwnIter(hs: seq<Handle>, chains: seq<seq<BufBlk>>, bufs: set<BufBlk>, h: nat)
    requires Table(hs, chains, bufs) && h < |hs| && hs[h].Iter?
    ensures hs[h].it !in Iters(hs[h := Gone])
    ensures forall k :: 0 <= k < |hs| && k != h ==> hs[h].it !in Its(hs[k])
  {
    hide Owns, Objs;
    assert Owns(hs[h], chains[h]);
    IterHas(hs[h], chains[h]);
    forall k | 0 <= k < |hs| && k != h ensures hs[h].it !in Its(hs[k]) {
      assert Objs(chains[if k < h then k else h]) !! Objs(chains[if k < h then h else k]);
      if hs[k].Iter? {
        assert Owns(hs[k], chains[k]);
        IterHas(hs[k], chains[k]);
      }
    }
  }

  /** Where an iterator stands, and how many bytes it has before it in its window. */
  lemma Stands(it: BufBlkIter, live: Live)
    requires it.Valid(live)
    ensures LeftIn(Iter(it), Texts(it.chain)) == Ahead(it.at, it.Left())
    ensures it.at <= |it.chain| && (it.at < |it.chain| <==> it.cur != null)
    ensures it.at < |it.chain| ==>
      |it.Left()| - |Flatten(Texts(it.chain)[it.at + 1..])| == it.cur.Length() - it.rdOffset
  {
    hide Sound, Text, Objs, Chain, Texts, Arrays, BufBlk.Fits;
    ChainFits(it.chain, live);
    if it.at < |it.chain| {
      TextIs(it.chain[it.at]);
      RestSplits(Texts(it.chain), it.at, it.rdOffset);
    } else {
      RestEnds(Texts(it.chain));
    }
  }

  lemma IterOf(hs: seq<Handle>, g: Book, h: nat)
    requires Good(hs, g) && h < |hs| && hs[h].Iter?
    ensures |g.t| == |g.chains| == |hs| && hs[h].it.Valid(g.live) && g.chains[h] == hs[h].it.chain
    ensures Objs(g.chains[h]) <= g.live.bufs && g.t[h].texts == Texts(g.chains[h])
    ensures g.t[h].left == LeftIn(hs[h], g.t[h].texts)
  {
    hide Sound, Objs, AllLook, Text, LeftIn;
    assert Owns(hs[h], g.chains[h]);
    assert g.t[h] == Held(hs[h], g.chains[h]);
  }

  /** The picture of an iterator that has moved on. */
  lemma MovedOn(x: Holding, h: Handle, c: seq<BufBlk>, live: Live)
    requires h.Iter? && c == h.it.chain && h.it.Valid(live)
    requires x.handle == h && |x.views| == |x.texts| == |c| && x.left == Ahead(h.it.at, h.it.Left())
    requires forall k :: 0 <= k < |c| ==> x.views[k] == c[k].Shows() && x.texts[k] == Text(c[k])
    ensures Looks(x, h, c)
  {
    hide LeftIn, Sound;
    assert x.texts == Texts(c);
    Stands(h.it, live);
  }

  /** The next bytes of an iterator. */
  method DoNextChunk(h: nat, max: Limit, hs: seq<Handle>, ghost g: Book)
    returns (out: seq<byte>, ghost g': Book)
    requires Good(hs, g) && h < |hs| && hs[h].Iter?
    modifies hs[h].it
    ensures Good(hs, g') && g'.live == g.live && |g.t| == |hs|
    ensures |g'.t| == |g.t| && g'.t == g.t[h := g.t[h].(left := g'.t[h].left)]
    ensures Advances(g.t[h], max, out, g'.t[h].left)
  {
    hide Table, Sound, AllLook, Objs, Chain, Held, Iters, Arrays, Text, LeftIn, NodeAt, BufBlkIter.Left, Flatten, Texts;
    AreAllocated(hs, g.live);
    AllArraysAllocated(g.chains);
    IterOf(hs, g, h);
    AllLooks(hs, g);
    TableDrops(hs, g.chains, g.live.bufs, h);
    OwnIter(hs, g.chains, g.live.bufs, h);
    IterLess(hs, h);
    var it := hs[h].it;
    Stands(it, g.live);
    var ok;
    ok, out := it.GetNextChunk(max, g.live);
    TableBack(hs, g.chains, g.live.bufs, h);
    g' := g.(t := g.t[h := g.t[h].(left := Ahead(it.at, it.Left()))]);
    Stands(it, g.live);
    MovedOn(g'.t[h], hs[h], g.chains[h], g.live);
    Booked(hs, g');
  }

  lemma SameHandles(hs: seq<Handle>, g: Book)
    requires Good(hs, g)
    ensures |g.t| == |g.chains| == |hs| && forall k :: 0 <= k < |hs| ==> g.t[k].handle == hs[k]
  {
  }

  /** One operation on the handles, and the bytes it hands out. */
  method Step(op: Op, hs: seq<Handle>, ghost g: Book)
    returns (r: seq<Handle>, out: seq<byte>, ghost g': Book)
    requires Good(hs, g)
    modifies g.live.bufs, g.live.mems`refCount, Bases(g.live.mems), Iters(hs)
    ensures Good(r, g') && OnlyNew(hs, g.live, r, g'.live) && Outcome(op, g.t, out, g'.t)
  {
    hide Good, Grown, IsNew, Filled, Eaten, IsContig, IsDeepCopy, Merged, OverrunsAtStart, Flatten, Texts, Bases;
    SameHandles(hs, g);
    r, out, g' := hs, [], g;
    match op {
      case New(size) =>
        r, g' := DoNew(size, hs, g);
      case AddToEnd(h, other) =>
        if h < |hs| && other < |hs| && h != other && hs[h].Buf? && hs[other].Buf? {
          r, g' := DoAddToEnd(h, other, hs, g);
        }
      case NextChunk(h, max) =>
        if h < |hs| && hs[h].Iter? {
          assert hs[h].it in Its(hs[h]);
          out, g' := DoNextChunk(h, max, hs, g);
        }
      case CloseIter(h) =>
        if h < |hs| && hs[h].Iter? {
          r, g' := LetGo(h, hs, g);
        }
      case _ =>
        if op.h < |hs| && hs[op.h].Buf? {
          r, g' := OnChain(op, hs, g);
        }
    }
  }

  /** The operations that work on the chain of one handle. */
  method OnChain(op: Op, hs: seq<Handle>, ghost g: Book) returns (r: seq<Handle>, ghost g': Book)
    requires Good(hs, g)
    requires !op.New? && !op.AddToEnd? && !op.NextChunk? && !op.CloseIter? && op.h < |hs| && hs[op.h].Buf?
    modifies g.live.bufs, g.live.mems`refCount, Bases(g.live.mems)
    ensures Good(r, g') && OnlyNew(hs, g.live, r, g'.live) && Outcome(op, g.t, [], g'.t)
  {
    hide Good, Grown, IsNew, Filled, Eaten, IsContig, IsDeepCopy, Merged, OverrunsAtStart, Flatten, Texts, Bases;
    SameHandles(hs, g);
    r, g' := hs, g;
    match op {
      case Fill(h, src) =>
        g' := DoFill(h, src, hs, g);
      case Duplicate(h) =>
        r, g' := DoDuplicate(hs[h].b, h, hs, g);
      case DeepCopy(h) =>
        r, g' := DoDeepCopy(hs[h].b, h, hs, g);
      case Contig(h, offset, size) =>
        r, g' := DoContig(hs[h].b, offset, size, h, hs, g);
      case Eat(h, offset, size) =>
        var yes := TestCut(h, offset, size, hs, g);
        if !yes {
          r, g' := DoEat(h, offset, size, hs, g);
        }
      case OpenIter(h) =>
        r, g' := DoOpenIter(hs[h].b, h, hs, g);
      case Release(h) =>
        r, g' := LetGo(h, hs, g);
    }
  }

  method TestCut(h: nat, offset: nat, size: nat, hs: seq<Handle>, ghost g: Book) returns (yes: bool)
    requires Good(hs, g) && h < |hs| && hs[h].Buf?
    ensures Good(hs, g) && |g.t| == |hs| && (yes <==> OverrunsAtStart(g.t[h].texts, offset, size))
  {
    hide Sound, AllLook, Table, Shows, OverrunsAtStart, Texts, Objs, Chain, Held;
    AreAllocated(hs, g.live);
    ChainOf(hs, g, h);
    Recorded(hs, g, h);
    yes := Overruns(hs[h].b, offset, size, g.chains[h], g.live);
    Shown(hs, g, h);
  }

  lemma NoHandles()
    ensures Good([], Book([], Live({}, {}), [])) && Trace([], [], [[]])
  {
  }

  /** The pictures between the operations of a run, and what each handed out. */
  ghost predicate Trace(ops: seq<Op>, outs: seq<seq<byte>>, pictures: seq<seq<Holding>>) {
    && |outs| == |ops| && |pictures| == |ops| + 1 && pictures[0] == []
    && forall i :: 0 <= i < |ops| ==> Outcome(ops[i], pictures[i], outs[i], pictures[i + 1])
  }

  lemma TraceGrows(ops: seq<Op>, outs: seq<seq<byte>>, pictures: seq<seq<Holding>>, op: Op, out: seq<byte>,
      t: seq<Holding>)
    requires Trace(ops, outs, pictures) && Outcome(op, pictures[|ops|], out, t)
    ensures Trace(ops + [op], outs + [out], pictures + [t])
  {
    hide Outcome;
    var ops', outs', pictures' := ops + [op], outs + [out], pictures + [t];
    forall i | 0 <= i < |ops'| ensures Outcome(ops'[i], pictures'[i], outs'[i], pictures'[i + 1]) {
      if i < |ops| {
        assert ops'[i] == ops[i] && outs'[i] == outs[i];
        assert pictures'[i] == pictures[i] && pictures'[i + 1] == pictures[i + 1];
      }
    }
  }

  /**
   * Any run from nothing. Its pictures follow the operations one by one. At its end each memory block counts
   * the windows that look at it, no window looks at deleted memory, and if all handles are released nothing is
   * left over.
   */
  method Run(ops: seq<Op>)
    returns (hs: seq<Handle>, outs: seq<seq<byte>>, ghost pictures: seq<seq<Holding>>, ghost g: Book)
    ensures Trace(ops, outs, pictures) && Shows(pictures[|ops|], hs, g.chains, g.live)
    ensures Good(hs, g) && Sound(g.live)
    ensures (forall k :: 0 <= k < |hs| ==> hs[k] == Gone) ==> g.live.bufs == {} && g.live.mems == {}
  {
    hide Good, Sound, Outcome, Trace, Shows, Iters, Bases;
    hs, outs, g := [], [], Book([], Live({}, {}), []);
    pictures := [[]];
    NoHandles();
    Nobody();
    for i := 0 to |ops|
      invariant Good(hs, g)
      invariant |pictures| == i + 1 && |outs| == i && Trace(ops[..i], outs, pictures) && g.t == pictures[i]
      invariant forall b :: b in g.live.bufs ==> fresh(b)
      invariant forall m :: m in g.live.mems ==> fresh(m) && fresh(m.base)
      invariant forall j :: j in Iters(hs) ==> fresh(j)
    {
      BasesOf(g.live.mems);
      var out;
      hs, out, g := Step(ops[i], hs, g);
      TraceGrows(ops[..i], outs, pictures, ops[i], out, g.t);
      assert ops[..i] + [ops[i]] == ops[..i + 1];
      outs, pictures := outs + [out], pictures + [g.t];
    }
    assert ops[..|ops|] == ops;
    IsSound(hs, g);
    if forall k :: 0 <= k < |hs| ==> hs[k] == Gone {
      NothingLeaks(hs, g);
    }
  }

  lemma Nobody()
    ensures Iters([]) == {}
  {
  }

  lemma BasesOf(mems: set<MemBlk>)
    ensures forall o :: o in Bases(mems) ==> exists m :: m in mems && m.base == o
  {
  }

  lemma IsSound(hs: seq<Handle>, g: Book)
    requires Good(hs, g)
    ensures Sound(g.live) && Shows(g.t, hs, g.chains, g.live)
  {
  }
}
