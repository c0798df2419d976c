/**
 * What a program holds of buffers, as plain values: for each handle the windows of its chain and the
 * bytes they show. The operations of a run are told on these pictures alone.
 */
module BufferPictures {
  import opened BufBlkTheory
  import opened BufferIteration
  import opened Buffers

  /** A chain, an iterator, or what has been released. */
  datatype Handle = Gone | Buf(b: BufBlk) | Iter(it: BufBlkIter)

  /** The limit of a chunk: -1 for none. */
  type Limit = x: int | x >= -1 witness -1

  datatype Op =
    | New(size: nat)
    | Fill(h: nat, src: seq<byte>)
    | Duplicate(h: nat)
    | DeepCopy(h: nat)
    | Contig(h: nat, offset: nat, size: nat)
    | Eat(h: nat, offset: nat, size: nat)
    | AddToEnd(h: nat, other: nat)
    | Release(h: nat)
    | OpenIter(h: nat)
    | NextChunk(h: nat, max: Limit)
    | CloseIter(h: nat)

  /** The window an iterator stands in, and what it has yet to hand out. */
  datatype Ahead = Ahead(window: nat, bytes: seq<byte>)

  const NOWHERE := Ahead(0, [])

  /** A handle with the windows of its chain, their texts, and what an iterator has before it. */
  datatype Holding = Holding(handle: Handle, views: seq<View>, texts: seq<seq<byte>>, left: Ahead)

  const NOTHING := Holding(Gone, [], [], NOWHERE)

  function Its(h: Handle): set<BufBlkIter> { if h.Iter? then {h.it} else {} }

  /** Where an iterator stands in the given texts. */
  ghost function LeftIn(h: Handle, ts: seq<seq<byte>>): Ahead
    reads Its(h)
  {
    if h.Iter? && h.it.rdOffset >= 0 && h.it.at <= |ts| && h.it.rdOffset <= |Flatten(ts[h.it.at..])|
    then Ahead(h.it.at, Rest(ts, h.it.at, h.it.rdOffset)) else NOWHERE
  }

  ghost function Held(h: Handle, c: seq<BufBlk>): Holding
    reads Its(h), c`blk, c`rdPtr, c`wrPtr, Arrays(c)
  {
    Holding(h, Views(c), Texts(c), LeftIn(h, Texts(c)))
  }

  // ---------- All handles ----------

  function Iters(hs: seq<Handle>): set<BufBlkIter> { set k, i | 0 <= k < |hs| && i in Its(hs[k]) :: i }

  function Bases(mems: set<MemBlk>): set<array<byte>> { set m | m in mems :: m.base }

  /** `t` is the picture of the handles `hs`, whose chains are made of the objects in `live`. */
  ghost predicate Shows(t: seq<Holding>, hs: seq<Handle>, chains: seq<seq<BufBlk>>, live: Live)
    reads Iters(hs), live.bufs`blk, live.bufs`rdPtr, live.bufs`wrPtr, Bases(live.mems)
  {
    && |t| == |hs| == |chains|
    && forall k :: 0 <= k < |hs| ==>
         Objs(chains[k]) <= live.bufs && Arrays(chains[k]) <= Bases(live.mems) && t[k] == Held(hs[k], chains[k])
  }

  lemma ArraysIn(s: seq<BufBlk>, live: Live)
    requires Sound(live) && Objs(s) <= live.bufs
    ensures Arrays(s) <= Bases(live.mems)
  {
    ChainFits(s, live);
    forall k | 0 <= k < |s| ensures s[k].Memory() <= Bases(live.mems) {
      WindowOf(live, s[k]);
    }
  }

  lemma {:induction false} Picture(hs: seq<Handle>, chains: seq<seq<BufBlk>>, live: Live, n: nat)
    returns (t: seq<Holding>)
    requires Sound(live) && n <= |hs| == |chains|
    requires forall k :: 0 <= k < |hs| ==> Objs(chains[k]) <= live.bufs
    ensures |t| == n && (n == |hs| ==> Shows(t, hs, chains, live))
    ensures forall k :: 0 <= k < n ==> t[k] == Held(hs[k], chains[k]) && Arrays(chains[k]) <= Bases(live.mems)
  {
    hide Held, Sound, Objs, Arrays;
    if n == 0 {
      t := [];
    } else {
      t := Picture(hs, chains, live, n - 1);
      ArraysIn(chains[n - 1], live);
      t := t + [Held(hs[n - 1], chains[n - 1])];
    }
  }

  // ---------- What the operations do ----------

  predicate HasChain(t: seq<Holding>, h: nat) { h < |t| && t[h].handle.Buf? }

  predicate HasIter(t: seq<Holding>, h: nat) { h < |t| && t[h].handle.Iter? }

  /** One more handle, behind the others. */
  predicate Grown(t: seq<Holding>, t': seq<Holding>) { |t'| == |t| + 1 && t'[..|t|] == t }

  function Memories(x: Holding): set<array<byte>> {
    set k | 0 <= k < |x.views| && x.views[k].mem != null :: x.views[k].mem.base
  }

  /** `x` shares no memory with any of `t`. */
  predicate Unshared(t: seq<Holding>, x: Holding) {
    forall k :: 0 <= k < |t| ==> Memories(t[k]) !! Memories(x)
  }

  /** The window `w` shows nothing of the `n` bytes behind the readable ones of the window `v`. */
  predicate Beside(w: View, v: View, n: nat)
    requires v.mem != null
  {
    w.mem == null || w.mem.base != v.mem.base || w.wr <= v.wr || v.wr + n <= w.rd
  }

  predicate AllBeside(views: seq<View>, v: View, n: nat)
    requires v.mem != null
  {
    forall k :: 0 <= k < |views| ==> Beside(views[k], v, n)
  }

  /** No two of the windows look into the same memory. */
  predicate Separate(views: seq<View>) {
    forall j, k :: 0 <= j < k < |views| ==>
      views[j].mem == null || views[k].mem == null || views[j].mem.base != views[k].mem.base
  }

  function Merged(x: Holding, y: Holding): Holding {
    Holding(x.handle, x.views + y.views, x.texts + y.texts, NOWHERE)
  }

  ghost predicate IsNew(t: seq<Holding>, x: Holding, size: nat) {
    && x.handle.Buf? && x.texts == [[]] && x.left == NOWHERE && |x.views| == 1 && Unshared(t, x)
    && var v := x.views[0]; v.rd == v.wr == 0 && v.mem != null && v.mem.base.Length == size
  }

  ghost predicate IsDeepCopy(t: seq<Holding>, x: Holding, o: Holding) {
    && x.handle.Buf? && x.texts == o.texts && x.left == NOWHERE && |x.views| == |o.views|
    && Unshared(t, x) && Separate(x.views)
    && forall k :: 0 <= k < |x.views| ==> x.views[k].rd == o.views[k].rd && x.views[k].wr == o.views[k].wr
  }

  /** A window onto the bytes: a second view of the memory if a single window shows them all, else a copy. */
  ghost predicate IsContig(t: seq<Holding>, x: Holding, o: Holding, offset: nat, size: nat)
    requires offset + size <= |Flatten(o.texts)| && |o.views| == |o.texts|
  {
    && x.handle.Buf? && x.texts == [Flatten(o.texts)[offset..offset + size]] && x.left == NOWHERE && |x.views| == 1
    && (forall k :: 0 <= k < |o.texts| && InBlock(o.texts, k, offset, size) ==>
          x.views[0] == PartOf(o.views[k], offset - Start(o.texts, k), size))
    && ((forall k :: 0 <= k < |o.texts| ==> !InBlock(o.texts, k, offset, size)) ==>
          Unshared(t, x) && IsFilled(x.views[0], size, size))
  }

  /** A window onto memory of `size` bytes, of which it shows the first `n`. */
  predicate IsFilled(v: View, size: nat, n: nat) {
    v.mem != null && v.mem.base.Length == size && v.rd == 0 && v.wr == n
  }

  /** The text of the window `w` after the bytes `xs` have been written to the memory `m` from `at` on. */
  function Rewritten(w: View, text: seq<byte>, m: MemBlk, at: int, xs: seq<byte>): (r: seq<byte>)
    ensures |r| == |text|
  {
    if w.mem == null || w.mem.base != m.base then text
    else
      seq(|text|, q requires 0 <= q < |text| =>
        if at <= w.rd + q < at + |xs| then xs[w.rd + q - at] else text[q])
  }

  lemma RewrittenBeside(w: View, text: seq<byte>, v: View, xs: seq<byte>)
    requires v.mem != null && |text| == w.wr - w.rd && Beside(w, v, |xs|)
    ensures Rewritten(w, text, v.mem, v.wr, xs) == text
  {
  }

  /** What an iterator has before it begins where it did, whatever is to be read there now. */
  ghost predicate StandsStill(x: Holding, y: Holding) {
    && y.left.window == x.left.window <= |y.texts| && |y.left.bytes| == |x.left.bytes|
    && var ahead := Flatten(y.texts[y.left.window..]);
    && |x.left.bytes| <= |ahead| && y.left.bytes == ahead[|ahead| - |x.left.bytes|..]
  }

  /** `o'` is the same handle onto the same windows. */
  ghost predicate KeepsWindows(o: Holding, o': Holding) {
    o'.handle == o.handle && o'.views == o.views && |o'.texts| == |o.texts| == |o.views| && StandsStill(o, o')
  }

  /** A copy of the bytes from `offset` on, where there were fewer than `size` of them. */
  ghost predicate IsPartial(t: seq<Holding>, x: Holding, o: Holding, offset: nat, size: nat) {
    && x.handle.Buf? && x.left == NOWHERE && |x.views| == 1 && Unshared(t, x)
    && offset <= |Flatten(o.texts)| && x.texts == [Flatten(o.texts)[offset..]]
    && IsFilled(x.views[0], size, |Flatten(o.texts)| - offset)
  }

  /**
   * As much of `src` as there is room for goes behind the readable bytes of the first window. Every other window
   * that shows some of that stretch of memory shows it there.
   */
  ghost predicate Filled(t: seq<Holding>, h: nat, src: seq<byte>, t': seq<Holding>)
    requires h < |t|
  {
    && |t'| == |t| && 0 < |t[h].views| == |t[h].texts| == |t'[h].texts| && t[h].views[0].mem != null
    && var v := t[h].views[0];
       var room := v.mem.base.Length - v.wr;
       var n := if |src| <= room then |src| else room;
       && n >= 0
       && t'[h].handle == t[h].handle && t'[h].left == t[h].left
       && t'[h].views == t[h].views[0 := View(v.mem, v.rd, v.wr + n)]
       && t'[h].texts[0] == t[h].texts[0] + src[..n]
       && (forall j :: 0 < j < |t[h].views| ==>
             t'[h].texts[j] == Rewritten(t[h].views[j], t[h].texts[j], v.mem, v.wr, src[..n]))
       && forall k :: 0 <= k < |t| && k != h ==> Overwritten(t[k], t'[k], v.mem, v.wr, src[..n])
  }

  /** What another handle sees when `xs` is written to the memory `m` from `at` on. */
  ghost predicate Overwritten(o: Holding, o': Holding, m: MemBlk, at: int, xs: seq<byte>) {
    && KeepsWindows(o, o')
    && forall j :: 0 <= j < |o.views| ==> o'.texts[j] == Rewritten(o.views[j], o.texts[j], m, at, xs)
  }

  /** Whoever shows nothing of that stretch of memory sees no change. */
  lemma OverwrittenBeside(o: Holding, o': Holding, v: View, xs: seq<byte>)
    requires v.mem != null && Overwritten(o, o', v.mem, v.wr, xs) && StandsStill(o, o)
    requires forall j :: 0 <= j < |o.views| ==> |o.texts[j]| == o.views[j].wr - o.views[j].rd
    requires AllBeside(o.views, v, |xs|)
    ensures o' == o
  {
    hide StandsStill, Rewritten, Beside;
    forall j | 0 <= j < |o.views| ensures o'.texts[j] == o.texts[j] {
      RewrittenBeside(o.views[j], o.texts[j], v, xs);
    }
    assert o'.texts == o.texts;
    SameStand(o, o');
  }

  /**
   * The window `w`, which read `was`, reads `now` after a cut out of `x`. What is left of a window on either side
   * of the cut is moved together in its memory, which is read by all windows onto that memory.
   */
  ghost predicate Reread(x: Holding, offset: nat, size: nat, w: View, was: seq<byte>, now: seq<byte>)
    requires |x.views| == |x.texts|
  {
    && (NoneMoves(x.texts, offset, size) ==> now == was)
    && forall i: nat :: Moves(x.texts, i, offset, size) ==>
         && x.views[i].mem != null
         && var lo, hi := Upto(x.texts, i, offset), Upto(x.texts, i, offset + size);
         && now == Rewritten(w, was, x.views[i].mem, x.views[i].rd + lo, x.texts[i][hi..])
  }

  /** The `j`-th window of `x` after a cut: the cut bytes are gone from its text. */
  ghost predicate CutWindow(x: Holding, j: nat, offset: nat, size: nat, w: View, now: seq<byte>)
    requires j < |x.views| == |x.texts|
  {
    && w == CutView(x.views[j], Upto(x.texts, j, offset), Upto(x.texts, j, offset + size))
    && if NoneMoves(x.texts, offset, size) || Moves(x.texts, j, offset, size)
       then now == x.texts[j][..Upto(x.texts, j, offset)] + x.texts[j][Upto(x.texts, j, offset + size)..]
       else Reread(x, offset, size, w, x.texts[j], now)
  }

  /** Where the `j`-th of a sequence stands when those of `[a, b)` are taken out. */
  function Spot(j: nat, a: nat, b: nat): (k: nat)
    requires a <= b && (j < a || b <= j)
  {
    if j < a then j else j - (b - a)
  }

  /** `y` has the windows of `x` but for `[a, b)`, each after the cut. */
  ghost predicate CutDown(x: Holding, y: Holding, a: nat, b: nat, offset: nat, size: nat) {
    && a <= b <= |x.views| == |x.texts| && |y.views| == |y.texts| == |x.views| - (b - a)
    && forall j: nat :: j < |x.views| && (j < a || b <= j) ==>
         CutWindow(x, j, offset, size, y.views[Spot(j, a, b)], y.texts[Spot(j, a, b)])
  }

  /**
   * The windows wholly inside the cut are gone, and the others have lost the bytes cut. Unless the windows share
   * memory and bytes are moved in it, the chain reads as before without the cut. Other handles keep their
   * windows, and see no change but that of the bytes moved.
   */
  ghost predicate Eaten(t: seq<Holding>, h: nat, offset: nat, size: nat, t': seq<Holding>)
    requires h < |t|
  {
    && |t'| == |t| && |t[h].views| == |t[h].texts| && t'[h].left == NOWHERE
    && (exists a: nat, b: nat :: EatenRange(t[h].texts, a, b, offset, size) && CutDown(t[h], t'[h], a, b, offset, size))
    && (if t'[h].views == [] then t'[h].handle.Gone? else t'[h].handle.Buf?)
    && (Separate(t[h].views) || NoneMoves(t[h].texts, offset, size) ==>
          Flatten(t'[h].texts) == Cut(Flatten(t[h].texts), offset, size))
    && forall k :: 0 <= k < |t| && k != h ==> SeenElsewhere(t[h], offset, size, t[k], t'[k])
  }

  /** What a cut out of `x` does to the picture of another handle. */
  ghost predicate SeenElsewhere(x: Holding, offset: nat, size: nat, o: Holding, o': Holding)
    requires |x.views| == |x.texts|
  {
    && KeepsWindows(o, o')
    && forall j :: 0 <= j < |o.views| ==> Reread(x, offset, size, o.views[j], o.texts[j], o'.texts[j])
  }

  /** `o` shows none of the memory to which a cut out of `x` moves bytes. */
  ghost predicate NoneShown(x: Holding, offset: nat, size: nat, o: Holding)
    requires |x.views| == |x.texts|
  {
    forall i: nat :: Moves(x.texts, i, offset, size) ==>
      && x.views[i].mem != null
      && var lo, hi := Upto(x.texts, i, offset), Upto(x.texts, i, offset + size);
         |x.texts[i]| >= hi && AllBeside(o.views, x.views[i].(wr := x.views[i].rd + lo), |x.texts[i]| - hi)
  }

  /** A cut that moves no bytes, or none that `o` shows, changes nothing for it. */
  lemma NothingSeen(x: Holding, offset: nat, size: nat, o: Holding, o': Holding)
    requires |x.views| == |x.texts| && SeenElsewhere(x, offset, size, o, o') && StandsStill(o, o)
    requires forall j :: 0 <= j < |o.views| ==> |o.texts[j]| == o.views[j].wr - o.views[j].rd
    requires NoneShown(x, offset, size, o)
    ensures o' == o
  {
    hide Upto, StandsStill, Rewritten, Beside;
    forall j | 0 <= j < |o.views| ensures o'.texts[j] == o.texts[j] {
      assert Reread(x, offset, size, o.views[j], o.texts[j], o'.texts[j]);
      if !NoneMoves(x.texts, offset, size) {
        var i: nat :| Moves(x.texts, i, offset, size);
        var lo, hi := Upto(x.texts, i, offset), Upto(x.texts, i, offset + size);
        RewrittenBeside(o.views[j], o.texts[j], x.views[i].(wr := x.views[i].rd + lo), x.texts[i][hi..]);
      }
    }
    assert o'.texts == o.texts;
    SameStand(o, o');
  }

  lemma SameStand(o: Holding, o': Holding)
    requires StandsStill(o, o) && StandsStill(o, o') && o'.texts == o.texts
    ensures o'.left == o.left
  {
  }

  /** The iterator of `x` hands out what is left of its window, or `max` bytes if that is less. */
  ghost predicate Advances(x: Holding, max: Limit, out: seq<byte>, left': Ahead) {
    var k := x.left.window;
    && x.left.bytes == out + left'.bytes
    && if k < |x.texts| then
         var there := |x.left.bytes| - |Flatten(x.texts[k + 1..])|;
         if max == -1 || there <= max then |out| == there && left'.window == k + 1
         else |out| == max && left'.window == k
       else out == [] && left'.window == k
  }

  /** What an operation does and hands out. One that names no chain, or would overrun, does nothing. */
  ghost predicate Outcome(op: Op, t: seq<Holding>, out: seq<byte>, t': seq<Holding>) {
    (!op.NextChunk? ==> out == []) &&
    match op
    case New(size) => Grown(t, t') && IsNew(t, t'[|t|], size)
    case Fill(h, src) => if HasChain(t, h) then Filled(t, h, src, t') else t' == t
    case Duplicate(h) =>
      if HasChain(t, h) then Grown(t, t') && t'[|t|].handle.Buf? && t'[|t|] == t[h].(handle := t'[|t|].handle)
      else t' == t
    case DeepCopy(h) => if HasChain(t, h) then Grown(t, t') && IsDeepCopy(t, t'[|t|], t[h]) else t' == t
    case Contig(h, offset, size) =>
      if !HasChain(t, h) then t' == t
      else if offset < |Flatten(t[h].texts)| && offset + size <= |Flatten(t[h].texts)| then
        Grown(t, t') && |t[h].views| == |t[h].texts| && IsContig(t, t'[|t|], t[h], offset, size)
      else if TakenUp(t[h].texts, offset, size) then Grown(t, t') && IsPartial(t, t'[|t|], t[h], offset, size)
      else t' == t
    case Eat(h, offset, size) =>
      if HasChain(t, h) && !OverrunsAtStart(t[h].texts, offset, size) then Eaten(t, h, offset, size, t')
      else t' == t
    case AddToEnd(h, other) =>
      if HasChain(t, h) && HasChain(t, other) && h != other then
        t' == t[h := Merged(t[h], t[other])][other := NOTHING]
      else t' == t
    case Release(h) => t' == if HasChain(t, h) then t[h := NOTHING] else t
    case OpenIter(h) =>
      if HasChain(t, h) then
        && Grown(t, t') && t'[|t|].handle.Iter?
        && t'[|t|] == t[h].(handle := t'[|t|].handle, left := Ahead(0, Flatten(t[h].texts)))
      else t' == t
    case NextChunk(h, max) =>
      if HasIter(t, h) then
        |t'| == |t| && t' == t[h := t[h].(left := t'[h].left)] && Advances(t[h], max, out, t'[h].left)
      else out == [] && t' == t
    case CloseIter(h) => t' == if HasIter(t, h) then t[h := NOTHING] else t
  }
}
