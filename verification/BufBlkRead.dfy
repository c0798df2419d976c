/** What the windows of a picture read, before and after memory has been written. */
module BufferReading {
  import opened BufBlkTheory
  import opened BufferPictures
  import opened Buffers

  /** `x` is the picture of a handle, window by window. */
  ghost predicate Looks(x: Holding, h: Handle, c: seq<BufBlk>)
    reads Its(h), c`blk, c`rdPtr, c`wrPtr, Arrays(c)
  {
    && x.handle == h && |x.views| == |x.texts| == |c| && x.left == LeftIn(h, x.texts)
    && forall k :: 0 <= k < |c| ==> x.views[k] == c[k].Shows() && x.texts[k] == Text(c[k])
  }

  lemma LooksHeld(x: Holding, h: Handle, c: seq<BufBlk>)
    ensures Looks(x, h, c) <==> x == Held(h, c)
  {
    if Looks(x, h, c) {
      assert x.views == Views(c) && x.texts == Texts(c);
    }
  }

  /** The texts of a picture are what its views show. */
  ghost predicate Reads(x: Holding)
    reads Memories(x)
  {
    |x.views| == |x.texts| && forall j :: 0 <= j < |x.views| ==> ReadsAs(x.views[j], x.texts[j])
  }

  ghost predicate ReadsAs(v: View, text: seq<byte>)
    reads if v.mem == null then {} else {v.mem.base}
  {
    if v.mem == null then text == []
    else 0 <= v.rd <= v.wr <= v.mem.base.Length && text == v.mem.base[..][v.rd..v.wr]
  }

  lemma WindowReads(b: BufBlk)
    requires b.Fits()
    ensures ReadsAs(b.Shows(), Text(b))
  {
    TextIs(b);
  }

  lemma LooksReads(x: Holding, h: Handle, c: seq<BufBlk>)
    requires Looks(x, h, c) && forall j :: 0 <= j < |c| ==> c[j].Fits()
    ensures Reads(x)
  {
    hide Text, ReadsAs, BufBlk.Fits, BufBlk.Shows, LeftIn;
    forall j | 0 <= j < |c| ensures ReadsAs(x.views[j], x.texts[j]) {
      WindowReads(c[j]);
    }
  }

  lemma NothingLeft(x: Holding, h: Handle, c: seq<BufBlk>)
    requires Looks(x, h, c) && !h.Iter?
    ensures x.left == NOWHERE
  {
  }

  /** What is left of a window whose own bytes have been cut. */
  lemma OwnRead(w: View, was: seq<byte>, text: seq<byte>, now: seq<byte>, lo: nat, hi: nat)
    requires w.mem != null && 0 <= w.rd <= w.wr <= |was| && text == was[w.rd..w.wr] && lo <= hi <= |text|
    requires ReadsAs(CutView(w, lo, hi), now)
    requires w.mem.base[..] == if lo == 0 || hi == |text| then was else MovedDown(was, w.rd + lo, hi - lo, w.wr)
    ensures now == text[..lo] + text[hi..]
  {
    if lo > 0 && hi < |text| {
      hide MovedDown;
      MovedText(was, w.rd, w.wr, lo, hi - lo);
    }
  }

  /** The window `w` reads `text`, taken from `was` if it looks into the memory `m`. */
  ghost predicate ReadIn(w: View, text: seq<byte>, m: MemBlk?, was: seq<byte>)
    reads if w.mem == null then {} else {w.mem.base}
  {
    if m != null && w.mem != null && w.mem.base == m.base then 0 <= w.rd <= w.wr <= |was| && text == was[w.rd..w.wr]
    else ReadsAs(w, text)
  }

  /** Every window of the picture reads its text, taken from `was` if it looks into the memory `m`. */
  ghost predicate AllReadIn(x: Holding, m: MemBlk?, was: seq<byte>)
    reads Memories(x)
  {
    |x.views| == |x.texts| && forall j :: 0 <= j < |x.views| ==> ReadIn(x.views[j], x.texts[j], m, was)
  }

  /** The text of any window after bytes have been moved down in the memory `m`. */
  lemma MovedRead(w: View, text: seq<byte>, now: seq<byte>, m: MemBlk, was: seq<byte>, at: nat, size: nat, end: nat)
    requires at + size <= end <= |was| && m.base[..] == MovedDown(was, at, size, end)
    requires ReadsAs(w, now) && ReadIn(w, text, m, was)
    ensures now == Rewritten(w, text, m, at, was[at + size..end])
  {
    assert Written(m, was, at, was[at + size..end]);
    hide *;
    WrittenRead(w, text, now, m, was, at, was[at + size..end]);
  }

  /** A cut out of `x` has moved bytes in the memory `m`, which held `was`, or none if that is null. */
  ghost predicate MemoryAfter(x: Holding, offset: nat, size: nat, m: MemBlk?, was: seq<byte>)
    requires |x.views| == |x.texts|
    reads if m == null then {} else {m.base}
  {
    if m == null then NoneMoves(x.texts, offset, size)
    else
      exists i: nat ::
        Moves(x.texts, i, offset, size) && x.views[i].mem == m
        && m.base[..] == MovedDown(was, x.views[i].rd + Upto(x.texts, i, offset), size, x.views[i].wr)
  }

  /** The window whose bytes a cut has moved, and where they are now. */
  lemma MovedIn(x: Holding, offset: nat, size: nat, m: MemBlk, was: seq<byte>) returns (i: nat)
    requires |x.views| == |x.texts| && MemoryAfter(x, offset, size, m, was) && AllReadIn(x, m, was)
    ensures i < |x.views| && Moves(x.texts, i, offset, size) && x.views[i].mem == m
    ensures var v, lo := x.views[i], Upto(x.texts, i, offset);
      && 0 <= v.rd && v.wr <= |was| && x.texts[i] == was[v.rd..v.wr]
      && 0 < lo && lo + size < |x.texts[i]| == v.wr - v.rd
      && Upto(x.texts, i, offset + size) == lo + size && m.base[..] == MovedDown(was, v.rd + lo, size, v.wr)
    ensures forall j: nat :: Moves(x.texts, j, offset, size) ==> j == i
    ensures forall j: nat :: j < |x.texts| && j != i ==> Upto(x.texts, j, offset) == Upto(x.texts, j, offset + size)
  {
    hide Upto, MovedDown, ReadsAs;
    i :| Moves(x.texts, i, offset, size) && x.views[i].mem == m
      && m.base[..] == MovedDown(was, x.views[i].rd + Upto(x.texts, i, offset), size, x.views[i].wr);
    assert ReadIn(x.views[i], x.texts[i], m, was);
    MovesOnce(x.texts, i, offset, size);
    MovesSpelled(x.texts, i, offset, size);
  }

  lemma RereadElsewhere(x: Holding, offset: nat, size: nat, m: MemBlk?, was: seq<byte>, w: View, text: seq<byte>,
      now: seq<byte>)
    requires |x.views| == |x.texts| && MemoryAfter(x, offset, size, m, was) && AllReadIn(x, m, was)
    requires ReadIn(w, text, m, was) && ReadsAs(w, now)
    ensures Reread(x, offset, size, w, text, now)
  {
    hide Upto, Rewritten, MovedDown, Moves, AllReadIn, MemoryAfter;
    if m == null {
      NothingMoved(x, offset, size, was);
    } else {
      var i := MovedIn(x, offset, size, m, was);
      var v, lo, hi := x.views[i], Upto(x.texts, i, offset), Upto(x.texts, i, offset + size);
      assert was[v.rd..v.wr][hi..] == was[v.rd + lo + size..v.wr];
      MovedRead(w, text, now, m, was, v.rd + lo, size, v.wr);
    }
  }

  lemma NothingMoved(x: Holding, offset: nat, size: nat, was: seq<byte>)
    requires |x.views| == |x.texts| && MemoryAfter(x, offset, size, null, was)
    ensures NoneMoves(x.texts, offset, size)
  {
  }

  /** The `j`-th window of `x` after the cut. */
  lemma RereadOwn(x: Holding, j: nat, offset: nat, size: nat, m: MemBlk?, was: seq<byte>, w: View, now: seq<byte>)
    requires |x.views| == |x.texts| && MemoryAfter(x, offset, size, m, was) && AllReadIn(x, m, was)
    requires j < |x.views| && x.views[j].mem != null && ReadsAs(w, now)
    requires w == CutView(x.views[j], Upto(x.texts, j, offset), Upto(x.texts, j, offset + size))
    ensures CutWindow(x, j, offset, size, w, now)
  {
    hide Upto, Rewritten, MovedDown, Moves, MemoryAfter, Reread;
    var v, lo, hi := x.views[j], Upto(x.texts, j, offset), Upto(x.texts, j, offset + size);
    assert ReadIn(v, x.texts[j], m, was);
    if m == null {
      NothingMoved(x, offset, size, was);
      UptoOrder(x.texts, j, offset, size);
      OwnRead(v, v.mem.base[..], x.texts[j], now, lo, hi);
    } else {
      var i := MovedIn(x, offset, size, m, was);
      if i == j {
        OwnRead(v, was, x.texts[j], now, lo, hi);
      } else {
        assert w == v;
        RereadElsewhere(x, offset, size, m, was, w, x.texts[j], now);
      }
    }
  }

  lemma {:induction false} FlattenLengths(ts: seq<seq<byte>>, us: seq<seq<byte>>)
    requires |ts| == |us| && forall j :: 0 <= j < |ts| ==> |ts[j]| == |us[j]|
    ensures |Flatten(ts)| == |Flatten(us)|
  {
    if ts != [] {
      FlattenLengths(ts[1..], us[1..]);
    }
  }

  /** An iterator that is left alone stands where it did in texts of the same lengths. */
  lemma Stood(x: Holding, y: Holding, h: Handle)
    requires x.left == LeftIn(h, x.texts) && y.left == LeftIn(h, y.texts)
    requires |x.texts| == |y.texts| && forall j :: 0 <= j < |x.texts| ==> |x.texts[j]| == |y.texts[j]|
    ensures StandsStill(x, y)
  {
    hide Flatten;
    if h.Iter? && h.it.at <= |x.texts| {
      FlattenLengths(x.texts[h.it.at..], y.texts[h.it.at..]);
    }
  }

  /** The picture of a handle that keeps its windows while the memory `m` is written to. */
  lemma WindowsKept(m: MemBlk?, was: seq<byte>, o: Holding, o': Holding, h: Handle)
    requires AllReadIn(o, m, was) && Reads(o') && o.handle == o'.handle == h && |o.views| == |o'.views|
    requires forall j :: 0 <= j < |o.views| ==> o'.views[j] == o.views[j]
    requires o.left == LeftIn(h, o.texts) && o'.left == LeftIn(h, o'.texts)
    ensures KeepsWindows(o, o')
  {
    hide LeftIn, ReadsAs, ReadIn, StandsStill;
    assert o'.views == o.views;
    forall j | 0 <= j < |o.views| ensures |o.texts[j]| == |o'.texts[j]| {
      assert ReadIn(o.views[j], o.texts[j], m, was) && ReadsAs(o'.views[j], o'.texts[j]);
      SameLength(o.views[j], o.texts[j], o'.texts[j], m, was);
    }
    Stood(o, o', h);
  }

  /** The picture of a handle that the cut does not touch. */
  lemma Elsewhere(x: Holding, offset: nat, size: nat, m: MemBlk?, was: seq<byte>, o: Holding, o': Holding)
    requires |x.views| == |x.texts| && MemoryAfter(x, offset, size, m, was) && AllReadIn(x, m, was)
    requires AllReadIn(o, m, was) && Reads(o') && KeepsWindows(o, o')
    ensures SeenElsewhere(x, offset, size, o, o')
  {
    hide Reread, MemoryAfter, ReadsAs, ReadIn, StandsStill;
    forall j | 0 <= j < |o.views| ensures Reread(x, offset, size, o.views[j], o.texts[j], o'.texts[j]) {
      assert ReadIn(o.views[j], o.texts[j], m, was) && ReadsAs(o'.views[j], o'.texts[j]);
      RereadElsewhere(x, offset, size, m, was, o.views[j], o.texts[j], o'.texts[j]);
    }
  }

  /** The memory `m`, which held `was`, holds `xs` from `at` on. */
  ghost predicate Written(m: MemBlk, was: seq<byte>, at: nat, xs: seq<byte>)
    reads m.base
  {
    at + |xs| <= |was| && m.base[..] == was[..at] + xs + was[at + |xs|..]
  }

  lemma WrittenRead(w: View, text: seq<byte>, now: seq<byte>, m: MemBlk, was: seq<byte>, at: nat, xs: seq<byte>)
    requires Written(m, was, at, xs) && ReadsAs(w, now) && ReadIn(w, text, m, was)
    ensures now == Rewritten(w, text, m, at, xs)
  {
    if w.mem != null && w.mem.base == m.base {
      var r := Rewritten(w, text, m, at, xs);
      forall q | 0 <= q < |text| ensures now[q] == r[q] {
        assert now[q] == (was[..at] + xs + was[at + |xs|..])[w.rd + q];
      }
    }
  }

  /** The picture of a handle while `xs` is written. */
  lemma ElsewhereWritten(m: MemBlk, was: seq<byte>, at: nat, xs: seq<byte>, o: Holding, o': Holding)
    requires Written(m, was, at, xs) && AllReadIn(o, m, was) && Reads(o') && KeepsWindows(o, o')
    ensures Overwritten(o, o', m, at, xs)
  {
    hide Written, ReadsAs, ReadIn, StandsStill, Rewritten;
    forall j | 0 <= j < |o.views| ensures o'.texts[j] == Rewritten(o.views[j], o.texts[j], m, at, xs) {
      assert ReadIn(o.views[j], o.texts[j], m, was) && ReadsAs(o'.views[j], o'.texts[j]);
      WrittenRead(o.views[j], o.texts[j], o'.texts[j], m, was, at, xs);
    }
  }

  lemma SameLength(w: View, text: seq<byte>, now: seq<byte>, m: MemBlk?, was: seq<byte>)
    requires ReadIn(w, text, m, was) && ReadsAs(w, now)
    ensures |now| == |text|
  {
  }
}
