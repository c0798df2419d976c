/**
 tw_safeCircular over TW_SemaTwoWay: the code each thread runs while it holds the lock. A method ends
 where the source unlocks or goes to sleep; what the threads do between these sections is in
 CircularSystem.
 */
module Circular {
  import opened CircularTheory

  // TW_SemaTwoWay under its lock. The signals sent so far are counted for the specification.
  class SemaTwoWay {
    const size: nat
    var cnt: int
    ghost var gtZeroSignals: nat
    ghost var decrementSignals: nat

    constructor (initCount: nat)
      ensures cnt == size == initCount && gtZeroSignals == decrementSignals == 0
    {
      cnt, size := initCount, initCount;
      gtZeroSignals, decrementSignals := 0, 0;
    }

    // acquireAndKeepLockNoBlock, and one turn of the loop of acquireAndKeepLock: false means no place.
    method TryAcquire() returns (ret: bool)
      modifies this
      ensures ret <==> old(cnt) >= 1
      ensures if ret then cnt == old(cnt) - 1 && decrementSignals == old(decrementSignals) + 1
              else cnt == old(cnt) && decrementSignals == old(decrementSignals)
      ensures gtZeroSignals == old(gtZeroSignals)
    {
      ret := false;
      if cnt >= 1 {
        cnt := cnt - 1;
        decrementSignals := decrementSignals + 1;
        ret := true;
      }
    }

    // resetNoLock: all places are free again, and nobody is signalled.
    method ResetNoLock()
      modifies this
      ensures cnt == size
      ensures gtZeroSignals == old(gtZeroSignals) && decrementSignals == old(decrementSignals)
    {
      cnt := size;
    }

    // releaseWithoutLock
    method ReleaseWithoutLock()
      modifies this
      ensures cnt == old(cnt) + 1 && decrementSignals == old(decrementSignals)
      ensures gtZeroSignals == old(gtZeroSignals) + if cnt > 0 then 1 else 0
    {
      cnt := cnt + 1;
      if cnt > 0 {
        gtZeroSignals := gtZeroSignals + 1;
      }
    }
  }

  class SafeCircular {
    const sema: SemaTwoWay
    const data: array<T>
    const size: nat
    var nextIn: int
    var nextOut: int
    var reversed: bool

    ghost function View(): Ring
      reads this, sema, data
    {
      Ring(size, sema.cnt, nextIn, nextOut, reversed, data[..])
    }

    ghost predicate Valid()
      reads this, sema, data
    {
      sema.size == size == data.Length && Sound(View())
    }

    ghost function Queue(): seq<T>
      requires Valid()
      reads this, sema, data
    {
      Items(View())
    }

    constructor (n: nat)
      ensures Valid() && Queue() == [] && size == n && fresh(sema) && fresh(data)
    {
      size, nextIn, nextOut, reversed := n, -1, 0, false;
      sema := new SemaTwoWay(n);
      data := new T[n];
      new;
      SoundEmpty(n, data[..]);
    }

    // remain()
    method Remaining() returns (n: int)
      requires Valid()
      ensures n == |Queue()|
    {
      n := size - sema.cnt;
    }

    // What add, the timed add and addIfRoom do once they hold the lock, and again whenever a wait of theirs
    // ends: take a place and fill it, or find that there is none.
    method AddLocked(d: T) returns (ret: bool)
      requires Valid()
      modifies this, sema, data
      ensures Valid() && (ret <==> |old(Queue())| < size)
      ensures if ret then Queue() == old(Queue()) + [d] && View() == Put(old(View()), d)
              else View() == old(View())
      ensures sema.decrementSignals == old(sema.decrementSignals) + (if ret then 1 else 0)
      ensures sema.gtZeroSignals == old(sema.gtZeroSignals)
    {
      ghost var r := View();
      ret := sema.TryAcquire();
      if ret {
        PutItems(r, d);
        nextIn := NextPlace(nextIn, size, reversed);
        data[nextIn] := d;
        assert View() == Put(r, d);
      }
    }

    // remove, and removeOrBlock up to the point where it would wait.
    method RemoveLocked() returns (ret: bool, fill: T)
      requires Valid()
      modifies this, sema
      ensures Valid() && (ret <==> old(Queue()) != [])
      ensures if ret then fill == old(Queue())[0] && Queue() == old(Queue())[1..] && View() == TakeAndReset(old(View()))
              else View() == old(View())
      ensures sema.gtZeroSignals == old(sema.gtZeroSignals) + (if ret then 1 else 0)
      ensures sema.decrementSignals == old(sema.decrementSignals)
    {
      ghost var r := View();
      fill := 0;
      var rm := size - sema.cnt;
      if rm > 0 {
        TakeItems(r);
        sema.ReleaseWithoutLock();
        fill := data[nextOut];
        nextOut := NextPlace(nextOut, size, reversed);
        if rm == 1 {
          nextIn, nextOut, reversed := -1, 0, false;
        }
        ret := true;
        assert View() == TakeAndReset(r);
      } else {
        ret := false;
      }
    }

    // removeOrBlock from where its wait ends: the wait counts as failed if nothing was added meanwhile.
    method RemoveAfterWait() returns (ret: bool, fill: T)
      requires Valid()
      modifies this, sema
      ensures Valid() && (ret <==> old(Queue()) != [])
      ensures if ret
              then fill == old(Queue())[0] && Queue() == old(Queue())[1..] && View() == TakeAfterWait(old(View()))
              else View() == old(View())
      ensures sema.gtZeroSignals == old(sema.gtZeroSignals) + (if ret then 1 else 0)
      ensures sema.decrementSignals == old(sema.decrementSignals)
    {
      ghost var r := View();
      fill := 0;
      if sema.cnt >= size {
        ret := false;
      } else {
        TakeItems(r);
        fill := data[nextOut];
        if size - sema.cnt == 0 {
          // The indices would be reset here; the release is yet to come, so the buffer is never empty.
          assert false;
        }
        nextOut := NextPlace(nextOut, size, reversed);
        sema.ReleaseWithoutLock();
        ret := true;
        assert View() == TakeAfterWait(r);
      }
    }

    // reverse, called by a thread that holds the lock.
    method Reverse()
      requires Valid()
      modifies this
      ensures Valid() && Queue() == Reversed(old(Queue())) && View() == Flip(old(View()))
    {
      ghost var r := View();
      FlipItems(r);
      if size - sema.cnt < 1 {
        return;
      }
      reversed := !reversed;
      var t := nextOut;
      nextOut := nextIn;
      nextIn := t;
      assert View() == Flip(r);
    }

    // clear
    method Clear()
      requires Valid()
      modifies this, sema
      ensures Valid() && Queue() == [] && View() == Cleared(old(View()))
      ensures sema.gtZeroSignals == old(sema.gtZeroSignals) && sema.decrementSignals == old(sema.decrementSignals)
    {
      nextIn, nextOut := -1, 0;
      reversed := false;
      sema.ResetNoLock();
      SoundEmpty(size, data[..]);
    }
  }
}
