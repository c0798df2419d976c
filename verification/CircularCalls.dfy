/**
 The locked sections of tw_safeCircular as steps of the system of threads: what each does to the fields of the
 buffer and answers its caller is what the step of that thread says, with the signal it sends received by some sleeper.
 */
module CircularCalls {
  import opened Circular
  import opened CircularSystem
  import opened CircularTheory

  // add, the timed add and addIfRoom from the lock on, and the turn of their loop after a wait.
  method AddSection(b: SafeCircular, d: T, t: nat, ghost a: Action, ghost th: Threads)
    returns (ret: bool, ghost e: Event, ghost th': Threads)
    requires b.Valid() && t in th
    requires match a case Add(x, _) => x == d && th[t].Idle? case AddIfRoom(x) => x == d && th[t].Idle?
      case AddAgain => th[t].AddWoken? && th[t].item == d case _ => false
    modifies b, b.sema, b.data
    ensures b.Valid() && Step(State(old(b.View()), th), t, a, e, State(b.View(), th'))
    ensures e == (if ret then Pushed(d) else Quiet) && b.sema.gtZeroSignals == old(b.sema.gtZeroSignals)
    ensures b.sema.decrementSignals == old(b.sema.decrementSignals) + if ret then 1 else 0
  {
    hide Sound, SignalRemover, Put, Items;
    ret := b.AddLocked(d);
    if ret {
      e := Pushed(d);
      th' := Signalled(th[t := Idle]);
    } else {
      e := Quiet;
      th' := th[t := match a case Add(_, timed) => AddAsleep(d, timed)
                     case AddAgain => AddAsleep(d, th[t].timed) case _ => Idle];
    }
  }

  // remove, and removeOrBlock from the lock on.
  method RemoveSection(b: SafeCircular, t: nat, ghost a: Action, ghost th: Threads)
    returns (ret: bool, fill: T, ghost e: Event, ghost th': Threads)
    requires b.Valid() && t in th && th[t].Idle? && (a.Remove? || a.RemoveOrBlock?)
    modifies b, b.sema
    ensures b.Valid() && Step(State(old(b.View()), th), t, a, e, State(b.View(), th'))
    ensures e == (if ret then Popped(fill) else Quiet) && b.sema.decrementSignals == old(b.sema.decrementSignals)
    ensures b.sema.gtZeroSignals == old(b.sema.gtZeroSignals) + if ret then 1 else 0
  {
    hide Sound, SignalAdder, TakeAndReset, Items;
    ret, fill := b.RemoveLocked();
    if ret {
      e := Popped(fill);
      th' := AdderWoken(th[t := Idle]);
    } else {
      e, th' := Quiet, th[t := if a.Remove? then Idle else RemoveAsleep];
    }
  }

  // removeOrBlock from the end of its wait on.
  method RemoveWokenSection(b: SafeCircular, t: nat, ghost th: Threads)
    returns (ret: bool, fill: T, ghost e: Event, ghost th': Threads)
    requires b.Valid() && t in th && th[t].RemoveWoken?
    modifies b, b.sema
    ensures b.Valid() && Step(State(old(b.View()), th), t, RemoveAgain, e, State(b.View(), th'))
    ensures e == (if ret then Popped(fill) else Quiet) && b.sema.decrementSignals == old(b.sema.decrementSignals)
    ensures b.sema.gtZeroSignals == old(b.sema.gtZeroSignals) + if ret then 1 else 0
  {
    hide Sound, SignalAdder, TakeAfterWait, Items;
    ret, fill := b.RemoveAfterWait();
    if ret {
      e := Popped(fill);
      th' := AdderWoken(th[t := Idle]);
    } else {
      e, th' := Quiet, th[t := Idle];
    }
  }

  method ReverseSection(b: SafeCircular, t: nat, ghost th: Threads)
    requires b.Valid() && t in th && th[t].Idle?
    modifies b
    ensures b.Valid() && Step(State(old(b.View()), th), t, Reverse, Turned, State(b.View(), th))
  {
    hide Sound, Flip, Items;
    b.Reverse();
  }

  method ClearSection(b: SafeCircular, t: nat, ghost th: Threads)
    requires b.Valid() && t in th && th[t].Idle?
    modifies b, b.sema
    ensures b.Valid() && Step(State(old(b.View()), th), t, Clear, Emptied(old(b.Queue())), State(b.View(), th))
    ensures b.sema.gtZeroSignals == old(b.sema.gtZeroSignals)
    ensures b.sema.decrementSignals == old(b.sema.decrementSignals)
  {
    hide Sound, Items;
    b.Clear();
  }
}
