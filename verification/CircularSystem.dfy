/**
 Any number of threads on one circular buffer, as a transition system. Every lock-protected section of
 Circular is one step; a wait on a condition variable ends one step and a later one begins when the
 thread, woken by a signal or by itself, has the lock again.
 */
module CircularSystem {
  import opened CircularTheory
  import opened Options

  // Where a thread is between two steps. A woken thread waits for the lock only.
  datatype Phase =
    | Idle
    | AddAsleep(item: T, timed: bool)
    | AddWoken(item: T, timed: bool)
    | RemoveAsleep
    | RemoveWoken

  type Threads = map<nat, Phase>

  datatype State = State(ring: Ring, threads: Threads)

  // What a step does to the queue, as an onlooker sees it, and whether it wastes a signal.
  datatype Event = Pushed(item: T) | Popped(item: T) | Turned | Emptied(items: seq<T>) | SignalLost | Quiet

  // ---------- Signals ----------

  ghost function AddersAsleep(th: Threads): set<nat> { set t | t in th && th[t].AddAsleep? }

  ghost function AddersWoken(th: Threads): set<nat> { set t | t in th && th[t].AddWoken? }

  ghost function RemoversAsleep(th: Threads): set<nat> { set t | t in th && th[t].RemoveAsleep? }

  ghost function RemoversWoken(th: Threads): set<nat> { set t | t in th && th[t].RemoveWoken? }

  function Woken(p: Phase): Phase {
    match p
    case AddAsleep(d, timed) => AddWoken(d, timed)
    case RemoveAsleep => RemoveWoken
    case _ => p
  }

  // pthread_cond_signal on gtZeroCond: some sleeping adder is woken, if there is one.
  ghost predicate SignalAdder(th: Threads, th': Threads) {
    if AddersAsleep(th) == {} then th' == th
    else exists t :: t in AddersAsleep(th) && th' == th[t := Woken(th[t])]
  }

  // The same on decrementCond.
  ghost predicate SignalRemover(th: Threads, th': Threads) {
    if RemoversAsleep(th) == {} then th' == th
    else exists t :: t in RemoversAsleep(th) && th' == th[t := Woken(th[t])]
  }

  // ---------- Steps ----------

  datatype Action =
    | Add(d: T, mayTimeOut: bool)
    | AddIfRoom(d: T)
    | AddAgain
    | AddTimesOut
    | AddTimesOutWoken
    | Remove
    | RemoveOrBlock
    | RemoveAgain
    | Reverse
    | Clear
    | WakeUnsignalled

  // A thread that has the lock takes a place for d, and then waits for nothing more.
  ghost predicate Adds(s: State, t: nat, d: T, e: Event, s': State)
    requires Sound(s.ring) && s.ring.cnt >= 1
  {
    s'.ring == Put(s.ring, d) && SignalRemover(s.threads[t := Idle], s'.threads) && e == Pushed(d)
  }

  ghost predicate Removes(s: State, t: nat, ring': Ring, e: Event, s': State)
    requires Sound(s.ring) && Remain(s.ring) > 0
  {
    s'.ring == ring' && SignalAdder(s.threads[t := Idle], s'.threads) && e == Popped(Items(s.ring)[0])
  }

  // Only the thread's own phase changes.
  ghost predicate Goes(s: State, t: nat, p: Phase, e: Event, s': State) {
    s' == s.(threads := s.threads[t := p]) && e == Quiet
  }

  // A timed wait may end with a timeout although the thread has been signalled; acquireAndKeepLock then gives
  // up without looking at the count again, and the signal has gone to nobody.
  ghost predicate Step(s: State, t: nat, a: Action, e: Event, s': State)
    requires Sound(s.ring)
  {
    t in s.threads &&
    match a
    case Add(d, timed) =>
      s.threads[t].Idle? && if s.ring.cnt >= 1 then Adds(s, t, d, e, s') else Goes(s, t, AddAsleep(d, timed), e, s')
    case AddIfRoom(d) =>
      s.threads[t].Idle? && if s.ring.cnt >= 1 then Adds(s, t, d, e, s') else Goes(s, t, Idle, e, s')
    case AddAgain =>
      s.threads[t].AddWoken? && var d := s.threads[t].item;
      if s.ring.cnt >= 1 then Adds(s, t, d, e, s') else Goes(s, t, AddAsleep(d, s.threads[t].timed), e, s')
    case AddTimesOut =>
      s.threads[t].AddAsleep? && s.threads[t].timed && Goes(s, t, Idle, e, s')
    case AddTimesOutWoken =>
      s.threads[t].AddWoken? && s.threads[t].timed && s' == s.(threads := s.threads[t := Idle]) && e == SignalLost
    case Remove =>
      s.threads[t].Idle? &&
      if Remain(s.ring) > 0 then Removes(s, t, TakeAndReset(s.ring), e, s') else Goes(s, t, Idle, e, s')
    case RemoveOrBlock =>
      s.threads[t].Idle? &&
      if Remain(s.ring) > 0 then Removes(s, t, TakeAndReset(s.ring), e, s') else Goes(s, t, RemoveAsleep, e, s')
    case RemoveAgain =>
      s.threads[t].RemoveWoken? &&
      if Remain(s.ring) > 0 then Removes(s, t, TakeAfterWait(s.ring), e, s') else Goes(s, t, Idle, e, s')
    case Reverse =>
      s.threads[t].Idle? && s' == s.(ring := Flip(s.ring)) && e == Turned
    case Clear =>
      s.threads[t].Idle? && s' == s.(ring := Cleared(s.ring)) && e == Emptied(Items(s.ring))
    case WakeUnsignalled =>
      (s.threads[t].AddAsleep? || s.threads[t].RemoveAsleep?) && Goes(s, t, Woken(s.threads[t]), e, s')
  }

  // What a thread can do next. A call can be made by an idle thread only; how a sleeping or woken one goes on
  // depends on what it waits for.
  predicate Open(p: Phase, a: Action) {
    match a
    case AddAgain => p.AddWoken?
    case AddTimesOut => p.AddAsleep? && p.timed
    case AddTimesOutWoken => p.AddWoken? && p.timed
    case RemoveAgain => p.RemoveWoken?
    case WakeUnsignalled => p.AddAsleep? || p.RemoveAsleep?
    case _ => p.Idle?
  }

  lemma AdderWoken(th: Threads) returns (th': Threads)
    ensures SignalAdder(th, th')
  {
    if AddersAsleep(th) == {} {
      th' := th;
    } else {
      var t :| t in AddersAsleep(th);
      th' := th[t := Woken(th[t])];
    }
  }

  // Each of these steps can be taken in every state, and no other.
  lemma StepsOpen(s: State, t: nat, a: Action)
    requires Sound(s.ring) && t in s.threads
    ensures (exists e, s' :: Step(s, t, a, e, s')) <==> Open(s.threads[t], a)
  {
    if Open(s.threads[t], a) {
      var e, s' := SomeStep(s, t, a);
    }
  }

  lemma SomeStep(s: State, t: nat, a: Action) returns (e: Event, s': State)
    requires Sound(s.ring) && t in s.threads && Open(s.threads[t], a)
    ensures Step(s, t, a, e, s')
  {
    hide Sound, Items, Put, TakeAndReset, TakeAfterWait, Flip, SignalAdder, SignalRemover;
    var p := s.threads[t];
    match a
    case Add(d, timed) => e, s' := SomeAdd(s, t, d, AddAsleep(d, timed));
    case AddIfRoom(d) => e, s' := SomeAdd(s, t, d, Idle);
    case AddAgain => e, s' := SomeAdd(s, t, p.item, AddAsleep(p.item, p.timed));
    case AddTimesOut => e, s' := Quiet, s.(threads := s.threads[t := Idle]);
    case AddTimesOutWoken => e, s' := SignalLost, s.(threads := s.threads[t := Idle]);
    case Remove => e, s' := SomeRemoval(s, t, if Remain(s.ring) > 0 then TakeAndReset(s.ring) else s.ring, Idle);
    case RemoveOrBlock =>
      e, s' := SomeRemoval(s, t, if Remain(s.ring) > 0 then TakeAndReset(s.ring) else s.ring, RemoveAsleep);
    case RemoveAgain => e, s' := SomeRemoval(s, t, if Remain(s.ring) > 0 then TakeAfterWait(s.ring) else s.ring, Idle);
    case Reverse => e, s' := Turned, s.(ring := Flip(s.ring));
    case Clear => e, s' := Emptied(Items(s.ring)), s.(ring := Cleared(s.ring));
    case WakeUnsignalled => e, s' := Quiet, s.(threads := s.threads[t := Woken(p)]);
  }

  lemma SomeAdd(s: State, t: nat, d: T, p: Phase) returns (e: Event, s': State)
    requires Sound(s.ring)
    ensures if s.ring.cnt >= 1 then Adds(s, t, d, e, s') else Goes(s, t, p, e, s')
  {
    hide Sound, Put, SignalRemover;
    if s.ring.cnt >= 1 {
      var th := Signalled(s.threads[t := Idle]);
      e, s' := Pushed(d), State(Put(s.ring, d), th);
    } else {
      e, s' := Quiet, s.(threads := s.threads[t := p]);
    }
  }

  lemma SomeRemoval(s: State, t: nat, ring': Ring, p: Phase) returns (e: Event, s': State)
    requires Sound(s.ring)
    ensures if Remain(s.ring) > 0 then Removes(s, t, ring', e, s') else Goes(s, t, p, e, s')
  {
    hide Items, SignalAdder;
    if Remain(s.ring) > 0 {
      var th := AdderWoken(s.threads[t := Idle]);
      e, s' := Popped(Items(s.ring)[0]), State(ring', th);
    } else {
      e, s' := Quiet, s.(threads := s.threads[t := p]);
    }
  }

  ghost predicate Init(s: State) {
    && |s.ring.data| == s.ring.size && s.ring == Ring(s.ring.size, s.ring.size, -1, 0, false, s.ring.data)
    && forall t :: t in s.threads ==> s.threads[t].Idle?
  }

  // ---------- The invariant ----------

  // While an adder sleeps there are no more free places than adders on their way to them.
  ghost predicate AddersCovered(s: State) {
    AddersAsleep(s.threads) != {} ==> s.ring.cnt <= |AddersWoken(s.threads)|
  }

  // While a remover sleeps there are no more items than removers on their way to them.
  ghost predicate RemoversCovered(s: State) {
    RemoversAsleep(s.threads) != {} ==> Remain(s.ring) <= |RemoversWoken(s.threads)|
  }

  // What a step has to do with the adders that sleep: a clear must not free more places than there are
  // adders on their way, and a woken adder may give up only if the others suffice.
  ghost predicate Harmless(s: State, e: Event) {
    match e
    case Emptied(_) => AddersAsleep(s.threads) != {} ==> s.ring.size <= |AddersWoken(s.threads)|
    case SignalLost => AddersAsleep(s.threads) != {} ==> s.ring.cnt < |AddersWoken(s.threads)|
    case _ => true
  }

  lemma Counts(th: Threads, t: nat, p: Phase)
    ensures var th' := th[t := p];
      && AddersAsleep(th') == (if p.AddAsleep? then AddersAsleep(th) + {t} else AddersAsleep(th) - {t})
      && AddersWoken(th') == (if p.AddWoken? then AddersWoken(th) + {t} else AddersWoken(th) - {t})
      && RemoversAsleep(th') == (if p.RemoveAsleep? then RemoversAsleep(th) + {t} else RemoversAsleep(th) - {t})
      && RemoversWoken(th') == (if p.RemoveWoken? then RemoversWoken(th) + {t} else RemoversWoken(th) - {t})
  {
  }

  // The acting thread leaves: of the woken ones at most itself is gone.
  lemma Leaves(th: Threads, t: nat)
    requires t in th
    ensures var th' := th[t := Idle];
      && AddersAsleep(th') <= AddersAsleep(th) && RemoversAsleep(th') <= RemoversAsleep(th)
      && |AddersWoken(th')| == |AddersWoken(th)| - (if th[t].AddWoken? then 1 else 0)
      && |RemoversWoken(th')| == |RemoversWoken(th)| - (if th[t].RemoveWoken? then 1 else 0)
  {
    Counts(th, t, Idle);
    if !th[t].AddWoken? {
      assert AddersWoken(th) - {t} == AddersWoken(th);
    }
    if !th[t].RemoveWoken? {
      assert RemoversWoken(th) - {t} == RemoversWoken(th);
    }
  }

  // A signal to the removers wakes one of them if one sleeps, and no adder.
  lemma RemoverSignalled(th: Threads, th': Threads)
    requires SignalRemover(th, th')
    ensures AddersAsleep(th') == AddersAsleep(th) && AddersWoken(th') == AddersWoken(th)
    ensures RemoversAsleep(th') != {} ==> |RemoversWoken(th')| == |RemoversWoken(th)| + 1
  {
    if RemoversAsleep(th) != {} {
      var t :| t in RemoversAsleep(th) && th' == th[t := Woken(th[t])];
      Counts(th, t, Woken(th[t]));
      assert t !in RemoversWoken(th) && t !in AddersAsleep(th) && t !in AddersWoken(th);
    }
  }

  lemma AdderSignalled(th: Threads, th': Threads)
    requires SignalAdder(th, th')
    ensures RemoversAsleep(th') == RemoversAsleep(th) && RemoversWoken(th') == RemoversWoken(th)
    ensures AddersAsleep(th') != {} ==> |AddersWoken(th')| == |AddersWoken(th)| + 1
    ensures AddersAsleep(th) == {} ==> AddersAsleep(th') == {}
  {
    if AddersAsleep(th) != {} {
      var t :| t in AddersAsleep(th) && th' == th[t := Woken(th[t])];
      Counts(th, t, Woken(th[t]));
      assert t !in AddersWoken(th) && t !in RemoversAsleep(th) && t !in RemoversWoken(th);
    }
  }

  // The queue after an event, as the abstract buffer has it.
  ghost predicate Follows(q: seq<T>, e: Event, q': seq<T>) {
    match e
    case Pushed(d) => q' == q + [d]
    case Popped(v) => q != [] && v == q[0] && q' == q[1..]
    case Turned => q' == Reversed(q)
    case Emptied(v) => v == q && q' == []
    case _ => q' == q
  }

  // ---------- What the callers are told ----------

  // An item that a thread wants to add, and whether its call may come back without having added it.
  datatype Wish = Wish(item: T, mayGiveUp: bool)

  ghost function Waits(p: Phase): Option<Wish> {
    match p
    case AddAsleep(d, timed) => Some(Wish(d, timed))
    case AddWoken(d, timed) => Some(Wish(d, timed))
    case _ => None
  }

  // What the acting thread wants to add: what it calls with, or what it has been waiting for.
  ghost function Wanted(s: State, t: nat, a: Action): Option<Wish>
    requires t in s.threads
  {
    match a
    case Add(d, timed) => Some(Wish(d, timed))
    case AddIfRoom(d) => Some(Wish(d, true))
    case _ => Waits(s.threads[t])
  }

  // A call ends without having added its item for want of room, or at a timeout.
  ghost predicate GivesUp(s: State, a: Action)
    requires Sound(s.ring)
  {
    (a.AddIfRoom? && |Items(s.ring)| >= s.ring.size) || a.AddTimesOut? || a.AddTimesOutWoken?
  }

  // The wish is granted with this very item, goes on waiting, or is given up where its call allows that.
  ghost predicate Granted(s: State, t: nat, a: Action, e: Event, s': State)
    requires Sound(s.ring) && t in s.threads && t in s'.threads
  {
    match Wanted(s, t, a)
    case None => !e.Pushed? && Waits(s'.threads[t]) == None && !GivesUp(s, a)
    case Some(w) =>
      if e.Pushed? then e.item == w.item && Waits(s'.threads[t]) == None && !GivesUp(s, a)
      else if GivesUp(s, a) then w.mayGiveUp && Waits(s'.threads[t]) == None
      else Waits(s'.threads[t]) == Some(w)
  }

  // Whether each kind of step adds or removes, in terms of the queue: an add whenever there is room, a removal
  // whenever there is an item, and each call for a removal ends at once or, if it may block, goes to sleep.
  ghost predicate Answered(s: State, t: nat, a: Action, e: Event, s': State)
    requires Sound(s.ring) && t in s'.threads
  {
    var room, p := |Items(s.ring)| < s.ring.size, s'.threads[t];
    match a
    case Add(_, _) => if room then e.Pushed? && p.Idle? else e.Quiet? && p.AddAsleep?
    case AddIfRoom(_) => if room then e.Pushed? && p.Idle? else e.Quiet? && p.Idle?
    case AddAgain => if room then e.Pushed? && p.Idle? else e.Quiet? && p.AddAsleep?
    case AddTimesOut => e.Quiet? && p.Idle?
    case AddTimesOutWoken => e.SignalLost? && p.Idle?
    case Remove => if Items(s.ring) != [] then e.Popped? && p.Idle? else e.Quiet? && p.Idle?
    case RemoveOrBlock => if Items(s.ring) != [] then e.Popped? && p.Idle? else e.Quiet? && p.RemoveAsleep?
    case RemoveAgain => if Items(s.ring) != [] then e.Popped? && p.Idle? else e.Quiet? && p.Idle?
    case Reverse => e.Turned? && p.Idle?
    case Clear => e.Emptied? && p.Idle?
    case WakeUnsignalled => e.Quiet? && (p.AddWoken? || p.RemoveWoken?)
  }

  // The other threads that a step wakes.
  ghost function Others(s: State, t: nat, s': State): set<nat> {
    set u | u in s.threads && u in s'.threads && u != t && s'.threads[u] != s.threads[u]
  }

  // An add wakes one sleeping remover if there is one, a removal one sleeping adder, and no other step wakes anybody.
  ghost predicate WakesOne(s: State, t: nat, e: Event, s': State) {
    var sleepers := if e.Pushed? then RemoversAsleep(s.threads) else if e.Popped? then AddersAsleep(s.threads) else {};
    Others(s, t, s') <= sleepers && |Others(s, t, s')| == if sleepers == {} then 0 else 1
  }

  // What a step does for the thread that takes it, and to the others.
  ghost predicate Honours(s: State, t: nat, a: Action, e: Event, s': State)
    requires Sound(s.ring)
  {
    && s'.threads.Keys == s.threads.Keys && t in s.threads
    && Granted(s, t, a, e, s') && Answered(s, t, a, e, s')
    && WakesOne(s, t, e, s')
    && forall u :: u in s.threads && u != t ==>
         && Waits(s'.threads[u]) == Waits(s.threads[u])
         && s'.threads[u] in {s.threads[u], Woken(s.threads[u])}
  }

  lemma SignalWakes(th: Threads, th': Threads)
    requires SignalRemover(th, th') || SignalAdder(th, th')
    ensures th'.Keys == th.Keys
    ensures forall u :: u in th ==>
      Waits(th'[u]) == Waits(th[u]) && th'[u] in {th[u], Woken(th[u])}
  {
  }

  // A signal changes one sleeping thread, if there is one.
  lemma SignalsOne(s: State, t: nat, e: Event, s': State)
    requires t in s.threads && !s.threads[t].AddAsleep? && !s.threads[t].RemoveAsleep?
    requires (e.Pushed? && SignalRemover(s.threads[t := Idle], s'.threads))
          || (e.Popped? && SignalAdder(s.threads[t := Idle], s'.threads))
    ensures WakesOne(s, t, e, s')
  {
    var th, th' := s.threads[t := Idle], s'.threads;
    Counts(s.threads, t, Idle);
    assert RemoversAsleep(th) == RemoversAsleep(s.threads) && AddersAsleep(th) == AddersAsleep(s.threads);
    if th' == th {
      assert Others(s, t, s') == {};
    } else {
      var u :| u in th && th[u] != Woken(th[u]) && th' == th[u := Woken(th[u])]
        && u in if e.Pushed? then RemoversAsleep(th) else AddersAsleep(th);
      assert Others(s, t, s') == {u};
    }
  }

  lemma StepHonours(s: State, t: nat, a: Action, e: Event, s': State)
    requires Sound(s.ring) && Step(s, t, a, e, s')
    ensures Honours(s, t, a, e, s')
  {
    hide Step, Granted, Answered, WakesOne, Sound, Items, Waits;
    StepThreads(s, t, a, e, s');
    StepAnswers(s, t, a, e, s');
  }

  lemma StepAnswers(s: State, t: nat, a: Action, e: Event, s': State)
    requires Sound(s.ring) && Step(s, t, a, e, s')
    ensures t in s.threads && t in s'.threads && Granted(s, t, a, e, s') && Answered(s, t, a, e, s')
  {
    var th := s.threads[t := Idle];
    if SignalRemover(th, s'.threads) || SignalAdder(th, s'.threads) {
      SignalWakes(th, s'.threads);
    }
  }

  lemma StepThreads(s: State, t: nat, a: Action, e: Event, s': State)
    requires Sound(s.ring) && Step(s, t, a, e, s')
    ensures s'.threads.Keys == s.threads.Keys && WakesOne(s, t, e, s')
    ensures forall u :: u in s.threads && u != t ==>
      Waits(s'.threads[u]) == Waits(s.threads[u]) && s'.threads[u] in {s.threads[u], Woken(s.threads[u])}
  {
    var th := s.threads[t := Idle];
    if SignalRemover(th, s'.threads) || SignalAdder(th, s'.threads) {
      SignalWakes(th, s'.threads);
    }
    if e.Pushed? || e.Popped? {
      SignalsOne(s, t, e, s');
    } else {
      assert Others(s, t, s') == {};
    }
  }

  // What a step from s to s' keeps, with the exact condition for the adders.
  ghost predicate Kept(s: State, e: Event, s': State) {
    && Sound(s.ring) && Sound(s'.ring) && s'.ring.size == s.ring.size
    && Follows(Items(s.ring), e, Items(s'.ring))
    && (RemoversCovered(s) ==> RemoversCovered(s'))
    && (AddersCovered(s) ==> (AddersCovered(s') <==> Harmless(s, e)))
  }

  lemma AddsKeeps(s: State, t: nat, d: T, e: Event, s': State)
    requires Sound(s.ring) && s.ring.cnt >= 1 && t in s.threads && Adds(s, t, d, e, s')
    requires s.threads[t].Idle? || s.threads[t].AddWoken?
    ensures Kept(s, e, s')
  {
    hide AddersAsleep, AddersWoken, RemoversAsleep, RemoversWoken, Items;
    PutItems(s.ring, d);
    Leaves(s.threads, t);
    RemoverSignalled(s.threads[t := Idle], s'.threads);
  }

  lemma RemovesKeeps(s: State, t: nat, ring': Ring, e: Event, s': State)
    requires Sound(s.ring) && Remain(s.ring) > 0 && t in s.threads && Removes(s, t, ring', e, s')
    requires s.threads[t].Idle? || s.threads[t].RemoveWoken?
    requires ring' == TakeAndReset(s.ring) || ring' == TakeAfterWait(s.ring)
    ensures Kept(s, e, s')
  {
    hide AddersAsleep, AddersWoken, RemoversAsleep, RemoversWoken, Items;
    TakeItems(s.ring);
    Leaves(s.threads, t);
    AdderSignalled(s.threads[t := Idle], s'.threads);
  }

  // A thread that goes to sleep does so because there is nothing for it.
  lemma GoesKeeps(s: State, t: nat, p: Phase, e: Event, s': State)
    requires Sound(s.ring) && t in s.threads && Goes(s, t, p, e, s')
    requires s.threads[t].AddWoken? ==> s.ring.cnt < 1
    requires s.threads[t].RemoveWoken? ==> Remain(s.ring) <= 0
    requires p.AddAsleep? ==> s.ring.cnt < 1
    requires p.RemoveAsleep? ==> Remain(s.ring) <= 0
    ensures Kept(s, e, s')
  {
    hide AddersAsleep, AddersWoken, RemoversAsleep, RemoversWoken, Items;
    Counts(s.threads, t, p);
    GoesCounts(s.threads, t, p);
  }

  lemma GoesCounts(th: Threads, t: nat, p: Phase)
    requires t in th
    ensures !th[t].AddWoken? ==> |AddersWoken(th[t := p])| >= |AddersWoken(th)|
    ensures !th[t].RemoveWoken? ==> |RemoversWoken(th[t := p])| >= |RemoversWoken(th)|
  {
    Counts(th, t, p);
    if !th[t].AddWoken? {
      WithOrWithout(AddersWoken(th), t);
    }
    if !th[t].RemoveWoken? {
      WithOrWithout(RemoversWoken(th), t);
    }
  }

  lemma WithOrWithout(s: set<nat>, t: nat)
    requires t !in s
    ensures s - {t} == s && |s + {t}| >= |s|
  {
  }

  // After a clear the sleeping adders are covered exactly if it was harmless, whatever was before.
  lemma ClearExactly(s: State)
    requires Sound(s.ring)
    ensures var s' := s.(ring := Cleared(s.ring)); var e := Emptied(Items(s.ring));
      && Kept(s, e, s') && RemoversCovered(s') && (AddersCovered(s') <==> Harmless(s, e))
  {
    SoundEmpty(s.ring.size, s.ring.data);
  }

  // The same for a woken adder that gives up.
  lemma LostSignalExactly(s: State, t: nat)
    requires Sound(s.ring) && t in s.threads && s.threads[t].AddWoken?
    ensures var s' := s.(threads := s.threads[t := Idle]);
      && Kept(s, SignalLost, s') && (AddersCovered(s') <==> Harmless(s, SignalLost))
  {
    Counts(s.threads, t, Idle);
    Leaves(s.threads, t);
    assert AddersAsleep(s.threads) - {t} == AddersAsleep(s.threads);
    assert RemoversAsleep(s.threads) - {t} == RemoversAsleep(s.threads);
    hide AddersAsleep, AddersWoken, RemoversAsleep, RemoversWoken, Items;
  }

  // Every step is a step of the abstract queue, keeps the removers covered, and keeps the adders covered
  // exactly if it is harmless.
  lemma StepKeeps(s: State, t: nat, a: Action, e: Event, s': State)
    requires Sound(s.ring) && Step(s, t, a, e, s')
    ensures Kept(s, e, s') && Honours(s, t, a, e, s')
  {
    hide Kept, Honours;
    StepHonours(s, t, a, e, s');
    match a
    case Add(d, timed) =>
      if s.ring.cnt >= 1 { AddsKeeps(s, t, d, e, s'); } else { GoesKeeps(s, t, AddAsleep(d, timed), e, s'); }
    case AddIfRoom(d) =>
      if s.ring.cnt >= 1 { AddsKeeps(s, t, d, e, s'); } else { GoesKeeps(s, t, Idle, e, s'); }
    case AddAgain =>
      var d := s.threads[t].item;
      if s.ring.cnt >= 1 {
        AddsKeeps(s, t, d, e, s');
      } else {
        GoesKeeps(s, t, AddAsleep(d, s.threads[t].timed), e, s');
      }
    case AddTimesOut =>
      GoesKeeps(s, t, Idle, e, s');
    case AddTimesOutWoken =>
      LostSignalExactly(s, t);
    case Remove =>
      if Remain(s.ring) > 0 {
        RemovesKeeps(s, t, TakeAndReset(s.ring), e, s');
      } else {
        GoesKeeps(s, t, Idle, e, s');
      }
    case RemoveOrBlock =>
      if Remain(s.ring) > 0 {
        RemovesKeeps(s, t, TakeAndReset(s.ring), e, s');
      } else {
        GoesKeeps(s, t, RemoveAsleep, e, s');
      }
    case RemoveAgain =>
      if Remain(s.ring) > 0 {
        RemovesKeeps(s, t, TakeAfterWait(s.ring), e, s');
      } else {
        GoesKeeps(s, t, Idle, e, s');
      }
    case Reverse =>
      ReverseKeeps(s);
    case Clear =>
      ClearExactly(s);
    case WakeUnsignalled =>
      GoesKeeps(s, t, Woken(s.threads[t]), e, s');
  }

  lemma ReverseKeeps(s: State)
    requires Sound(s.ring)
    ensures Kept(s, Turned, s.(ring := Flip(s.ring)))
  {
    FlipItems(s.ring);
  }

  // What a thread that holds the lock can test before a clear: with more free places than woken adders, and
  // in particular with as many as there are threads that add at all, nobody sleeps and a clear is harmless.
  lemma ClearTest(s: State, adding: nat)
    requires Sound(s.ring) && AddersCovered(s)
    requires s.ring.cnt > |AddersWoken(s.threads)|
      || |AddersAsleep(s.threads) + AddersWoken(s.threads)| <= adding <= s.ring.cnt
    ensures AddersAsleep(s.threads) == {} && Harmless(s, Emptied(Items(s.ring)))
  {
    var asleep, woken := AddersAsleep(s.threads), AddersWoken(s.threads);
    assert |asleep + woken| == |asleep| + |woken| by {
      assert asleep !! woken;
    }
  }

  // ---------- Whole runs ----------

  ghost predicate Moves(s: State, e: Event, s': State) {
    Sound(s.ring) && exists t, a :: Step(s, t, a, e, s')
  }

  // States with the event of each step between them.
  ghost predicate Path(ss: seq<State>, es: seq<Event>) {
    |ss| == |es| + 1 && forall i :: 0 <= i < |es| ==> Moves(ss[i], es[i], ss[i + 1])
  }

  ghost predicate Run(ss: seq<State>, es: seq<Event>) { Path(ss, es) && Init(ss[0]) }

  // The abstract queue after a list of events, and whether each event found the queue it reports.
  ghost function Replay(es: seq<Event>): (r: (seq<T>, bool)) {
    if es == [] then ([], true)
    else
      var (q, ok) := Replay(es[..|es| - 1]);
      match es[|es| - 1]
      case Pushed(d) => (q + [d], ok)
      case Popped(v) => if q != [] && q[0] == v then (q[1..], ok) else (q, false)
      case Turned => (Reversed(q), ok)
      case Emptied(v) => ([], ok && v == q)
      case _ => (q, ok)
  }

  ghost function PushedBy(e: Event): multiset<T> { if e.Pushed? then multiset{e.item} else multiset{} }

  // What an event takes out of the buffer: the item removed, or all those cleared away.
  ghost function TakenBy(e: Event): multiset<T> {
    if e.Popped? then multiset{e.item} else if e.Emptied? then multiset(e.items) else multiset{}
  }

  ghost function PushedItems(es: seq<Event>): multiset<T> {
    if es == [] then multiset{} else PushedItems(es[..|es| - 1]) + PushedBy(es[|es| - 1])
  }

  ghost function TakenItems(es: seq<Event>): multiset<T> {
    if es == [] then multiset{} else TakenItems(es[..|es| - 1]) + TakenBy(es[|es| - 1])
  }

  lemma {:induction false} ReversedMultiset(s: seq<T>)
    ensures multiset(Reversed(s)) == multiset(s)
  {
    if s != [] {
      ReversedMultiset(s[1..]);
      assert s == [s[0]] + s[1..];
    }
  }

  lemma InitKeeps(s: State)
    requires Init(s)
    ensures Sound(s.ring) && Items(s.ring) == [] && AddersCovered(s) && RemoversCovered(s)
  {
    SoundEmpty(s.ring.size, s.ring.data);
    assert AddersAsleep(s.threads) == {} && RemoversAsleep(s.threads) == {};
  }

  lemma MoveKeeps(s: State, e: Event, s': State)
    requires Moves(s, e, s')
    ensures Kept(s, e, s')
  {
    var t, a :| Step(s, t, a, e, s');
    StepKeeps(s, t, a, e, s');
  }

  // Nothing is lost or duplicated by one event.
  lemma Conserves(q: seq<T>, e: Event, q': seq<T>, pushed: multiset<T>, taken: multiset<T>)
    requires Follows(q, e, q') && pushed == taken + multiset(q)
    ensures pushed + PushedBy(e) == taken + TakenBy(e) + multiset(q')
  {
    hide Follows, PushedBy, TakenBy;
    EventConserves(q, e, q');
    assert pushed + PushedBy(e) == taken + (multiset(q) + PushedBy(e));
  }

  lemma EventConserves(q: seq<T>, e: Event, q': seq<T>)
    requires Follows(q, e, q')
    ensures multiset(q) + PushedBy(e) == TakenBy(e) + multiset(q')
  {
    hide Reversed;
    match e
    case Pushed(d) =>
    case Popped(v) => HeadTaken(q);
    case Turned => ReversedMultiset(q);
    case Emptied(v) =>
    case _ =>
  }

  lemma HeadTaken(q: seq<T>)
    requires q != []
    ensures multiset(q) == multiset{q[0]} + multiset(q[1..])
  {
    assert q == [q[0]] + q[1..];
  }

  // In every run the buffer behaves like the abstract queue: each removal takes the head, what was added is
  // what was removed or cleared away together with what is still there, and no sleeping remover is left alone
  // with an item.
  lemma {:induction false} RunRefines(ss: seq<State>, es: seq<Event>)
    requires Run(ss, es)
    ensures Sound(ss[|es|].ring) && Replay(es) == (Items(ss[|es|].ring), true)
    ensures PushedItems(es) == TakenItems(es) + multiset(Items(ss[|es|].ring))
    ensures RemoversCovered(ss[|es|])
    decreases |es|
  {
    hide Init, Moves, Items, Harmless, AddersCovered, RemoversCovered;
    if es == [] {
      InitKeeps(ss[0]);
    } else {
      var m := |es| - 1;
      RunRefines(ss[..m + 1], es[..m]);
      MoveKeeps(ss[m], es[m], ss[m + 1]);
      Conserves(Items(ss[m].ring), es[m], Items(ss[m + 1].ring), PushedItems(es[..m]), TakenItems(es[..m]));
    }
  }

  // ---------- What was asked for ----------

  datatype Call = Call(thread: nat, action: Action)

  // The steps of a path, with the thread that takes each and what it does.
  ghost predicate Called(ss: seq<State>, calls: seq<Call>, es: seq<Event>) {
    && |ss| == |es| + 1 == |calls| + 1
    && forall i :: 0 <= i < |es| ==>
         Sound(ss[i].ring) && Step(ss[i], calls[i].thread, calls[i].action, es[i], ss[i + 1])
  }

  lemma {:induction false} PathCalled(ss: seq<State>, es: seq<Event>) returns (calls: seq<Call>)
    requires Path(ss, es)
    ensures Called(ss, calls, es)
  {
    hide Step, Sound;
    if es == [] {
      calls := [];
    } else {
      var m := |es| - 1;
      calls := PathCalled(ss[..m + 1], es[..m]);
      assert Moves(ss[m], es[m], ss[m + 1]);
      var t, a :| Step(ss[m], t, a, es[m], ss[m + 1]);
      var last := Call(t, a);
      forall i | 0 <= i < |es| ensures Sound(ss[i].ring)
        && Step(ss[i], (calls + [last])[i].thread, (calls + [last])[i].action, es[i], ss[i + 1])
      {
        if i < m {
          assert ss[..m + 1][i] == ss[i] && ss[..m + 1][i + 1] == ss[i + 1] && es[..m][i] == es[i];
        }
      }
      calls := calls + [last];
    }
  }

  // The item a call brings along.
  ghost function AskedBy(a: Action): multiset<T> {
    match a
    case Add(d, _) => multiset{d}
    case AddIfRoom(d) => multiset{d}
    case _ => multiset{}
  }

  ghost function Asked(calls: seq<Call>): multiset<T> {
    if calls == [] then multiset{} else Asked(calls[..|calls| - 1]) + AskedBy(calls[|calls| - 1].action)
  }

  ghost function WishItem(w: Option<Wish>): multiset<T> { if w.Some? then multiset{w.value.item} else multiset{} }

  // What the call of a step gives up.
  ghost function GivenUpBy(s: State, c: Call): multiset<T> {
    if Sound(s.ring) && c.thread in s.threads && GivesUp(s, c.action) then
      WishItem(Wanted(s, c.thread, c.action))
    else multiset{}
  }

  ghost function GivenUp(ss: seq<State>, calls: seq<Call>, m: nat): multiset<T>
    requires m <= |calls| <= |ss|
  {
    if m == 0 then multiset{} else GivenUp(ss, calls, m - 1) + GivenUpBy(ss[m - 1], calls[m - 1])
  }

  ghost function WaitingOf(th: Threads, t: nat): multiset<T> { if t in th then WishItem(Waits(th[t])) else multiset{} }

  // The items with which the threads below n wait.
  ghost function Waiting(th: Threads, n: nat): multiset<T> {
    if n == 0 then multiset{} else Waiting(th, n - 1) + WaitingOf(th, n - 1)
  }

  lemma {:induction false} WaitingBut(th: Threads, th': Threads, t: nat, n: nat)
    requires forall u: nat :: u < n && u != t ==> WaitingOf(th', u) == WaitingOf(th, u)
    ensures if t < n then Waiting(th', n) + WaitingOf(th, t) == Waiting(th, n) + WaitingOf(th', t)
            else Waiting(th', n) == Waiting(th, n)
  {
    hide WaitingOf;
    if n > 0 {
      WaitingBut(th, th', t, n - 1);
      if t < n - 1 {
        Swapped(Waiting(th', n - 1), Waiting(th, n - 1), WaitingOf(th, t), WaitingOf(th', t), WaitingOf(th, n - 1));
      }
    }
  }

  lemma Swapped(a: multiset<T>, b: multiset<T>, x: multiset<T>, y: multiset<T>, z: multiset<T>)
    requires a + x == b + y
    ensures (a + z) + x == (b + z) + y
  {
    assert (a + z) + x == (a + x) + z;
  }

  // One step of the account.
  lemma StepAccount(s: State, c: Call, e: Event, s': State, n: nat)
    requires Sound(s.ring) && Step(s, c.thread, c.action, e, s') && c.thread < n
    ensures Waiting(s.threads, n) + AskedBy(c.action) == Waiting(s'.threads, n) + PushedBy(e) + GivenUpBy(s, c)
  {
    hide Step, Sound, Waiting, Items, Answered;
    StepHonours(s, c.thread, c.action, e, s');
    WaitingBut(s.threads, s'.threads, c.thread, n) by {
      SameThreads(s, c, e, s');
    }
    AskedOrWaiting(s, c.thread, c.action, e, s');
    Granting(s, c, e, s');
    Settled(Waiting(s.threads, n), Waiting(s'.threads, n), WaitingOf(s.threads, c.thread),
            WaitingOf(s'.threads, c.thread), AskedBy(c.action), PushedBy(e) + GivenUpBy(s, c));
  }

  // What the acting thread wants is added, given up, or what it waits for afterwards.
  lemma Granting(s: State, c: Call, e: Event, s': State)
    requires Sound(s.ring) && c.thread in s.threads && c.thread in s'.threads
    requires Granted(s, c.thread, c.action, e, s')
    ensures WishItem(Wanted(s, c.thread, c.action)) ==
      WaitingOf(s'.threads, c.thread) + (PushedBy(e) + GivenUpBy(s, c))
  {
    hide Sound, Items, GivesUp;
  }

  lemma Settled(w: multiset<T>, w': multiset<T>, x: multiset<T>, x': multiset<T>, a: multiset<T>, p: multiset<T>)
    requires w' + x == w + x' && x + a == x' + p
    ensures w + a == w' + p
  {
    assert (w + x') + a == (w' + x) + a == w' + (x + a) == w' + (x' + p) == (w' + p) + x';
    assert (w + a) + x' == (w' + p) + x';
    assert ((w + a) + x') - x' == w + a && ((w' + p) + x') - x' == w' + p;
  }

  // A call that brings an item along is made by a thread that waits for nothing.
  lemma AskedOrWaiting(s: State, t: nat, a: Action, e: Event, s': State)
    requires Sound(s.ring) && Step(s, t, a, e, s')
    ensures t in s.threads && WishItem(Wanted(s, t, a)) == WishItem(Waits(s.threads[t])) + AskedBy(a)
  {
  }

  // In every run the items that callers have asked to add are those that were added, those that threads are
  // still waiting to add, and those given up for want of room or at a timeout: no more and no others.
  lemma RunAccount(ss: seq<State>, calls: seq<Call>, es: seq<Event>, n: nat)
    requires Called(ss, calls, es) && Init(ss[0]) && forall t :: t in ss[0].threads ==> t < n
    ensures Asked(calls) == PushedItems(es) + Waiting(ss[|es|].threads, n) + GivenUp(ss, calls, |calls|)
  {
    AccountAt(ss, calls, es, n, |es|);
    assert calls[..|es|] == calls && es[..|es|] == es;
  }

  lemma {:induction false} AccountAt(ss: seq<State>, calls: seq<Call>, es: seq<Event>, n: nat, m: nat)
    requires Called(ss, calls, es) && Init(ss[0]) && m <= |es| && forall t :: t in ss[0].threads ==> t < n
    ensures forall t :: t in ss[m].threads ==> t < n
    ensures Asked(calls[..m]) == PushedItems(es[..m]) + Waiting(ss[m].threads, n) + GivenUp(ss, calls, m)
  {
    hide Step, Sound, Init, Waiting, GivenUpBy, AskedBy, PushedBy;
    if m == 0 {
      NobodyWaits(ss[0], n);
    } else {
      AccountAt(ss, calls, es, n, m - 1);
      SameThreads(ss[m - 1], calls[m - 1], es[m - 1], ss[m]);
      StepAccount(ss[m - 1], calls[m - 1], es[m - 1], ss[m], n);
      assert calls[..m][..m - 1] == calls[..m - 1] && es[..m][..m - 1] == es[..m - 1];
      Summed(Asked(calls[..m - 1]), AskedBy(calls[m - 1].action), PushedItems(es[..m - 1]), PushedBy(es[m - 1]),
             Waiting(ss[m - 1].threads, n), Waiting(ss[m].threads, n), GivenUp(ss, calls, m - 1),
             GivenUpBy(ss[m - 1], calls[m - 1]));
    }
  }

  lemma Summed(a: multiset<T>, a': multiset<T>, p: multiset<T>, p': multiset<T>, w: multiset<T>, w': multiset<T>,
      g: multiset<T>, g': multiset<T>)
    requires a == p + w + g && w + a' == w' + p' + g'
    ensures a + a' == (p + p') + w' + (g + g')
  {
    assert a + a' == p + g + (w + a');
  }

  lemma SameThreads(s: State, c: Call, e: Event, s': State)
    requires Sound(s.ring) && Step(s, c.thread, c.action, e, s')
    ensures c.thread in s.threads && forall t :: t in s'.threads <==> t in s.threads
    ensures forall t: nat :: t != c.thread ==> WaitingOf(s'.threads, t) == WaitingOf(s.threads, t)
  {
    StepHonours(s, c.thread, c.action, e, s');
    assert forall t :: t in s'.threads <==> t in s'.threads.Keys;
  }

  lemma {:induction false} NobodyWaits(s: State, n: nat)
    requires Init(s)
    ensures Waiting(s.threads, n) == multiset{}
  {
    if n > 0 {
      NobodyWaits(s, n - 1);
    }
  }

  // The steps of a run that leave the adders alone.
  ghost predicate AllHarmless(ss: seq<State>, es: seq<Event>)
    requires |ss| == |es| + 1
  {
    forall i :: 0 <= i < |es| ==> Harmless(ss[i], es[i])
  }

  // From a state in which the adders are covered they stay so if and only if each step is harmless.
  lemma {:induction false} PathCovers(ss: seq<State>, es: seq<Event>)
    requires Path(ss, es) && AddersCovered(ss[0])
    ensures (forall i :: 0 <= i <= |es| ==> AddersCovered(ss[i])) <==> AllHarmless(ss, es)
    decreases |es|
  {
    hide Moves, Items, Harmless, AddersCovered, RemoversCovered;
    if es != [] {
      var m := |es| - 1;
      PathCovers(ss[..m + 1], es[..m]);
      MoveKeeps(ss[m], es[m], ss[m + 1]);
      assert (forall i :: 0 <= i <= m ==> AddersCovered(ss[i])) <==> AllHarmless(ss[..m + 1], es[..m]) by {
        assert forall i :: 0 <= i <= m ==> ss[..m + 1][i] == ss[i];
      }
      assert AllHarmless(ss[..m + 1], es[..m]) <==> forall i :: 0 <= i < m ==> Harmless(ss[i], es[i]) by {
        assert forall i :: 0 <= i < m ==> ss[..m + 1][i] == ss[i] && es[..m][i] == es[i];
      }
    }
  }

  // So in a run, which begins with nobody asleep.
  lemma RunCovers(ss: seq<State>, es: seq<Event>)
    requires Run(ss, es)
    ensures (forall i :: 0 <= i <= |es| ==> AddersCovered(ss[i])) <==> AllHarmless(ss, es)
  {
    hide AddersCovered, AllHarmless, Moves;
    InitKeeps(ss[0]);
    PathCovers(ss, es);
  }

  // An adder asleep beside a free place, and none on its way there.
  ghost predicate Stranded(s: State) {
    AddersAsleep(s.threads) != {} && s.ring.cnt > 0 && AddersWoken(s.threads) == {}
  }

  // A woken adder of an uncovered state that takes its place leaves the others uncovered.
  lemma OneFewer(s: State) returns (e: Event, s': State)
    requires Sound(s.ring) && !AddersCovered(s) && AddersWoken(s.threads) != {}
    ensures Moves(s, e, s') && e.Pushed? && Sound(s'.ring) && !AddersCovered(s')
    ensures |AddersWoken(s'.threads)| == |AddersWoken(s.threads)| - 1
  {
    hide AddersAsleep, AddersWoken, RemoversAsleep, RemoversWoken, SignalRemover, Sound;
    var t := SomeWoken(s.threads);
    var d, th := s.threads[t].item, s.threads[t := Idle];
    var th' := Signalled(th);
    WokenLeaves(s.threads, t);
    RemoverSignalled(th, th');
    PutItems(s.ring, d);
    e, s' := Pushed(d), State(Put(s.ring, d), th');
    assert Step(s, t, AddAgain, e, s');
  }

  lemma SomeWoken(th: Threads) returns (t: nat)
    requires AddersWoken(th) != {}
    ensures t in th && th[t].AddWoken? && |AddersWoken(th)| > 0
  {
    t :| t in AddersWoken(th);
    assert {t} <= AddersWoken(th);
  }

  lemma WokenLeaves(th: Threads, t: nat)
    requires t in th && th[t].AddWoken?
    ensures AddersAsleep(th[t := Idle]) == AddersAsleep(th)
    ensures |AddersWoken(th[t := Idle])| == |AddersWoken(th)| - 1
  {
    Counts(th, t, Idle);
    Leaves(th, t);
    assert AddersAsleep(th) - {t} == AddersAsleep(th);
  }

  lemma Signalled(th: Threads) returns (th': Threads)
    ensures SignalRemover(th, th')
  {
    if RemoversAsleep(th) == {} {
      th' := th;
    } else {
      var t :| t in RemoversAsleep(th);
      th' := th[t := Woken(th[t])];
    }
  }

  // Where the adders are not covered, one of them is stranded once the woken ones have taken their places.
  lemma {:induction false} UncoveredStrands(s: State) returns (ss: seq<State>, es: seq<Event>)
    requires Sound(s.ring) && !AddersCovered(s)
    ensures Path(ss, es) && ss[0] == s && |es| == |AddersWoken(s.threads)|
    ensures (forall e :: e in es ==> e.Pushed?) && Stranded(ss[|es|])
    decreases |AddersWoken(s.threads)|
  {
    hide Moves, Sound, AddersAsleep, AddersWoken;
    if AddersWoken(s.threads) == {} {
      ss, es := [s], [];
    } else {
      hide AddersCovered, Stranded;
      var e, s' := OneFewer(s);
      var ss', es' := UncoveredStrands(s');
      PathLonger(s, e, ss', es');
      ss, es := [s] + ss', [e] + es';
    }
  }

  lemma PathLonger(s: State, e: Event, ss: seq<State>, es: seq<Event>)
    requires Path(ss, es) && Moves(s, e, ss[0])
    ensures Path([s] + ss, [e] + es)
  {
    hide Moves;
    var ss', es' := [s] + ss, [e] + es;
    forall i | 0 <= i < |es'| ensures Moves(ss'[i], es'[i], ss'[i + 1]) {
      if i > 0 {
        assert ss'[i] == ss[i - 1] && es'[i] == es[i - 1] && ss'[i + 1] == ss[i];
      }
    }
  }

  // No remover is ever stranded, and no adder in a run of harmless steps: whoever sleeps while there is
  // something for it has somebody on the way.
  lemma NobodyStranded(ss: seq<State>, es: seq<Event>)
    requires Run(ss, es)
    ensures var s := ss[|es|];
      && (RemoversAsleep(s.threads) != {} && Remain(s.ring) > 0 ==> RemoversWoken(s.threads) != {})
      && (AllHarmless(ss, es) ==> !Stranded(s))
  {
    RunRefines(ss, es);
    RunCovers(ss, es);
  }

  // With a place in the buffer, adders and removers never sleep at the same time with nobody woken.
  lemma NoDeadlock(ss: seq<State>, es: seq<Event>)
    requires Run(ss, es) && AllHarmless(ss, es)
    ensures var s := ss[|es|];
      s.ring.size > 0 && AddersAsleep(s.threads) != {} && RemoversAsleep(s.threads) != {} ==>
        AddersWoken(s.threads) != {} || RemoversWoken(s.threads) != {}
  {
    RunRefines(ss, es);
    NobodyStranded(ss, es);
  }

  // ---------- Runs with a harmful step ----------

  // Adders and removers asleep with nobody on the way.
  ghost predicate Stuck(s: State) {
    && AddersAsleep(s.threads) != {} && RemoversAsleep(s.threads) != {}
    && AddersWoken(s.threads) == {} && RemoversWoken(s.threads) == {}
  }

  // A clear under a sleeping adder: the adder is not told of the free places, and when a remover goes to sleep
  // on the empty buffer, nobody is left to go on.
  lemma ClearStrands() returns (ss: seq<State>, es: seq<Event>)
    ensures Run(ss, es) && es == [Pushed(5), Quiet, Emptied([5]), Quiet]
    ensures AddersCovered(ss[2]) && !Harmless(ss[2], es[2]) && !AddersCovered(ss[3])
    ensures Stuck(ss[4]) && ss[4].ring.cnt == ss[4].ring.size == 1
  {
    var r, th := Ring(1, 1, -1, 0, false, [0]), map[0 := Idle, 1 := Idle];
    SoundEmpty(1, [0]);
    PutItems(r, 5);
    assert Items(r) == [] && Items(Put(r, 5)) == [5];
    var s0, s1 := State(r, th), State(Put(r, 5), th);
    var s2 := State(s1.ring, th[1 := AddAsleep(6, false)]);
    assert Init(s0);
    assert th[0 := Idle] == th && RemoversAsleep(th) == {};
    assert Step(s0, 0, Add(5, false), Pushed(5), s1);
    assert Step(s1, 1, Add(6, false), Quiet, s2);
    assert s2.threads == map[0 := Idle, 1 := AddAsleep(6, false)];
    var s3, s4 := ClearedUnderSleeper(s2);
    hide Moves, Stuck, Harmless, AddersCovered;
    ss, es := [s0, s1, s2, s3, s4], [Pushed(5), Quiet, Emptied([5]), Quiet];
  }

  // The clear, and the remover that goes to sleep on the empty buffer.
  lemma ClearedUnderSleeper(s2: State) returns (s3: State, s4: State)
    requires s2.threads == map[0 := Idle, 1 := AddAsleep(6, false)]
    requires Sound(s2.ring) && s2.ring.size == 1 && s2.ring.cnt == 0 && Items(s2.ring) == [5]
    ensures Moves(s2, Emptied([5]), s3) && Moves(s3, Quiet, s4)
    ensures AddersCovered(s2) && !Harmless(s2, Emptied([5])) && !AddersCovered(s3)
    ensures Stuck(s4) && s4.ring.cnt == s4.ring.size == 1
  {
    s3 := State(Cleared(s2.ring), s2.threads);
    s4 := State(s3.ring, s3.threads[0 := RemoveAsleep]);
    SoundEmpty(1, s3.ring.data);
    hide Sound, Items;
    assert Step(s2, 0, Clear, Emptied([5]), s3);
    assert Step(s3, 0, RemoveOrBlock, Quiet, s4);
    assert 1 in AddersAsleep(s2.threads) && AddersWoken(s2.threads) == {};
    assert 1 in AddersAsleep(s4.threads) && 0 in RemoversAsleep(s4.threads);
  }

  // Two adders sleep, one of them with a time limit; the place that falls free is signalled to that one just
  // as its time is up. The other sleeps on with room in the buffer, and again nobody is left to go on.
  lemma LostSignalStrands() returns (ss: seq<State>, es: seq<Event>)
    ensures Run(ss, es) && es == [Pushed(5), Quiet, Quiet, Popped(5), SignalLost, Quiet]
    ensures AddersCovered(ss[4]) && !Harmless(ss[4], es[4]) && !AddersCovered(ss[5])
    ensures Stuck(ss[6]) && ss[6].ring.cnt == ss[6].ring.size == 1
  {
    hide Moves, Stuck, Harmless, AddersCovered;
    var r, th := Ring(1, 1, -1, 0, false, [0]), map[0 := Idle, 1 := Idle, 2 := Idle];
    SoundEmpty(1, [0]);
    PutItems(r, 5);
    assert Items(r) == [] && Items(Put(r, 5)) == [5];
    var s0 := State(r, th);
    assert Init(s0);
    var s1, s2, s3 := FullWithSleepers(s0);
    var s4, s5, s6 := SignalWasted(s3);
    ss, es := [s0, s1, s2, s3, s4, s5, s6], [Pushed(5), Quiet, Quiet, Popped(5), SignalLost, Quiet];
  }

  // An add that fills the buffer, and two adders that find it full.
  lemma FullWithSleepers(s0: State) returns (s1: State, s2: State, s3: State)
    requires s0.threads == map[0 := Idle, 1 := Idle, 2 := Idle] && Sound(s0.ring) && s0.ring.cnt == 1
    requires Sound(Put(s0.ring, 5))
    ensures Moves(s0, Pushed(5), s1) && Moves(s1, Quiet, s2) && Moves(s2, Quiet, s3)
    ensures s3 == State(Put(s0.ring, 5), map[0 := Idle, 1 := AddAsleep(6, true), 2 := AddAsleep(7, false)])
  {
    var th := s0.threads;
    s1 := State(Put(s0.ring, 5), th);
    s2 := State(s1.ring, th[1 := AddAsleep(6, true)]);
    s3 := State(s1.ring, s2.threads[2 := AddAsleep(7, false)]);
    assert th[0 := Idle] == th && RemoversAsleep(th) == {};
    assert Step(s0, 0, Add(5, false), Pushed(5), s1);
    assert Step(s1, 1, Add(6, true), Quiet, s2);
    assert Step(s2, 2, Add(7, false), Quiet, s3);
    assert s3.threads == map[0 := Idle, 1 := AddAsleep(6, true), 2 := AddAsleep(7, false)];
  }

  // A removal whose signal goes to the adder that gives up, and a remover that finds the buffer empty.
  lemma SignalWasted(s3: State) returns (s4: State, s5: State, s6: State)
    requires s3.threads == map[0 := Idle, 1 := AddAsleep(6, true), 2 := AddAsleep(7, false)]
    requires Sound(s3.ring) && s3.ring.size == 1 && s3.ring.cnt == 0 && Items(s3.ring) == [5]
    ensures Moves(s3, Popped(5), s4) && Moves(s4, SignalLost, s5) && Moves(s5, Quiet, s6)
    ensures AddersCovered(s4) && !Harmless(s4, SignalLost) && !AddersCovered(s5)
    ensures Stuck(s6) && s6.ring.cnt == s6.ring.size == 1
  {
    TakeItems(s3.ring);
    var th := s3.threads;
    var th4 := th[1 := AddWoken(6, true)];
    s4 := State(TakeAndReset(s3.ring), th4);
    s5 := State(s4.ring, th4[1 := Idle]);
    s6 := State(s4.ring, s5.threads[0 := RemoveAsleep]);
    hide Sound, Items;
    assert th[0 := Idle] == th && 1 in AddersAsleep(th);
    assert Step(s3, 0, Remove, Popped(5), s4);
    assert Step(s4, 1, AddTimesOutWoken, SignalLost, s5);
    assert Step(s5, 0, RemoveOrBlock, Quiet, s6);
    assert AddersWoken(th4) == {1} && 2 in AddersAsleep(th4);
    assert AddersWoken(s5.threads) == {} && 2 in AddersAsleep(s5.threads);
    assert 2 in AddersAsleep(s6.threads) && 0 in RemoversAsleep(s6.threads);
  }
}
