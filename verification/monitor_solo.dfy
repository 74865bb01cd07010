/** A call that nobody interrupts, step by step, is the call of the class `RingPthread`; and runs
    of such calls reach the ends the other theorems speak of. */
module MonitorSolo {
  import opened Types
  import opened Ring
  import opened Monitor
  import opened MonitorSafety
  import opened MonitorFifo
  import opened MonitorRuns
  import opened MonitorEnds
  import PosixQueue

  function Sleeping(ts: seq<Thread>): set<nat> {
    set i: nat | 0 <= i < |ts| && ts[i].pc.Asleep?
  }

  function WokenUp(ts: seq<Thread>): set<nat> {
    set i: nat | 0 <= i < |ts| && ts[i].pc.Woken?
  }

  // ----- put -----

  /** Thread `t` runs the rest of its put, up to the return of `RingPthread::put`, and nobody else moves. */
  ghost predicate SoloPut(s: State, t: nat, run: seq<Action>)
    decreases |run|
  {
    t < |s.threads| &&
    if run == [] then s.threads[t].pc.PutCallback?
    else
      && run[0].Run? && run[0].t == t
      && InPut(s.threads[t].pc) && !s.threads[t].pc.PutCallback?
      && Sane(s) && Enabled(s, run[0]) && SoloPut(Next(s, run[0]), t, run[1..])
  }

  /** Equal but for the program point of thread `t`. */
  ghost predicate Elsewhere(ts: seq<Thread>, ts': seq<Thread>, t: nat) {
    && |ts'| == |ts| && t < |ts|
    && ts' == ts[t := ts[t].(pc := ts'[t].pc)]
  }

  /** The sleepers after the signal of thread `t`. */
  ghost predicate Signalled(ts: seq<Thread>, ts': seq<Thread>, t: nat) {
    exists wake: set<nat> :: SignalChoice(ts, wake) && Elsewhere(Rouse(ts, wake), ts', t)
  }

  /** How far the put of `item` that began in `s0` has come in `s`. */
  ghost predicate PutSoFar(s0: State, s: State, t: nat, item: Item)
    requires s0.ring.Valid() && s.ring.Valid()
  {
    var q, q' := s0.ring.Contents(), s.ring.Contents();
    && t < |s0.threads| == |s.threads| && InPut(s.threads[t].pc)
    && match s.threads[t].pc
       case PutLock(i) => i == item && q' == q && Elsewhere(s0.threads, s.threads, t)
       case PutCheck(i) => i == item && q' == q && Elsewhere(s0.threads, s.threads, t)
       case PutCopy(i, _) => i == item && q' == q && Elsewhere(s0.threads, s.threads, t)
       case PutSignal => q' == q + [item] && Elsewhere(s0.threads, s.threads, t)
       case _ => q' == q + [item] && Signalled(s0.threads, s.threads, t)
  }

  lemma SignalledNow(ts0: seq<Thread>, ts: seq<Thread>, t: nat, wake: set<nat>)
    requires Elsewhere(ts0, ts, t) && SignalChoice(ts, wake) && ts[t].pc.PutSignal? && ts0[t].pc.PutLock?
    ensures Signalled(ts0, Rouse(ts, wake)[t := ts[t].(pc := PutUnlock)], t)
  {
    forall i: nat ensures IsAsleep(ts0, i) <==> IsAsleep(ts, i) {}
    var ts' := Rouse(ts, wake)[t := ts[t].(pc := PutUnlock)];
    assert SignalChoice(ts0, wake);
    assert Elsewhere(Rouse(ts0, wake), ts', t);
  }

  lemma StaysSignalled(ts0: seq<Thread>, ts: seq<Thread>, t: nat)
    requires Signalled(ts0, ts, t)
    ensures Signalled(ts0, ts[t := ts[t].(pc := PutCallback)], t)
  {
    var wake: set<nat> :| SignalChoice(ts0, wake) && Elsewhere(Rouse(ts0, wake), ts, t);
    assert Elsewhere(Rouse(ts0, wake), ts[t := ts[t].(pc := PutCallback)], t);
  }

  lemma PutSoFarStep(s0: State, s: State, t: nat, item: Item, a: Action)
    requires Sane(s0) && Sane(s) && PutSoFar(s0, s, t, item)
    requires a.Run? && a.t == t && Enabled(s, a) && !s.threads[t].pc.PutCallback?
    requires s0.threads[t].pc.PutLock?
    ensures Next(s, a).aborted || (Next(s, a).ring.Valid() && PutSoFar(s0, Next(s, a), t, item))
  {
    assert LocalOk(s, t);
    if Publishes(s, a) {
      PublishEffect(s, a);
    } else {
      QuietEffect(s, a);
      if s.threads[t].pc.PutSignal? {
        SignalledNow(s0.threads, s.threads, t, a.wake);
      } else {
        PutMovesOnlyItself(s, t, a.wake);
        if s.threads[t].pc.PutUnlock? { StaysSignalled(s0.threads, s.threads, t); }
      }
    }
  }

  /** What the class says of the sleepers, from what the steps do to them. */
  lemma SignalledSets(ts0: seq<Thread>, ts: seq<Thread>, t: nat)
    requires Signalled(ts0, ts, t) && InPut(ts0[t].pc) && InPut(ts[t].pc)
    ensures Sleeping(ts) <= Sleeping(ts0)
    ensures WokenUp(ts) == WokenUp(ts0) + (Sleeping(ts0) - Sleeping(ts))
    ensures Sleeping(ts0) != {} ==> Sleeping(ts) != Sleeping(ts0)
  {
    var wake: set<nat> :| SignalChoice(ts0, wake) && Elsewhere(Rouse(ts0, wake), ts, t);
    forall i: nat | i < |ts|
      ensures ts[i].pc.Asleep? <==> ts0[i].pc.Asleep? && i !in wake
      ensures ts[i].pc.Woken? <==> ts0[i].pc.Woken? || (ts0[i].pc.Asleep? && i in wake)
    {
      assert i != t ==> ts[i] == Rouse(ts0, wake)[i];
    }
    if Sleeping(ts0) != {} {
      var i :| i in Sleeping(ts0);
      assert IsAsleep(ts0, i);
      var w :| w in wake;
      assert IsAsleep(ts0, w);
      assert w in Sleeping(ts0) && w !in Sleeping(ts);
    }
  }

  /** A put that hit its assertion never gets to return. */
  lemma AbortedStaysInPut(s: State, t: nat, a: Action)
    requires Sane(s) && a.Run? && a.t == t && Enabled(s, a) && InPut(s.threads[t].pc) && Next(s, a).aborted
    ensures Next(s, a).ring == s.ring && Next(s, a).threads == s.threads
  {
    assert LocalOk(s, t);
  }

  lemma {:induction false} SoloPutSoFar(s0: State, s: State, t: nat, item: Item, run: seq<Action>)
    requires Inv(s0) && Inv(s) && SoloPut(s, t, run) && PutSoFar(s0, s, t, item) && s0.threads[t].pc.PutLock?
    ensures IsRun(s, run) && Inv(After(s, run))
    ensures PutSoFar(s0, After(s, run), t, item) && After(s, run).threads[t].pc.PutCallback?
    decreases |run|
  {
    if run != [] {
      NextKeepsInv(s, run[0]);
      PutSoFarStep(s0, s, t, item, run[0]);
      if Next(s, run[0]).aborted { AbortedStaysInPut(s, t, run[0]); }
      SoloPutSoFar(s0, Next(s, run[0]), t, item, run[1..]);
    }
  }

  lemma NobodyElseHolds(s0: State, s: State, t: nat)
    requires MutexOk(s0) && MutexOk(s) && s0.owner == None
    requires Signalled(s0.threads, s.threads, t) && !Holds(s.threads[t].pc)
    ensures s.owner == None
  {
    var wake: set<nat> :| SignalChoice(s0.threads, wake) && Elsewhere(Rouse(s0.threads, wake), s.threads, t);
    forall i: nat | i < |s.threads|
      ensures !Holds(s.threads[i].pc)
    {
      assert i != t ==> s.threads[i] == Rouse(s0.threads, wake)[i] && !Holds(s0.threads[i].pc);
    }
  }

  lemma PutBegins(s: State, t: nat, item: Item)
    requires Inv(s) && !s.aborted && t < |s.threads| && s.threads[t].pc.User? && |item| == s.ring.itemSize
    ensures var s' := Next(s, Begin(t, Put(item)));
            && Inv(s') && !s'.aborted && s'.owner == s.owner && s'.ring == s.ring
            && t < |s'.threads| && s'.threads[t].pc == PutLock(item)
            && Sleeping(s'.threads) == Sleeping(s.threads) && WokenUp(s'.threads) == WokenUp(s.threads)
  {
    NextKeepsInv(s, Begin(t, Put(item)));
  }

  lemma SoloPutFromLock(s: State, t: nat, run: seq<Action>)
    requires Inv(s) && SoloPut(s, t, run) && s.threads[t].pc.PutLock?
    ensures IsRun(s, run)
    ensures var s' := After(s, run);
            && Inv(s') && s'.owner == None && t < |s'.threads| && s'.threads[t].pc.PutCallback?
            && PosixQueue.PutOutcome(s.ring.Contents(), Sleeping(s.threads), WokenUp(s.threads), s.threads[t].pc.item,
                                     s'.ring.Contents(), Sleeping(s'.threads), WokenUp(s'.threads))
  {
    SoloPutSoFar(s, s, t, s.threads[t].pc.item, run);
    SignalledSets(s.threads, After(s, run).threads, t);
    NobodyElseHolds(s, After(s, run), t);
  }

  /** An uninterrupted put, from its call on, does what `RingPthread.Put` promises of the caller's item: it is
      appended, a sleeper is woken if there is one, the mutex is free. */
  lemma SoloPutIsPut(s0: State, t: nat, item: Item, run: seq<Action>)
    requires Inv(s0) && !s0.aborted && t < |s0.threads| && s0.threads[t].pc.User? && |item| == s0.ring.itemSize
    requires SoloPut(Next(s0, Begin(t, Put(item))), t, run)
    ensures IsRun(s0, [Begin(t, Put(item))] + run)
    ensures var s := After(s0, [Begin(t, Put(item))] + run);
            && Inv(s) && s.owner == None && t < |s.threads| && s.threads[t].pc.PutCallback?
            && PosixQueue.PutOutcome(s0.ring.Contents(), Sleeping(s0.threads), WokenUp(s0.threads), item,
                                     s.ring.Contents(), Sleeping(s.threads), WokenUp(s.threads))
  {
    PutBegins(s0, t, item);
    SoloPutFromLock(Next(s0, Begin(t, Put(item))), t, run);
    RunCons(s0, Begin(t, Put(item)), run);
  }

  lemma PutProceeds(s: State, t: nat, wake: set<nat>)
    requires Sane(s) && !s.aborted && t < |s.threads| && InPut(s.threads[t].pc) && !s.threads[t].pc.PutCallback?
    requires s.threads[t].pc.PutLock? ==> s.owner == None
    requires s.threads[t].pc.PutLock? || s.threads[t].pc.PutCheck? ==> !s.ring.Full()
    requires SignalChoice(s.threads, wake)
    ensures Enabled(s, Run(t, wake))
    ensures var s' := Next(s, Run(t, wake));
            && !s'.aborted && t < |s'.threads| && InPut(s'.threads[t].pc) && !s'.threads[t].pc.PutLock?
            && (s'.threads[t].pc.PutCheck? ==> s'.ring == s.ring)
            && s'.ring.itemSize == s.ring.itemSize
  {
    assert LocalOk(s, t);
  }

  /** An uninterrupted put can be run to its return, if the mutex is free and the ring is not full. */
  lemma {:induction false} SoloPutExists(s: State, t: nat) returns (run: seq<Action>)
    requires Inv(s) && !s.aborted && t < |s.threads| && InPut(s.threads[t].pc)
    requires s.threads[t].pc.PutLock? ==> s.owner == None
    requires s.threads[t].pc.PutLock? || s.threads[t].pc.PutCheck? ==> !s.ring.Full()
    ensures SoloPut(s, t, run)
    decreases Rank(s.threads[t], s.ring.itemSize, 0)
  {
    run := [];
    if !s.threads[t].pc.PutCallback? {
      var wake := SomeChoice(s.threads);
      var a := Run(t, wake);
      PutProceeds(s, t, wake);
      NextKeepsInv(s, a);
      PutRankDrops(s, t, wake, 0);
      var rest := SoloPutExists(Next(s, a), t);
      run := [a] + rest;
      assert run[1..] == rest;
    }
  }

  // ----- get -----

  /** Thread `t` runs the rest of its get, until it returns or goes to sleep, and nobody else moves. */
  ghost predicate SoloGet(s: State, t: nat, run: seq<Action>)
    decreases |run|
  {
    t < |s.threads| &&
    if run == [] then s.threads[t].pc.User? || s.threads[t].pc.Asleep?
    else
      && run[0].Run? && run[0].t == t
      && InGet(s.threads[t].pc) && !s.threads[t].pc.Asleep?
      && Sane(s) && Enabled(s, run[0]) && SoloGet(Next(s, run[0]), t, run[1..])
  }

  /** Only the program point, the items returned and the failures of thread `t` differ. */
  ghost predicate OnlyReturns(ts: seq<Thread>, ts': seq<Thread>, t: nat) {
    && |ts'| == |ts| && t < |ts|
    && ts' == ts[t := ts[t].(pc := ts'[t].pc, got := ts'[t].got, misses := ts'[t].misses)]
  }

  /** The queue after thread `t` handed over `item`, or nothing. */
  ghost predicate Taken(q: seq<Item>, item: Option<Item>, tmo: nat, q': seq<Item>) {
    match item
    case None => q == [] && q' == [] && tmo == 0
    case Some(i) => q == [i] + q'
  }

  /** How far the get that began in `s0` with waiting time `tmo` has come in `s`. */
  ghost predicate GetSoFar(s0: State, s: State, t: nat, tmo: nat)
    requires s0.ring.Valid() && s.ring.Valid()
  {
    var q, q' := s0.ring.Contents(), s.ring.Contents();
    && OnlyReturns(s0.threads, s.threads, t)
    && var th0, th := s0.threads[t], s.threads[t];
    && (!th.pc.User? ==> InGet(th.pc) && th.pc.tmo == tmo && th.got == th0.got && th.misses == th0.misses)
    && if th.pc.User? then
         (th.got == th0.got && th.misses == th0.misses + 1 && Taken(q, None, tmo, q')) ||
         (th.misses == th0.misses && |th.got| == |th0.got| + 1 && th0.got <= th.got && Taken(q, Some(th.got[|th0.got|]), tmo, q'))
       else if th.pc.GetUnlock? then Taken(q, th.pc.result, tmo, q')
       else q' == q && (th.pc.Asleep? ==> q == [])
  }

  lemma GetSoFarReturns(s0: State, s: State, t: nat, tmo: nat)
    requires Sane(s0) && Sane(s) && GetSoFar(s0, s, t, tmo) && s.threads[t].pc.GetUnlock?
    ensures StepGet(s, t).ring.Valid() && GetSoFar(s0, StepGet(s, t), t, tmo)
  {
    GetMovesOnlyItself(s, t);
    if s.threads[t].pc.result.Some? {
      assert StepGet(s, t).threads[t].got == s0.threads[t].got + [s.threads[t].pc.result.value];
    }
  }

  lemma GetSoFarTakes(s0: State, s: State, t: nat, tmo: nat, a: Action)
    requires Sane(s0) && Sane(s) && GetSoFar(s0, s, t, tmo)
    requires a.Run? && a.t == t && Enabled(s, a) && s.threads[t].pc.GetPop?
    ensures Next(s, a).ring.Valid() && GetSoFar(s0, Next(s, a), t, tmo)
  {
    TakeEffect(s, a);
    OnlyMoverChanges(s, a);
  }

  lemma GetSoFarLooks(s0: State, s: State, t: nat, tmo: nat)
    requires Sane(s0) && Sane(s) && GetSoFar(s0, s, t, tmo)
    requires InGet(s.threads[t].pc) && !s.threads[t].pc.Asleep? && !s.threads[t].pc.GetPop? && !s.threads[t].pc.GetUnlock?
    ensures StepGet(s, t).ring.Valid() && GetSoFar(s0, StepGet(s, t), t, tmo)
  {
    assert LocalOk(s, t);
    TestedContents(s, t);
    ObserversAgree(s.ring);
    GetMovesOnlyItself(s, t);
  }

  lemma {:induction false} SoloGetSoFar(s0: State, s: State, t: nat, tmo: nat, run: seq<Action>)
    requires Inv(s0) && Inv(s) && SoloGet(s, t, run) && GetSoFar(s0, s, t, tmo)
    ensures IsRun(s, run) && Inv(After(s, run)) && GetSoFar(s0, After(s, run), t, tmo)
    ensures After(s, run).threads[t].pc.User? || After(s, run).threads[t].pc.Asleep?
    decreases |run|
  {
    if run != [] {
      NextKeepsInv(s, run[0]);
      if s.threads[t].pc.GetUnlock? { GetSoFarReturns(s0, s, t, tmo); }
      else if s.threads[t].pc.GetPop? { GetSoFarTakes(s0, s, t, tmo, run[0]); }
      else { GetSoFarLooks(s0, s, t, tmo); }
      SoloGetSoFar(s0, Next(s, run[0]), t, tmo, run[1..]);
    }
  }

  lemma StillFree(s0: State, s: State, t: nat)
    requires MutexOk(s0) && MutexOk(s) && s0.owner == None
    requires OnlyReturns(s0.threads, s.threads, t) && !Holds(s.threads[t].pc)
    ensures s.owner == None
  {
    forall i: nat | i < |s.threads|
      ensures !Holds(s.threads[i].pc)
    {
      assert i != t ==> s.threads[i] == s0.threads[i] && !Holds(s0.threads[i].pc);
    }
  }

  /** What the thread has to show for its get. */
  function OutcomeOf(before: Thread, after: Thread): PosixQueue.Outcome {
    if after.pc.Asleep? then PosixQueue.Waiting
    else if |after.got| > |before.got| then PosixQueue.Delivered(after.got[|before.got|])
    else PosixQueue.Missed
  }

  /** From the point where it takes the mutex, new or woken, an uninterrupted get hands over the oldest
      item, or fails with `tmo` zero, or is left asleep; the other threads are as they were and the
      mutex is free. */
  lemma SoloGetFromLock(s: State, t: nat, run: seq<Action>)
    requires Inv(s) && SoloGet(s, t, run) && (s.threads[t].pc.GetLock? || s.threads[t].pc.Woken?)
    ensures IsRun(s, run)
    ensures var s' := After(s, run);
            && Inv(s') && s'.owner == None && OnlyReturns(s.threads, s'.threads, t)
            && (s'.threads[t].pc.User? || s'.threads[t].pc.Asleep?)
            && PosixQueue.GetOutcome(s.ring.Contents(), s.ring.itemCount, s.ring.itemSize, s.threads[t].pc.tmo, [], 0,
                                     OutcomeOf(s.threads[t], s'.threads[t]), s'.ring.Contents())
            && s'.threads[t].misses == s.threads[t].misses + (if OutcomeOf(s.threads[t], s'.threads[t]).Missed? then 1 else 0)
  {
    SoloGetSoFar(s, s, t, s.threads[t].pc.tmo, run);
    var s' := After(s, run);
    assert LocalOk(s', t);
    StillFree(s, s', t);
  }

  lemma GetBegins(s0: State, t: nat, tmo: nat)
    requires Inv(s0) && !s0.aborted && t < |s0.threads| && s0.threads[t].pc.User?
    ensures var s := Next(s0, Begin(t, Get(tmo)));
            && Inv(s) && !s.aborted && s.owner == s0.owner && s.ring == s0.ring
            && s.threads == s0.threads[t := s0.threads[t].(pc := GetLock(tmo % 0x1_0000_0000))]
  {
    NextKeepsInv(s0, Begin(t, Get(tmo)));
  }

  /** An uninterrupted get, from its call on, does what `RingPthread.Get` promises when nobody else acts,
      for the low 32 bits of the caller's waiting time. */
  lemma SoloGetIsGet(s0: State, t: nat, tmo: nat, run: seq<Action>)
    requires Inv(s0) && !s0.aborted && t < |s0.threads| && s0.threads[t].pc.User?
    requires SoloGet(Next(s0, Begin(t, Get(tmo))), t, run)
    ensures IsRun(s0, [Begin(t, Get(tmo))] + run)
    ensures var s := After(s0, [Begin(t, Get(tmo))] + run);
            && Inv(s) && s.owner == None && OnlyReturns(s0.threads, s.threads, t)
            && (s.threads[t].pc.User? || s.threads[t].pc.Asleep?)
            && PosixQueue.GetOutcome(s0.ring.Contents(), s0.ring.itemCount, s0.ring.itemSize, tmo % 0x1_0000_0000, [], 0,
                                     OutcomeOf(s0.threads[t], s.threads[t]), s.ring.Contents())
            && s.threads[t].misses == s0.threads[t].misses + (if OutcomeOf(s0.threads[t], s.threads[t]).Missed? then 1 else 0)
  {
    GetBegins(s0, t, tmo);
    var s1 := Next(s0, Begin(t, Get(tmo)));
    SoloGetFromLock(s1, t, run);
    RunCons(s0, Begin(t, Get(tmo)), run);
  }

  lemma GetProceeds(s: State, t: nat)
    requires Sane(s) && !s.aborted && t < |s.threads| && InGet(s.threads[t].pc) && !s.threads[t].pc.Asleep?
    requires s.threads[t].pc.GetLock? || s.threads[t].pc.Woken? ==> s.owner == None
    ensures Enabled(s, Run(t, {}))
    ensures var s' := Next(s, Run(t, {}));
            && s' == StepGet(s, t) && !s'.aborted && t < |s'.threads| && s'.ring.itemSize == s.ring.itemSize
            && (s'.threads[t].pc.User? || (InGet(s'.threads[t].pc) && !s'.threads[t].pc.Woken? && !s'.threads[t].pc.GetLock?))
  {
    assert LocalOk(s, t);
    GetMovesOnlyItself(s, t);
    ObserversAgree(s.ring);
  }

  /** An uninterrupted get can be run until it returns or sleeps, if the mutex is free. */
  lemma {:induction false} SoloGetExists(s: State, t: nat) returns (run: seq<Action>)
    requires Inv(s) && !s.aborted && t < |s.threads|
    requires s.threads[t].pc.User? || InGet(s.threads[t].pc)
    requires s.threads[t].pc.GetLock? || s.threads[t].pc.Woken? ==> s.owner == None
    ensures SoloGet(s, t, run)
    decreases Rank(s.threads[t], s.ring.itemSize, 0)
  {
    run := [];
    if !s.threads[t].pc.User? && !s.threads[t].pc.Asleep? {
      var a := Run(t, {});
      GetProceeds(s, t);
      NextKeepsInv(s, a);
      GetRankDrops(s, t, {}, 0);
      var rest := SoloGetExists(Next(s, a), t);
      run := [a] + rest;
      assert run[1..] == rest;
    }
  }

  /** A sleeper that wakes up for no reason while the mutex is free looks again: with nothing queued
      it goes back to sleep and everything is as it was; otherwise it returns with the oldest item. */
  lemma SpuriousWakeup(s0: State, t: nat) returns (run: seq<Action>)
    requires Inv(s0) && !s0.aborted && s0.owner == None && t < |s0.threads| && s0.threads[t].pc.Asleep?
    ensures IsRun(s0, [Spurious(t)] + run) && run != []
    ensures var s, q := After(s0, [Spurious(t)] + run), s0.ring.Contents();
            && Inv(s) && s.owner == None && OnlyReturns(s0.threads, s.threads, t)
            && if q == [] then s.threads == s0.threads && s.ring.Contents() == []
               else s.threads[t] == s0.threads[t].(pc := User, got := s0.threads[t].got + [q[0]]) && s.ring.Contents() == q[1..]
  {
    var a := Spurious(t);
    NextKeepsInv(s0, a);
    assert LocalOk(s0, t);
    var s1 := Next(s0, a);
    run := SoloGetExists(s1, t);
    SoloGetFromLock(s1, t, run);
    SoloGetSoFar(s1, s1, t, s1.threads[t].pc.tmo, run);
    RunCons(s0, a, run);
  }

  // ----- size -----

  /** The three steps of a size call that nobody interrupts. */
  function SizeSteps(t: nat): seq<Action> {
    [Run(t, {}), Run(t, {}), Run(t, {})]
  }

  /** The same state, with one more answer given by thread `t`. */
  function Answered(s: State, t: nat, n: nat): State
    requires t < |s.threads|
  {
    s.(threads := s.threads[t := s.threads[t].(pc := User, sizes := s.threads[t].sizes + [n])])
  }

  lemma SizeLocks(s: State, t: nat)
    requires Inv(s) && !s.aborted && s.owner == None && t < |s.threads| && s.threads[t].pc.SizeLock?
    ensures Enabled(s, Run(t, {})) && Next(s, Run(t, {})) == s.Lock(t).Goto(t, SizeRead) && Inv(s.Lock(t).Goto(t, SizeRead))
  {
    NextKeepsInv(s, Run(t, {}));
  }

  lemma SizeReads(s: State, t: nat)
    requires Inv(s) && !s.aborted && t < |s.threads| && s.threads[t].pc.SizeRead?
    ensures Enabled(s, Run(t, {}))
    ensures var s' := s.Goto(t, SizeUnlock(|s.ring.Contents()|)); Next(s, Run(t, {})) == s' && Inv(s')
  {
    NextKeepsInv(s, Run(t, {}));
  }

  lemma SizeFromLock(s: State, t: nat)
    requires Inv(s) && !s.aborted && s.owner == None && t < |s.threads| && s.threads[t].pc.SizeLock?
    ensures IsRun(s, SizeSteps(t))
    ensures After(s, SizeSteps(t)) == Answered(s, t, |s.ring.Contents()|)
  {
    var a := Run(t, {});
    SizeLocks(s, t);
    var s1 := s.Lock(t).Goto(t, SizeRead);
    SizeReads(s1, t);
    var s2 := s1.Goto(t, SizeUnlock(|s.ring.Contents()|));
    RunCons(s2, a, []);
    RunCons(s1, a, [a] + []);
    RunCons(s, a, [a] + ([a] + []));
    assert SizeSteps(t) == [a] + ([a] + ([a] + []));
    assert Next(s2, a) == Answered(s, t, |s.ring.Contents()|);
  }

  /** An uninterrupted size call, from its call on, returns the length of the queue, changes nothing
      else and leaves the mutex free. */
  lemma SoloSizeIsSize(s: State, t: nat)
    requires Inv(s) && !s.aborted && s.owner == None && t < |s.threads| && s.threads[t].pc.User?
    ensures IsRun(s, [Begin(t, GetSize)] + SizeSteps(t))
    ensures After(s, [Begin(t, GetSize)] + SizeSteps(t)) == Answered(s, t, |s.ring.Contents()|)
  {
    var a := Begin(t, GetSize);
    NextKeepsInv(s, a);
    var s1 := Next(s, a);
    SizeFromLock(s1, t);
    RunCons(s, a, SizeSteps(t));
    assert Answered(s1, t, |s.ring.Contents()|) == Answered(s, t, |s.ring.Contents()|);
  }

  // ----- a get alone on an empty queue -----

  lemma NobodyMoves(s: State)
    requires forall t: nat :: t < |s.threads| ==> (s.threads[t].pc.User? && s.threads[t].nest == 0) || s.threads[t].pc.Asleep?
    ensures AtRest(s)
  {
  }

  lemma {:induction false} SoloIsInternal(s: State, t: nat, run: seq<Action>)
    requires SoloGet(s, t, run)
    ensures Internal(run)
    decreases |run|
  {
    if run != [] {
      SoloIsInternal(Next(s, run[0]), t, run[1..]);
      forall i | 0 <= i < |run| ensures run[i].Run? { assert i > 0 ==> run[i] == run[1..][i - 1]; }
    }
  }

  /** The documented waiting period does not exist. A get with nobody else calling, on an empty queue,
      comes to rest at once in one of two ways: failed, exactly if the low 32 bits of its waiting
      time are zero, and otherwise asleep for good. */
  lemma LoneGet(s0: State, t: nat, tmo: nat) returns (run: seq<Action>)
    requires Initial(s0) && t < |s0.threads|
    ensures IsRun(s0, [Begin(t, Get(tmo))] + run) && Internal(run)
    ensures var s := After(s0, [Begin(t, Get(tmo))] + run);
            && AtRest(s) && |s.threads| == |s0.threads|
            && (tmo % 0x1_0000_0000 == 0 ==> s.threads[t].pc.User? && s.threads[t].misses == 1)
            && (tmo % 0x1_0000_0000 != 0 ==> s.threads[t].pc.Asleep? && s.threads[t].misses == 0)
  {
    var a := Begin(t, Get(tmo));
    InitialInv(s0);
    GetBegins(s0, t, tmo);
    var s1 := Next(s0, a);
    run := SoloGetExists(s1, t);
    SoloGetIsGet(s0, t, tmo, run);
    SoloIsInternal(s1, t, run);
    RunCons(s0, a, run);
    NobodyMoves(After(s1, run));
  }

  /** Where the time type has 64 bits, 2^32 is a nonzero waiting time that fails at once. */
  lemma WideTimeoutFailsAtOnce(s0: State, t: nat) returns (run: seq<Action>)
    requires Initial(s0) && t < |s0.threads|
    ensures IsRun(s0, run) && run != [] && run[0] == Begin(t, Get(0x1_0000_0000))
    ensures t < |After(s0, run).threads| && After(s0, run).threads[t].pc.User? && After(s0, run).threads[t].misses == 1
  {
    var rest := LoneGet(s0, t, 0x1_0000_0000);
    run := [Begin(t, Get(0x1_0000_0000))] + rest;
  }

  // ----- a put on a full ring -----

  /** Thread `t` in its own code, with the mutex free, and so many items in the queue. */
  ghost predicate Idle(s: State, t: nat, queued: nat) {
    && Inv(s) && !s.aborted && s.owner == None
    && t < |s.threads| && s.threads[t].pc.User?
    && |s.ring.Contents()| == queued
  }

  /** After the ring's put has returned, the callback runs and returns, or there is none. */
  lemma PutReturns(s: State, t: nat, queued: nat) returns (run: seq<Action>)
    requires Inv(s) && !s.aborted && s.owner == None && t < |s.threads| && s.threads[t].pc.PutCallback?
    requires |s.ring.Contents()| == queued
    ensures IsRun(s, run) && Idle(After(s, run), t, queued) && After(s, run).ring == s.ring
  {
    var a := Run(t, {});
    NextKeepsInv(s, a);
    var s1 := Next(s, a);
    var rest: seq<Action> := [];
    if s.callback {
      NextKeepsInv(s1, a);
      RunCons(s1, a, []);
      rest := [a] + [];
    }
    RunCons(s, a, rest);
    run := [a] + rest;
  }

  ghost predicate SameSizes(s: State, s': State) {
    s'.ring.itemSize == s.ring.itemSize && s'.ring.itemCount == s.ring.itemCount
  }

  lemma NextKeepsSizes(s: State, a: Action)
    requires Sane(s) && Enabled(s, a)
    ensures SameSizes(s, Next(s, a))
  {
    assert LocalOk(s, a.t);
  }

  /** A put that returned met no assertion, and no step changes the sizes. */
  lemma {:induction false} SoloPutSound(s: State, t: nat, run: seq<Action>)
    requires Inv(s) && SoloPut(s, t, run) && IsRun(s, run) && !s.aborted
    ensures !After(s, run).aborted && SameSizes(s, After(s, run))
    decreases |run|
  {
    if run != [] {
      NextKeepsInv(s, run[0]);
      NextKeepsSizes(s, run[0]);
      if Next(s, run[0]).aborted { AbortedStaysInPut(s, t, run[0]); }
      SoloPutSound(Next(s, run[0]), t, run[1..]);
    }
  }

  /** One whole put. */
  lemma WholePut(s: State, t: nat, item: Item, queued: nat) returns (run: seq<Action>)
    requires Idle(s, t, queued) && |item| == s.ring.itemSize && queued < s.ring.itemCount
    ensures IsRun(s, run) && Idle(After(s, run), t, queued + 1) && SameSizes(s, After(s, run))
  {
    var a := Begin(t, Put(item));
    PutBegins(s, t, item);
    var s1 := Next(s, a);
    ObserversAgree(s1.ring);
    var solo := SoloPutExists(s1, t);
    SoloPutIsPut(s, t, item, solo);
    RunCons(s, a, solo);
    SoloPutSoFar(s1, s1, t, item, solo);
    SoloPutSound(s1, t, solo);
    var s2 := After(s1, solo);
    var back := PutReturns(s2, t, queued + 1);
    RunAppend(s1, solo, back);
    RunCons(s, a, solo + back);
    run := [a] + (solo + back);
  }

  /** Puts until the ring is full. */
  lemma {:induction false} FillRing(s: State, t: nat, item: Item, queued: nat) returns (run: seq<Action>)
    requires Idle(s, t, queued) && |item| == s.ring.itemSize && queued <= s.ring.itemCount
    ensures IsRun(s, run) && Idle(After(s, run), t, s.ring.itemCount) && SameSizes(s, After(s, run))
    decreases s.ring.itemCount - queued
  {
    run := [];
    if queued < s.ring.itemCount {
      var first := WholePut(s, t, item, queued);
      var rest := FillRing(After(s, first), t, item, queued + 1);
      RunAppend(s, first, rest);
      run := first + rest;
    }
  }

  /** The assertion of `push_back` is reached: for every queue, as many puts as its capacity and one more. */
  lemma FullPutAborts(s0: State, t: nat, item: Item) returns (run: seq<Action>)
    requires Initial(s0) && t < |s0.threads| && |item| == s0.ring.itemSize
    ensures IsRun(s0, run) && After(s0, run).aborted
  {
    InitialInv(s0);
    var fill := FillRing(s0, t, item, 0);
    var s1 := After(s0, fill);
    var begin, step := Begin(t, Put(item)), Run(t, {});
    PutBegins(s1, t, item);
    var s2 := Next(s1, begin);
    ObserversAgree(s2.ring);
    NextKeepsInv(s2, step);
    var s3 := Next(s2, step);
    RunCons(s3, step, []);
    RunCons(s2, step, [step] + []);
    RunCons(s1, begin, [step] + ([step] + []));
    RunAppend(s0, fill, [begin] + ([step] + ([step] + [])));
    run := fill + ([begin] + ([step] + ([step] + [])));
  }
}
