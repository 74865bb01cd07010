/** Left to itself the monitor comes to rest, and where it rests nobody waits for an item that is there. */
module MonitorEnds {
  import opened Types
  import opened Ring
  import opened Monitor
  import opened MonitorSafety
  import opened MonitorFifo
  import opened MonitorCalls
  import opened MonitorRuns

  /** How many steps a thread can take by itself. A put still to signal also pays, with `boost`,
      for all the getters its signal may wake. */
  function Rank(th: Thread, size: nat, boost: nat): nat {
    th.nest +
    match th.pc
    case User => 0
    case PutLock(_) => 7 + boost + size
    case PutCheck(_) => 6 + boost + size
    case PutCopy(_, done) => 5 + boost + (if done < size then size - done else 0)
    case PutSignal => 4 + boost
    case PutUnlock => 3
    case PutCallback => 2
    case GetLock(_) => 7 + size
    case GetTest(_) => 6 + size
    case GetWait(_) => 1
    case Asleep(_) => 0
    case Woken(_) => 7 + size
    case GetCheck(_) => 5 + size
    case GetFront(_) => 4 + size
    case GetCopy(_, _, out) => 3 + (if |out| < size then size - |out| else 0)
    case GetPop(_, _) => 2
    case GetUnlock(_, _) => 1
    case SizeLock => 3
    case SizeRead => 2
    case SizeUnlock(_) => 1
  }

  function Total(ts: seq<Thread>, size: nat, boost: nat): nat {
    if ts == [] then 0 else Total(ts[..|ts| - 1], size, boost) + Rank(ts[|ts| - 1], size, boost)
  }

  lemma {:induction false} TotalUpdate(ts: seq<Thread>, t: nat, th: Thread, size: nat, boost: nat)
    requires t < |ts|
    ensures Total(ts[t := th], size, boost) + Rank(ts[t], size, boost) == Total(ts, size, boost) + Rank(th, size, boost)
  {
    var n := |ts| - 1;
    if t == n {
      assert ts[t := th][..n] == ts[..n];
    } else {
      TotalUpdate(ts[..n], t, th, size, boost);
      assert ts[t := th][..n] == ts[..n][t := th];
    }
  }

  /** Enough for every one of so many threads to run a whole get. */
  function Boost(threads: nat, size: nat): nat {
    if threads == 0 then 0 else Boost(threads - 1, size) + 7 + size
  }

  lemma RankRouse(ts: seq<Thread>, wake: set<nat>, i: nat, size: nat, boost: nat)
    requires i < |ts|
    ensures Rank(Rouse(ts, wake)[i], size, boost) <= Rank(ts[i], size, boost) + 7 + size
  {
  }

  /** Waking threads costs at most one full get each. */
  lemma {:induction false} TotalRouse(ts: seq<Thread>, ts': seq<Thread>, size: nat, boost: nat)
    requires |ts'| == |ts|
    requires forall i: nat :: i < |ts| ==> Rank(ts'[i], size, boost) <= Rank(ts[i], size, boost) + 7 + size
    ensures Total(ts', size, boost) <= Total(ts, size, boost) + Boost(|ts|, size)
  {
    if ts != [] {
      var n := |ts| - 1;
      TotalRouse(ts[..n], ts'[..n], size, boost);
    }
  }

  /** A bound on the steps left in the calls under way. */
  function Measure(s: State): nat {
    Total(s.threads, s.ring.itemSize, Boost(|s.threads|, s.ring.itemSize)) + (if s.aborted then 0 else 1)
  }

  /** What a step of one thread does to that thread's rank. */
  ghost predicate RankDrops(th: Thread, th': Thread, size: nat, boost: nat) {
    Rank(th', size, boost) + (if th.pc.PutSignal? then boost else 0) < Rank(th, size, boost)
  }

  lemma OtherPutRankDrops(s: State, t: nat, wake: set<nat>, boost: nat)
    requires Sane(s) && t < |s.threads| && !StepPut(s, t, wake).aborted
    requires InPut(s.threads[t].pc) && !s.threads[t].pc.PutSignal? && !s.threads[t].pc.PutCopy?
    ensures t < |StepPut(s, t, wake).threads|
    ensures RankDrops(s.threads[t], StepPut(s, t, wake).threads[t], s.ring.itemSize, boost)
  {
  }

  lemma SignalRankDrops(s: State, t: nat, wake: set<nat>, boost: nat)
    requires Sane(s) && t < |s.threads| && s.threads[t].pc.PutSignal?
    ensures t < |StepPut(s, t, wake).threads|
    ensures RankDrops(s.threads[t], StepPut(s, t, wake).threads[t], s.ring.itemSize, boost)
  {
    var roused := Rouse(s.threads, wake);
    assert roused[t] == s.threads[t];
    assert StepPut(s, t, wake).threads[t] == roused[t].(pc := PutUnlock);
  }

  lemma CopyRankDrops(s: State, t: nat, wake: set<nat>, boost: nat)
    requires Sane(s) && t < |s.threads| && s.threads[t].pc.PutCopy?
    ensures t < |StepPut(s, t, wake).threads|
    ensures RankDrops(s.threads[t], StepPut(s, t, wake).threads[t], s.ring.itemSize, boost)
  {
    assert LocalOk(s, t);
  }

  lemma PutRankDrops(s: State, t: nat, wake: set<nat>, boost: nat)
    requires Sane(s) && Enabled(s, Run(t, wake)) && InPut(s.threads[t].pc) && !StepPut(s, t, wake).aborted
    ensures |StepPut(s, t, wake).threads| == |s.threads|
    ensures RankDrops(s.threads[t], StepPut(s, t, wake).threads[t], s.ring.itemSize, boost)
  {
    SameThreadCount(s, Run(t, wake));
    if s.threads[t].pc.PutSignal? { SignalRankDrops(s, t, wake, boost); }
    else if s.threads[t].pc.PutCopy? { CopyRankDrops(s, t, wake, boost); }
    else { OtherPutRankDrops(s, t, wake, boost); }
  }

  lemma GetRankDrops(s: State, t: nat, wake: set<nat>, boost: nat)
    requires Sane(s) && Enabled(s, Run(t, wake)) && !StepGet(s, t).aborted
    requires !InPut(s.threads[t].pc) && !InSize(s.threads[t].pc) && !s.threads[t].pc.User?
    ensures |StepGet(s, t).threads| == |s.threads|
    ensures RankDrops(s.threads[t], StepGet(s, t).threads[t], s.ring.itemSize, boost)
  {
    assert LocalOk(s, t);
  }

  lemma MoverRankDrops(s: State, t: nat, wake: set<nat>, boost: nat)
    requires Sane(s) && Enabled(s, Run(t, wake)) && !Next(s, Run(t, wake)).aborted
    ensures |Next(s, Run(t, wake)).threads| == |s.threads|
    ensures RankDrops(s.threads[t], Next(s, Run(t, wake)).threads[t], s.ring.itemSize, boost)
  {
    if InPut(s.threads[t].pc) { PutRankDrops(s, t, wake, boost); }
    else if !InSize(s.threads[t].pc) && !s.threads[t].pc.User? { GetRankDrops(s, t, wake, boost); }
  }

  lemma Unchanging(s: State, t: nat, wake: set<nat>)
    requires Sane(s) && Enabled(s, Run(t, wake))
    ensures var s' := Next(s, Run(t, wake));
            && s'.ring.itemSize == s.ring.itemSize && |s'.threads| == |s.threads|
            && (s'.aborted ==> s' == s.(aborted := true))
  {
    assert LocalOk(s, t);
  }

  lemma TotalDrops(s: State, t: nat, wake: set<nat>, size: nat, boost: nat)
    requires Sane(s) && Enabled(s, Run(t, wake)) && !Next(s, Run(t, wake)).aborted
    requires size == s.ring.itemSize && boost == Boost(|s.threads|, s.ring.itemSize)
    ensures Total(Next(s, Run(t, wake)).threads, size, boost) < Total(s.threads, size, boost)
  {
    var ts' := Next(s, Run(t, wake)).threads;
    MoverRankDrops(s, t, wake, boost);
    if s.threads[t].pc.PutSignal? {
      var roused := Rouse(s.threads, wake);
      forall i: nat | i < |roused|
        ensures Rank(roused[i], size, boost) <= Rank(s.threads[i], size, boost) + 7 + size
      {
        RankRouse(s.threads, wake, i, size, boost);
      }
      TotalRouse(s.threads, roused, size, boost);
      TotalUpdate(Rouse(s.threads, wake), t, ts'[t], size, boost);
    } else {
      OnlyMoverChanges(s, Run(t, wake));
      TotalUpdate(s.threads, t, ts'[t], size, boost);
    }
  }

  /** Every internal step, that is any step but a new call or a spurious wakeup, uses up the bound. */
  lemma StepUsesMeasure(s: State, t: nat, wake: set<nat>)
    requires Sane(s) && Enabled(s, Run(t, wake))
    ensures Measure(Next(s, Run(t, wake))) < Measure(s)
  {
    Unchanging(s, t, wake);
    if !Next(s, Run(t, wake)).aborted { TotalDrops(s, t, wake, s.ring.itemSize, Boost(|s.threads|, s.ring.itemSize)); }
  }

  ghost predicate Internal(run: seq<Action>) {
    forall i :: 0 <= i < |run| ==> run[i].Run?
  }

  /** Every run of internal steps is finite, with a bound known when it starts. */
  lemma {:induction false} InternalRunsEnd(s: State, run: seq<Action>)
    requires IsRun(s, run) && Internal(run)
    ensures |run| + Measure(After(s, run)) <= Measure(s)
    decreases |run|
  {
    if run != [] {
      assert run[0].Run?;
      StepUsesMeasure(s, run[0].t, run[0].wake);
      InternalRunsEnd(Next(s, run[0]), run[1..]);
    }
  }

  /** No thread can move on its own. */
  ghost predicate AtRest(s: State) {
    forall t: nat, wake: set<nat> :: !Enabled(s, Run(t, wake))
  }

  /** All sleepers, a legal choice for any signal. */
  lemma SomeChoice(ts: seq<Thread>) returns (wake: set<nat>)
    ensures SignalChoice(ts, wake)
  {
    wake := set i: nat | 0 <= i < |ts| && ts[i].pc.Asleep?;
    forall i: nat | IsAsleep(ts, i) ensures i in wake {}
  }

  /** The program points at which a thread needs the mutex. */
  predicate AtLock(pc: Pc) {
    pc.PutLock? || pc.GetLock? || pc.SizeLock? || pc.Woken?
  }

  lemma CanMove(s: State, t: nat)
    requires Sane(s) && !s.aborted && t < |s.threads|
    requires Holds(s.threads[t].pc) || s.threads[t].pc.PutCallback? || (s.threads[t].pc.User? && s.threads[t].nest > 0) ||
             (s.owner == None && AtLock(s.threads[t].pc))
    ensures !AtRest(s)
  {
    var wake := SomeChoice(s.threads);
    assert Enabled(s, Run(t, wake));
  }

  lemma MovesExactly(s: State, t: nat)
    requires Sane(s) && MutexOk(s) && !s.aborted && t < |s.threads|
    ensures var th := s.threads[t];
            (exists wake: set<nat> :: Enabled(s, Run(t, wake))) <==>
              !(th.pc.User? && th.nest == 0) && !th.pc.Asleep? && (AtLock(th.pc) ==> s.owner == None)
  {
    var wake := SomeChoice(s.threads);
    var th := s.threads[t];
    if !(th.pc.User? && th.nest == 0) && !th.pc.Asleep? && (AtLock(th.pc) ==> s.owner == None) {
      assert Enabled(s, Run(t, wake));
    }
  }

  /** What a thread waits for, in every reachable state without an abort: to move it needs no more than
      the mutex free at a lock and a wakeup in a wait; and in its own code, callbacks included, it
      may begin any call. */
  lemma BlockedExactly(s0: State, run: seq<Action>, t: nat)
    requires Initial(s0) && IsRun(s0, run)
    requires !After(s0, run).aborted && t < |After(s0, run).threads|
    ensures var s, th := After(s0, run), After(s0, run).threads[t];
            && ((exists wake: set<nat> :: Enabled(s, Run(t, wake))) <==>
                  !(th.pc.User? && th.nest == 0) && !th.pc.Asleep? && (AtLock(th.pc) ==> s.owner == None))
            && (Enabled(s, Spurious(t)) <==> th.pc.Asleep?)
            && forall call: Call :: Enabled(s, Begin(t, call)) <==> th.pc.User? && (call.Put? ==> |call.item| == s.ring.itemSize)
  {
    InitialInv(s0);
    RunKeepsInv(s0, run);
    MovesExactly(After(s0, run), t);
  }

  /** Who leaves the wait: exactly the sleepers that wake up for no reason or that a signal unblocks,
      and they have their waiting time with them and only the mutex to wait for. */
  lemma WakesExactly(s: State, a: Action, t: nat)
    requires Sane(s) && Enabled(s, a) && IsAsleep(s.threads, t)
    ensures t < |Next(s, a).threads|
    ensures var pc, pc' := s.threads[t].pc, Next(s, a).threads[t].pc;
            pc' == if a == Spurious(t) || (a.Run? && s.threads[a.t].pc.PutSignal? && t in a.wake) then Woken(pc.tmo) else pc
  {
    if !(a.Run? && s.threads[a.t].pc.PutSignal?) { OnlyMoverChanges(s, a); }
  }

  lemma {:induction false} NobodyWoken(ts: seq<Thread>)
    requires forall i: nat :: i < |ts| ==> !ts[i].pc.Woken?
    ensures WokenThreads(ts) == 0
  {
    if ts != [] {
      var n := |ts| - 1;
      forall i: nat | i < n ensures !ts[..n][i].pc.Woken? { assert !ts[i].pc.Woken?; }
      NobodyWoken(ts[..n]);
    }
  }

  /** Where a run ends without an assertion failure: the mutex is free, every thread is in its
      own code or asleep in a get, and either nobody is asleep or the queue is empty. */
  lemma RestIsGood(s0: State, run: seq<Action>)
    requires Initial(s0) && IsRun(s0, run)
    requires AtRest(After(s0, run)) && !After(s0, run).aborted
    ensures var s := After(s0, run);
            && s.ring.Valid()
            && s.owner == None && s.depth == 0
            && (forall t: nat :: t < |s.threads| ==> (s.threads[t].pc.User? && s.threads[t].nest == 0) || s.threads[t].pc.Asleep?)
            && ((forall t: nat :: t < |s.threads| ==> !s.threads[t].pc.Asleep?) || s.ring.Contents() == [])
  {
    InitialInv(s0);
    RunKeepsInv(s0, run);
    var s := After(s0, run);
    if s.owner.Some? { CanMove(s, s.owner.value); }
    forall t: nat | t < |s.threads|
      ensures (s.threads[t].pc.User? && s.threads[t].nest == 0) || s.threads[t].pc.Asleep?
    {
      if !((s.threads[t].pc.User? && s.threads[t].nest == 0) || s.threads[t].pc.Asleep?) { CanMove(s, t); }
    }
    if t: nat :| t < |s.threads| && s.threads[t].pc.Asleep? {
      NoLostWakeup(s0, run, t);
      NobodyWoken(s.threads);
    }
  }

  /** Every call has returned, except that the last may be a get asleep, perhaps inside the callbacks of puts. */
  ghost predicate Returned(th: Thread, calls: seq<Call>) {
    && |PutItems(calls)| == th.puts + th.nest && (th.pc.User? ==> th.nest == 0)
    && Sizes(calls) == |th.sizes|
    && Gets(calls) == |th.got| + th.misses + (if th.pc.Asleep? then 1 else 0)
  }

  /** The callers' items, the history and the records of one thread agree, and its calls have returned. */
  ghost predicate Closed(s: State, t: nat, calls: seq<Call>)
    requires t < |s.threads|
  {
    PutItems(calls) == By(s.pushed, t) && s.threads[t].got == By(s.popped, t) && Returned(s.threads[t], calls)
  }

  lemma RestingThread(s: State, t: nat, calls: seq<Call>)
    requires t < |s.threads| && OrderedAt(s, t) && Accounts(s.threads[t], calls)
    requires (s.threads[t].pc.User? && s.threads[t].nest == 0) || s.threads[t].pc.Asleep?
    ensures Closed(s, t, calls)
  {
  }

  /** What RestDelivers says of one thread. */
  lemma RestingBooks(s0: State, run: seq<Action>, t: nat)
    requires Initial(s0) && IsRun(s0, run) && t < |After(s0, run).threads|
    requires var th := After(s0, run).threads[t]; (th.pc.User? && th.nest == 0) || th.pc.Asleep?
    ensures Closed(After(s0, run), t, Calls(run, t))
  {
    InitialInv(s0);
    RunKeepsInv(s0, run);
    RunKeepsThreads(s0, run);
    EveryCallAccounted(s0, run, t);
    assert OrderedAt(After(s0, run), t);
    RestingThread(After(s0, run), t, Calls(run, t));
  }

  lemma RestingCallbacks(s: State)
    requires Inv(s) && s.callback
    requires forall t: nat :: t < |s.threads| ==> s.threads[t].pc.User? || s.threads[t].pc.Asleep?
    ensures s.callbacks == |s.pushed|
  {
    CountPositive(s.threads, Announcer);
  }

  /** At rest the books are closed: every item callers handed to a put is in the history of the queue,
      as it is and in call order, every item taken has been returned, every call has returned but a
      get asleep and the puts in whose callbacks it sleeps, each item has had its callback, and if
      anybody still sleeps then everything that was ever pushed has been delivered. */
  lemma RestDelivers(s0: State, run: seq<Action>)
    requires Initial(s0) && IsRun(s0, run)
    requires AtRest(After(s0, run)) && !After(s0, run).aborted
    ensures var s := After(s0, run);
            && (forall t: nat :: t < |s.threads| ==> Closed(s, t, Calls(run, t)))
            && (s.callback ==> s.callbacks == |s.pushed|)
            && ((exists t: nat :: IsAsleep(s.threads, t)) ==> Items(s.pushed) == Items(s.popped))
  {
    RestIsGood(s0, run);
    InitialInv(s0);
    RunKeepsInv(s0, run);
    var s := After(s0, run);
    forall t: nat | t < |s.threads|
      ensures Closed(s, t, Calls(run, t))
    {
      RestingBooks(s0, run, t);
    }
    if s.callback { RestingCallbacks(s); }
    if s.ring.Contents() == [] { assert Items(s.popped) + s.ring.Contents() == Items(s.popped); }
  }

  /** From every reachable state the calls under way can be run to rest; with InternalRunsEnd, every
      scheduler that keeps choosing internal steps gets there. */
  lemma {:induction false} ComesToRest(s: State) returns (run: seq<Action>)
    requires Inv(s)
    ensures IsRun(s, run) && Internal(run) && AtRest(After(s, run)) && |run| <= Measure(s)
    decreases Measure(s)
  {
    run := [];
    if !AtRest(s) {
      var t: nat, wake: set<nat> :| Enabled(s, Run(t, wake));
      var a := Run(t, wake);
      NextKeepsInv(s, a);
      StepUsesMeasure(s, t, wake);
      var rest := ComesToRest(Next(s, a));
      RunCons(s, a, rest);
      run := [a] + rest;
    }
  }
}
