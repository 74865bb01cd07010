/** What holds after every run of the monitor, and where its runs end. */
module MonitorRuns {
  import opened Types
  import opened Ring
  import opened Monitor
  import opened MonitorSafety
  import opened MonitorFifo
  import opened MonitorCalls

  ghost predicate Inv(s: State) {
    && Sane(s) && MutexOk(s)
    && Conserved(s) && Ordered(s)
    && Awake(s.threads, |s.ring.Contents()|)
    && Announced(s) && NoneInCallback(s)
  }

  /** A queue just initialised, with or without a signal callback, and threads that have called nothing yet. */
  ghost predicate Initial(s: State) {
    && s.ring.Valid() && s.ring.Contents() == []
    && s.owner == None && s.depth == 0
    && s.pushed == [] && s.popped == [] && s.callbacks == 0 && !s.aborted
    && forall t: nat :: t < |s.threads| ==> s.threads[t] == Thread(User, 0, [], [], 0, 0, [])
  }

  lemma InitialInv(s: State)
    requires Initial(s)
    ensures Inv(s)
  {
    CountPositive(s.threads, Sleeper);
    CountPositive(s.threads, Announcer);
  }

  /** Every step keeps the whole invariant. */
  lemma NextKeepsInv(s: State, a: Action)
    requires Inv(s) && Enabled(s, a)
    ensures Inv(Next(s, a))
  {
    NextKeepsSane(s, a);
    NextConserves(s, a);
    NextKeepsOrder(s, a);
    NextKeepsAwake(s, a);
    NextKeepsAnnounced(s, a);
    NextKeepsNoneInCallback(s, a);
  }

  ghost predicate IsRun(s: State, run: seq<Action>)
    decreases |run|
  {
    run == [] || (Sane(s) && Enabled(s, run[0]) && IsRun(Next(s, run[0]), run[1..]))
  }

  ghost function After(s: State, run: seq<Action>): State
    requires IsRun(s, run)
    decreases |run|
  {
    if run == [] then s else After(Next(s, run[0]), run[1..])
  }

  lemma RunCons(s: State, a: Action, rest: seq<Action>)
    requires Sane(s) && Enabled(s, a) && IsRun(Next(s, a), rest)
    ensures IsRun(s, [a] + rest) && After(s, [a] + rest) == After(Next(s, a), rest)
  {
    assert ([a] + rest)[1..] == rest;
  }

  lemma {:induction false} RunKeepsInv(s: State, run: seq<Action>)
    requires Inv(s) && IsRun(s, run)
    ensures Inv(After(s, run))
    decreases |run|
  {
    if run != [] {
      NextKeepsInv(s, run[0]);
      RunKeepsInv(Next(s, run[0]), run[1..]);
    }
  }

  lemma {:induction false} RunAppend(s: State, r1: seq<Action>, r2: seq<Action>)
    requires IsRun(s, r1) && IsRun(After(s, r1), r2)
    ensures IsRun(s, r1 + r2) && After(s, r1 + r2) == After(After(s, r1), r2)
    decreases |r1|
  {
    if r1 == [] {
      assert r1 + r2 == r2;
    } else {
      RunAppend(Next(s, r1[0]), r1[1..], r2);
      RunCons(s, r1[0], r1[1..] + r2);
      assert r1 + r2 == [r1[0]] + (r1[1..] + r2);
    }
  }

  /** Runs exclude no step: whatever is possible after a run continues it. */
  lemma RunsContinue(s0: State, run: seq<Action>, a: Action)
    requires Initial(s0) && IsRun(s0, run) && Enabled(After(s0, run), a)
    ensures Sane(After(s0, run)) && IsRun(s0, run + [a]) && After(s0, run + [a]) == Next(After(s0, run), a)
  {
    InitialInv(s0);
    RunKeepsInv(s0, run);
    var s := After(s0, run);
    RunCons(s, a, []);
    assert [a] + [] == [a];
    RunAppend(s0, run, [a]);
  }

  // ----- theorems about every reachable state -----

  lemma {:induction false} RunKeepsThreads(s: State, run: seq<Action>)
    requires IsRun(s, run)
    ensures |After(s, run).threads| == |s.threads|
    decreases |run|
  {
    if run != [] {
      SameThreadCount(s, run[0]);
      RunKeepsThreads(Next(s, run[0]), run[1..]);
    }
  }

  lemma {:induction false} RunAccounts(s: State, run: seq<Action>, t: nat, calls: seq<Call>)
    requires IsRun(s, run) && t < |s.threads| && Accounts(s.threads[t], calls)
    ensures t < |After(s, run).threads| && Accounts(After(s, run).threads[t], calls + Calls(run, t))
    decreases |run|
  {
    CallsCons(calls, run, t);
    if run != [] {
      NextAccounts(s, run[0], t, calls);
      var s1 := Next(s, run[0]);
      RunAccounts(s1, run[1..], t, calls + CallOf(run[0], t));
    }
  }

  /** No call vanishes, returns twice or is carried out with other arguments: of the calls that a thread
      began in the run, each has returned, failed or is in its callback, and if the thread is at work,
      then on the last of them. */
  lemma EveryCallAccounted(s0: State, run: seq<Action>, t: nat)
    requires Initial(s0) && IsRun(s0, run) && t < |s0.threads|
    ensures |After(s0, run).threads| == |s0.threads|
    ensures Accounts(After(s0, run).threads[t], Calls(run, t))
  {
    assert Accounts(s0.threads[t], []);
    RunKeepsThreads(s0, run);
    RunAccounts(s0, run, t, []);
    assert [] + Calls(run, t) == Calls(run, t);
  }

  /** The items of thread `t`, as its callers, the history and the thread itself have them. */
  ghost predicate OwnOrder(s: State, t: nat, handed: seq<Item>)
    requires t < |s.threads|
  {
    var th := s.threads[t];
    && By(s.pushed, t) <= handed
    && th.got <= By(s.popped, t)
    && (th.pc.User? ==> handed == By(s.pushed, t) && th.got == By(s.popped, t))
  }

  lemma OwnItems(s: State, t: nat)
    requires t < |s.threads| && OrderedAt(s, t)
    ensures OwnOrder(s, t, s.threads[t].sent)
  {
  }

  /** Whatever the interleaving and however long the run: what was copied in, in push order, is
      what was copied out, in pop order, followed by what the buffer's bytes hold; the items that
      callers handed to a thread's puts enter as they are, in call order; a thread's gets return
      what it took, in order. */
  lemma EndToEnd(s0: State, run: seq<Action>)
    requires Initial(s0) && IsRun(s0, run)
    ensures var s := After(s0, run);
            && s.ring.Valid()
            && Items(s.pushed) == Items(s.popped) + s.ring.Contents()
            && |s.ring.Contents()| <= s.ring.itemCount
            && |s.threads| == |s0.threads|
            && forall t: nat :: t < |s.threads| ==> OwnOrder(s, t, Handed(run, t))
  {
    InitialInv(s0);
    RunKeepsInv(s0, run);
    var s := After(s0, run);
    ObserversAgree(s.ring);
    RunKeepsThreads(s0, run);
    forall t: nat | t < |s.threads|
      ensures OwnOrder(s, t, Handed(run, t))
    {
      EveryCallAccounted(s0, run, t);
      OwnItems(s, t);
    }
  }

  function WokenThreads(ts: seq<Thread>): nat {
    if ts == [] then 0 else WokenThreads(ts[..|ts| - 1]) + (if ts[|ts| - 1].pc.Woken? then 1 else 0)
  }

  lemma {:induction false} ServersOutsideMutex(ts: seq<Thread>)
    requires forall i: nat :: i < |ts| ==> !Holds(ts[i].pc)
    ensures Count(ts, Server) == WokenThreads(ts)
  {
    if ts != [] {
      var n := |ts| - 1;
      forall i: nat | i < n ensures !Holds(ts[..n][i].pc) { assert !Holds(ts[i].pc); }
      ServersOutsideMutex(ts[..n]);
      assert !Holds(ts[n].pc);
    }
  }

  /** No lost wakeup: whenever the mutex is free and some getter sleeps, there are at least as
      many woken getters on their way back to the mutex as there are items in the queue. */
  lemma NoLostWakeup(s0: State, run: seq<Action>, sleeper: nat)
    requires Initial(s0) && IsRun(s0, run)
    requires var s := After(s0, run);
             s.owner == None && sleeper < |s.threads| && s.threads[sleeper].pc.Asleep?
    ensures var s := After(s0, run);
            s.ring.Valid() && |s.ring.Contents()| <= WokenThreads(s.threads)
  {
    InitialInv(s0);
    RunKeepsInv(s0, run);
    var s := After(s0, run);
    assert Is(s.threads[sleeper].pc, Sleeper);
    CountPositive(s.threads, Sleeper);
    ServersOutsideMutex(s.threads);
  }

  lemma WaitReleases(s: State, t: nat)
    requires Sane(s) && MutexOk(s) && t < |s.threads|
    ensures Holds(s.threads[t].pc) <==> s.owner == Some(t)
    ensures s.threads[t].pc.GetWait? ==> s.depth == 1 && StepGet(s, t).owner == None && StepGet(s, t).depth == 0
  {
  }

  /** The mutex is held exactly once wherever it is held: a thread that is about to wait holds it
      at depth one, so the wait frees it; a thread in its own code, in particular in a signal
      callback, does not hold it. */
  lemma DepthDiscipline(s0: State, run: seq<Action>, t: nat)
    requires Initial(s0) && IsRun(s0, run)
    requires t < |After(s0, run).threads|
    ensures var s, pc := After(s0, run), After(s0, run).threads[t].pc;
            && (Holds(pc) <==> s.owner == Some(t))
            && (s.owner == Some(t) ==> s.depth == 1)
            && (pc.GetWait? ==> Sane(s) && StepGet(s, t).owner == None && StepGet(s, t).depth == 0)
            && (pc.User? || pc.PutCallback? ==> s.owner != Some(t))
  {
    InitialInv(s0);
    RunKeepsInv(s0, run);
    WaitReleases(After(s0, run), t);
  }

  /** The waiting time thread `t` was given for its last call, as the ring sees it. */
  function LastTmo(run: seq<Action>, t: nat): nat {
    var calls := Calls(run, t);
    if calls != [] && calls[|calls| - 1].Get? then calls[|calls| - 1].tmo % 0x1_0000_0000 else 0
  }

  lemma TmoIsTheCallers(s0: State, run: seq<Action>, t: nat)
    requires Initial(s0) && IsRun(s0, run)
    requires t < |After(s0, run).threads| && InGet(After(s0, run).threads[t].pc)
    ensures Calls(run, t) != [] && Calls(run, t)[|Calls(run, t)| - 1].Get?
    ensures After(s0, run).threads[t].pc.tmo == LastTmo(run, t)
  {
    RunKeepsThreads(s0, run);
    EveryCallAccounted(s0, run, t);
  }

  /** What a get about to return has to show, if its waiting time is `tmo`. */
  ghost predicate Outcome(s: State, tmo: nat, t: nat, result: Option<Item>)
    requires s.ring.Valid()
  {
    match result
    case None => tmo == 0 && s.ring.Contents() == []
    case Some(item) =>
      && 0 < |s.popped| <= |s.pushed|
      && s.popped[|s.popped| - 1] == Entry(t, item)
      && s.pushed[|s.popped| - 1].item == item
  }

  lemma TakenInOrder(pushed: seq<Entry>, popped: seq<Entry>, q: seq<Item>)
    requires Items(pushed) == Items(popped) + q && popped != []
    ensures |popped| <= |pushed| && pushed[|popped| - 1].item == popped[|popped| - 1].item
  {
    assert |Items(pushed)| == |Items(popped)| + |q|;
    assert Items(pushed)[|popped| - 1] == Items(popped)[|popped| - 1];
  }

  lemma OutcomeAt(s: State, t: nat)
    requires Sane(s) && Conserved(s) && t < |s.threads| && s.threads[t].pc.GetUnlock?
    ensures Outcome(s, s.threads[t].pc.tmo, t, s.threads[t].pc.result)
  {
    assert LocalOk(s, t);
    if s.threads[t].pc.result.Some? { TakenInOrder(s.pushed, s.popped, s.ring.Contents()); }
  }

  /** A get that is about to return. It fails only with the low 32 bits of its own waiting time zero
      and the queue empty (it still holds the mutex, so the queue is as it was when it looked).
      Otherwise it hands over the item it took, the oldest one not taken before, byte for byte as
      it was pushed. */
  lemma GetOutcome(s0: State, run: seq<Action>, t: nat)
    requires Initial(s0) && IsRun(s0, run)
    requires t < |After(s0, run).threads| && After(s0, run).threads[t].pc.GetUnlock?
    ensures var s := After(s0, run);
            s.ring.Valid() && Outcome(s, LastTmo(run, t), t, s.threads[t].pc.result)
  {
    InitialInv(s0);
    RunKeepsInv(s0, run);
    TmoIsTheCallers(s0, run, t);
    OutcomeAt(After(s0, run), t);
  }

  /** What a step changes in the records of what thread `t` told its callers: a POS_TIMEOUT more only
      if the thread's last call is a get whose waiting time has its low 32 bits zero, while the queue is
      empty; an item more only if it is the last one taken, in the place where it was pushed; a
      size more only if it is the length of the queue. Nothing told is ever taken back. */
  lemma ToldOnlyTruth(s0: State, run: seq<Action>, a: Action, t: nat)
    requires Initial(s0) && IsRun(s0, run) && Enabled(After(s0, run), a)
    requires t < |After(s0, run).threads|
    ensures var s := After(s0, run);
            && Sane(s) && t < |Next(s, a).threads|
            && var th, th' := s.threads[t], Next(s, a).threads[t];
            && (th'.misses == th.misses ||
                (th'.misses == th.misses + 1 && Calls(run, t) != [] && Calls(run, t)[|Calls(run, t)| - 1].Get? &&
                 LastTmo(run, t) == 0 && s.ring.Contents() == []))
            && (th'.got == th.got ||
                (0 < |s.popped| <= |s.pushed| && th'.got == th.got + [s.pushed[|s.popped| - 1].item] &&
                 s.popped[|s.popped| - 1] == Entry(t, s.pushed[|s.popped| - 1].item)))
            && (th'.sizes == th.sizes || th'.sizes == th.sizes + [|s.ring.Contents()|])
  {
    InitialInv(s0);
    RunKeepsInv(s0, run);
    var s := After(s0, run);
    NextReturns(s, a, t);
    if s.threads[t].pc.GetUnlock? {
      GetOutcome(s0, run, t);
      TmoIsTheCallers(s0, run, t);
    } else if s.threads[t].pc.SizeUnlock? {
      assert LocalOk(s, t);
    }
  }

  /** What a get at this point does next, from the queue and its waiting time. */
  ghost predicate Decides(s: State, t: nat, tmo: nat)
    requires Sane(s) && t < |s.threads|
  {
    var pc, next, q := s.threads[t].pc, StepGet(s, t), s.ring.Contents();
    && t < |next.threads|
    && var pc' := next.threads[t].pc;
    && (pc.GetTest? ==> pc' == if q == [] && tmo != 0 then GetWait(tmo) else GetCheck(tmo))
    && (pc.GetWait? || pc.Asleep? || pc.Woken? ==> tmo != 0)
    && (pc.GetCheck? ==> pc' == if q == [] then GetUnlock(tmo, None) else GetFront(tmo))
    && (pc.GetCheck? && q == [] ==> tmo == 0)
    && (pc.GetFront? ==> pc'.GetCopy?)
    && (pc.GetPop? ==> q != [] && pc' == GetUnlock(tmo, Some(q[0])))
  }

  lemma DecisionAt(s: State, t: nat, tmo: nat)
    requires Sane(s) && t < |s.threads| && (InGet(s.threads[t].pc) ==> s.threads[t].pc.tmo == tmo)
    ensures Decides(s, t, tmo)
  {
    assert LocalOk(s, t);
    TestedContents(s, t);
    ObserversAgree(s.ring);
    GetMovesOnlyItself(s, t);
  }

  /** The decisions a get makes under the mutex, from the queue and its own waiting time: it waits
      exactly with nothing queued and the time not zero; with items queued it goes on to take one, and
      `front` then is never NULL; only with none queued and the time zero does it give up. */
  lemma GetDecision(s0: State, run: seq<Action>, t: nat)
    requires Initial(s0) && IsRun(s0, run)
    requires t < |After(s0, run).threads|
    ensures Sane(After(s0, run)) && Decides(After(s0, run), t, LastTmo(run, t))
  {
    InitialInv(s0);
    RunKeepsInv(s0, run);
    if InGet(After(s0, run).threads[t].pc) { TmoIsTheCallers(s0, run, t); }
    DecisionAt(After(s0, run), t, LastTmo(run, t));
  }

  lemma SizeFacts(s: State, t: nat)
    requires Sane(s) && MutexOk(s) && t < |s.threads| && s.threads[t].pc.SizeUnlock?
    ensures s.owner == Some(t) && s.threads[t].pc.n == |s.ring.Contents()|
  {
    assert LocalOk(s, t);
  }

  /** `size` reports the length the queue has while the caller holds the mutex. */
  lemma SizeOutcome(s0: State, run: seq<Action>, t: nat)
    requires Initial(s0) && IsRun(s0, run)
    requires t < |After(s0, run).threads| && After(s0, run).threads[t].pc.SizeUnlock?
    ensures var s := After(s0, run);
            s.ring.Valid() && s.owner == Some(t) && s.threads[t].pc.n == |s.ring.Contents()|
  {
    InitialInv(s0);
    RunKeepsInv(s0, run);
    SizeFacts(After(s0, run), t);
  }

  lemma AbortExactly(s: State, a: Action)
    requires Sane(s) && Enabled(s, a)
    ensures Next(s, a).aborted <==> a.Run? && s.threads[a.t].pc.PutCheck? && |s.ring.Contents()| == s.ring.itemCount
  {
    assert LocalOk(s, a.t);
    ObserversAgree(s.ring);
  }

  /** No assertion fails except that of `push_back` on a full ring, and there it always does. */
  lemma OnlyFullPutAborts(s0: State, run: seq<Action>, a: Action)
    requires Initial(s0) && IsRun(s0, run) && Enabled(After(s0, run), a)
    ensures var s := After(s0, run);
            && Sane(s)
            && (Next(s, a).aborted <==> a.Run? && s.threads[a.t].pc.PutCheck? && |s.ring.Contents()| == s.ring.itemCount)
  {
    InitialInv(s0);
    RunKeepsInv(s0, run);
    AbortExactly(After(s0, run), a);
  }

  lemma {:induction false} CallbackConstant(s: State, run: seq<Action>)
    requires IsRun(s, run)
    ensures After(s, run).callback == s.callback
    decreases |run|
  {
    if run != [] { CallbackConstant(Next(s, run[0]), run[1..]); }
  }

  /** With a callback installed, the callbacks begun and the inserted items not yet announced are
      together the items ever pushed; so there are never more callbacks than items made available.
      With none installed, none is ever begun and no thread is inside one. */
  lemma CallbackPerItem(s0: State, run: seq<Action>)
    requires Initial(s0) && IsRun(s0, run)
    ensures var s := After(s0, run);
            && s.callback == s0.callback
            && (s.callback ==> s.callbacks + Count(s.threads, Announcer) == |s.pushed|)
            && s.callbacks <= |s.pushed|
            && (!s.callback ==> s.callbacks == 0 && forall t: nat :: t < |s.threads| ==> s.threads[t].nest == 0)
  {
    InitialInv(s0);
    RunKeepsInv(s0, run);
    CallbackConstant(s0, run);
  }

  // ----- real time -----

  lemma NextGrowsHistories(s: State, a: Action)
    requires Sane(s) && Enabled(s, a)
    ensures s.pushed <= Next(s, a).pushed && s.popped <= Next(s, a).popped
  {
    if Publishes(s, a) { PublishEffect(s, a); }
    else if Takes(s, a) { TakeEffect(s, a); }
    else { QuietEffect(s, a); }
  }

  lemma {:induction false} RunGrowsHistories(s: State, run: seq<Action>)
    requires IsRun(s, run)
    ensures s.pushed <= After(s, run).pushed && s.popped <= After(s, run).popped
    decreases |run|
  {
    if run != [] {
      NextGrowsHistories(s, run[0]);
      RunGrowsHistories(Next(s, run[0]), run[1..]);
    }
  }

  lemma {:induction false} ByPrefix(es: seq<Entry>, es': seq<Entry>, t: nat)
    requires es <= es'
    ensures By(es, t) <= By(es', t)
    decreases |es'|
  {
    if |es| < |es'| {
      ByPrefix(es, es'[..|es'| - 1], t);
    } else {
      assert es == es';
    }
  }

  /** Each item is published between the begin and the return of its put, and taken between the
      begin and the return of its get: at any moment a thread has published at least the items of
      its puts that returned or are in their callback, and at most those of its puts begun; and has
      taken what its gets returned, and one item more at most, in a get under way. */
  ghost predicate WithinCalls(s: State, t: nat, handed: seq<Item>)
    requires t < |s.threads|
  {
    var th := s.threads[t];
    && th.puts + th.nest <= |By(s.pushed, t)| && By(s.pushed, t) <= handed
    && th.got <= By(s.popped, t) && |By(s.popped, t)| <= |th.got| + (if InGet(th.pc) then 1 else 0)
  }

  lemma AccountsWithinCalls(s: State, t: nat, calls: seq<Call>)
    requires t < |s.threads| && OrderedAt(s, t) && Accounts(s.threads[t], calls)
    ensures WithinCalls(s, t, PutItems(calls))
  {
  }

  /** Linearizable in real time: publishing and taking happen within the calls, and what a later part
      of the run publishes or takes comes after all that an earlier part did, so a call that
      returned before another began has its place in the queue's history before the other's. */
  lemma RealTimeOrder(s0: State, run1: seq<Action>, run2: seq<Action>)
    requires Initial(s0) && IsRun(s0, run1) && IsRun(After(s0, run1), run2)
    ensures var s1, s2 := After(s0, run1), After(After(s0, run1), run2);
            && s1.pushed <= s2.pushed && s1.popped <= s2.popped
            && (forall t: nat :: t < |s1.threads| ==> WithinCalls(s1, t, Handed(run1, t)))
            && forall t: nat :: By(s1.pushed, t) <= By(s2.pushed, t) && By(s1.popped, t) <= By(s2.popped, t)
  {
    InitialInv(s0);
    RunKeepsInv(s0, run1);
    RunKeepsThreads(s0, run1);
    var s1, s2 := After(s0, run1), After(After(s0, run1), run2);
    RunGrowsHistories(s1, run2);
    forall t: nat | t < |s1.threads|
      ensures WithinCalls(s1, t, Handed(run1, t))
    {
      EveryCallAccounted(s0, run1, t);
      AccountsWithinCalls(s1, t, Calls(run1, t));
    }
    forall t: nat
      ensures By(s1.pushed, t) <= By(s2.pushed, t) && By(s1.popped, t) <= By(s2.popped, t)
    {
      ByPrefix(s1.pushed, s2.pushed, t);
      ByPrefix(s1.popped, s2.popped, t);
    }
  }
}
