/** End to end: nothing is lost, duplicated, torn or reordered, and no wakeup is lost. */
module MonitorFifo {
  import opened Types
  import opened Ring
  import opened Monitor
  import opened MonitorSafety

  // ----- conservation and order -----

  function Items(es: seq<Entry>): (q: seq<Item>)
    ensures |q| == |es|
  {
    seq(|es|, i requires 0 <= i < |es| => es[i].item)
  }

  /** The items of one thread, in the order of the history. */
  function By(es: seq<Entry>, t: nat): seq<Item> {
    if es == [] then []
    else By(es[..|es| - 1], t) + (if es[|es| - 1].tid == t then [es[|es| - 1].item] else [])
  }

  lemma ByAppend(es: seq<Entry>, e: Entry, t: nat)
    ensures By(es + [e], t) == By(es, t) + (if e.tid == t then [e.item] else [])
  {
    assert (es + [e])[..|es|] == es;
  }

  /** Items copied in, in push order, are the items copied out, in pop order, followed by
      the items that the buffer's bytes decode to. */
  ghost predicate Conserved(s: State)
    requires s.ring.Valid()
  {
    Items(s.pushed) == Items(s.popped) + s.ring.Contents()
  }

  /** A put that has begun but not published yet. */
  function Unpublished(pc: Pc): seq<Item> {
    if pc.PutLock? || pc.PutCheck? || pc.PutCopy? then [pc.item] else []
  }

  /** An item popped but not returned yet. */
  function Undelivered(pc: Pc): seq<Item> {
    if pc.GetUnlock? && pc.result.Some? then [pc.result.value] else []
  }

  /** A thread's puts enter the queue in call order, and its gets return exactly what it popped, in order. */
  ghost predicate OrderedAt(s: State, t: nat)
    requires t < |s.threads|
  {
    && s.threads[t].sent == By(s.pushed, t) + Unpublished(s.threads[t].pc)
    && By(s.popped, t) == s.threads[t].got + Undelivered(s.threads[t].pc)
  }

  ghost predicate Ordered(s: State) {
    forall t: nat :: t < |s.threads| ==> OrderedAt(s, t)
  }

  lemma ItemsAppend(es: seq<Entry>, e: Entry)
    ensures Items(es + [e]) == Items(es) + [e.item]
  {
  }

  /** Appending to the back of the queue, and moving its front to the items taken, both conserve. */
  lemma QueueConserves(pushed: seq<Entry>, popped: seq<Entry>, q: seq<Item>, q': seq<Item>, e: Entry)
    requires Items(pushed) == Items(popped) + q
    ensures q' == q + [e.item] ==> Items(pushed + [e]) == Items(popped) + q'
    ensures q == [e.item] + q' ==> Items(pushed) == Items(popped + [e]) + q'
  {
    ItemsAppend(pushed, e);
    ItemsAppend(popped, e);
    assert (Items(popped) + q) + [e.item] == Items(popped) + (q + [e.item]);
    assert Items(popped) + ([e.item] + q') == (Items(popped) + [e.item]) + q';
  }

  lemma NextConserves(s: State, a: Action)
    requires Sane(s) && Enabled(s, a) && Conserved(s)
    ensures Next(s, a).ring.Valid() && Conserved(Next(s, a))
  {
    NextRingValid(s, a);
    var q, q' := s.ring.Contents(), Next(s, a).ring.Contents();
    if Publishes(s, a) {
      PublishEffect(s, a);
      QueueConserves(s.pushed, s.popped, q, q', Entry(a.t, s.threads[a.t].pc.item));
    } else if Takes(s, a) {
      TakeEffect(s, a);
      QueueConserves(s.pushed, s.popped, q, q', Entry(a.t, s.threads[a.t].pc.out));
    } else {
      QuietEffect(s, a);
    }
  }

  /** Between two records of a thread nothing was published or taken, and at most one put begun. */
  ghost predicate SameAccounts(th: Thread, th': Thread) {
    && ((th'.sent == th.sent && Unpublished(th'.pc) == Unpublished(th.pc)) ||
        (th'.sent == th.sent + Unpublished(th'.pc) && Unpublished(th.pc) == []))
    && th'.got + Undelivered(th'.pc) == th.got + Undelivered(th.pc)
  }

  lemma PutKeepsAccounts(s: State, t: nat, wake: set<nat>)
    requires Sane(s) && Enabled(s, Run(t, wake)) && InPut(s.threads[t].pc) && !Publishes(s, Run(t, wake))
    ensures t < |StepPut(s, t, wake).threads| && SameAccounts(s.threads[t], StepPut(s, t, wake).threads[t])
  {
    assert LocalOk(s, t);
  }

  lemma GetKeepsHistory(s: State, t: nat)
    requires Sane(s) && t < |s.threads| && !InPut(s.threads[t].pc) && !s.threads[t].pc.GetPop? && !s.threads[t].pc.GetUnlock?
    ensures t < |StepGet(s, t).threads|
    ensures var th, th' := s.threads[t], StepGet(s, t).threads[t];
            th'.sent == th.sent && th'.got == th.got && Unpublished(th'.pc) == [] && Undelivered(th'.pc) == []
  {
  }

  lemma GetKeepsAccounts(s: State, t: nat)
    requires Sane(s) && t < |s.threads| && !InPut(s.threads[t].pc) && !s.threads[t].pc.GetPop?
    ensures t < |StepGet(s, t).threads| && SameAccounts(s.threads[t], StepGet(s, t).threads[t])
  {
    GetMovesOnlyItself(s, t);
    if s.threads[t].pc.GetUnlock? {
      assert SameAccounts(s.threads[t], StepGet(s, t).threads[t]);
    } else {
      GetKeepsHistory(s, t);
    }
  }

  /** A step that neither publishes nor takes keeps each thread's account of its own items. */
  lemma QuietKeepsAccounts(s: State, a: Action, t: nat)
    requires Sane(s) && Enabled(s, a) && !Publishes(s, a) && !Takes(s, a)
    requires t < |s.threads|
    ensures t < |Next(s, a).threads| && SameAccounts(s.threads[t], Next(s, a).threads[t])
  {
    SameThreadCount(s, a);
    if t != a.t {
      OthersMoveOnlyByWaking(s, a, t);
    } else if a.Run? && !s.threads[t].pc.User? {
      if InPut(s.threads[t].pc) { PutKeepsAccounts(s, t, a.wake); }
      else if !InSize(s.threads[t].pc) { GetKeepsAccounts(s, t); }
    }
  }

  lemma PublishKeepsOrder(s: State, a: Action, t: nat)
    requires Sane(s) && Enabled(s, a) && Publishes(s, a) && t < |s.threads| && OrderedAt(s, t)
    ensures t < |Next(s, a).threads| && OrderedAt(Next(s, a), t)
  {
    PublishEffect(s, a);
    ByAppend(s.pushed, Entry(a.t, s.threads[a.t].pc.item), t);
  }

  lemma TakerRecord(s: State, a: Action)
    requires Sane(s) && Enabled(s, a) && Takes(s, a)
    ensures a.t < |Next(s, a).threads|
    ensures var th, th' := s.threads[a.t], Next(s, a).threads[a.t];
            && th'.sent == th.sent && Unpublished(th'.pc) == Unpublished(th.pc)
            && th'.got == th.got && Undelivered(th.pc) == [] && Undelivered(th'.pc) == [th.pc.out]
  {
    TakeEffect(s, a);
  }

  lemma TakeKeepsOrder(s: State, a: Action, t: nat)
    requires Sane(s) && Enabled(s, a) && Takes(s, a) && t < |s.threads| && OrderedAt(s, t)
    ensures t < |Next(s, a).threads| && OrderedAt(Next(s, a), t)
  {
    TakeEffect(s, a);
    OnlyMoverChanges(s, a);
    ByAppend(s.popped, Entry(a.t, s.threads[a.t].pc.out), t);
    if t == a.t { TakerRecord(s, a); }
  }

  lemma QuietKeepsOrder(s: State, a: Action, t: nat)
    requires Sane(s) && Enabled(s, a) && !Publishes(s, a) && !Takes(s, a) && t < |s.threads| && OrderedAt(s, t)
    ensures t < |Next(s, a).threads| && OrderedAt(Next(s, a), t)
  {
    QuietEffect(s, a);
    QuietKeepsAccounts(s, a, t);
    assert By(s.pushed, t) + [] == By(s.pushed, t);
  }

  lemma NextKeepsOrder(s: State, a: Action)
    requires Sane(s) && Enabled(s, a) && Ordered(s)
    ensures Ordered(Next(s, a))
  {
    SameThreadCount(s, a);
    forall t: nat | t < |s.threads|
      ensures OrderedAt(Next(s, a), t)
    {
      if Publishes(s, a) {
        PublishKeepsOrder(s, a, t);
      } else if Takes(s, a) {
        TakeKeepsOrder(s, a, t);
      } else {
        QuietKeepsOrder(s, a, t);
      }
    }
  }

  // ----- counting threads -----

  datatype Kind =
    | Sleeper    // blocked on the condition variable
    | Server     // signalled, or in a position to take or to announce an item
    | Announcer  // inserted an item, callback not begun

  predicate Is(pc: Pc, k: Kind) {
    match k
    case Sleeper => pc.Asleep?
    case Server =>
      || pc.Woken? || pc.PutSignal?
      || pc.GetTest? || pc.GetCheck? || pc.GetFront? || pc.GetCopy? || pc.GetPop?
    case Announcer => pc.PutSignal? || pc.PutUnlock? || pc.PutCallback?
  }

  function One(pc: Pc, k: Kind): nat {
    if Is(pc, k) then 1 else 0
  }

  function Count(ts: seq<Thread>, k: Kind): nat {
    if ts == [] then 0 else Count(ts[..|ts| - 1], k) + One(ts[|ts| - 1].pc, k)
  }

  lemma {:induction false} CountUpdate(ts: seq<Thread>, t: nat, th: Thread, k: Kind)
    requires t < |ts|
    ensures Count(ts[t := th], k) + One(ts[t].pc, k) == Count(ts, k) + One(th.pc, k)
  {
    var n := |ts| - 1;
    if t == n {
      assert ts[t := th][..n] == ts[..n];
    } else {
      CountUpdate(ts[..n], t, th, k);
      assert ts[t := th][..n] == ts[..n][t := th];
    }
  }

  lemma {:induction false} CountPositive(ts: seq<Thread>, k: Kind)
    ensures Count(ts, k) > 0 <==> exists i: nat :: i < |ts| && Is(ts[i].pc, k)
  {
    if ts != [] {
      var n := |ts| - 1;
      CountPositive(ts[..n], k);
      if Is(ts[n].pc, k) { assert Is(ts[n].pc, k); }
      if Count(ts[..n], k) > 0 {
        var i: nat :| i < n && Is(ts[..n][i].pc, k);
        assert Is(ts[i].pc, k);
      }
    }
  }

  ghost predicate NoFewer(ts: seq<Thread>, ts': seq<Thread>, k: Kind) {
    |ts| == |ts'| && forall i: nat :: i < |ts| ==> One(ts[i].pc, k) <= One(ts'[i].pc, k)
  }

  lemma {:induction false} CountMonotone(ts: seq<Thread>, ts': seq<Thread>, k: Kind)
    requires NoFewer(ts, ts', k)
    ensures Count(ts, k) <= Count(ts', k)
    ensures forall i: nat :: i < |ts| && !Is(ts[i].pc, k) && Is(ts'[i].pc, k) ==> Count(ts, k) < Count(ts', k)
  {
    if ts != [] {
      var n := |ts| - 1;
      CountMonotone(ts[..n], ts'[..n], k);
      forall i: nat | i < |ts| && !Is(ts[i].pc, k) && Is(ts'[i].pc, k)
        ensures Count(ts, k) < Count(ts', k)
      {
        if i < n { assert ts[..n][i] == ts[i] && ts'[..n][i] == ts'[i]; }
        assert One(ts[n].pc, k) <= One(ts'[n].pc, k);
      }
    }
  }

  /** Waking turns sleepers into servers, at least one if a sleeper was chosen. */
  lemma CountRouse(ts: seq<Thread>, wake: set<nat>)
    ensures Count(Rouse(ts, wake), Server) >= Count(ts, Server)
    ensures Count(Rouse(ts, wake), Announcer) == Count(ts, Announcer)
    ensures Count(Rouse(ts, wake), Sleeper) <= Count(ts, Sleeper)
    ensures forall i: nat :: i in wake && IsAsleep(ts, i) ==> Count(Rouse(ts, wake), Server) > Count(ts, Server)
  {
    var roused := Rouse(ts, wake);
    CountMonotone(ts, roused, Server);
    CountMonotone(ts, roused, Announcer);
    CountMonotone(roused, ts, Announcer);
    CountMonotone(roused, ts, Sleeper);
    forall i: nat | i in wake && IsAsleep(ts, i)
      ensures Count(roused, Server) > Count(ts, Server)
    {
      assert !Is(ts[i].pc, Server) && Is(roused[i].pc, Server);
    }
  }

  // ----- no lost wakeup -----

  /** While somebody sleeps, every queued item has a thread that is going to take it or to
      announce it. */
  ghost predicate Awake(ts: seq<Thread>, queued: nat) {
    Count(ts, Sleeper) > 0 ==> queued <= Count(ts, Server)
  }

  lemma AwakeMove(ts: seq<Thread>, t: nat, th: Thread, queued: nat, queued': nat)
    requires t < |ts| && Awake(ts, queued)
    requires queued' == 0 ||
             ((Is(th.pc, Sleeper) ==> Is(ts[t].pc, Sleeper)) && queued' + One(ts[t].pc, Server) <= queued + One(th.pc, Server))
    ensures Awake(ts[t := th], queued')
  {
    CountUpdate(ts, t, th, Sleeper);
    CountUpdate(ts, t, th, Server);
  }

  /** The signal step replaces the announcer by a sleeper it woke, when there is one. */
  lemma SignalKeepsAwake(ts: seq<Thread>, t: nat, wake: set<nat>, queued: nat)
    requires t < |ts| && ts[t].pc.PutSignal? && SignalChoice(ts, wake) && Awake(ts, queued)
    ensures Awake(Rouse(ts, wake)[t := ts[t].(pc := PutUnlock)], queued)
  {
    var roused := Rouse(ts, wake);
    CountRouse(ts, wake);
    CountUpdate(roused, t, ts[t].(pc := PutUnlock), Sleeper);
    CountUpdate(roused, t, ts[t].(pc := PutUnlock), Server);
    CountPositive(ts, Sleeper);
    if Count(ts, Sleeper) > 0 {
      var i: nat :| i < |ts| && Is(ts[i].pc, Sleeper);
      assert IsAsleep(ts, i);
      var j :| j in wake;
      assert IsAsleep(ts, j);
    }
  }

  lemma QuietServes(s: State, a: Action)
    requires Sane(s) && Enabled(s, a) && !Publishes(s, a) && !Takes(s, a)
    requires !(a.Run? && s.threads[a.t].pc.PutSignal?)
    ensures a.t < |Next(s, a).threads|
    ensures var th, th' := s.threads[a.t], Next(s, a).threads[a.t];
            || s.ring.Contents() == []
            || ((Is(th'.pc, Sleeper) ==> Is(th.pc, Sleeper)) && One(th.pc, Server) <= One(th'.pc, Server))
  {
    assert LocalOk(s, a.t);
    ObserversAgree(s.ring);
  }

  lemma NextKeepsAwake(s: State, a: Action)
    requires Sane(s) && Enabled(s, a) && Awake(s.threads, |s.ring.Contents()|)
    ensures Next(s, a).ring.Valid() && Awake(Next(s, a).threads, |Next(s, a).ring.Contents()|)
  {
    var s', t := Next(s, a), a.t;
    if Publishes(s, a) {
      PublishEffect(s, a);
      AwakeMove(s.threads, t, s'.threads[t], |s.ring.Contents()|, |s'.ring.Contents()|);
    } else if Takes(s, a) {
      TakeEffect(s, a);
      AwakeMove(s.threads, t, s'.threads[t], |s.ring.Contents()|, |s'.ring.Contents()|);
    } else {
      QuietEffect(s, a);
      if a.Run? && s.threads[t].pc.PutSignal? {
        SignalKeepsAwake(s.threads, t, a.wake, |s.ring.Contents()|);
      } else {
        OnlyMoverChanges(s, a);
        QuietServes(s, a);
        AwakeMove(s.threads, t, s'.threads[t], |s.ring.Contents()|, |s'.ring.Contents()|);
      }
    }
  }

  // ----- callbacks -----

  /** Callbacks begun plus inserted items still to be announced are all the items ever pushed. */
  ghost predicate Announced(s: State) {
    if s.callback then s.callbacks + Count(s.threads, Announcer) == |s.pushed| else s.callbacks == 0
  }

  /** Of the steps that leave `pushed` alone, one begins a callback; the others keep the mover's status. */
  lemma QuietAnnounces(s: State, a: Action)
    requires Sane(s) && Enabled(s, a) && !Publishes(s, a)
    ensures a.t < |Next(s, a).threads| && Next(s, a).callback == s.callback
    ensures s.callback ==>
              Next(s, a).callbacks + One(Next(s, a).threads[a.t].pc, Announcer) == s.callbacks + One(s.threads[a.t].pc, Announcer)
    ensures !s.callback ==> Next(s, a).callbacks == s.callbacks
  {
    assert LocalOk(s, a.t);
  }

  lemma QuietPushes(s: State, a: Action)
    requires Sane(s) && Enabled(s, a) && !Publishes(s, a)
    ensures Next(s, a).pushed == s.pushed
  {
    assert LocalOk(s, a.t);
  }

  lemma NextKeepsAnnounced(s: State, a: Action)
    requires Sane(s) && Enabled(s, a) && Announced(s)
    ensures Announced(Next(s, a))
  {
    var t := a.t;
    if Publishes(s, a) {
      PublishEffect(s, a);
    } else {
      QuietAnnounces(s, a);
      QuietPushes(s, a);
    }
    if a.Run? && s.threads[t].pc.PutSignal? {
      CountRouse(s.threads, a.wake);
      CountUpdate(Rouse(s.threads, a.wake), t, Next(s, a).threads[t], Announcer);
    } else {
      OnlyMoverChanges(s, a);
      CountUpdate(s.threads, t, Next(s, a).threads[t], Announcer);
    }
  }

  /** Without a callback installed no thread is ever inside one. */
  ghost predicate NoneInCallback(s: State) {
    !s.callback ==> forall t: nat :: t < |s.threads| ==> s.threads[t].nest == 0
  }

  lemma NextNest(s: State, a: Action, t: nat)
    requires Sane(s) && Enabled(s, a) && t < |s.threads|
    ensures t < |Next(s, a).threads| && Next(s, a).callback == s.callback
    ensures !s.callback && s.threads[t].nest == 0 ==> Next(s, a).threads[t].nest == 0
  {
    SameThreadCount(s, a);
    if t != a.t {
      OthersMoveOnlyByWaking(s, a, t);
    } else if a.Run? && !s.threads[t].pc.User? {
      assert LocalOk(s, t);
      if !InPut(s.threads[t].pc) && !InSize(s.threads[t].pc) { GetMovesOnlyItself(s, t); }
    }
  }

  lemma NextKeepsNoneInCallback(s: State, a: Action)
    requires Sane(s) && Enabled(s, a) && NoneInCallback(s)
    ensures NoneInCallback(Next(s, a))
  {
    SameThreadCount(s, a);
    forall t: nat | t < |s.threads| && !Next(s, a).callback
      ensures Next(s, a).threads[t].nest == 0
    {
      NextNest(s, a, t);
    }
  }
}
