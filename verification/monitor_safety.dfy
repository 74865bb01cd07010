/** Every step of the monitor keeps mutual exclusion, the local facts, and the bytes-to-queue view. */
module MonitorSafety {
  import opened Types
  import opened Ring
  import opened Monitor

  // ----- mutual exclusion -----

  lemma PutKeepsMutex(s: State, t: nat, wake: set<nat>)
    requires Sane(s) && MutexOk(s) && Enabled(s, Run(t, wake)) && InPut(s.threads[t].pc)
    ensures MutexOk(StepPut(s, t, wake))
  {
  }

  lemma GetKeepsMutex(s: State, t: nat, wake: set<nat>)
    requires Sane(s) && MutexOk(s) && Enabled(s, Run(t, wake))
    requires !InPut(s.threads[t].pc) && !InSize(s.threads[t].pc) && !s.threads[t].pc.User?
    ensures MutexOk(StepGet(s, t))
  {
  }

  lemma SizeKeepsMutex(s: State, t: nat, wake: set<nat>)
    requires Sane(s) && MutexOk(s) && Enabled(s, Run(t, wake)) && InSize(s.threads[t].pc)
    ensures MutexOk(StepSize(s, t))
  {
  }

  lemma NextKeepsMutex(s: State, a: Action)
    requires Sane(s) && MutexOk(s) && Enabled(s, a)
    ensures MutexOk(Next(s, a))
  {
    if a.Run? {
      if InPut(s.threads[a.t].pc) { PutKeepsMutex(s, a.t, a.wake); }
      else if InSize(s.threads[a.t].pc) { SizeKeepsMutex(s, a.t, a.wake); }
      else if !s.threads[a.t].pc.User? { GetKeepsMutex(s, a.t, a.wake); }
    }
  }

  // ----- local facts -----

  /** Only the holder of the mutex touches the ring or pops, and nobody changes the item size. */
  lemma OnlyHolderTouchesRing(s: State, a: Action)
    requires Sane(s) && MutexOk(s) && Enabled(s, a)
    ensures Next(s, a).ring.itemSize == s.ring.itemSize
    ensures !Holds(s.threads[a.t].pc) ==> Next(s, a).ring == s.ring && Next(s, a).popped == s.popped
  {
  }

  lemma GetMovesOnlyItself(s: State, t: nat)
    requires Sane(s) && t < |s.threads|
    ensures t < |StepGet(s, t).threads|
    ensures StepGet(s, t).threads == s.threads[t := StepGet(s, t).threads[t]]
  {
    var pc := s.threads[t].pc;
    if pc.GetCopy? || pc.GetPop? || pc.GetUnlock? {
    } else if pc.GetTest? || pc.GetCheck? || pc.GetFront? {
    } else {
    }
  }

  lemma PutMovesOnlyItself(s: State, t: nat, wake: set<nat>)
    requires Sane(s) && t < |s.threads| && !s.threads[t].pc.PutSignal?
    ensures t < |StepPut(s, t, wake).threads|
    ensures StepPut(s, t, wake).threads == s.threads[t := StepPut(s, t, wake).threads[t]]
  {
    assert LocalOk(s, t);
  }

  /** Every step but a signal replaces the record of the thread that moves, and nothing else. */
  lemma OnlyMoverChanges(s: State, a: Action)
    requires Sane(s) && Enabled(s, a)
    requires !(a.Run? && s.threads[a.t].pc.PutSignal?)
    ensures a.t < |Next(s, a).threads| && Next(s, a).threads == s.threads[a.t := Next(s, a).threads[a.t]]
  {
    if a.Run? && !s.threads[a.t].pc.User? {
      if InPut(s.threads[a.t].pc) { PutMovesOnlyItself(s, a.t, a.wake); }
      else if !InSize(s.threads[a.t].pc) { GetMovesOnlyItself(s, a.t); }
    }
  }

  /** A step of one thread leaves the record of the others alone, except that a signal may wake a sleeper. */
  lemma OthersMoveOnlyByWaking(s: State, a: Action, i: nat)
    requires Sane(s) && Enabled(s, a) && i < |s.threads| && i != a.t
    ensures |Next(s, a).threads| == |s.threads|
    ensures var th, th' := s.threads[i], Next(s, a).threads[i];
            th' == th || (th.pc.Asleep? && th' == th.(pc := Woken(th.pc.tmo)))
  {
    if !(a.Run? && s.threads[a.t].pc.PutSignal?) { OnlyMoverChanges(s, a); }
  }

  /** So the facts a thread relies on survive every step of every other thread. */
  lemma OthersUnaffected(s: State, a: Action, i: nat)
    requires Sane(s) && MutexOk(s) && Enabled(s, a)
    requires i < |s.threads| && i != a.t
    requires Next(s, a).ring.Valid()
    ensures i < |Next(s, a).threads| && LocalOk(Next(s, a), i)
  {
    assert LocalOk(s, i);
    OthersMoveOnlyByWaking(s, a, i);
    OnlyHolderTouchesRing(s, a);
    assert Holds(s.threads[i].pc) ==> s.owner == Some(i);
    assert Holds(s.threads[a.t].pc) ==> s.owner == Some(a.t);
  }

  // ----- the bytes of the ring -----

  /** Storing one more byte keeps the queue and extends the copied prefix. */
  lemma CopyInByte(r: Ring, item: Item, done: nat)
    requires r.Valid() && !r.Full() && |item| == r.itemSize && done < r.itemSize
    requires r.Slot(r.writeIndex)[..done] == item[..done]
    ensures var r' := r.WithByte(done, item[done]);
            && r'.Valid() && !r'.Full() && r'.Contents() == r.Contents()
            && r'.Slot(r'.writeIndex)[..done + 1] == item[..done + 1]
  {
    var r' := r.WithByte(done, item[done]);
    FreeSlotWrite(r, r');
    var w, w' := r.Slot(r.writeIndex), r'.Slot(r'.writeIndex);
    assert w' == w[done := item[done]];
    assert w'[..done + 1] == w[..done] + [item[done]];
  }

  /** The step that makes a pushed item visible. */
  ghost predicate Publishes(s: State, a: Action) {
    a.Run? && a.t < |s.threads| && s.threads[a.t].pc.PutCopy? && s.threads[a.t].pc.done == s.ring.itemSize
  }

  /** The step that takes an item out. */
  ghost predicate Takes(s: State, a: Action) {
    a.Run? && a.t < |s.threads| && s.threads[a.t].pc.GetPop?
  }

  lemma PublishEffect(s: State, a: Action)
    requires Sane(s) && Enabled(s, a) && Publishes(s, a)
    ensures var s', item := Next(s, a), s.threads[a.t].pc.item;
            && s'.ring.Valid()
            && s'.ring.Contents() == s.ring.Contents() + [item]
            && s'.pushed == s.pushed + [Entry(a.t, item)] && s'.popped == s.popped
  {
    assert LocalOk(s, a.t);
    AdvanceWrite(s.ring);
    var item := s.threads[a.t].pc.item;
    assert item[..s.ring.itemSize] == item;
    assert s.ring.Slot(s.ring.writeIndex)[..s.ring.itemSize] == s.ring.Slot(s.ring.writeIndex);
  }

  lemma TakeEffect(s: State, a: Action)
    requires Sane(s) && Enabled(s, a) && Takes(s, a)
    ensures var s', out := Next(s, a), s.threads[a.t].pc.out;
            && !s'.aborted
            && s'.ring.Valid()
            && s.ring.Contents() == [out] + s'.ring.Contents()
            && s'.pushed == s.pushed && s'.popped == s.popped + [Entry(a.t, out)]
  {
    assert LocalOk(s, a.t);
    ObserversAgree(s.ring);
    PopRemoves(s.ring);
  }

  lemma CopyEffect(s: State, a: Action)
    requires Sane(s) && Enabled(s, a) && !Publishes(s, a) && a.Run? && s.threads[a.t].pc.PutCopy?
    ensures var s' := Next(s, a);
            && s'.ring.Valid() && LocalOk(s', a.t)
            && s'.ring.Contents() == s.ring.Contents()
            && s'.pushed == s.pushed && s'.popped == s.popped
  {
    assert LocalOk(s, a.t);
    CopyInByte(s.ring, s.threads[a.t].pc.item, s.threads[a.t].pc.done);
  }

  /** No other step changes the queue. */
  lemma QuietEffect(s: State, a: Action)
    requires Sane(s) && Enabled(s, a) && !Publishes(s, a) && !Takes(s, a)
    ensures var s' := Next(s, a);
            && s'.ring.Valid()
            && s'.ring.Contents() == s.ring.Contents()
            && s'.pushed == s.pushed && s'.popped == s.popped
  {
    if a.Run? && s.threads[a.t].pc.PutCopy? { CopyEffect(s, a); }
  }

  lemma NextRingValid(s: State, a: Action)
    requires Sane(s) && Enabled(s, a)
    ensures Next(s, a).ring.Valid()
  {
    if Publishes(s, a) { PublishEffect(s, a); }
    else if Takes(s, a) { TakeEffect(s, a); }
    else { QuietEffect(s, a); }
  }

  // ----- the facts of the thread that moves -----

  lemma PutKeepsOwnFacts(s: State, t: nat, wake: set<nat>)
    requires Sane(s) && Enabled(s, Run(t, wake)) && InPut(s.threads[t].pc)
    ensures StepPut(s, t, wake).ring.Valid() && LocalOk(StepPut(s, t, wake), t)
  {
    assert LocalOk(s, t);
    NextRingValid(s, Run(t, wake));
    if s.threads[t].pc.PutCopy? && !Publishes(s, Run(t, wake)) {
      CopyEffect(s, Run(t, wake));
    }
  }

  /** One more byte copied out of the front slot. */
  lemma CopyOutByte(r: Ring, out: Item)
    requires r.Valid() && |out| < r.itemSize && out == r.Slot(r.readIndex)[..|out|]
    ensures out + [r.buffer[r.Offset(r.readIndex) + |out|]] == r.Slot(r.readIndex)[..|out| + 1]
  {
  }

  lemma FrontIsOldest(r: Ring, out: Item)
    requires r.Valid() && r.Contents() != []
    requires |out| == r.itemSize && out == r.Slot(r.readIndex)[..|out|]
    ensures out == r.Contents()[0]
  {
    ObserversAgree(r);
    PopRemoves(r);
  }

  lemma CopyOutKeepsOwnFacts(s: State, t: nat)
    requires Sane(s) && t < |s.threads| && s.threads[t].pc.GetCopy?
    ensures StepGet(s, t).ring == s.ring && LocalOk(StepGet(s, t), t)
  {
    assert LocalOk(s, t);
    var out := s.threads[t].pc.out;
    if |out| < s.ring.itemSize { CopyOutByte(s.ring, out); } else { FrontIsOldest(s.ring, out); }
  }

  lemma TestedContents(s: State, t: nat)
    requires s.ring.Valid() && t < |s.threads|
    ensures s.ring.Size() == 0 <==> s.ring.Contents() == []
    ensures s.ring.Slot(s.ring.readIndex)[..0] == []
  {
  }

  lemma TestsKeepOwnFacts(s: State, t: nat)
    requires Sane(s) && t < |s.threads|
    requires s.threads[t].pc.GetTest? || s.threads[t].pc.GetCheck? || s.threads[t].pc.GetFront?
    ensures StepGet(s, t).ring == s.ring && LocalOk(StepGet(s, t), t)
  {
    assert LocalOk(s, t);
    ObserversAgree(s.ring);
    TestedContents(s, t);
  }

  lemma GetKeepsOwnFacts(s: State, t: nat, wake: set<nat>)
    requires Sane(s) && Enabled(s, Run(t, wake))
    requires !InPut(s.threads[t].pc) && !InSize(s.threads[t].pc) && !s.threads[t].pc.User?
    ensures StepGet(s, t).ring.Valid() && LocalOk(StepGet(s, t), t)
  {
    assert LocalOk(s, t);
    if s.threads[t].pc.GetCopy? {
      CopyOutKeepsOwnFacts(s, t);
    } else if s.threads[t].pc.GetTest? || s.threads[t].pc.GetCheck? || s.threads[t].pc.GetFront? {
      TestsKeepOwnFacts(s, t);
    } else {
      NextRingValid(s, Run(t, wake));
    }
  }

  lemma NextKeepsOwnFacts(s: State, a: Action)
    requires Sane(s) && Enabled(s, a)
    ensures Next(s, a).ring.Valid() && a.t < |Next(s, a).threads| && LocalOk(Next(s, a), a.t)
  {
    assert LocalOk(s, a.t);
    NextRingValid(s, a);
    if a.Run? && !InSize(s.threads[a.t].pc) && !s.threads[a.t].pc.User? {
      if InPut(s.threads[a.t].pc) { PutKeepsOwnFacts(s, a.t, a.wake); } else { GetKeepsOwnFacts(s, a.t, a.wake); }
    }
  }

  lemma SameThreadCount(s: State, a: Action)
    requires Sane(s) && Enabled(s, a)
    ensures |Next(s, a).threads| == |s.threads|
  {
    if !(a.Run? && s.threads[a.t].pc.PutSignal?) { OnlyMoverChanges(s, a); }
  }

  /** Every step keeps mutual exclusion and the facts of all threads. */
  lemma NextKeepsSane(s: State, a: Action)
    requires Sane(s) && MutexOk(s) && Enabled(s, a)
    ensures Sane(Next(s, a)) && MutexOk(Next(s, a))
  {
    var s' := Next(s, a);
    NextKeepsMutex(s, a);
    NextRingValid(s, a);
    forall i: nat | i < |s'.threads|
      ensures LocalOk(s', i)
    {
      if i == a.t { NextKeepsOwnFacts(s, a); } else { SameThreadCount(s, a); OthersUnaffected(s, a, i); }
    }
  }
}
