/** The POSIX queue as a system of interleaved steps: any number of threads call
    put, get and size on one RingPthread, and the scheduler picks who moves next.
    A step is one lock operation, one condition-variable operation, one test or one
    byte of a copy. */
module Monitor {
  import opened Types
  import opened Ring

  // ----- state -----

  /** Where a thread is. `User` is the caller's own code: outside the queue, or in the body
      of a signal callback when `nest` is positive. */
  datatype Pc =
    | User
    | PutLock(item: Item)
    | PutCheck(item: Item)
    | PutCopy(item: Item, done: nat)
    | PutSignal
    | PutUnlock
    | PutCallback
    | GetLock(tmo: nat)
    | GetTest(tmo: nat)
    | GetWait(tmo: nat)
    | Asleep(tmo: nat)
    | Woken(tmo: nat)
    | GetCheck(tmo: nat)
    | GetFront(tmo: nat)
    | GetCopy(tmo: nat, at: nat, out: Item)
    | GetPop(tmo: nat, out: Item)
    | GetUnlock(tmo: nat, result: Option<Item>)
    | SizeLock
    | SizeRead
    | SizeUnlock(n: nat)

  /** `nest` counts the callbacks the thread is inside of. `sent` lists the items of its puts in
      call order; `got` lists what its gets returned and `sizes` what its size calls returned, in
      return order; `misses` counts its POS_TIMEOUT results and `puts` its puts that returned. */
  datatype Thread = Thread(pc: Pc, nest: nat, sent: seq<Item>, got: seq<Item>, misses: nat, puts: nat, sizes: seq<nat>)

  /** An item with the thread that pushed or popped it. */
  datatype Entry = Entry(tid: nat, item: Item)

  /** `pushed`, `popped` and `callbacks` are the history; `aborted` is a failed assertion. */
  datatype State = State(
    ring: Ring, owner: Option<nat>, depth: nat, threads: seq<Thread>, callback: bool,
    pushed: seq<Entry>, popped: seq<Entry>, callbacks: nat, aborted: bool)
  {
    function Goto(t: nat, pc: Pc): State
      requires t < |threads|
    {
      this.(threads := threads[t := threads[t].(pc := pc)])
    }

    /** `pthread_mutex_lock` by `t`, once the mutex is available to it. */
    function Lock(t: nat): State {
      this.(owner := Some(t), depth := depth + 1)
    }

    /** One `pthread_mutex_unlock`: the mutex is free only when the count drops to zero. */
    function Unlock(): State {
      this.(owner := if depth <= 1 then None else owner, depth := if depth == 0 then 0 else depth - 1)
    }

    predicate Available(t: nat) {
      owner == None || owner == Some(t)
    }
  }

  /** The calls of the C interface. Its time type may be 64 bits wide; the ring's is `uint32_t`. */
  datatype Call = Put(item: Item) | Get(tmo: nat) | GetSize

  /** A thread starts a call, or runs one step, or wakes up for no reason. The set `wake` is the
      scheduler's choice of sleepers that a signal unblocks. */
  datatype Action =
    | Begin(t: nat, call: Call)
    | Run(t: nat, wake: set<nat>)
    | Spurious(t: nat)

  // ----- which steps are possible -----

  predicate IsAsleep(ts: seq<Thread>, i: nat) {
    i < |ts| && ts[i].pc.Asleep?
  }

  /** A signal unblocks at least one sleeper if there is any. */
  ghost predicate SignalChoice(ts: seq<Thread>, wake: set<nat>) {
    && (forall i :: i in wake ==> IsAsleep(ts, i))
    && ((exists i: nat :: IsAsleep(ts, i)) ==> wake != {})
  }

  ghost function Rouse(ts: seq<Thread>, wake: set<nat>): (ts': seq<Thread>)
    ensures |ts'| == |ts|
  {
    seq(|ts|, i requires 0 <= i < |ts| =>
      if i in wake && ts[i].pc.Asleep? then ts[i].(pc := Woken(ts[i].pc.tmo)) else ts[i])
  }

  ghost predicate Enabled(s: State, a: Action) {
    && !s.aborted
    && a.t < |s.threads|
    && var th := s.threads[a.t];
       match a
       case Begin(_, call) => th.pc.User? && (call.Put? ==> |call.item| == s.ring.itemSize)
       case Spurious(_) => th.pc.Asleep?
       case Run(t, wake) =>
         match th.pc
         case User => th.nest > 0
         case Asleep(_) => false
         case PutLock(_) => s.Available(t)
         case GetLock(_) => s.Available(t)
         case SizeLock => s.Available(t)
         case Woken(_) => s.Available(t)
         case PutSignal => SignalChoice(s.threads, wake)
         case _ => true
  }

  /** The call a thread begins; a put hands over its item, a get its waiting time cut to 32 bits. */
  function Start(s: State, t: nat, call: Call): State
    requires t < |s.threads|
  {
    var th := s.threads[t];
    match call
    case Put(item) => s.(threads := s.threads[t := th.(pc := PutLock(item), sent := th.sent + [item])])
    case Get(tmo) => s.Goto(t, GetLock(U32(tmo)))
    case GetSize => s.Goto(t, SizeLock)
  }

  // ----- what the threads know -----

  /** What each thread knows at its program point. */
  ghost predicate LocalOk(s: State, t: nat)
    requires s.ring.Valid() && t < |s.threads|
  {
    var q := s.ring.Contents();
    match s.threads[t].pc
    case PutLock(item) => |item| == s.ring.itemSize
    case PutCheck(item) => |item| == s.ring.itemSize
    case PutCopy(item, done) =>
      && |item| == s.ring.itemSize && done <= |item|
      && !s.ring.Full()
      && s.ring.Slot(s.ring.writeIndex)[..done] == item[..done]
    case GetWait(tmo) => tmo != 0 && q == []
    case Asleep(tmo) => tmo != 0
    case Woken(tmo) => tmo != 0
    case GetCheck(tmo) => tmo != 0 ==> q != []
    case GetFront(_) => q != []
    case GetCopy(_, at, out) =>
      && q != [] && at == s.ring.Offset(s.ring.readIndex)
      && |out| <= s.ring.itemSize && out == s.ring.Slot(s.ring.readIndex)[..|out|]
    case GetPop(_, out) => q != [] && out == q[0]
    case GetUnlock(tmo, result) =>
      if result.None? then tmo == 0 && q == []
      else s.popped != [] && s.popped[|s.popped| - 1] == Entry(t, result.value)
    case SizeUnlock(n) => n == |q|
    case _ => true
  }

  ghost predicate Sane(s: State) {
    s.ring.Valid() && forall i: nat :: i < |s.threads| ==> LocalOk(s, i)
  }

  // ----- the steps of each call -----

  /** `put` and the callback that follows it. */
  ghost function StepPut(s: State, t: nat, wake: set<nat>): State
    requires Sane(s) && t < |s.threads|
  {
    var th := s.threads[t];
    match th.pc
    case PutLock(item) => s.Lock(t).Goto(t, PutCheck(item))
    case PutCheck(item) => if s.ring.Full() then s.(aborted := true) else s.Goto(t, PutCopy(item, 0))
    case PutCopy(item, done) =>
      assert LocalOk(s, t);
      if done < s.ring.itemSize then
        s.(ring := s.ring.WithByte(done, item[done])).Goto(t, PutCopy(item, done + 1))
      else
        s.(ring := s.ring.(writeIndex := s.ring.Inc(s.ring.writeIndex)), pushed := s.pushed + [Entry(t, item)]).Goto(t, PutSignal)
    case PutSignal => s.(threads := Rouse(s.threads, wake)).Goto(t, PutUnlock)
    case PutUnlock => s.Unlock().Goto(t, PutCallback)
    case PutCallback =>
      if s.callback then
        s.(callbacks := s.callbacks + 1, threads := s.threads[t := th.(pc := User, nest := th.nest + 1)])
      else
        s.(threads := s.threads[t := th.(pc := User, puts := th.puts + 1)])
    case _ => s
  }

  ghost function StepGet(s: State, t: nat): State
    requires Sane(s) && t < |s.threads|
  {
    var th := s.threads[t];
    match th.pc
    case GetLock(tmo) => s.Lock(t).Goto(t, GetTest(tmo))
    case GetTest(tmo) => s.Goto(t, if tmo != 0 && s.ring.Size() == 0 then GetWait(tmo) else GetCheck(tmo))
    case GetWait(tmo) => s.Unlock().Goto(t, Asleep(tmo))
    case Woken(tmo) => s.Lock(t).Goto(t, GetTest(tmo))
    case GetCheck(tmo) => s.Goto(t, if s.ring.Size() != 0 then GetFront(tmo) else GetUnlock(tmo, None))
    case GetFront(tmo) =>
      s.Goto(t, if s.ring.Empty() then GetUnlock(tmo, None) else GetCopy(tmo, s.ring.Offset(s.ring.readIndex), []))
    case GetCopy(tmo, at, out) =>
      assert LocalOk(s, t);
      s.Goto(t, if |out| < s.ring.itemSize then GetCopy(tmo, at, out + [s.ring.buffer[at + |out|]]) else GetPop(tmo, out))
    case GetPop(tmo, out) =>
      if s.ring.Empty() then s.(aborted := true)
      else s.(ring := s.ring.Popped(), popped := s.popped + [Entry(t, out)]).Goto(t, GetUnlock(tmo, Some(out)))
    case GetUnlock(tmo, result) =>
      var u := s.Unlock();
      u.(threads := u.threads[t :=
        if result.Some? then th.(pc := User, got := th.got + [result.value]) else th.(pc := User, misses := th.misses + 1)])
    case _ => s
  }

  function StepSize(s: State, t: nat): State
    requires t < |s.threads|
  {
    var th := s.threads[t];
    match th.pc
    case SizeLock => s.Lock(t).Goto(t, SizeRead)
    case SizeRead => s.Goto(t, SizeUnlock(s.ring.Size()))
    case SizeUnlock(n) =>
      var u := s.Unlock();
      u.(threads := u.threads[t := th.(pc := User, sizes := th.sizes + [n])])
    case _ => s
  }

  predicate InPut(pc: Pc) {
    pc.PutLock? || pc.PutCheck? || pc.PutCopy? || pc.PutSignal? || pc.PutUnlock? || pc.PutCallback?
  }

  predicate InGet(pc: Pc) {
    || pc.GetLock? || pc.GetTest? || pc.GetWait? || pc.Asleep? || pc.Woken? || pc.GetCheck?
    || pc.GetFront? || pc.GetCopy? || pc.GetPop? || pc.GetUnlock?
  }

  predicate InSize(pc: Pc) {
    pc.SizeLock? || pc.SizeRead? || pc.SizeUnlock?
  }

  ghost function Next(s: State, a: Action): State
    requires Sane(s) && Enabled(s, a)
  {
    var th := s.threads[a.t];
    match a
    case Begin(t, call) => Start(s, t, call)
    case Spurious(t) => s.Goto(t, Woken(th.pc.tmo))
    case Run(t, wake) =>
      // the callback returns, and with it the put that ran it
      if th.pc.User? then s.(threads := s.threads[t := th.(nest := th.nest - 1, puts := th.puts + 1)])
      else if InPut(th.pc) then StepPut(s, t, wake)
      else if InSize(th.pc) then StepSize(s, t)
      else StepGet(s, t)
  }

  // ----- the mutex -----

  /** The program points inside the mutex. */
  predicate Holds(pc: Pc) {
    || pc.PutCheck? || pc.PutCopy? || pc.PutSignal? || pc.PutUnlock?
    || pc.GetTest? || pc.GetWait? || pc.GetCheck? || pc.GetFront? || pc.GetCopy? || pc.GetPop? || pc.GetUnlock?
    || pc.SizeRead? || pc.SizeUnlock?
  }

  /** Mutual exclusion, at recursion depth exactly one. */
  ghost predicate MutexOk(s: State) {
    && (s.owner == None ==> s.depth == 0)
    && (s.owner.Some? ==> s.depth == 1 && s.owner.value < |s.threads| && Holds(s.threads[s.owner.value].pc))
    && forall i: nat :: i < |s.threads| && Holds(s.threads[i].pc) ==> s.owner == Some(i)
  }
}
