/** `poski::OsMutex`: a recursion count kept in a plain field beside a recursive mutex. */
module Mutex {
  import opened Types

  lemma U32Step(x: int)
    ensures U32(U32(x) + 1) == U32(x + 1)
    ensures U32(U32(x) - 1) == U32(x - 1)
  {
  }

  // ----- one call at a time -----

  class OsMutex {
    // the native mutex
    var owner: Option<nat>
    var depth: nat
    // its mirror
    var lockDepth: nat

    ghost predicate Valid()
      reads this
    {
      (owner.None? <==> depth == 0) && lockDepth == U32(depth)
    }

    constructor (self: nat, lockOnConstruction: bool)
      ensures Valid()
      ensures if lockOnConstruction then owner == Some(self) && depth == 1 else owner == None
    {
      owner, depth, lockDepth := None, 0, 0;
      if lockOnConstruction {
        owner, depth, lockDepth := Some(self), 1, 1;
      }
    }

    method NativeLock(self: nat, fails: bool) returns (err: Error)
      requires fails || owner == None || owner == Some(self)
      modifies this`owner, this`depth
      ensures err == if fails then Timeout else Ok
      ensures err == Ok ==> owner == Some(self) && depth == old(depth) + 1
      ensures err != Ok ==> owner == old(owner) && depth == old(depth)
    {
      if fails { return Timeout; }
      owner, depth := Some(self), depth + 1;
      err := Ok;
    }

    method NativeUnlock(self: nat, fails: bool) returns (err: Error)
      requires owner.Some? ==> depth > 0
      modifies this`owner, this`depth
      ensures err == Ok <==> !fails && old(owner) == Some(self)
      ensures err == Ok ==> depth == old(depth) - 1 && owner == (if depth == 0 then None else Some(self))
      ensures err != Ok ==> owner == old(owner) && depth == old(depth)
    {
      if fails || owner != Some(self) { return Failure; }
      depth := depth - 1;
      if depth == 0 { owner := None; }
      err := Ok;
    }

    /** `fails` is a timeout; without one the call lasts until the mutex is available. */
    method Lock(self: nat, fails: bool) returns (err: Error)
      requires Valid() && (fails || owner == None || owner == Some(self))
      modifies this
      ensures Valid() && (err == Ok <==> !fails)
      ensures err == Ok ==> owner == Some(self) && depth == old(depth) + 1
      ensures err != Ok ==> owner == old(owner) && depth == old(depth) && lockDepth == old(lockDepth)
    {
      err := NativeLock(self, fails);
      if err == Ok {
        U32Step(old(depth));
        lockDepth := U32(lockDepth + 1);
      }
    }

    /** Called by the owner; `lockDepth > 0` is the assertion of the code. */
    method Unlock(self: nat, fails: bool) returns (err: Error)
      requires Valid() && owner == Some(self) && lockDepth > 0
      modifies this
      ensures Valid() && (err == Ok <==> !fails)
      ensures err == Ok ==> depth == old(depth) - 1 && owner == (if depth == 0 then None else Some(self))
      ensures err != Ok ==> owner == old(owner) && depth == old(depth) && lockDepth == old(lockDepth)
    {
      U32Step(depth);
      lockDepth := U32(lockDepth - 1);
      err := NativeUnlock(self, fails);
      if err != Ok {
        U32Step(depth - 1);
        lockDepth := U32(lockDepth + 1);
      }
    }

    /** The destructor, run by the owner if there is one: as many native unlocks as the mirror
        says, none of which fails. It frees the mutex exactly if the depth was below 2^32. */
    method Destroy(self: nat) returns (unlocks: nat)
      requires Valid() && (owner == None || owner == Some(self))
      modifies this
      ensures Valid() && lockDepth == 0
      ensures unlocks == old(lockDepth) && depth == old(depth) - unlocks
      ensures owner == None <==> old(depth) < 0x1_0000_0000
      ensures owner == None || owner == Some(self)
    {
      unlocks := 0;
      while lockDepth > 0
        invariant Valid() && (owner == None || owner == Some(self))
        invariant unlocks + lockDepth == old(lockDepth) && depth == old(depth) - unlocks
        decreases lockDepth
      {
        U32Step(depth);
        var err := NativeUnlock(self, false);
        assert err == Ok;
        lockDepth := U32(lockDepth - 1);
        unlocks := unlocks + 1;
      }
    }
  }

  // ----- many threads, one memory access at a time -----

  /** `lock_depth_++` and `lock_depth_--` are a read and a later write of the value read. */
  datatype Pc =
    | Idle
    | LockNative
    | LockRead
    | LockWrite(v: nat)
    | UnlockAssert
    | UnlockRead
    | UnlockWrite(v: nat)
    | UnlockNative
    | RevertRead
    | RevertWrite(v: nat)

  /** `held` is the thread's native locks minus its native unlocks. */
  datatype Thread = Thread(pc: Pc, held: int)

  datatype State = State(owner: Option<nat>, depth: nat, lockDepth: nat, threads: seq<Thread>, writes: int, aborted: bool) {
    function Goto(t: nat, pc: Pc): State
      requires t < |threads|
    {
      this.(threads := threads[t := threads[t].(pc := pc)])
    }

    function Write(v: int): State {
      this.(lockDepth := U32(v))
    }
  }

  /** A thread calls Lock or Unlock, or makes one step; if the step is a native call it may fail. */
  datatype Action = CallLock(t: nat) | CallUnlock(t: nat) | Step(t: nat, fails: bool)

  /** Unlock is called by the owner only. */
  predicate Enabled(s: State, a: Action) {
    && !s.aborted && a.t < |s.threads|
    && var pc := s.threads[a.t].pc;
       match a
       case CallLock(_) => pc.Idle?
       case CallUnlock(t) => pc.Idle? && s.owner == Some(t)
       case Step(t, fails) =>
         && !pc.Idle? && (fails ==> pc.LockNative? || pc.UnlockNative?)
         && (pc.LockNative? && !fails ==> s.owner == None || s.owner == Some(t))
  }

  /** `writes` counts the increments written to the mirror minus the decrements. */
  function Next(s: State, a: Action): State
    requires Enabled(s, a)
  {
    var t := a.t;
    var th := s.threads[t];
    match a
    case CallLock(_) => s.Goto(t, LockNative)
    case CallUnlock(_) => s.Goto(t, UnlockAssert)
    case Step(_, fails) =>
      match th.pc
      case Idle => s
      case LockNative =>
        if fails then s.Goto(t, Idle)
        else s.(owner := Some(t), depth := s.depth + 1, threads := s.threads[t := Thread(LockRead, th.held + 1)])
      case LockRead => s.Goto(t, LockWrite(s.lockDepth))
      case LockWrite(v) => s.Write(v + 1).(writes := s.writes + 1).Goto(t, Idle)
      case UnlockAssert => if s.lockDepth > 0 then s.Goto(t, UnlockRead) else s.(aborted := true)
      case UnlockRead => s.Goto(t, UnlockWrite(s.lockDepth))
      case UnlockWrite(v) => s.Write(v - 1).(writes := s.writes - 1).Goto(t, UnlockNative)
      case UnlockNative =>
        if fails || s.owner != Some(t) then s.Goto(t, RevertRead)
        else s.(
          owner := if s.depth <= 1 then None else s.owner,
          depth := if s.depth == 0 then 0 else s.depth - 1,
          threads := s.threads[t := Thread(Idle, th.held - 1)])
      case RevertRead => s.Goto(t, RevertWrite(s.lockDepth))
      case RevertWrite(v) => s.Write(v + 1).(writes := s.writes + 1).Goto(t, Idle)
  }

  /** The points at which a thread is about to touch the mirror. */
  predicate Touches(pc: Pc) {
    || pc.LockRead? || pc.LockWrite? || pc.UnlockAssert? || pc.UnlockRead? || pc.UnlockWrite?
    || pc.RevertRead? || pc.RevertWrite?
  }

  /** Between native lock and increment, and between decrement and native unlock (or the write
      that reverts it), the mirror is one behind. */
  function Lag(pc: Pc): nat {
    if pc.LockRead? || pc.LockWrite? || pc.UnlockNative? || pc.RevertRead? || pc.RevertWrite? then 1 else 0
  }

  function OwnerLag(s: State): nat
    requires s.owner.Some? ==> s.owner.value < |s.threads|
  {
    if s.owner.Some? then Lag(s.threads[s.owner.value].pc) else 0
  }

  ghost predicate ThreadOk(s: State, t: nat)
    requires t < |s.threads|
  {
    var th := s.threads[t];
    && (Touches(th.pc) || th.pc.UnlockNative? ==> s.owner == Some(t))
    && th.held == (if s.owner == Some(t) then s.depth else 0)
    && (th.pc.LockWrite? || th.pc.UnlockWrite? || th.pc.RevertWrite? ==> th.pc.v == s.lockDepth)
  }

  ghost predicate Inv(s: State) {
    && (s.owner.None? <==> s.depth == 0)
    && (s.owner.Some? ==> s.owner.value < |s.threads|)
    && s.lockDepth == U32(s.depth - OwnerLag(s))
    && s.lockDepth == U32(s.writes)
    && forall t: nat :: t < |s.threads| ==> ThreadOk(s, t)
  }

  lemma MoverKeepsInv(s: State, a: Action)
    requires Inv(s) && Enabled(s, a)
    ensures var s' := Next(s, a);
            && |s'.threads| == |s.threads|
            && (s'.owner.None? <==> s'.depth == 0)
            && (s'.owner.Some? ==> s'.owner.value < |s'.threads|)
            && s'.lockDepth == U32(s'.depth - OwnerLag(s'))
            && s'.lockDepth == U32(s'.writes)
            && ThreadOk(s', a.t)
  {
    assert ThreadOk(s, a.t);
    U32Step(s.depth - OwnerLag(s));
    U32Step(s.writes);
  }

  lemma OthersKeepOk(s: State, a: Action, t: nat)
    requires Inv(s) && Enabled(s, a) && t < |s.threads| && t != a.t
    ensures t < |Next(s, a).threads| && ThreadOk(Next(s, a), t)
  {
    assert ThreadOk(s, t) && ThreadOk(s, a.t);
  }

  lemma NextKeepsInv(s: State, a: Action)
    requires Inv(s) && Enabled(s, a)
    ensures Inv(Next(s, a))
  {
    MoverKeepsInv(s, a);
    forall t: nat | t < |Next(s, a).threads|
      ensures ThreadOk(Next(s, a), t)
    {
      if t != a.t { OthersKeepOk(s, a, t); }
    }
  }

  /** A mutex just constructed, by a thread that locked it or not. */
  ghost predicate Initial(s: State) {
    && !s.aborted && s.writes == s.depth == s.lockDepth
    && match s.owner
       case None => s.depth == 0 && forall t: nat :: t < |s.threads| ==> s.threads[t] == Thread(Idle, 0)
       case Some(o) =>
         s.depth == 1 && o < |s.threads| &&
         forall t: nat :: t < |s.threads| ==> s.threads[t] == Thread(Idle, if t == o then 1 else 0)
  }

  ghost predicate IsRun(s: State, run: seq<Action>)
    decreases |run|
  {
    run == [] || (Enabled(s, run[0]) && IsRun(Next(s, run[0]), run[1..]))
  }

  ghost function After(s: State, run: seq<Action>): State
    requires IsRun(s, run)
    decreases |run|
  {
    if run == [] then s else After(Next(s, run[0]), run[1..])
  }

  lemma {:induction false} RunKeepsInv(s: State, run: seq<Action>)
    requires Inv(s) && IsRun(s, run)
    ensures Inv(After(s, run))
    decreases |run|
  {
    if run != [] {
      NextKeepsInv(s, run[0]);
      RunKeepsInv(Next(s, run[0]), run[1..]);
    }
  }

  /** The mirror is the native depth, less one exactly while the owner is between a native call and its write. */
  ghost predicate Agrees(s: State)
    requires s.owner.Some? ==> s.owner.value < |s.threads|
  {
    s.depth == s.lockDepth + OwnerLag(s)
  }

  /** In every reachable state the mirror agrees modulo 2^32, and agrees exactly if and only if the
      locks it has counted are fewer than 2^32. */
  lemma DepthAgreement(s0: State, run: seq<Action>)
    requires Initial(s0) && IsRun(s0, run)
    ensures var s := After(s0, run);
            && (s.owner.Some? ==> s.owner.value < |s.threads|)
            && s.lockDepth == U32(s.depth - OwnerLag(s))
            && (Agrees(s) <==> s.depth - OwnerLag(s) < 0x1_0000_0000)
            && (s.owner == None ==> s.lockDepth == 0)
  {
    RunKeepsInv(s0, run);
    var s := After(s0, run);
    if s.owner.Some? { assert ThreadOk(s, s.owner.value); }
  }

  lemma RunCons(s: State, a: Action, rest: seq<Action>)
    requires Enabled(s, a) && IsRun(Next(s, a), rest)
    ensures IsRun(s, [a] + rest) && After(s, [a] + rest) == After(Next(s, a), rest)
  {
    assert ([a] + rest)[1..] == rest;
  }

  // ----- a call that nobody interrupts -----

  /** Thread `t` makes the steps of its call, up to its return, and nobody else moves. */
  ghost predicate Solo(s: State, t: nat, run: seq<Action>)
    decreases |run|
  {
    t < |s.threads| &&
    if run == [] then s.threads[t].pc.Idle?
    else
      && run[0].Step? && run[0].t == t && Enabled(s, run[0])
      && Solo(Next(s, run[0]), t, run[1..])
  }

  /** The native call of the run fails. */
  predicate Fails(run: seq<Action>) {
    exists i :: 0 <= i < |run| && run[i].Step? && run[i].fails
  }

  lemma FailsCons(a: Action, rest: seq<Action>)
    ensures Fails([a] + rest) <==> (a.Step? && a.fails) || Fails(rest)
  {
    var run := [a] + rest;
    if a.Step? && a.fails { assert run[0] == a; }
    if Fails(rest) {
      var i :| 0 <= i < |rest| && rest[i].Step? && rest[i].fails;
      assert run[i + 1] == rest[i];
    }
    if Fails(run) {
      var i :| 0 <= i < |run| && run[i].Step? && run[i].fails;
      assert i > 0 ==> run[i] == rest[i - 1];
    }
  }

  /** A solo run that is not over makes the only step there is, failed or not. */
  lemma SoloStep(s: State, t: nat, run: seq<Action>)
    requires Solo(s, t, run) && !s.threads[t].pc.Idle?
    ensures run != [] && Enabled(s, run[0]) && run[0] == Step(t, run[0].fails) && Solo(Next(s, run[0]), t, run[1..])
    ensures Fails(run) <==> run[0].fails || Fails(run[1..])
    ensures IsRun(Next(s, run[0]), run[1..]) ==> IsRun(s, run) && After(s, run) == After(Next(s, run[0]), run[1..])
  {
    FailsCons(run[0], run[1..]);
    assert [run[0]] + run[1..] == run;
  }

  lemma SoloOver(s: State, t: nat, run: seq<Action>)
    requires Solo(s, t, run) && s.threads[t].pc.Idle?
    ensures run == [] && !Fails(run) && IsRun(s, run) && After(s, run) == s
  {
  }

  /** `s'` is `s` but for the mutex, its mirror and the locks that thread `t`, idle again, holds. */
  ghost predicate Became(s: State, t: nat, s': State, owner: Option<nat>, depth: nat) {
    && t < |s.threads|
    && s' == s.(owner := owner, depth := depth, lockDepth := U32(depth), writes := s.writes + depth - s.depth,
                threads := s.threads[t := Thread(Idle, s.threads[t].held + depth - s.depth)])
  }

  /** The first step of the run is not a failure and leads to `s1`. */
  ghost predicate Via(s: State, t: nat, run: seq<Action>, s1: State) {
    && run != [] && Inv(s1) && Solo(s1, t, run[1..]) && (Fails(run) <==> Fails(run[1..]))
    && (IsRun(s1, run[1..]) ==> IsRun(s, run) && After(s, run) == After(s1, run[1..]))
  }

  lemma SoloQuietStep(s: State, t: nat, run: seq<Action>, s1: State)
    requires Inv(s) && Solo(s, t, run) && !s.threads[t].pc.Idle?
    requires !s.threads[t].pc.LockNative? && !s.threads[t].pc.UnlockNative?
    requires Enabled(s, Step(t, false)) && Next(s, Step(t, false)) == s1
    ensures Via(s, t, run, s1)
  {
    SoloStep(s, t, run);
    NextKeepsInv(s, run[0]);
  }

  lemma SoloLockTail(s: State, t: nat, run: seq<Action>)
    requires Inv(s) && Solo(s, t, run) && s.threads[t].pc.LockRead? && !s.aborted
    ensures IsRun(s, run) && !Fails(run)
    ensures After(s, run) == s.Write(s.lockDepth + 1).(writes := s.writes + 1).Goto(t, Idle)
  {
    var s1 := s.Goto(t, LockWrite(s.lockDepth));
    SoloQuietStep(s, t, run, s1);
    var s2 := s1.Write(s.lockDepth + 1).(writes := s.writes + 1).Goto(t, Idle);
    SoloQuietStep(s1, t, run[1..], s2);
    SoloOver(s2, t, run[1..][1..]);
  }

  /** The state in which thread `t` has got the native lock. */
  function Granted(s: State, t: nat): State
    requires t < |s.threads|
  {
    s.(owner := Some(t), depth := s.depth + 1, threads := s.threads[t := Thread(LockRead, s.threads[t].held + 1)])
  }

  lemma SoloLockNative(s: State, t: nat, run: seq<Action>)
    requires Inv(s) && Solo(s, t, run) && s.threads[t].pc.LockNative?
    ensures IsRun(s, run)
    ensures if Fails(run) then After(s, run) == s.Goto(t, Idle)
            else After(s, run) == Granted(s, t).Write(s.lockDepth + 1).(writes := s.writes + 1).Goto(t, Idle)
  {
    SoloStep(s, t, run);
    NextKeepsInv(s, run[0]);
    if run[0].fails {
      SoloOver(s.Goto(t, Idle), t, run[1..]);
    } else {
      assert Next(s, run[0]) == Granted(s, t);
      SoloLockTail(Granted(s, t), t, run[1..]);
    }
  }

  lemma GrantedBecame(s: State, t: nat)
    requires Inv(s) && t < |s.threads| && s.threads[t].pc.LockNative? && (s.owner == None || s.owner == Some(t))
    ensures Became(s, t, Granted(s, t).Write(s.lockDepth + 1).(writes := s.writes + 1).Goto(t, Idle), Some(t), s.depth + 1)
  {
    U32Step(s.depth);
  }

  /** The thread was idle when it made its call. */
  lemma Recalled(s: State, t: nat, pc: Pc)
    requires t < |s.threads| && s.threads[t].pc.Idle?
    ensures s.Goto(t, pc).Goto(t, Idle) == s
    ensures forall s': State, owner: Option<nat>, depth: nat ::
              Became(s.Goto(t, pc), t, s', owner, depth) ==> Became(s, t, s', owner, depth)
  {
    assert s.threads[t := s.threads[t]] == s.threads;
  }

  /** An uninterrupted Lock, from its call on, in any reachable state: if the native call fails everything
      is as before; otherwise the thread owns the mutex, one deeper, and the mirror says so. */
  lemma SoloLockIsLock(s: State, t: nat, run: seq<Action>)
    requires Inv(s) && !s.aborted && t < |s.threads| && s.threads[t].pc.Idle?
    requires Solo(Next(s, CallLock(t)), t, run)
    ensures IsRun(s, [CallLock(t)] + run)
    ensures var s' := After(s, [CallLock(t)] + run);
            if Fails(run) then s' == s else Became(s, t, s', Some(t), s.depth + 1)
  {
    NextKeepsInv(s, CallLock(t));
    var s1 := s.Goto(t, LockNative);
    SoloLockNative(s1, t, run);
    SoloStep(s1, t, run);
    if !Fails(run) { GrantedBecame(s1, t); }
    RunCons(s, CallLock(t), run);
    Recalled(s, t, LockNative);
  }

  /** A native unlock that fails is followed by the steps that put the mirror back. */
  lemma SoloUnlockNative(s: State, t: nat, run: seq<Action>)
    requires Inv(s) && Solo(s, t, run) && s.threads[t].pc.UnlockNative?
    ensures IsRun(s, run) && s.depth > 0
    ensures After(s, run) ==
              if Fails(run) then s.Write(s.lockDepth + 1).(writes := s.writes + 1).Goto(t, Idle)
              else s.(owner := if s.depth == 1 then None else Some(t), depth := s.depth - 1,
                      threads := s.threads[t := Thread(Idle, s.threads[t].held - 1)])
  {
    assert ThreadOk(s, t);
    SoloStep(s, t, run);
    var s1 := Next(s, run[0]);
    if run[0].fails {
      SoloStep(s1, t, run[1..]);
      var s2 := Next(s1, run[1..][0]);
      SoloStep(s2, t, run[1..][1..]);
      SoloOver(Next(s2, run[1..][1..][0]), t, run[1..][1..][1..]);
    } else {
      SoloOver(s1, t, run[1..]);
    }
  }

  /** The state in which thread `t` has counted down and is about to unlock. */
  function CountedDown(s: State, t: nat): State
    requires t < |s.threads|
  {
    s.Write(s.lockDepth - 1).(writes := s.writes - 1).Goto(t, UnlockNative)
  }

  lemma SoloCountDown(s: State, t: nat, run: seq<Action>)
    requires Inv(s) && !s.aborted && s.lockDepth > 0 && Solo(s, t, run) && s.threads[t].pc.UnlockAssert?
    ensures |run| >= 3 && Inv(CountedDown(s, t)) && Solo(CountedDown(s, t), t, run[3..])
    ensures Fails(run) <==> Fails(run[3..])
    ensures IsRun(CountedDown(s, t), run[3..]) ==> IsRun(s, run) && After(s, run) == After(CountedDown(s, t), run[3..])
  {
    var s1 := s.Goto(t, UnlockRead);
    SoloQuietStep(s, t, run, s1);
    var s2 := s.Goto(t, UnlockWrite(s.lockDepth));
    SoloQuietStep(s1, t, run[1..], s2);
    SoloQuietStep(s2, t, run[1..][1..], CountedDown(s, t));
    assert run[1..][1..][1..] == run[3..];
  }

  lemma SoloUnlockAssert(s: State, t: nat, run: seq<Action>)
    requires Inv(s) && !s.aborted && s.lockDepth > 0 && Solo(s, t, run) && s.threads[t].pc.UnlockAssert?
    ensures IsRun(s, run) && s.depth > 0
    ensures if Fails(run) then After(s, run) == s.Goto(t, Idle)
            else Became(s, t, After(s, run), if s.depth == 1 then None else Some(t), s.depth - 1)
  {
    assert ThreadOk(s, t);
    SoloCountDown(s, t, run);
    SoloUnlockNative(CountedDown(s, t), t, run[3..]);
    U32Step(s.depth);
    U32Step(s.depth - 1);
    assert CountedDown(s, t).Goto(t, Idle).threads == s.Goto(t, Idle).threads;
  }

  /** An uninterrupted Unlock by the owner, from its call on, in any reachable state with a positive mirror:
      if the native call fails everything is as before; otherwise the mutex is one shallower, free
      if that is zero, and the mirror says so. */
  lemma SoloUnlockIsUnlock(s: State, t: nat, run: seq<Action>)
    requires Inv(s) && !s.aborted && t < |s.threads| && s.threads[t].pc.Idle? && s.owner == Some(t) && s.lockDepth > 0
    requires Solo(Next(s, CallUnlock(t)), t, run)
    ensures IsRun(s, [CallUnlock(t)] + run) && s.depth > 0
    ensures var s' := After(s, [CallUnlock(t)] + run);
            if Fails(run) then s' == s else Became(s, t, s', if s.depth == 1 then None else Some(t), s.depth - 1)
  {
    NextKeepsInv(s, CallUnlock(t));
    SoloUnlockAssert(s.Goto(t, UnlockAssert), t, run);
    RunCons(s, CallUnlock(t), run);
    Recalled(s, t, UnlockAssert);
  }

  /** Steps that a call still has to make at most. */
  function Left(pc: Pc): nat {
    match pc
    case Idle => 0
    case LockNative => 3
    case LockRead => 2
    case LockWrite(_) => 1
    case UnlockAssert => 6
    case UnlockRead => 5
    case UnlockWrite(_) => 4
    case UnlockNative => 3
    case RevertRead => 2
    case RevertWrite(_) => 1
  }

  /** A native call that may fail is still to come. */
  predicate MayFail(pc: Pc) {
    pc.LockNative? || pc.UnlockAssert? || pc.UnlockRead? || pc.UnlockWrite? || pc.UnlockNative?
  }

  /** A call once begun can always be run to its end, and its native call can fail or not, as long as
      the mutex is available to a lock and the assertion of an unlock holds. */
  lemma {:induction false} SoloExists(s: State, t: nat, fails: bool) returns (run: seq<Action>)
    requires Inv(s) && !s.aborted && t < |s.threads|
    requires s.threads[t].pc.LockNative? && !fails ==> s.owner == None || s.owner == Some(t)
    requires s.threads[t].pc.UnlockAssert? ==> s.lockDepth > 0
    ensures Solo(s, t, run) && |run| <= Left(s.threads[t].pc)
    ensures Fails(run) <==> fails && MayFail(s.threads[t].pc)
    decreases Left(s.threads[t].pc)
  {
    run := [];
    var pc := s.threads[t].pc;
    if !pc.Idle? {
      var a := Step(t, fails && (pc.LockNative? || pc.UnlockNative?));
      assert ThreadOk(s, t);
      NextKeepsInv(s, a);
      var rest := SoloExists(Next(s, a), t, fails);
      run := [a] + rest;
      FailsCons(a, rest);
      assert run[1..] == rest;
    }
  }

  // ----- the limit of the mirror -----

  /** Nested locks by one thread, so many of them, all granted. */
  lemma {:induction false} NestedLocks(s: State, t: nat, n: nat) returns (run: seq<Action>)
    requires Inv(s) && !s.aborted && t < |s.threads| && s.threads[t].pc.Idle?
    requires s.owner == None || s.owner == Some(t)
    ensures IsRun(s, run)
    ensures var s' := After(s, run);
            && Inv(s') && !s'.aborted && |s'.threads| == |s.threads|
            && s'.depth == s.depth + n && s'.threads[t].pc.Idle?
            && (s'.owner == s.owner || s'.owner == Some(t))
    decreases n
  {
    run := [];
    if n > 0 {
      var call, step := CallLock(t), Step(t, false);
      NextKeepsInv(s, call);
      var s1 := Next(s, call);
      NextKeepsInv(s1, step);
      var s2 := Next(s1, step);
      NextKeepsInv(s2, step);
      var s3 := Next(s2, step);
      NextKeepsInv(s3, step);
      var rest := NestedLocks(Next(s3, step), t, n - 1);
      RunCons(s3, step, rest);
      RunCons(s2, step, [step] + rest);
      RunCons(s1, step, [step] + ([step] + rest));
      RunCons(s, call, [step] + ([step] + ([step] + rest)));
      run := [call] + ([step] + ([step] + ([step] + rest)));
    }
  }

  /** The condition is met by runs on both sides: 2^32 nested locks leave a mutex that is held with a
      mirror of zero. */
  lemma MirrorWraps(s0: State, t: nat) returns (run: seq<Action>)
    requires Initial(s0) && s0.owner == None && t < |s0.threads|
    ensures IsRun(s0, run)
    ensures var s := After(s0, run);
            && t < |s.threads| && s.owner == Some(t) && s.threads[t].pc.Idle?
            && s.depth == 0x1_0000_0000 && s.lockDepth == 0 && !Agrees(s)
  {
    run := NestedLocks(s0, t, 0x1_0000_0000);
    RunKeepsInv(s0, run);
    assert ThreadOk(After(s0, run), t);
  }

  /** The unsynchronised field is never raced for: at most one thread is about to touch it, the
      owner of the native mutex; and no update is lost. */
  lemma NoRaceNoLostUpdate(s0: State, run: seq<Action>, t: nat, u: nat)
    requires Initial(s0) && IsRun(s0, run)
    requires t < |After(s0, run).threads| && u < |After(s0, run).threads|
    ensures var s := After(s0, run);
            && (Touches(s.threads[t].pc) ==> s.owner == Some(t))
            && (Touches(s.threads[t].pc) && Touches(s.threads[u].pc) ==> t == u)
            && (s.threads[t].held > 0 && s.threads[u].held > 0 ==> t == u)
            && s.lockDepth == U32(s.writes)
  {
    RunKeepsInv(s0, run);
    var s := After(s0, run);
    assert ThreadOk(s, t) && ThreadOk(s, u);
  }

  /** The assertion in Unlock fails exactly when the native depth is a positive multiple of 2^32. */
  lemma AssertionExact(s0: State, run: seq<Action>, a: Action)
    requires Initial(s0) && IsRun(s0, run) && Enabled(After(s0, run), a)
    ensures var s := After(s0, run);
            Next(s, a).aborted <==> a.Step? && s.threads[a.t].pc.UnlockAssert? && s.depth % 0x1_0000_0000 == 0
  {
    RunKeepsInv(s0, run);
    var s := After(s0, run);
    assert ThreadOk(s, a.t);
  }

  /** When no call is under way the mirror and the mutex are as the destructor needs them. */
  lemma QuietIsValid(s0: State, run: seq<Action>)
    requires Initial(s0) && IsRun(s0, run)
    requires forall t: nat :: t < |After(s0, run).threads| ==> After(s0, run).threads[t].pc.Idle?
    ensures var s := After(s0, run);
            (s.owner.None? <==> s.depth == 0) && s.lockDepth == U32(s.depth)
  {
    RunKeepsInv(s0, run);
  }
}
