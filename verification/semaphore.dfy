/** `poski::OsSemaphore`: net takes counted in an atomic that is updated after the native call. */
module Semaphore {
  import opened Types

  /** Conversion to `int32_t`, two's complement. */
  function S32(x: int): int {
    (x + 0x8000_0000) % 0x1_0000_0000 - 0x8000_0000
  }

  predicate InS32(x: int) {
    -0x8000_0000 <= x < 0x8000_0000
  }

  lemma S32Facts(x: int)
    ensures InS32(S32(x))
    ensures InS32(x) ==> S32(x) == x
    ensures S32(S32(x) + 1) == S32(x + 1)
    ensures S32(S32(x) - 1) == S32(x - 1)
  {
  }

  function Max(a: int, b: int): int {
    if a < b then b else a
  }

  // ----- one call at a time -----

  class OsSemaphore {
    // the native semaphore and its largest count
    var tokens: nat
    const limit: nat
    // the atomic, and the count the semaphore was created with
    var takeDepth: int
    const initial: nat

    ghost predicate Valid()
      reads this
    {
      initial <= limit && tokens <= limit && takeDepth == S32(initial - tokens)
    }

    /** The native semaphore accepts the initial count; a take on construction must succeed. */
    constructor (initialTokens: nat, takeOnConstruction: bool, limit: nat)
      requires initialTokens < 0x1_0000 && initialTokens <= limit
      requires takeOnConstruction ==> initialTokens > 0
      ensures Valid() && initial == initialTokens && this.limit == limit
      ensures tokens == initialTokens - (if takeOnConstruction then 1 else 0)
    {
      initial, this.limit := initialTokens, limit;
      tokens, takeDepth := initialTokens, 0;
      if takeOnConstruction {
        tokens, takeDepth := initialTokens - 1, 1;
      }
    }

    /** `fails` is a timeout; without one the call lasts until a token is there. */
    method Take(fails: bool) returns (err: Error)
      requires Valid() && (fails || tokens > 0)
      modifies this
      ensures Valid() && (err == Ok <==> !fails)
      ensures tokens == old(tokens) - (if err == Ok then 1 else 0)
      ensures err != Ok ==> takeDepth == old(takeDepth)
    {
      if fails { return Timeout; }
      S32Facts(initial - tokens);
      tokens := tokens - 1;
      takeDepth := S32(takeDepth + 1);
      err := Ok;
    }

    /** The native give fails exactly at the largest count. */
    method NativeGive() returns (err: Error)
      requires tokens <= limit
      modifies this`tokens
      ensures err == Ok <==> old(tokens) < limit
      ensures tokens == old(tokens) + (if err == Ok then 1 else 0)
    {
      if tokens == limit { return Failure; }
      tokens := tokens + 1;
      err := Ok;
    }

    method Give() returns (err: Error)
      requires Valid()
      modifies this
      ensures Valid() && (err == Ok <==> old(tokens) < limit)
      ensures tokens == old(tokens) + (if err == Ok then 1 else 0)
      ensures err != Ok ==> takeDepth == old(takeDepth)
    {
      S32Facts(initial - tokens);
      err := NativeGive();
      if err == Ok { takeDepth := S32(takeDepth - 1); }
    }

    /** The destructor; `ok` is false if its assertion on a give fails, which needs a count that
        wrapped the atomic. Otherwise it gives back what is missing and takes nothing away. */
    method Destroy() returns (ok: bool)
      requires Valid()
      modifies this
      ensures ok <==> old(takeDepth) <= 0 || old(tokens) + old(takeDepth) <= limit
      ensures ok ==> tokens == old(tokens) + Max(0, old(takeDepth)) && takeDepth <= 0
      ensures InS32(initial - old(tokens)) ==> ok && tokens == Max(initial, old(tokens))
    {
      S32Facts(initial - tokens);
      ok := true;
      while takeDepth > 0
        invariant ok && initial <= limit && tokens <= limit
        invariant takeDepth <= old(takeDepth)
        invariant old(takeDepth) <= 0 ==> takeDepth == old(takeDepth)
        invariant old(takeDepth) > 0 ==> takeDepth >= 0
        invariant tokens == old(tokens) + (old(takeDepth) - takeDepth)
        decreases takeDepth
      {
        var err := NativeGive();
        if err != Ok { return false; }
        takeDepth := takeDepth - 1;
      }
    }
  }

  // ----- many threads -----

  datatype Pc = Idle | TakeNative | TakeAdd | GiveNative | GiveSub

  /** `net` is the atomic without the wrap: increments minus decrements performed. */
  datatype State = State(tokens: nat, limit: nat, takeDepth: int, threads: seq<Pc>, net: int)

  /** A thread calls Take or Give, or makes one step; if the step is a native call it may fail. */
  datatype Action = CallTake(t: nat) | CallGive(t: nat) | Step(t: nat, fails: bool)

  predicate Enabled(s: State, a: Action) {
    && a.t < |s.threads|
    && var pc := s.threads[a.t];
       if a.Step? then
         && !pc.Idle? && (a.fails ==> pc.TakeNative? || pc.GiveNative?)
         && (pc.TakeNative? && !a.fails ==> s.tokens > 0)
       else pc.Idle?
  }

  function Next(s: State, a: Action): State
    requires Enabled(s, a)
  {
    match a
    case CallTake(t) => s.(threads := s.threads[t := TakeNative])
    case CallGive(t) => s.(threads := s.threads[t := GiveNative])
    case Step(t, fails) =>
      match s.threads[t]
      case Idle => s
      case TakeNative =>
        if fails then s.(threads := s.threads[t := Idle])
        else s.(tokens := s.tokens - 1, threads := s.threads[t := TakeAdd])
      case TakeAdd => s.(takeDepth := S32(s.takeDepth + 1), net := s.net + 1, threads := s.threads[t := Idle])
      case GiveNative =>
        if fails || s.tokens >= s.limit then s.(threads := s.threads[t := Idle])
        else s.(tokens := s.tokens + 1, threads := s.threads[t := GiveSub])
      case GiveSub => s.(takeDepth := S32(s.takeDepth - 1), net := s.net - 1, threads := s.threads[t := Idle])
  }

  function Count(ts: seq<Pc>, pc: Pc): nat {
    if ts == [] then 0 else Count(ts[..|ts| - 1], pc) + (if ts[|ts| - 1] == pc then 1 else 0)
  }

  lemma {:induction false} CountUpdate(ts: seq<Pc>, t: nat, new': Pc, pc: Pc)
    requires t < |ts|
    ensures Count(ts[t := new'], pc) + (if ts[t] == pc then 1 else 0) == Count(ts, pc) + (if new' == pc then 1 else 0)
  {
    var n := |ts| - 1;
    if t == n {
      assert ts[t := new'][..n] == ts[..n];
    } else {
      CountUpdate(ts[..n], t, new', pc);
      assert ts[t := new'][..n] == ts[..n][t := new'];
    }
  }

  lemma {:induction false} CountAtMost(ts: seq<Pc>, pc: Pc)
    ensures Count(ts, pc) <= |ts|
    ensures (forall i: nat :: i < |ts| ==> ts[i] != pc) ==> Count(ts, pc) == 0
    ensures forall i: nat :: i < |ts| && ts[i] != pc ==> Count(ts, pc) < |ts|
  {
    if ts != [] {
      var n := |ts| - 1;
      CountAtMost(ts[..n], pc);
      forall i: nat | i < |ts| && ts[i] != pc
        ensures Count(ts, pc) < |ts|
      {
        if i < n { assert ts[..n][i] != pc; }
      }
    }
  }

  /** Tokens in the native semaphore, plus net takes counted, plus takes in flight, less gives in
      flight, make up the initial count. */
  ghost predicate Inv(s: State, initial: nat) {
    && s.tokens <= s.limit
    && s.takeDepth == S32(s.net)
    && s.tokens + s.net + Count(s.threads, TakeAdd) - Count(s.threads, GiveSub) == initial
  }

  lemma NextKeepsInv(s: State, a: Action, initial: nat)
    requires Inv(s, initial) && Enabled(s, a)
    ensures Inv(Next(s, a), initial)
  {
    S32Facts(s.net);
    CountUpdate(s.threads, a.t, Next(s, a).threads[a.t], TakeAdd);
    CountUpdate(s.threads, a.t, Next(s, a).threads[a.t], GiveSub);
  }

  /** A semaphore just constructed with so many tokens, one of them taken or none. */
  ghost predicate Initial(s: State, initial: nat) {
    && s.takeDepth == s.net && (s.net == 0 || s.net == 1)
    && s.tokens + s.net == initial <= s.limit
    && forall t: nat :: t < |s.threads| ==> s.threads[t] == Idle
  }

  ghost predicate IsRun(s: State, run: seq<Action>)
    decreases |run|
  {
    run == [] || (Enabled(s, run[0]) && IsRun(Next(s, run[0]), run[1..]))
  }

  ghost function After(s: State, run: seq<Action>): State
    requires IsRun(s, run)
    decreases |run|
  {
    if run == [] then s else After(Next(s, run[0]), run[1..])
  }

  lemma {:induction false} RunKeepsInv(s: State, run: seq<Action>, initial: nat)
    requires Inv(s, initial) && IsRun(s, run)
    ensures Inv(After(s, run), initial)
    ensures After(s, run).limit == s.limit && |After(s, run).threads| == |s.threads|
    decreases |run|
  {
    if run != [] {
      NextKeepsInv(s, run[0], initial);
      RunKeepsInv(Next(s, run[0]), run[1..], initial);
    }
  }

  lemma InitialInv(s: State, initial: nat)
    requires Initial(s, initial)
    ensures Inv(s, initial)
  {
    CountAtMost(s.threads, TakeAdd);
    CountAtMost(s.threads, GiveSub);
  }

  /** The conservation law with the atomic itself for the net takes. */
  ghost predicate Exact(s: State, initial: nat) {
    s.tokens + s.takeDepth + Count(s.threads, TakeAdd) - Count(s.threads, GiveSub) == initial
  }

  /** Conservation in every reachable state, whatever was in flight, failed or timed out. The atomic
      obeys it modulo 2^32, and exactly when the net takes fit its 32 bits. */
  lemma TokensConserved(s0: State, run: seq<Action>, initial: nat)
    requires Initial(s0, initial) && IsRun(s0, run)
    ensures var s := After(s0, run);
            var net := initial - s.tokens - Count(s.threads, TakeAdd) + Count(s.threads, GiveSub);
            && s.tokens <= s.limit
            && s.takeDepth == S32(net)
            && (Exact(s, initial) <==> InS32(net))
  {
    InitialInv(s0, initial);
    RunKeepsInv(s0, run, initial);
    S32Facts(After(s0, run).net);
  }

  // ----- a call that nobody interrupts -----

  lemma RunCons(s: State, a: Action, rest: seq<Action>)
    requires Enabled(s, a) && IsRun(Next(s, a), rest)
    ensures IsRun(s, [a] + rest) && After(s, [a] + rest) == After(Next(s, a), rest)
  {
    assert ([a] + rest)[1..] == rest;
  }

  /** The steps of a call whose native part ends with `done` or without effect. */
  function CallSteps(t: nat, fails: bool, done: bool): seq<Action> {
    [Step(t, fails)] + (if done then [Step(t, false)] + [] else [])
  }

  /** `s'` is `s` but for `given` tokens more, or fewer if negative, which the atomic has counted. */
  ghost predicate Became(s: State, s': State, given: int) {
    && s.tokens + given >= 0
    && s' == s.(tokens := s.tokens + given, net := s.net - given, takeDepth := S32(s.net - given))
  }

  lemma TwoSteps(s: State, t: nat, fails: bool, done: bool)
    requires Enabled(s, Step(t, fails)) && (done ==> Enabled(Next(s, Step(t, fails)), Step(t, false)))
    ensures IsRun(s, CallSteps(t, fails, done))
    ensures After(s, CallSteps(t, fails, done)) ==
              if done then Next(Next(s, Step(t, fails)), Step(t, false)) else Next(s, Step(t, fails))
  {
    var s1 := Next(s, Step(t, fails));
    if done {
      RunCons(s1, Step(t, false), []);
      RunCons(s, Step(t, fails), [Step(t, false)] + []);
    } else {
      RunCons(s, Step(t, fails), []);
    }
  }

  /** An uninterrupted Take, in any reachable state: a failed one changes nothing, any other takes one
      token and counts it. */
  lemma SoloTakeIsTake(s: State, t: nat, fails: bool, initial: nat)
    requires Inv(s, initial) && t < |s.threads| && s.threads[t] == Idle && (fails || s.tokens > 0)
    ensures IsRun(s, [CallTake(t)] + CallSteps(t, fails, !fails))
    ensures Became(s, After(s, [CallTake(t)] + CallSteps(t, fails, !fails)), if fails then 0 else -1)
  {
    S32Facts(s.net);
    var s1 := Next(s, CallTake(t));
    TwoSteps(s1, t, fails, !fails);
    RunCons(s, CallTake(t), CallSteps(t, fails, !fails));
    assert s.threads[t := Idle] == s.threads;
  }

  lemma GiveSteps(s: State, t: nat, fails: bool)
    requires t < |s.threads| && s.threads[t] == Idle && s.takeDepth == S32(s.net)
    ensures var s1 := Next(s, CallGive(t));
            var s2 := Next(s1, Step(t, fails));
            if !fails && s.tokens < s.limit then Enabled(s2, Step(t, false)) && Became(s, Next(s2, Step(t, false)), 1)
            else s2 == s
  {
    S32Facts(s.net);
    assert s.threads[t := Idle] == s.threads;
  }

  /** An uninterrupted Give, in any reachable state: a failed one, or one at the native limit, changes
      nothing, any other gives one token and counts it. */
  lemma SoloGiveIsGive(s: State, t: nat, fails: bool, initial: nat)
    requires Inv(s, initial) && t < |s.threads| && s.threads[t] == Idle
    ensures var done := !fails && s.tokens < s.limit;
            && IsRun(s, [CallGive(t)] + CallSteps(t, fails, done))
            && Became(s, After(s, [CallGive(t)] + CallSteps(t, fails, done)), if done then 1 else 0)
  {
    var done := !fails && s.tokens < s.limit;
    GiveSteps(s, t, fails);
    TwoSteps(Next(s, CallGive(t)), t, fails, done);
    RunCons(s, CallGive(t), CallSteps(t, fails, done));
  }

  /** With no call under way the object is as the destructor needs it. */
  lemma QuietIsValid(s0: State, run: seq<Action>, initial: nat)
    requires Initial(s0, initial) && IsRun(s0, run)
    requires forall t: nat :: t < |After(s0, run).threads| ==> After(s0, run).threads[t] == Idle
    ensures var s := After(s0, run);
            initial <= s.limit && s.tokens <= s.limit && s.takeDepth == S32(initial - s.tokens)
  {
    InitialInv(s0, initial);
    RunKeepsInv(s0, run, initial);
    TokensConserved(s0, run, initial);
    CountAtMost(After(s0, run).threads, TakeAdd);
    CountAtMost(After(s0, run).threads, GiveSub);
  }
}
