/** How far the semaphore's net takes can go, and so for which semaphores the 32-bit atomic is
    always exact. */
module SemaphoreRange {
  import opened Semaphore

  // ----- no run goes further -----

  /** The last thread to be caught in flight used up, or supplied, a token of its own. */
  ghost predicate Spare(s: State) {
    && Count(s.threads, TakeAdd) + Count(s.threads, GiveSub) <= |s.threads|
    && (0 < |s.threads| == Count(s.threads, TakeAdd) ==> s.tokens < s.limit)
    && (0 < |s.threads| == Count(s.threads, GiveSub) ==> s.tokens > 0)
    && (s.limit == 0 ==> Count(s.threads, TakeAdd) == Count(s.threads, GiveSub) == 0)
  }

  lemma {:induction false} CountsDisjoint(ts: seq<Pc>)
    ensures Count(ts, TakeAdd) + Count(ts, GiveSub) <= |ts|
  {
    if ts != [] { CountsDisjoint(ts[..|ts| - 1]); }
  }

  lemma NextKeepsSpare(s: State, a: Action)
    requires Spare(s) && s.tokens <= s.limit && Enabled(s, a)
    ensures Spare(Next(s, a))
  {
    var ts, ts' := s.threads, Next(s, a).threads;
    CountsDisjoint(ts');
    CountAtMost(ts, TakeAdd);
    CountAtMost(ts, GiveSub);
    CountAtMost(ts', TakeAdd);
    CountAtMost(ts', GiveSub);
    CountUpdate(ts, a.t, ts'[a.t], TakeAdd);
    CountUpdate(ts, a.t, ts'[a.t], GiveSub);
  }

  lemma {:induction false} RunKeepsSpare(s: State, run: seq<Action>, initial: nat)
    requires Inv(s, initial) && Spare(s) && IsRun(s, run)
    ensures Spare(After(s, run))
    decreases |run|
  {
    if run != [] {
      NextKeepsInv(s, run[0], initial);
      NextKeepsSpare(s, run[0]);
      RunKeepsSpare(Next(s, run[0]), run[1..], initial);
    }
  }

  /** The extremes of the net takes, over all runs. */
  lemma NetBounded(s0: State, run: seq<Action>, initial: nat)
    requires Initial(s0, initial) && IsRun(s0, run)
    requires |s0.threads| > 0 && s0.limit > 0
    ensures var n := |s0.threads|;
            initial - s0.limit - (n - 1) <= After(s0, run).net <= initial + (n - 1)
  {
    InitialInv(s0, initial);
    CountAtMost(s0.threads, TakeAdd);
    CountAtMost(s0.threads, GiveSub);
    RunKeepsInv(s0, run, initial);
    RunKeepsSpare(s0, run, initial);
  }

  lemma NetConstant(s0: State, run: seq<Action>, initial: nat)
    requires Initial(s0, initial) && IsRun(s0, run)
    requires s0.threads == [] || s0.limit == 0
    ensures After(s0, run).net == s0.net
  {
    InitialInv(s0, initial);
    CountAtMost(s0.threads, TakeAdd);
    CountAtMost(s0.threads, GiveSub);
    RunKeepsInv(s0, run, initial);
    RunKeepsSpare(s0, run, initial);
    if s0.threads == [] { assert run == []; }
  }

  // ----- some run goes that far -----

  lemma {:induction false} RunAppend(s: State, r1: seq<Action>, r2: seq<Action>)
    requires IsRun(s, r1) && IsRun(After(s, r1), r2)
    ensures IsRun(s, r1 + r2) && After(s, r1 + r2) == After(After(s, r1), r2)
    decreases |r1|
  {
    if r1 == [] {
      assert r1 + r2 == r2;
    } else {
      RunAppend(Next(s, r1[0]), r1[1..], r2);
      assert (r1 + r2)[1..] == r1[1..] + r2;
    }
  }

  lemma RunOne(s: State, a: Action)
    requires Enabled(s, a)
    ensures IsRun(s, [a]) && After(s, [a]) == Next(s, a)
  {
    assert [a][1..] == [];
    assert IsRun(Next(s, a), []) && After(Next(s, a), []) == Next(s, a);
  }

  /** `s'` has the threads and the limit of `s` and so many tokens. */
  ghost predicate Only(s: State, s': State, tokens: nat, threads: seq<Pc>) {
    s'.tokens == tokens && s'.limit == s.limit && s'.threads == threads
  }

  /** The first step of a take or a give, which leaves the thread in flight. */
  lemma HalfCall(s: State, t: nat, take: bool) returns (run: seq<Action>)
    requires t < |s.threads| && s.threads[t] == Idle
    requires if take then s.tokens > 0 else s.tokens < s.limit
    ensures IsRun(s, run)
    ensures Only(s, After(s, run), if take then s.tokens - 1 else s.tokens + 1, s.threads[t := if take then TakeAdd else GiveSub])
  {
    var call := if take then CallTake(t) else CallGive(t);
    RunOne(s, call);
    RunOne(Next(s, call), Step(t, false));
    RunAppend(s, [call], [Step(t, false)]);
    run := [call] + [Step(t, false)];
  }

  lemma WholeCall(s: State, t: nat, take: bool) returns (run: seq<Action>)
    requires t < |s.threads| && s.threads[t] == Idle
    requires if take then s.tokens > 0 else s.tokens < s.limit
    ensures IsRun(s, run)
    ensures Only(s, After(s, run), if take then s.tokens - 1 else s.tokens + 1, s.threads)
  {
    var half := HalfCall(s, t, take);
    var s1, last := After(s, half), [Step(t, false)];
    RunOne(s1, last[0]);
    RunAppend(s, half, last);
    run := half + last;
    assert s.threads[t := s1.threads[t]][t := Idle] == s.threads;
  }

  /** Takes until no token is left, or gives until the limit. */
  lemma {:induction false} Exhaust(s: State, t: nat, take: bool) returns (run: seq<Action>)
    requires t < |s.threads| && s.threads[t] == Idle && s.tokens <= s.limit
    ensures IsRun(s, run)
    ensures Only(s, After(s, run), if take then 0 else s.limit, s.threads)
    decreases if take then s.tokens else s.limit - s.tokens
  {
    run := [];
    if s.tokens != (if take then 0 else s.limit) {
      var first := WholeCall(s, t, take);
      var rest := Exhaust(After(s, first), t, take);
      RunAppend(s, first, rest);
      run := first + rest;
    }
  }

  /** The threads from `k` on caught in flight, the others idle. */
  function Caught(n: nat, k: nat, pc: Pc): (ts: seq<Pc>)
    ensures |ts| == n
  {
    seq(n, i requires 0 <= i < n => if i < k then Idle else pc)
  }

  lemma {:induction false} CountCaught(n: nat, k: nat, pc: Pc, other: Pc)
    requires k <= n && pc != Idle && other != Idle && other != pc
    ensures Count(Caught(n, k, pc), pc) == n - k
    ensures Count(Caught(n, k, pc), other) == 0
  {
    CountAtMost(Caught(n, k, pc), other);
    if n > k {
      CountCaught(n - 1, k, pc, other);
      assert Caught(n, k, pc)[..n - 1] == Caught(n - 1, k, pc);
    } else {
      CountAtMost(Caught(n, k, pc), pc);
    }
  }

  /** With the tokens at one end, each further thread is caught in flight by a half call that moves
      them off that end, and thread 0 moves them back. `take` says which half calls. */
  lemma {:induction false} Catch(s: State, k: nat, take: bool) returns (run: seq<Action>)
    requires 0 < k <= |s.threads| && 0 < s.limit && s.tokens == (if take then s.limit else 0)
    requires s.threads == Caught(|s.threads|, k, if take then TakeAdd else GiveSub)
    ensures IsRun(s, run)
    ensures Only(s, After(s, run), s.tokens, Caught(|s.threads|, 1, if take then TakeAdd else GiveSub))
    decreases k
  {
    run := [];
    if k > 1 {
      var pc := if take then TakeAdd else GiveSub;
      var half := HalfCall(s, k - 1, take);
      var s1 := After(s, half);
      var back := Exhaust(s1, 0, !take);
      RunAppend(s, half, back);
      var s2 := After(s1, back);
      assert s2.threads == Caught(|s.threads|, k - 1, pc);
      var rest := Catch(s2, k - 1, take);
      RunAppend(s, half + back, rest);
      run := (half + back) + rest;
    }
  }

  /** Both extremes are reached. */
  lemma ExtremeReached(s0: State, initial: nat, low: bool) returns (run: seq<Action>)
    requires Initial(s0, initial) && |s0.threads| > 0 && s0.limit > 0
    ensures IsRun(s0, run)
    ensures var n := |s0.threads|;
            After(s0, run).net == if low then initial - s0.limit - (n - 1) else initial + (n - 1)
  {
    var n, pc, other := |s0.threads|, if low then TakeAdd else GiveSub, if low then GiveSub else TakeAdd;
    InitialInv(s0, initial);
    var first := Exhaust(s0, 0, !low);
    var s1 := After(s0, first);
    assert s1.threads == Caught(n, n, pc);
    var rest := Catch(s1, n, low);
    RunAppend(s0, first, rest);
    run := first + rest;
    RunKeepsInv(s0, run, initial);
    CountCaught(n, 1, pc, other);
  }

  // ----- the exact condition -----

  /** The semaphores whose net takes always fit the atomic: those that nobody calls, those that never
      have a token, and those with room for all threads in flight at either end. */
  predicate Roomy(initial: nat, limit: nat, threads: nat) {
    || threads == 0 || limit == 0
    || (initial + threads <= 0x8000_0000 && limit + threads <= 0x8000_0001 + initial)
  }

  lemma RoomyIsExact(s0: State, run: seq<Action>, initial: nat)
    requires Initial(s0, initial) && Roomy(initial, s0.limit, |s0.threads|)
    requires IsRun(s0, run)
    ensures Exact(After(s0, run), initial)
  {
    InitialInv(s0, initial);
    RunKeepsInv(s0, run, initial);
    S32Facts(After(s0, run).net);
    if |s0.threads| > 0 && s0.limit > 0 { NetBounded(s0, run, initial); } else { NetConstant(s0, run, initial); }
  }

  /** A run after which the law fails, for every semaphore that is not roomy. */
  lemma AtomicGoesWrong(s0: State, initial: nat) returns (run: seq<Action>)
    requires Initial(s0, initial) && !Roomy(initial, s0.limit, |s0.threads|)
    ensures IsRun(s0, run) && !Exact(After(s0, run), initial)
  {
    run := ExtremeReached(s0, initial, initial + |s0.threads| <= 0x8000_0000);
    InitialInv(s0, initial);
    RunKeepsInv(s0, run, initial);
    S32Facts(After(s0, run).net);
  }

  /** Before any call is made: the atomic obeys the conservation law in every run exactly if the
      semaphore is roomy for its number of threads. */
  lemma AtomicExactIff(s0: State, initial: nat)
    requires Initial(s0, initial)
    ensures (forall run :: IsRun(s0, run) ==> Exact(After(s0, run), initial)) <==> Roomy(initial, s0.limit, |s0.threads|)
  {
    if Roomy(initial, s0.limit, |s0.threads|) {
      forall run | IsRun(s0, run)
        ensures Exact(After(s0, run), initial)
      {
        RoomyIsExact(s0, run, initial);
      }
    } else {
      var run := AtomicGoesWrong(s0, initial);
      assert IsRun(s0, run) && !Exact(After(s0, run), initial);
    }
  }

  /** With the usual SEM_VALUE_MAX of 2^31 - 1 that is: at most two threads more than initial tokens. */
  lemma PosixExactIff(s0: State, initial: nat)
    requires Initial(s0, initial) && s0.limit == 0x7FFF_FFFF && initial < 0x1_0000
    ensures (forall run :: IsRun(s0, run) ==> Exact(After(s0, run), initial)) <==> |s0.threads| <= initial + 2
  {
    AtomicExactIff(s0, initial);
  }
}
