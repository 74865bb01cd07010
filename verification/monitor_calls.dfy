/** The calls that callers make, read off the run alone, and what the threads' records have to do with them. */
module MonitorCalls {
  import opened Ring
  import opened Monitor
  import opened MonitorSafety

  // ----- what the callers asked for -----

  /** The call thread `t` begins with this action, if it begins one. */
  function CallOf(a: Action, t: nat): seq<Call> {
    if a.Begin? && a.t == t then [a.call] else []
  }

  /** The calls thread `t` begins in a run, in order. */
  function Calls(run: seq<Action>, t: nat): seq<Call> {
    if run == [] then [] else CallOf(run[0], t) + Calls(run[1..], t)
  }

  lemma CallsCons(before: seq<Call>, run: seq<Action>, t: nat)
    ensures before + Calls([], t) == before
    ensures run != [] ==> (before + CallOf(run[0], t)) + Calls(run[1..], t) == before + Calls(run, t)
  {
  }

  /** The items handed over by the puts among some calls. */
  function PutItems(calls: seq<Call>): seq<Item> {
    if calls == [] then []
    else PutItems(calls[..|calls| - 1]) + (if calls[|calls| - 1].Put? then [calls[|calls| - 1].item] else [])
  }

  function Gets(calls: seq<Call>): nat {
    if calls == [] then 0 else Gets(calls[..|calls| - 1]) + (if calls[|calls| - 1].Get? then 1 else 0)
  }

  function Sizes(calls: seq<Call>): nat {
    if calls == [] then 0 else Sizes(calls[..|calls| - 1]) + (if calls[|calls| - 1].GetSize? then 1 else 0)
  }

  /** The items the callers handed to the puts of thread `t`, in order. */
  function Handed(run: seq<Action>, t: nat): seq<Item> {
    PutItems(Calls(run, t))
  }

  lemma CallsAppend(calls: seq<Call>, call: Call)
    ensures PutItems(calls + [call]) == PutItems(calls) + (if call.Put? then [call.item] else [])
    ensures Gets(calls + [call]) == Gets(calls) + (if call.Get? then 1 else 0)
    ensures Sizes(calls + [call]) == Sizes(calls) + (if call.GetSize? then 1 else 0)
  {
    assert (calls + [call])[..|calls|] == calls;
  }

  // ----- what the threads do about it -----

  /** A thread at this program point is carrying out this call: a put has the caller's item, a get
      the low 32 bits of the caller's waiting time. */
  ghost predicate CarriesOut(pc: Pc, call: Call) {
    match call
    case Put(item) => InPut(pc) && (pc.PutLock? || pc.PutCheck? || pc.PutCopy? ==> pc.item == item)
    case Get(tmo) => InGet(pc) && pc.tmo == tmo % 0x1_0000_0000
    case GetSize => InSize(pc)
  }

  /** Of the calls a thread began, each has returned, has failed, is in its callback, or is the last
      one, which the thread is carrying out. */
  ghost predicate Accounts(th: Thread, calls: seq<Call>) {
    && th.sent == PutItems(calls)
    && |PutItems(calls)| == th.puts + th.nest + (if InPut(th.pc) then 1 else 0)
    && Gets(calls) == |th.got| + th.misses + (if InGet(th.pc) then 1 else 0)
    && Sizes(calls) == |th.sizes| + (if InSize(th.pc) then 1 else 0)
    && (!th.pc.User? ==> calls != [] && CarriesOut(th.pc, calls[|calls| - 1]))
  }

  lemma BeginAccounts(s: State, t: nat, call: Call, calls: seq<Call>)
    requires Sane(s) && Enabled(s, Begin(t, call)) && Accounts(s.threads[t], calls)
    ensures t < |Start(s, t, call).threads| && Accounts(Start(s, t, call).threads[t], calls + [call])
  {
    CallsAppend(calls, call);
  }

  lemma PutAccounts(s: State, t: nat, wake: set<nat>, calls: seq<Call>)
    requires Sane(s) && Enabled(s, Run(t, wake)) && InPut(s.threads[t].pc) && Accounts(s.threads[t], calls)
    ensures t < |StepPut(s, t, wake).threads| && Accounts(StepPut(s, t, wake).threads[t], calls)
  {
    assert LocalOk(s, t);
  }

  lemma GetAccounts(s: State, t: nat, calls: seq<Call>)
    requires Sane(s) && t < |s.threads| && InGet(s.threads[t].pc) && Accounts(s.threads[t], calls)
    ensures t < |StepGet(s, t).threads| && Accounts(StepGet(s, t).threads[t], calls)
  {
    GetMovesOnlyItself(s, t);
  }

  /** Every step keeps every thread's account of its calls. */
  lemma NextAccounts(s: State, a: Action, t: nat, calls: seq<Call>)
    requires Sane(s) && Enabled(s, a) && t < |s.threads| && Accounts(s.threads[t], calls)
    ensures t < |Next(s, a).threads| && Accounts(Next(s, a).threads[t], calls + CallOf(a, t))
  {
    SameThreadCount(s, a);
    assert calls + [] == calls;
    if t != a.t {
      OthersMoveOnlyByWaking(s, a, t);
    } else if a.Begin? {
      BeginAccounts(s, t, a.call, calls);
    } else if a.Run? && !s.threads[t].pc.User? {
      if InPut(s.threads[t].pc) { PutAccounts(s, t, a.wake, calls); }
      else if !InSize(s.threads[t].pc) { GetAccounts(s, t, calls); }
    }
  }

  // ----- what the callers get to see -----

  /** The records of what callers were told change at the last step of a call only: an item for a
      get, a failure for a get, an answer for a size call. */
  lemma NextReturns(s: State, a: Action, t: nat)
    requires Sane(s) && Enabled(s, a) && t < |s.threads|
    ensures t < |Next(s, a).threads|
    ensures var th, th', last := s.threads[t], Next(s, a).threads[t], a.Run? && a.t == t;
            && th'.got == th.got + (if last && th.pc.GetUnlock? && th.pc.result.Some? then [th.pc.result.value] else [])
            && th'.misses == th.misses + (if last && th.pc.GetUnlock? && th.pc.result.None? then 1 else 0)
            && th'.sizes == th.sizes + (if last && th.pc.SizeUnlock? then [th.pc.n] else [])
  {
    SameThreadCount(s, a);
    if t != a.t {
      OthersMoveOnlyByWaking(s, a, t);
    } else if a.Run? && !s.threads[t].pc.User? {
      if InPut(s.threads[t].pc) { assert LocalOk(s, t); }
      else if !InSize(s.threads[t].pc) { GetMovesOnlyItself(s, t); }
    }
  }
}
