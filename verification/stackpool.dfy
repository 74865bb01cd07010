/** The Zephyr stack pool: a fixed array of stacks handed out first-fit and freed by
    address, behind the guard of `poski::OsTask`. */
module StackPool {
  import opened Types

  const STACK_SIZE: nat := 2048

  // ----- the two searches -----

  /** The lowest free index, or the pool size. */
  function FirstFree(used: seq<bool>): (k: nat)
    ensures k <= |used|
    ensures forall j :: 0 <= j < k ==> used[j]
    ensures k < |used| ==> !used[k]
  {
    if used == [] || !used[0] then 0 else 1 + FirstFree(used[1..])
  }

  /** The lowest index of an address, or the pool size. */
  function IndexOf(stacks: seq<int>, address: int): (k: nat)
    ensures k <= |stacks|
    ensures forall j :: 0 <= j < k ==> stacks[j] != address
    ensures k < |stacks| ==> stacks[k] == address
  {
    if stacks == [] || stacks[0] == address then 0 else 1 + IndexOf(stacks[1..], address)
  }

  predicate Distinct(stacks: seq<int>) {
    forall j, k :: 0 <= j < k < |stacks| ==> stacks[j] != stacks[k]
  }

  // ----- the pool as a value -----

  /** The fields of a task object that matter here: the address last assigned to it, and the guard. */
  datatype Task = Task(stack: int, inited: bool)

  /** The effect of `Start`; `created` is the kernel's answer. A failed creation is rolled back in
      the pool but leaves the address in the task. */
  function Started(stacks: seq<int>, used: seq<bool>, t: Task, size: nat, created: bool): (seq<bool>, Task, Error)
    requires |stacks| == |used|
  {
    var k := FirstFree(used);
    if size > STACK_SIZE then (used, t, Invalid)
    else if k == |used| then (used, t, NoMem)
    else if created then (used[k := true], Task(stacks[k], true), Ok)
    else (used, t.(stack := stacks[k]), Failure)
  }

  /** The effect of `Remove`. */
  function Removed(stacks: seq<int>, used: seq<bool>, t: Task): (seq<bool>, Task, Error)
    requires |stacks| == |used|
  {
    var k := IndexOf(stacks, t.stack);
    if !t.inited then (used, t, Failure)
    else (if k < |used| then used[k := false] else used, t.(inited := false), Ok)
  }

  /** Stack `k` is the lowest that is not marked. */
  ghost predicate LowestFree(used: seq<bool>, k: nat) {
    k < |used| && !used[k] && forall j :: 0 <= j < k ==> used[j]
  }

  /** A start in every case: refused as invalid exactly for an oversized stack, else for lack of memory
      exactly with every stack marked, else failed exactly with the creation. Only success marks a
      stack, the lowest free one and no other, and sets the guard; the task then has that stack. */
  lemma StartExactly(stacks: seq<int>, used: seq<bool>, t: Task, size: nat, created: bool)
    requires |stacks| == |used|
    ensures var (used', t', err) := Started(stacks, used, t, size, created);
            && (err == Invalid <==> size > STACK_SIZE)
            && (err == NoMem <==> size <= STACK_SIZE && forall k :: 0 <= k < |used| ==> used[k])
            && (err == Ok <==> size <= STACK_SIZE && created && exists k :: 0 <= k < |used| && !used[k])
            && (err == Failure <==> size <= STACK_SIZE && !created && exists k :: 0 <= k < |used| && !used[k])
            && (err != Ok ==> used' == used && t'.inited == t.inited)
            && (err == Invalid || err == NoMem ==> t' == t)
            && (err == Ok || err == Failure ==> exists k: nat :: LowestFree(used, k) && t'.stack == stacks[k])
            && (err == Ok ==>
                  t'.inited && exists k: nat :: LowestFree(used, k) && t'.stack == stacks[k] && used' == used[k := true])
  {
    var k := FirstFree(used);
    assert k < |used| ==> LowestFree(used, k);
  }

  /** A remove in every case: refused exactly without the guard, which it clears. It unmarks the stack
      at the task's address, if the pool has one, and no other. */
  lemma RemoveExactly(stacks: seq<int>, used: seq<bool>, t: Task)
    requires |stacks| == |used| && Distinct(stacks)
    ensures var (used', t', err) := Removed(stacks, used, t);
            && (err == Ok <==> t.inited) && (err != Ok <==> err == Failure)
            && (err != Ok ==> used' == used && t' == t)
            && (err == Ok ==>
                  && |used'| == |used| && t' == Task(t.stack, false)
                  && forall k :: 0 <= k < |used| ==> used'[k] == (used[k] && stacks[k] != t.stack))
  {
  }

  // ----- the code -----

  class Pool {
    const stacks: seq<int>
    const used: array<bool>

    ghost predicate Valid() {
      |stacks| == used.Length && Distinct(stacks)
    }

    constructor (stacks: seq<int>)
      requires Distinct(stacks)
      ensures Valid() && this.stacks == stacks && fresh(used)
      ensures used[..] == seq(|stacks|, i => false)
    {
      this.stacks := stacks;
      used := new bool[|stacks|](i => false);
    }
  }

  lemma AddressIsFirst(stacks: seq<int>, address: int, k: nat)
    requires k <= |stacks|
    ensures (forall j :: 0 <= j < k ==> stacks[j] != address) && (k < |stacks| ==> stacks[k] == address) ==> k == IndexOf(stacks, address)
  {
  }

  lemma FreeIsFirst(used: seq<bool>, k: nat)
    requires k <= |used| && (forall j :: 0 <= j < k ==> used[j]) && (k < |used| ==> !used[k])
    ensures k == FirstFree(used)
  {
  }

  class OsTask {
    var stack: int
    var inited: bool

    ghost function State(): Task
      reads this
    {
      Task(stack, inited)
    }

    constructor (garbage: int)
      ensures State() == Task(garbage, false)
    {
      stack, inited := garbage, false;
    }

    /** `pos_task_init`. */
    method PosTaskInit(pool: Pool, size: nat, created: bool) returns (err: Error)
      requires pool.Valid()
      modifies this`stack, pool.used
      ensures var (used, t, e) := Started(pool.stacks, old(pool.used[..]), old(State()), size, created);
              pool.used[..] == used && stack == t.stack && err == e
    {
      if size > STACK_SIZE { return Invalid; }
      var stackIdx := -1;
      for i := 0 to pool.used.Length
        invariant stackIdx == -1
        invariant forall j :: 0 <= j < i ==> pool.used[j]
        invariant pool.used[..] == old(pool.used[..])
      {
        if !pool.used[i] {
          stackIdx := i;
          FreeIsFirst(pool.used[..], i);
          break;
        }
      }
      if stackIdx == -1 {
        FreeIsFirst(pool.used[..], pool.used.Length);
        return NoMem;
      }
      pool.used[stackIdx] := true;
      stack := pool.stacks[stackIdx];
      if created { return Ok; }
      pool.used[stackIdx] := false;
      assert pool.used[..] == old(pool.used[..]);
      err := Failure;
    }

    /** `pos_task_remove`. */
    method PosTaskRemove(pool: Pool) returns (err: Error)
      requires pool.Valid()
      modifies pool.used
      ensures var k := IndexOf(pool.stacks, stack);
              pool.used[..] == if k < |pool.stacks| then old(pool.used[..])[k := false] else old(pool.used[..])
      ensures err == Ok
    {
      AddressIsFirst(pool.stacks, stack, pool.used.Length);
      for i := 0 to pool.used.Length
        invariant forall j :: 0 <= j < i ==> pool.stacks[j] != stack
        invariant pool.used[..] == old(pool.used[..])
      {
        if stack == pool.stacks[i] {
          AddressIsFirst(pool.stacks, stack, i);
          pool.used[i] := false;
          break;
        }
      }
      err := Ok;
    }

    method Start(pool: Pool, size: nat, created: bool) returns (err: Error)
      requires pool.Valid()
      modifies this, pool.used
      ensures (pool.used[..], State(), err) == Started(pool.stacks, old(pool.used[..]), old(State()), size, created)
    {
      err := PosTaskInit(pool, size, created);
      if err == Ok { inited := true; }
    }

    method Remove(pool: Pool) returns (err: Error)
      requires pool.Valid()
      modifies this`inited, pool.used
      ensures (pool.used[..], State(), err) == Removed(pool.stacks, old(pool.used[..]), old(State()))
    {
      if inited {
        err := PosTaskRemove(pool);
        if err == Ok { inited := false; }
        return;
      }
      err := Failure;
    }
  }

  // ----- runs -----

  datatype World = World(stacks: seq<int>, used: seq<bool>, tasks: seq<Task>, starts: nat, removes: nat)

  datatype Op = Start(i: nat, size: nat, created: bool) | Remove(i: nat)

  function Next(w: World, op: Op): World
    requires |w.stacks| == |w.used| && op.i < |w.tasks|
  {
    match op
    case Start(i, size, created) =>
      var (used, t, err) := Started(w.stacks, w.used, w.tasks[i], size, created);
      w.(used := used, tasks := w.tasks[i := t], starts := w.starts + (if err == Ok then 1 else 0))
    case Remove(i) =>
      var (used, t, err) := Removed(w.stacks, w.used, w.tasks[i]);
      w.(used := used, tasks := w.tasks[i := t], removes := w.removes + (if err == Ok then 1 else 0))
  }

  /** The stack a task points at, or the pool size. */
  function SlotOf(w: World, i: nat): nat
    requires i < |w.tasks|
  {
    IndexOf(w.stacks, w.tasks[i].stack)
  }

  /** Started task `i` has been given stack `k`. */
  predicate Owns(w: World, i: nat, k: nat) {
    i < |w.tasks| && w.tasks[i].inited && SlotOf(w, i) == k
  }

  ghost predicate Owned(w: World, k: nat) {
    exists i: nat :: Owns(w, i, k)
  }

  /** Started tasks own pairwise distinct stacks of the pool, and the stacks marked used are exactly those owned. */
  ghost predicate Inv(w: World) {
    && |w.stacks| == |w.used| && Distinct(w.stacks)
    && (forall i: nat, k: nat :: Owns(w, i, k) ==> k < |w.used| && w.used[k])
    && (forall i: nat, j: nat, k: nat :: Owns(w, i, k) && Owns(w, j, k) ==> i == j)
    && (forall k: nat :: k < |w.used| && w.used[k] ==> Owned(w, k))
  }

  lemma IndexOfElement(stacks: seq<int>, k: nat)
    requires Distinct(stacks) && k < |stacks|
    ensures IndexOf(stacks, stacks[k]) == k
  {
    AddressIsFirst(stacks, stacks[k], k);
  }

  /** What one operation on task `i` does to ownership: the others keep theirs. */
  lemma OwnershipMoves(w: World, op: Op, j: nat, k: nat)
    requires Inv(w) && op.i < |w.tasks| && j != op.i
    ensures Owns(Next(w, op), j, k) <==> Owns(w, j, k)
  {
  }

  /** A start on a task that is not started, or any removal, keeps the pool safe. */
  lemma NextKeepsInv(w: World, op: Op)
    requires Inv(w) && op.i < |w.tasks|
    requires op.Start? ==> !w.tasks[op.i].inited
    ensures Inv(Next(w, op))
  {
    var w', f := Next(w, op), FirstFree(w.used);
    if f < |w.stacks| { IndexOfElement(w.stacks, f); }
    assert w.tasks[op.i].inited ==> Owns(w, op.i, SlotOf(w, op.i));
    forall j: nat, k: nat
      ensures j != op.i ==> (Owns(w', j, k) <==> Owns(w, j, k))
    {
      if j != op.i { OwnershipMoves(w, op, j, k); }
    }
    forall k: nat | k < |w'.used| && w'.used[k]
      ensures Owned(w', k)
    {
      if w.used[k] {
        var i: nat :| Owns(w, i, k);
        assert Owns(w', i, k);
      } else {
        assert Owns(w', op.i, k);
      }
    }
  }

  // ----- counting -----

  function Trues(s: seq<bool>): nat {
    if s == [] then 0 else Trues(s[..|s| - 1]) + (if s[|s| - 1] then 1 else 0)
  }

  lemma {:induction false} TruesUpdate(s: seq<bool>, k: nat, b: bool)
    requires k < |s|
    ensures Trues(s[k := b]) + (if s[k] then 1 else 0) == Trues(s) + (if b then 1 else 0)
  {
    var n := |s| - 1;
    if k == n {
      assert s[k := b][..n] == s[..n];
    } else {
      TruesUpdate(s[..n], k, b);
      assert s[k := b][..n] == s[..n][k := b];
    }
  }

  /** Used stacks are successful starts minus successful removes. */
  lemma NextKeepsCount(w: World, op: Op)
    requires Inv(w) && op.i < |w.tasks|
    requires Trues(w.used) + w.removes == w.starts
    ensures Trues(Next(w, op).used) + Next(w, op).removes == Next(w, op).starts
  {
    var f, k := FirstFree(w.used), SlotOf(w, op.i);
    if f < |w.used| { TruesUpdate(w.used, f, true); }
    if w.tasks[op.i].inited {
      assert Owns(w, op.i, k);
      TruesUpdate(w.used, k, false);
    }
  }

  /** An empty pool of any size and task objects that have not been started. */
  ghost predicate Initial(w: World) {
    && |w.stacks| == |w.used| && Distinct(w.stacks)
    && (forall k :: 0 <= k < |w.used| ==> !w.used[k])
    && (forall i :: 0 <= i < |w.tasks| ==> !w.tasks[i].inited)
    && w.starts == 0 && w.removes == 0
  }

  /** Runs in which Start is only called on a task that is not started; Remove may be repeated. */
  ghost predicate IsRun(w: World, run: seq<Op>)
    decreases |run|
  {
    run == [] ||
    (&& |w.stacks| == |w.used| && run[0].i < |w.tasks|
     && (run[0].Start? ==> !w.tasks[run[0].i].inited)
     && IsRun(Next(w, run[0]), run[1..]))
  }

  ghost function After(w: World, run: seq<Op>): World
    requires IsRun(w, run)
    decreases |run|
  {
    if run == [] then w else After(Next(w, run[0]), run[1..])
  }

  lemma {:induction false} RunKeepsInv(w: World, run: seq<Op>)
    requires Inv(w) && IsRun(w, run) && Trues(w.used) + w.removes == w.starts
    ensures Inv(After(w, run)) && Trues(After(w, run).used) + After(w, run).removes == After(w, run).starts
    decreases |run|
  {
    if run != [] {
      NextKeepsInv(w, run[0]);
      NextKeepsCount(w, run[0]);
      RunKeepsInv(Next(w, run[0]), run[1..]);
    }
  }

  lemma {:induction false} NoTrues(s: seq<bool>)
    requires forall k :: 0 <= k < |s| ==> !s[k]
    ensures Trues(s) == 0
  {
    if s != [] { NoTrues(s[..|s| - 1]); }
  }

  /** Safety over every run: two started tasks never share a stack, a stack is marked used exactly
      when a started task owns it, and the marks count the tasks started and not removed. */
  lemma PoolSafe(w0: World, run: seq<Op>)
    requires Initial(w0) && IsRun(w0, run)
    ensures var w := After(w0, run);
            && |w.stacks| == |w.used|
            && (forall i: nat, j: nat :: i < |w.tasks| && j < |w.tasks| && i != j && w.tasks[i].inited && w.tasks[j].inited ==>
                  w.tasks[i].stack != w.tasks[j].stack)
            && (forall i: nat :: i < |w.tasks| && w.tasks[i].inited ==> w.tasks[i].stack in w.stacks)
            && (forall k: nat :: k < |w.used| ==> (w.used[k] <==> Owned(w, k)))
            && Trues(w.used) + w.removes == w.starts
  {
    NoTrues(w0.used);
    RunKeepsInv(w0, run);
    var w := After(w0, run);
    forall i: nat | i < |w.tasks| && w.tasks[i].inited
      ensures w.tasks[i].stack in w.stacks
    {
      assert Owns(w, i, SlotOf(w, i));
    }
    forall i: nat, j: nat | i < |w.tasks| && j < |w.tasks| && i != j && w.tasks[i].inited && w.tasks[j].inited
      ensures w.tasks[i].stack != w.tasks[j].stack
    {
      assert Owns(w, i, SlotOf(w, i)) && Owns(w, j, SlotOf(w, j));
    }
  }

  /** With an admissible size, allocation fails for lack of memory exactly when every stack has an
      owner, and otherwise uses the lowest stack without one. */
  lemma NoMemExactly(w: World, i: nat, size: nat, created: bool)
    requires Inv(w) && i < |w.tasks| && size <= STACK_SIZE
    ensures var (used, t, err) := Started(w.stacks, w.used, w.tasks[i], size, created);
            && (err == NoMem <==> forall k: nat :: k < |w.stacks| ==> Owned(w, k))
            && (err != NoMem ==>
                  exists k: nat :: k < |w.stacks| && t.stack == w.stacks[k] && !Owned(w, k) &&
                    forall k': nat :: k' < k ==> Owned(w, k'))
  {
    var f := FirstFree(w.used);
    forall k: nat | k < f ensures Owned(w, k) { assert w.used[k]; }
    if f < |w.used| {
      assert !w.used[f];
      assert !Owned(w, f);
    }
  }

  /** What one operation does to ownership in a safe world, exactly. A start of a task that is not
      started gives it the lowest stack without an owner, if its size is admissible, its thread was
      created and there is such a stack; a remove takes away the task's stack; nothing else changes. */
  lemma OwnershipExact(w: World, op: Op, j: nat, k: nat)
    requires Inv(w) && op.i < |w.tasks|
    requires op.Start? ==> !w.tasks[op.i].inited
    ensures Owns(Next(w, op), j, k) <==>
              match op
              case Start(i, size, created) =>
                || Owns(w, j, k)
                || (j == i && size <= STACK_SIZE && created &&
                    k < |w.stacks| && !Owned(w, k) && forall k': nat :: k' < k ==> Owned(w, k'))
              case Remove(i) => Owns(w, j, k) && j != i
  {
    if j != op.i {
      OwnershipMoves(w, op, j, k);
    } else if op.Start? {
      var f := FirstFree(w.used);
      forall k': nat | k' < f ensures Owned(w, k') { assert w.used[k']; }
      if f < |w.used| {
        IndexOfElement(w.stacks, f);
        assert !Owned(w, f);
      }
    }
  }

  /** Starting a task and removing it again restores the pool exactly. */
  lemma StartThenRemove(w: World, i: nat, size: nat)
    requires Inv(w) && i < |w.tasks| && !w.tasks[i].inited
    requires Started(w.stacks, w.used, w.tasks[i], size, true).2 == Ok
    ensures var w' := Next(Next(w, Start(i, size, true)), Remove(i));
            w'.used == w.used && !w'.tasks[i].inited && w'.removes == w.removes + 1
  {
    IndexOfElement(w.stacks, FirstFree(w.used));
  }

  /** The discipline is needed: starting a task that is already started keeps the pool safe exactly
      when it is refused before a stack is chosen. Otherwise the stack it had is leaked. */
  lemma RestartLeaks(w: World, i: nat, size: nat, created: bool)
    requires Inv(w) && i < |w.tasks| && w.tasks[i].inited
    ensures Inv(Next(w, Start(i, size, created))) <==> size > STACK_SIZE || FirstFree(w.used) == |w.used|
  {
    var w', f, k := Next(w, Start(i, size, created)), FirstFree(w.used), SlotOf(w, i);
    assert Owns(w, i, k);
    if size <= STACK_SIZE && f < |w.used| {
      IndexOfElement(w.stacks, f);
      assert w'.used[k] && SlotOf(w', i) == f != k;
      if j: nat :| Owns(w', j, k) {
        OwnershipMoves(w, Start(i, size, created), j, k);
      }
    } else {
      assert w'.tasks == w.tasks;
    }
  }
}
