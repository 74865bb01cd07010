/** `RingPthread` and the `pos_queue_*` functions as objects, one call at a time. A call starts
    when the mutex is free; what other threads do while a getter waits is a parameter. */
module PosixQueue {
  import opened Types
  import opened Bits
  import opened Ring
  import opened OsRingClass

  // ----- what a put does -----

  /** A put appends its item and wakes at least one sleeper, if there is any. */
  ghost predicate PutOutcome(q: seq<Item>, sleeping: set<nat>, woken: set<nat>, item: Item,
                             q': seq<Item>, sleeping': set<nat>, woken': set<nat>)
  {
    && q' == q + [item]
    && sleeping' <= sleeping && woken' == woken + (sleeping - sleeping')
    && (sleeping != {} ==> sleeping' != sleeping)
  }

  // ----- what a get does -----

  /** A get either hands over an item, or gives up, or is still waiting when the story ends. */
  datatype Outcome = Delivered(item: Item) | Missed | Waiting

  /** The other threads' operations during each wait, none of them failing an assertion. */
  ghost predicate Legal(q: seq<Item>, capacity: nat, itemSize: nat, others: seq<seq<Op>>)
    decreases |others|
  {
    others == [] ||
    (Fit(others[0], itemSize) &&
     match FifoRun(q, capacity, others[0])
     case None => false
     case Some((q', _)) => Legal(q', capacity, itemSize, others[1..]))
  }

  /** The queue after so many waits. */
  ghost function AfterWaits(q: seq<Item>, capacity: nat, itemSize: nat, others: seq<seq<Op>>, waits: nat): seq<Item>
    requires waits <= |others| && Legal(q, capacity, itemSize, others)
    decreases waits
  {
    if waits == 0 then q
    else AfterWaits(FifoRun(q, capacity, others[0]).value.0, capacity, itemSize, others[1..], waits - 1)
  }

  lemma {:induction false} OneMoreWait(q: seq<Item>, capacity: nat, itemSize: nat, others: seq<seq<Op>>, waits: nat)
    requires waits < |others| && Legal(q, capacity, itemSize, others)
    ensures var now := AfterWaits(q, capacity, itemSize, others, waits);
            && Fit(others[waits], itemSize)
            && FifoRun(now, capacity, others[waits]).Some?
            && AfterWaits(q, capacity, itemSize, others, waits + 1) == FifoRun(now, capacity, others[waits]).value.0
    decreases waits
  {
    if waits > 0 {
      OneMoreWait(FifoRun(q, capacity, others[0]).value.0, capacity, itemSize, others[1..], waits - 1);
    } else {
      assert AfterWaits(q, capacity, itemSize, others, 0) == q;
      var q' := FifoRun(q, capacity, others[0]).value.0;
      assert AfterWaits(q', capacity, itemSize, others[1..], 0) == q';
    }
  }

  /** A get waits through exactly the leading moments at which the queue is empty, if `tmo` is not
      zero, and then takes the oldest item; with `tmo` zero it decides at once. */
  ghost predicate GetOutcome(q: seq<Item>, capacity: nat, itemSize: nat, tmo: nat, others: seq<seq<Op>>, waits: nat, outcome: Outcome, left: seq<Item>)
    requires waits <= |others| && Legal(q, capacity, itemSize, others)
  {
    var now := AfterWaits(q, capacity, itemSize, others, waits);
    && (tmo == 0 ==> waits == 0)
    && (forall w: nat :: w < waits ==> AfterWaits(q, capacity, itemSize, others, w) == [])
    && match outcome
       case Delivered(item) => now != [] && item == now[0] && left == now[1..]
       case Missed => tmo == 0 && now == [] && left == now
       case Waiting => tmo != 0 && now == [] && waits == |others| && left == now
  }

  /** The story determines the outcome. */
  lemma GetIsDetermined(q: seq<Item>, capacity: nat, itemSize: nat, tmo: nat, others: seq<seq<Op>>,
                        w1: nat, o1: Outcome, left1: seq<Item>, w2: nat, o2: Outcome, left2: seq<Item>)
    requires Legal(q, capacity, itemSize, others)
    requires w1 <= |others| && GetOutcome(q, capacity, itemSize, tmo, others, w1, o1, left1)
    requires w2 <= |others| && GetOutcome(q, capacity, itemSize, tmo, others, w2, o2, left2)
    ensures w1 == w2 && o1 == o2 && left1 == left2
  {
  }

  /** Other waiters than `self` have only been woken, none forgotten and none invented. */
  ghost predicate OnlyWoken(self: nat, sleeping: set<nat>, woken: set<nat>, sleeping': set<nat>, woken': set<nat>) {
    && sleeping' - {self} <= sleeping
    && (sleeping' + woken') - {self} == (sleeping + woken) - {self}
    && woken - {self} <= woken'
  }

  /** The queue after one operation of another thread. */
  ghost function AfterOp(q: seq<Item>, op: Op): seq<Item>
    requires op.Pop? ==> q != []
  {
    if op.Push? then q + [op.item] else q[1..]
  }

  lemma FirstOp(q: seq<Item>, capacity: nat, ops: seq<Op>)
    requires ops != [] && FifoRun(q, capacity, ops).Some?
    ensures (ops[0].Push? ==> |q| != capacity) && (ops[0].Pop? ==> q != [])
    ensures var rest := FifoRun(AfterOp(q, ops[0]), capacity, ops[1..]);
            rest.Some? && rest.value.0 == FifoRun(q, capacity, ops).value.0
  {
  }

  class RingPthread {
    const ring: OsRing
    var owner: Option<nat>
    var depth: nat
    var sleeping: set<nat>
    var woken: set<nat>

    ghost predicate Valid()
      reads this, ring, ring.buffer
    {
      ring.Valid() && (owner.None? <==> depth == 0)
    }

    ghost function Contents(): seq<Item>
      requires Valid()
      reads this, ring, ring.buffer
    {
      ring.Contents()
    }

    constructor (itemSize: nat, itemCount: nat)
      requires itemSize < 0x1_0000 && itemCount < 0x1_0000
      requires itemCount > 0 && And(itemCount - 1, itemCount) == 0
      ensures Valid() && fresh(ring) && fresh(ring.buffer)
      ensures ring.itemSize == itemSize && ring.itemCount == itemCount
      ensures Contents() == [] && owner == None && sleeping == {} && woken == {}
    {
      ring := new OsRing(itemSize, itemCount);
      owner, depth := None, 0;
      sleeping, woken := {}, {};
    }

    /** Blocks until the mutex is free or the caller's own; from there on it cannot fail. */
    method Lock(self: nat)
      requires owner == None || owner == Some(self)
      modifies this`owner, this`depth
      ensures owner == Some(self) && depth == old(depth) + 1
    {
      owner, depth := Some(self), depth + 1;
    }

    method Unlock(self: nat)
      requires owner == Some(self) && depth > 0
      modifies this`owner, this`depth
      ensures depth == old(depth) - 1
      ensures owner == if depth == 0 then None else Some(self)
    {
      depth := depth - 1;
      if depth == 0 { owner := None; }
    }

    /** `pthread_cond_signal`: at least one sleeper, if there is any. */
    method Signal()
      modifies this`sleeping, this`woken
      ensures sleeping <= old(sleeping) && woken == old(woken) + (old(sleeping) - sleeping)
      ensures old(sleeping) != {} ==> sleeping != old(sleeping)
    {
      if sleeping != {} {
        var t :| t in sleeping;
        sleeping, woken := sleeping - {t}, woken + {t};
      }
    }

    method Put(self: nat, itemIn: array<byte>)
      requires Valid() && owner == None && |Contents()| < ring.itemCount
      requires itemIn.Length >= ring.itemSize && itemIn != ring.buffer
      modifies this`owner, this`depth, this`sleeping, this`woken, ring`writeIndex, ring.buffer
      ensures Valid() && owner == None
      ensures PutOutcome(old(Contents()), old(sleeping), old(woken), itemIn[..ring.itemSize], Contents(), sleeping, woken)
    {
      Lock(self);
      ring.PushBack(itemIn);
      Signal();
      Unlock(self);
    }

    method Size(self: nat) returns (size: nat)
      requires Valid() && owner == None
      modifies this`owner, this`depth
      ensures Valid() && owner == None && size == |Contents()|
    {
      Lock(self);
      size := ring.Size();
      Unlock(self);
    }

    /** One whole put or get of some other thread. */
    method Other(op: Op)
      requires Valid() && owner == None
      requires op.Push? ==> |op.item| == ring.itemSize && |Contents()| < ring.itemCount
      requires op.Pop? ==> Contents() != []
      modifies this`sleeping, this`woken, ring, ring.buffer
      ensures Valid() && Contents() == AfterOp(old(Contents()), op)
      ensures sleeping <= old(sleeping) && woken == old(woken) + (old(sleeping) - sleeping)
    {
      if op.Push? {
        var bytes := new byte[|op.item|](k requires 0 <= k < |op.item| => op.item[k]);
        assert bytes[..ring.itemSize] == op.item;
        ring.PushBack(bytes);
        Signal();
      } else {
        ring.PopFront();
      }
    }

    method Others(ops: seq<Op>)
      requires Valid() && owner == None
      requires Fit(ops, ring.itemSize) && FifoRun(Contents(), ring.itemCount, ops).Some?
      modifies this`sleeping, this`woken, ring, ring.buffer
      ensures Valid() && Contents() == FifoRun(old(Contents()), ring.itemCount, ops).value.0
      ensures sleeping <= old(sleeping) && woken == old(woken) + (old(sleeping) - sleeping)
    {
      var rest := ops;
      ghost var end := FifoRun(Contents(), ring.itemCount, ops).value.0;
      while rest != []
        invariant Valid() && Fit(rest, ring.itemSize)
        invariant FifoRun(Contents(), ring.itemCount, rest).Some?
        invariant FifoRun(Contents(), ring.itemCount, rest).value.0 == end
        invariant sleeping <= old(sleeping) && woken == old(woken) + (old(sleeping) - sleeping)
        decreases |rest|
      {
        FirstOp(Contents(), ring.itemCount, rest);
        ObserversAgree(ring.State());
        Other(rest[0]);
        rest := rest[1..];
      }
    }

    /** `pthread_cond_wait` by a caller that holds the mutex once: it frees the mutex and sleeps,
        the others perform `ops`, and it comes back holding the mutex once. */
    method Wait(self: nat, ops: seq<Op>)
      requires Valid() && owner == Some(self) && depth == 1
      requires Fit(ops, ring.itemSize) && FifoRun(Contents(), ring.itemCount, ops).Some?
      modifies this, ring, ring.buffer
      ensures Valid() && owner == Some(self) && depth == 1
      ensures Contents() == FifoRun(old(Contents()), ring.itemCount, ops).value.0
      ensures self !in sleeping && self !in woken
      ensures OnlyWoken(self, old(sleeping), old(woken), sleeping, woken)
    {
      Unlock(self);
      sleeping := sleeping + {self};
      Others(ops);
      sleeping, woken := sleeping - {self}, woken - {self};
      Lock(self);
    }

    /** The loop `while (size() == 0) wait`, until it ends or the story does. */
    method AwaitItem(self: nat, others: seq<seq<Op>>) returns (waits: nat)
      requires Valid() && owner == Some(self) && depth == 1
      requires Legal(Contents(), ring.itemCount, ring.itemSize, others)
      modifies this, ring, ring.buffer
      ensures Valid() && owner == Some(self) && depth == 1 && waits <= |others|
      ensures Contents() == AfterWaits(old(Contents()), ring.itemCount, ring.itemSize, others, waits)
      ensures forall w: nat :: w < waits ==> AfterWaits(old(Contents()), ring.itemCount, ring.itemSize, others, w) == []
      ensures Contents() == [] ==> waits == |others|
      ensures OnlyWoken(self, old(sleeping), old(woken), sleeping, woken)
      ensures waits == 0 ==> sleeping == old(sleeping) && woken == old(woken)
    {
      ghost var q0 := Contents();
      waits := 0;
      var size := ring.Size();
      while size == 0 && waits < |others|
        invariant Valid() && owner == Some(self) && depth == 1
        invariant waits <= |others| && size == |Contents()|
        invariant OnlyWoken(self, old(sleeping), old(woken), sleeping, woken)
        invariant waits == 0 ==> sleeping == old(sleeping) && woken == old(woken)
        invariant Contents() == AfterWaits(q0, ring.itemCount, ring.itemSize, others, waits)
        invariant forall w: nat :: w < waits ==> AfterWaits(q0, ring.itemCount, ring.itemSize, others, w) == []
        decreases |others| - waits
      {
        OneMoreWait(q0, ring.itemCount, ring.itemSize, others, waits);
        Wait(self, others[waits]);
        waits := waits + 1;
        size := ring.Size();
      }
    }

    /** The part of `get` after the loop. */
    method TakeFront(itemOut: array<byte>) returns (taken: bool)
      requires Valid()
      requires itemOut.Length >= ring.itemSize && itemOut != ring.buffer
      modifies ring`readIndex, itemOut
      ensures Valid()
      ensures taken <==> old(Contents()) != []
      ensures taken ==> itemOut[..ring.itemSize] == old(Contents())[0] && Contents() == old(Contents())[1..]
      ensures itemOut[if taken then ring.itemSize else 0..] == old(itemOut[..])[if taken then ring.itemSize else 0..]
      ensures !taken ==> Contents() == old(Contents())
    {
      taken := false;
      var size := ring.Size();
      if size != 0 {
        var item := ring.Front();
        if item.Some? {
          CopyBytes(itemOut, 0, ring.buffer, item.value, ring.itemSize);
          ring.PopFront();
          taken := true;
        }
      }
    }

    method Get(self: nat, itemOut: array<byte>, tmo: nat, others: seq<seq<Op>>) returns (outcome: Outcome, waits: nat)
      requires Valid() && owner == None && tmo < 0x1_0000_0000
      requires itemOut.Length >= ring.itemSize && itemOut != ring.buffer
      requires Legal(Contents(), ring.itemCount, ring.itemSize, others)
      modifies this, ring, ring.buffer, itemOut
      ensures Valid() && owner == None && waits <= |others|
      ensures GetOutcome(old(Contents()), ring.itemCount, ring.itemSize, tmo, others, waits, outcome, Contents())
      ensures outcome.Delivered? ==> itemOut[..ring.itemSize] == outcome.item
      ensures itemOut[ring.itemSize..] == old(itemOut[..])[ring.itemSize..]
      ensures !outcome.Delivered? ==> itemOut[..] == old(itemOut[..])
      ensures OnlyWoken(self, old(sleeping), old(woken), sleeping, woken)
      ensures if outcome.Waiting? then self in sleeping else waits == 0 ==> sleeping == old(sleeping) && woken == old(woken)
    {
      waits := 0;
      Lock(self);
      if tmo != 0 {
        waits := AwaitItem(self, others);
        var size := ring.Size();
        if size == 0 {
          Unlock(self);
          sleeping := sleeping + {self};
          return Waiting, waits;
        }
      }
      var taken := TakeFront(itemOut);
      outcome := if taken then Delivered(itemOut[..ring.itemSize]) else Missed;
      Unlock(self);
    }
  }
}
