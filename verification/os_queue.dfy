/** The C interface of the POSIX queue: `struct pos_queue` and the functions on it. */
module OsQueue {
  import opened Types
  import opened Bits
  import opened Ring
  import opened PosixQueue

  /** One run of a signal callback: its function, its argument, and what it found when it started, the
      items in the queue and the holder of the queue's mutex. */
  datatype Signalled = Signalled(cb: nat, arg: nat, queue: seq<Item>, owner: Option<nat>)

  class PosQueue {
    var q: RingPthread?
    var sigCb: Option<nat>
    var sigArg: nat
    ghost var signals: seq<Signalled>

    /** Initialised, and no call under way. */
    ghost predicate Ready()
      reads this
      reads if q == null then {} else {q, q.ring, q.ring.buffer}
    {
      q != null && q.Valid() && q.owner == None
    }

    ghost function Contents(): seq<Item>
      requires Ready()
      reads this
      reads if q == null then {} else {q, q.ring, q.ring.buffer}
    {
      q.Contents()
    }

    /** A zeroed structure. */
    constructor ()
      ensures q == null && sigCb == None && signals == []
    {
      q, sigCb, sigArg, signals := null, None, 0, [];
    }

    /** The sizes must fit the ring's 16-bit fields and pass its constructor's assertion. */
    method Init(msgSize: nat, maxMsgs: nat) returns (err: Error)
      requires msgSize < 0x1_0000 && maxMsgs < 0x1_0000
      requires maxMsgs > 0 && And(maxMsgs - 1, maxMsgs) == 0
      modifies this
      ensures err == Ok && Ready() && fresh(q) && fresh(q.ring) && fresh(q.ring.buffer)
      ensures Contents() == [] && q.ring.itemSize == msgSize && q.ring.itemCount == maxMsgs
      ensures sigCb == None && sigArg == 0 && signals == old(signals)
      ensures q.sleeping == {} && q.woken == {}
    {
      q := new RingPthread(msgSize, maxMsgs);
      sigCb, sigArg := None, 0;
      err := Ok;
    }

    method Inited() returns (r: bool)
      ensures r <==> q != null
    {
      r := q != null;
    }

    method SetSignalCb(cb: Option<nat>, data: nat)
      modifies this`sigCb, this`sigArg
      ensures sigCb == cb && sigArg == data
    {
      sigCb, sigArg := cb, data;
    }

    method IsEmpty(self: nat) returns (empty: bool)
      requires Ready()
      modifies q`owner, q`depth
      ensures Ready() && Contents() == old(Contents())
      ensures empty <==> Contents() == []
    {
      var n := q.Size(self);
      empty := n == 0;
    }

    /** The call of the function installed. The callback here is one that leaves the queue alone. */
    method RunCallback()
      requires Ready() && sigCb.Some?
      modifies this`signals
      ensures signals == old(signals) + [Signalled(sigCb.value, sigArg, Contents(), q.owner)]
    {
      signals := signals + [Signalled(sigCb.value, sigArg, Contents(), q.owner)];
    }

    /** Inserts the message, then runs the callback installed, if any, once: it finds the message in the
        queue and the mutex free. */
    method Put(self: nat, data: array<byte>) returns (err: Error)
      requires Ready() && |Contents()| < q.ring.itemCount
      requires data.Length >= q.ring.itemSize && data != q.ring.buffer
      modifies this`signals, q, q.ring, q.ring.buffer
      ensures err == Ok && Ready() && q == old(q)
      ensures PutOutcome(old(Contents()), old(q.sleeping), old(q.woken), data[..q.ring.itemSize], Contents(), q.sleeping, q.woken)
      ensures signals == old(signals) +
                (if sigCb.Some? then [Signalled(sigCb.value, sigArg, old(Contents()) + [data[..q.ring.itemSize]], None)] else [])
    {
      q.Put(self, data);
      if sigCb.Some? { RunCallback(); }
      err := Ok;
    }

    /** POS_OK with a message, or POS_TIMEOUT at once with none, or None while still blocked. The
        time type is 64 bits wide on some builds and is cut to the ring's 32 bits on the way. */
    method Get(self: nat, data: array<byte>, tmo: nat, others: seq<seq<Op>>) returns (err: Option<Error>, waits: nat)
      requires Ready()
      requires data.Length >= q.ring.itemSize && data != q.ring.buffer
      requires Legal(Contents(), q.ring.itemCount, q.ring.itemSize, others)
      modifies q, q.ring, q.ring.buffer, data
      ensures Ready() && waits <= |others|
      ensures var now := AfterWaits(old(Contents()), q.ring.itemCount, q.ring.itemSize, others, waits);
              && (err == Some(Ok) <==> now != [])
              && (err == Some(Timeout) <==> now == [] && tmo % 0x1_0000_0000 == 0)
              && (err == None <==> now == [] && tmo % 0x1_0000_0000 != 0)
              && (now != [] ==> data[..q.ring.itemSize] == now[0] && Contents() == now[1..])
              && (now == [] ==> data[..] == old(data[..]) && Contents() == [])
              && data[q.ring.itemSize..] == old(data[..])[q.ring.itemSize..]
      ensures (tmo % 0x1_0000_0000 == 0 ==> waits == 0) && (err == None ==> waits == |others|)
      ensures forall w: nat :: w < waits ==> AfterWaits(old(Contents()), q.ring.itemCount, q.ring.itemSize, others, w) == []
      ensures OnlyWoken(self, old(q.sleeping), old(q.woken), q.sleeping, q.woken)
      ensures if err == None then self in q.sleeping else waits == 0 ==> q.sleeping == old(q.sleeping) && q.woken == old(q.woken)
    {
      var outcome: Outcome;
      outcome, waits := q.Get(self, data, U32(tmo), others);
      match outcome
      case Delivered(_) => err := Some(Ok);
      case Missed => err := Some(Timeout);
      case Waiting => err := None;
    }

    method Deinit() returns (err: Error)
      modifies this`q
      ensures err == Ok && q == null
    {
      if q != null { q := null; }
      err := Ok;
    }
  }
}
