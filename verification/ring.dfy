/** The byte ring: fixed-size items in a flat buffer, selected by two
    free-running 16-bit indices that are masked on every access. */
module Ring {
  import opened Types
  import opened Bits

  const INDEX_BITS: nat := 16

  /** Conversion to `uint16_t`. */
  function U16(x: int): nat {
    x % 0x1_0000
  }

  lemma IndexRange()
    ensures Pow2(INDEX_BITS) == 0x1_0000
  {
    assert Pow2(8) == 256;
    Pow2Add(8, 8);
  }

  lemma RowBefore(a: nat, b: nat, size: nat)
    requires a < b
    ensures a * size + size <= b * size
  {
    var between := b - a - 1;
    assert b * size == (a + 1 + between) * size == a * size + size + between * size;
    assert between * size >= 0;
  }

  lemma RowInside(row: nat, size: nat, rows: nat)
    requires row < rows
    ensures 0 <= row * size && row * size + size <= size * rows
  {
    RowBefore(row, rows, size);
    assert row * size >= 0;
  }

  lemma RowsDisjoint(a: nat, b: nat, size: nat)
    requires a != b
    ensures a * size + size <= b * size || b * size + size <= a * size
  {
    if a < b { RowBefore(a, b, size); } else { RowBefore(b, a, size); }
  }

  /** A power of two that fits in 16 bits is at most 2^15. */
  lemma LargestCapacity(n: nat)
    requires 0 < n < 0x1_0000 && And(n - 1, n) == 0
    ensures n <= 32768
  {
    PredecessorTest(n);
    IndexRange();
    var k: nat :| Pow2(k) == n;
    Pow2Monotone(INDEX_BITS, k);
    Pow2Monotone(k, INDEX_BITS - 1);
    assert Pow2(16) == 2 * Pow2(15);
  }

  lemma DifferenceAfterWrite(w: nat, r: nat)
    requires w < 0x1_0000 && r < 0x1_0000 && U16(w - r) < 0xFFFF
    ensures U16(U16(w + 1) - r) == U16(w - r) + 1
  {
  }

  lemma DifferenceAfterRead(w: nat, r: nat)
    requires w < 0x1_0000 && r < 0x1_0000 && w != r
    ensures U16(w - U16(r + 1)) == U16(w - r) - 1
  {
  }

  lemma EndOfWindow(w: nat, r: nat)
    requires w < 0x1_0000 && r < 0x1_0000
    ensures U16(r + U16(w - r)) == w
    ensures U16(r + (U16(w - r) + 1)) == U16(w + 1)
  {
  }

  lemma U16Sum(a: nat, b: nat, c: nat)
    ensures U16(U16(a + b) + c) == U16(a + b + c)
  {
  }

  lemma U16Small(a: nat)
    requires a < 0x1_0000
    ensures U16(a) == a && U16(a + 0) == a
  {
  }

  type Item = seq<byte>

  /** The fields of the ring, as a value. */
  datatype Ring = Ring(buffer: seq<byte>, itemSize: nat, itemCount: nat, readIndex: nat, writeIndex: nat) {

    /** The capacity test of the constructor. */
    predicate Configured() {
      && itemSize < 0x1_0000
      && 0 < itemCount < 0x1_0000
      && And(itemCount - 1, itemCount) == 0
    }

    /** Difference of the indices, truncated to 16 bits. */
    function Size(): nat {
      U16(writeIndex - readIndex)
    }

    predicate Empty() {
      readIndex == writeIndex
    }

    predicate Full() {
      Size() == itemCount
    }

    predicate Valid() {
      && Configured()
      && |buffer| == itemSize * itemCount
      && readIndex < 0x1_0000
      && writeIndex < 0x1_0000
      && Size() <= itemCount
    }

    /** Byte offset of the slot selected by `index`; the slot lies inside the allocation, whatever the index. */
    function Offset(index: nat): (at: nat)
      requires itemCount > 0
      ensures at + itemSize <= itemSize * itemCount
    {
      RowInside(Mask(index, itemCount), itemSize, itemCount);
      Mask(index, itemCount) * itemSize
    }

    function Inc(index: nat): nat {
      U16(index + 1)
    }

    /** The index of the live item number `j`. */
    function Live(j: nat): nat {
      U16(readIndex + j)
    }

    function Slot(index: nat): Item
      requires Valid()
    {
      buffer[Offset(index)..Offset(index) + itemSize]
    }

    /** The queue that the bytes of the buffer represent, oldest item first. */
    function Contents(): (q: seq<Item>)
      requires Valid()
      ensures |q| == Size()
    {
      seq(Size(), j requires 0 <= j < Size() => Slot(Live(j)))
    }

    /** One byte of the slot at the write index, as `memcpy` stores it. */
    function WithByte(k: nat, b: byte): Ring
      requires Valid() && k < itemSize
    {
      this.(buffer := buffer[Offset(writeIndex) + k := b])
    }

    /** The buffer after the whole copy into the slot at the write index. */
    function WithItem(item: Item): Ring
      requires Valid() && |item| == itemSize
    {
      var at := Offset(writeIndex);
      this.(buffer := buffer[..at] + item + buffer[at + itemSize..])
    }

    function Pushed(item: Item): Ring
      requires Valid() && |item| == itemSize
    {
      WithItem(item).(writeIndex := Inc(writeIndex))
    }

    function Popped(): Ring {
      this.(readIndex := Inc(readIndex))
    }
  }

  // ----- index arithmetic -----

  /** Masking an accepted capacity's 16-bit index is reduction modulo the capacity. */
  lemma MaskOfU16(x: nat, n: nat)
    requires 0 < n < 0x1_0000 && And(n - 1, n) == 0
    ensures Mask(U16(x), n) == x % n
  {
    PredecessorTest(n);
    IndexRange();
    var k: nat :| Pow2(k) == n;
    Pow2Monotone(INDEX_BITS, k);
    MaskOfWrapped(x, k, INDEX_BITS);
  }

  /** Live counters hit the slots of consecutive residues modulo the capacity. */
  lemma MaskLive(r: Ring, j: nat)
    requires r.Configured()
    ensures Mask(r.Live(j), r.itemCount) == (r.readIndex + j) % r.itemCount
  {
    MaskOfU16(r.readIndex + j, r.itemCount);
  }

  /** The write index is the index one past the newest live item. */
  lemma WriteIsLive(r: Ring)
    requires r.Valid()
    ensures r.writeIndex == r.Live(r.Size())
    ensures r.Inc(r.writeIndex) == r.Live(r.Size() + 1)
  {
    EndOfWindow(r.writeIndex, r.readIndex);
  }

  /** Distinct counters of one window of `itemCount` have byte-disjoint slots. */
  lemma SlotsDisjoint(r: Ring, i: nat, j: nat)
    requires r.Configured()
    requires i < j < i + r.itemCount
    ensures Mask(r.Live(i), r.itemCount) != Mask(r.Live(j), r.itemCount)
    ensures r.Offset(r.Live(i)) + r.itemSize <= r.Offset(r.Live(j)) || r.Offset(r.Live(j)) + r.itemSize <= r.Offset(r.Live(i))
  {
    MaskLive(r, i);
    MaskLive(r, j);
    var a, b := Mask(r.Live(i), r.itemCount), Mask(r.Live(j), r.itemCount);
    if a == b { SameResidue(r.readIndex + i, r.readIndex + j, r.itemCount); }
    RowsDisjoint(a, b, r.itemSize);
  }

  lemma BoundedProduct(a: nat, a': nat, b: nat, b': nat)
    requires a <= a' && b <= b'
    ensures a * b <= a' * b'
  {
    assert a' * b' - a * b == (a' - a) * b' + a * (b' - b);
  }

  /** `itemSize * itemCount` never overflows the 32-bit `int` it is computed in. */
  lemma AllocationFitsInt(r: Ring)
    requires r.Configured()
    ensures r.itemCount <= 32768
    ensures r.itemSize * r.itemCount <= 65535 * 32768 < 0x8000_0000
  {
    LargestCapacity(r.itemCount);
    BoundedProduct(r.itemSize, 65535, r.itemCount, 32768);
  }

  // ----- one operation -----

  /** The observers agree with the queue. */
  lemma ObserversAgree(r: Ring)
    requires r.Valid()
    ensures r.Empty() <==> r.Contents() == []
    ensures r.Full() <==> |r.Contents()| == r.itemCount
    ensures |r.Contents()| <= r.itemCount
  {
  }

  /** Two rings that differ in nothing but the bytes of the slot at the write index. */
  ghost predicate SameButFreeSlot(r: Ring, r': Ring)
    requires r.Valid()
  {
    && r' == r.(buffer := r'.buffer)
    && |r'.buffer| == |r.buffer|
    && forall i :: 0 <= i < |r.buffer| && !(r.Offset(r.writeIndex) <= i < r.Offset(r.writeIndex) + r.itemSize) ==> r'.buffer[i] == r.buffer[i]
  }

  lemma LiveAwayFromFree(r: Ring, j: nat)
    requires r.Valid() && !r.Full() && j < r.Size()
    ensures var at, free := r.Offset(r.Live(j)), r.Offset(r.writeIndex);
            at + r.itemSize <= free || free + r.itemSize <= at
  {
    WriteIsLive(r);
    SlotsDisjoint(r, j, r.Size());
  }

  lemma UntouchedBytes(r: Ring, r': Ring, at: nat)
    requires r.Valid() && SameButFreeSlot(r, r') && at + r.itemSize <= |r.buffer|
    requires at + r.itemSize <= r.Offset(r.writeIndex) || r.Offset(r.writeIndex) + r.itemSize <= at
    ensures r'.buffer[at..at + r.itemSize] == r.buffer[at..at + r.itemSize]
  {
  }

  lemma UntouchedSlot(r: Ring, r': Ring, live: nat)
    requires r.Valid() && SameButFreeSlot(r, r')
    requires r.Offset(live) + r.itemSize <= r.Offset(r.writeIndex) || r.Offset(r.writeIndex) + r.itemSize <= r.Offset(live)
    ensures r'.Valid() && r'.Slot(live) == r.Slot(live)
  {
    UntouchedBytes(r, r', r.Offset(live));
  }

  lemma FreeSlotIsNotLive(r: Ring, r': Ring, j: nat)
    requires r.Valid() && !r.Full() && SameButFreeSlot(r, r') && j < r.Size()
    ensures r'.Valid() && r'.Slot(r'.Live(j)) == r.Slot(r.Live(j))
  {
    var live := r.Live(j);
    LiveAwayFromFree(r, j);
    UntouchedSlot(r, r', live);
  }

  /** Writing to the free slot disturbs no live item. */
  lemma FreeSlotWrite(r: Ring, r': Ring)
    requires r.Valid() && !r.Full() && SameButFreeSlot(r, r')
    ensures r'.Valid() && r'.Contents() == r.Contents()
  {
    forall j | 0 <= j < r.Size()
      ensures r'.Slot(r'.Live(j)) == r.Slot(r.Live(j))
    {
      FreeSlotIsNotLive(r, r', j);
    }
  }

  lemma AdvancedValid(r: Ring)
    requires r.Valid() && !r.Full()
    ensures var r' := r.(writeIndex := r.Inc(r.writeIndex));
            r'.Valid() && r'.Size() == r.Size() + 1
  {
    LargestCapacity(r.itemCount);
    DifferenceAfterWrite(r.writeIndex, r.readIndex);
  }

  lemma AdvancedSlot(r: Ring, r': Ring, j: nat)
    requires r.Valid() && r'.Valid() && r' == r.(writeIndex := r'.writeIndex)
    ensures r'.Slot(r'.Live(j)) == r.Slot(r.Live(j))
  {
    assert r'.Live(j) == r.Live(j);
    assert r'.Offset(r.Live(j)) == r.Offset(r.Live(j));
  }

  /** Advancing the write index appends whatever bytes the slot holds. */
  lemma AdvanceWrite(r: Ring)
    requires r.Valid() && !r.Full()
    ensures var r' := r.(writeIndex := r.Inc(r.writeIndex));
            r'.Valid() && r'.Contents() == r.Contents() + [r.Slot(r.writeIndex)]
  {
    var r' := r.(writeIndex := r.Inc(r.writeIndex));
    AdvancedValid(r);
    WriteIsLive(r);
    var q' := r.Contents() + [r.Slot(r.writeIndex)];
    forall j | 0 <= j < r'.Size()
      ensures r'.Contents()[j] == q'[j]
    {
      AdvancedSlot(r, r', j);
    }
  }

  /** `push_back` appends exactly the bytes it is given. */
  lemma PushAppends(r: Ring, item: Item)
    requires r.Valid() && !r.Full() && |item| == r.itemSize
    ensures r.Pushed(item).Valid()
    ensures r.Pushed(item).Contents() == r.Contents() + [item]
  {
    var r' := r.WithItem(item);
    FreeSlotWrite(r, r');
    assert r'.Slot(r'.writeIndex) == item;
    AdvanceWrite(r');
  }

  lemma PoppedValid(r: Ring)
    requires r.Valid() && !r.Empty()
    ensures r.Popped().Valid() && r.Popped().Size() == r.Size() - 1
  {
    DifferenceAfterRead(r.writeIndex, r.readIndex);
  }

  lemma PoppedSlot(r: Ring, j: nat)
    requires r.Valid() && r.Popped().Valid()
    ensures r.Popped().Slot(r.Popped().Live(j)) == r.Slot(r.Live(j + 1))
  {
    U16Sum(r.readIndex, 1, j);
  }

  lemma FrontSlot(r: Ring)
    requires r.Valid() && !r.Empty()
    ensures r.Size() > 0 && r.Contents()[0] == r.Slot(r.readIndex)
  {
    U16Small(r.readIndex);
    ObserversAgree(r);
  }

  /** `pop_front` removes exactly the oldest item. */
  lemma PopRemoves(r: Ring)
    requires r.Valid() && !r.Empty()
    ensures r.Contents() != [] && r.Contents()[0] == r.Slot(r.readIndex)
    ensures r.Popped().Valid()
    ensures r.Popped().Contents() == r.Contents()[1..]
  {
    PoppedValid(r);
    FrontSlot(r);
    var q, q' := r.Contents(), r.Popped().Contents();
    forall j | 0 <= j < |q'|
      ensures q'[j] == q[1..][j]
    {
      PoppedSlot(r, j);
    }
  }

  // ----- runs of any length -----

  datatype Op = Push(item: Item) | Pop

  /** A bounded queue with the items taken out of it so far; None when an assertion of the code would stop the run. */
  ghost function FifoRun(q: seq<Item>, capacity: nat, ops: seq<Op>): Option<(seq<Item>, seq<Item>)>
    decreases |ops|
  {
    if ops == [] then Some((q, []))
    else match ops[0]
      case Push(item) => if |q| == capacity then None else FifoRun(q + [item], capacity, ops[1..])
      case Pop =>
        if q == [] then None
        else match FifoRun(q[1..], capacity, ops[1..])
          case None => None
          case Some((rest, out)) => Some((rest, [q[0]] + out))
  }

  ghost predicate Fit(ops: seq<Op>, itemSize: nat) {
    forall i :: 0 <= i < |ops| && ops[i].Push? ==> |ops[i].item| == itemSize
  }

  /** The same run on the byte ring, which reads each item at the front just before popping it. */
  ghost function RingRun(r: Ring, ops: seq<Op>): (o: Option<(Ring, seq<Item>)>)
    requires r.Valid() && Fit(ops, r.itemSize)
    ensures o.Some? ==> o.value.0.Valid()
    decreases |ops|
  {
    if ops == [] then Some((r, []))
    else match ops[0]
      case Push(item) => if r.Full() then None else PushAppends(r, item); RingRun(r.Pushed(item), ops[1..])
      case Pop =>
        if r.Empty() then None
        else
          PopRemoves(r);
          match RingRun(r.Popped(), ops[1..])
          case None => None
          case Some((r', out)) => Some((r', [r.Slot(r.readIndex)] + out))
  }

  function Pushes(ops: seq<Op>): (n: nat)
    ensures n <= |ops|
  {
    if ops == [] then 0 else (if ops[0].Push? then 1 else 0) + Pushes(ops[1..])
  }

  function PushedItems(ops: seq<Op>): seq<Item> {
    if ops == [] then [] else (if ops[0].Push? then [ops[0].item] else []) + PushedItems(ops[1..])
  }

  /** The outcome of a run of the bytes is the outcome of the run of the queue. */
  ghost predicate SameOutcome(bytes: Option<(Ring, seq<Item>)>, fifo: Option<(seq<Item>, seq<Item>)>) {
    match bytes
    case None => fifo.None?
    case Some((r, out)) => r.Valid() && fifo == Some((r.Contents(), out))
  }

  lemma PushOutcome(r: Ring, ops: seq<Op>)
    requires r.Valid() && Fit(ops, r.itemSize) && ops != [] && ops[0].Push? && !r.Full()
    requires r.Pushed(ops[0].item).Valid()
    requires SameOutcome(RingRun(r.Pushed(ops[0].item), ops[1..]), FifoRun(r.Pushed(ops[0].item).Contents(), r.itemCount, ops[1..]))
    ensures SameOutcome(RingRun(r, ops), FifoRun(r.Contents(), r.itemCount, ops))
  {
    PushAppends(r, ops[0].item);
  }

  lemma PopOutcome(r: Ring, ops: seq<Op>)
    requires r.Valid() && Fit(ops, r.itemSize) && ops != [] && ops[0].Pop? && !r.Empty()
    requires r.Popped().Valid() && SameOutcome(RingRun(r.Popped(), ops[1..]), FifoRun(r.Popped().Contents(), r.itemCount, ops[1..]))
    ensures SameOutcome(RingRun(r, ops), FifoRun(r.Contents(), r.itemCount, ops))
  {
    PopRemoves(r);
  }

  /** Over every run, however often the indices wrap, the ring is the bounded queue: it stops at
      the same operation, delivers the same items and ends with the same contents. */
  lemma {:induction false} RingRefinesFifo(r: Ring, ops: seq<Op>)
    requires r.Valid() && Fit(ops, r.itemSize)
    ensures SameOutcome(RingRun(r, ops), FifoRun(r.Contents(), r.itemCount, ops))
    decreases |ops|
  {
    if ops != [] {
      match ops[0]
      case Push(item) =>
        if !r.Full() {
          PushAppends(r, item);
          RingRefinesFifo(r.Pushed(item), ops[1..]);
          PushOutcome(r, ops);
        }
      case Pop =>
        if !r.Empty() {
          PopRemoves(r);
          RingRefinesFifo(r.Popped(), ops[1..]);
          PopOutcome(r, ops);
        }
    }
  }

  /** How many items are queued after the first `i` operations, if none of them stops the run. */
  function Level(start: int, ops: seq<Op>, i: nat): int
    requires i <= |ops|
  {
    start + 2 * Pushes(ops[..i]) - i
  }

  /** No push meets a full queue and no pop an empty one, counting pushes and pops only. */
  ghost predicate WithinBounds(start: int, capacity: nat, ops: seq<Op>) {
    forall i: nat :: i < |ops| ==> Level(start, ops, i) != (if ops[i].Push? then capacity else 0)
  }

  lemma LevelShift(start: int, ops: seq<Op>, i: nat)
    requires ops != [] && i < |ops|
    ensures Level(start, ops, i + 1) == Level(if ops[0].Push? then start + 1 else start - 1, ops[1..], i)
  {
    assert ops[..i + 1][1..] == ops[1..][..i];
  }

  lemma WithinBoundsCons(start: int, capacity: nat, ops: seq<Op>)
    requires ops != []
    ensures WithinBounds(start, capacity, ops) <==>
              && start != (if ops[0].Push? then capacity else 0)
              && WithinBounds(if ops[0].Push? then start + 1 else start - 1, capacity, ops[1..])
  {
    var next := if ops[0].Push? then start + 1 else start - 1;
    assert Level(start, ops, 0) == start;
    forall i: nat | i < |ops| - 1
      ensures Level(next, ops[1..], i) == Level(start, ops, i + 1) && ops[1..][i] == ops[i + 1]
    {
      LevelShift(start, ops, i);
    }
    if WithinBounds(start, capacity, ops) {
      forall i: nat | i < |ops[1..]| ensures Level(next, ops[1..], i) != (if ops[1..][i].Push? then capacity else 0) {
        assert Level(start, ops, i + 1) != (if ops[i + 1].Push? then capacity else 0);
      }
    }
    if start != (if ops[0].Push? then capacity else 0) && WithinBounds(next, capacity, ops[1..]) {
      forall i: nat | i < |ops| ensures Level(start, ops, i) != (if ops[i].Push? then capacity else 0) {
        if i > 0 { assert Level(next, ops[1..], i - 1) != (if ops[1..][i - 1].Push? then capacity else 0); }
      }
    }
  }

  /** A run stops at an assertion exactly if at some operation the pushes and pops before it have
      filled the queue and it is a push, or emptied it and it is a pop. */
  lemma {:induction false} StopsExactly(q: seq<Item>, capacity: nat, ops: seq<Op>)
    ensures FifoRun(q, capacity, ops).Some? <==> WithinBounds(|q|, capacity, ops)
    decreases |ops|
  {
    if ops != [] {
      WithinBoundsCons(|q|, capacity, ops);
      match ops[0]
      case Push(item) => StopsExactly(q + [item], capacity, ops[1..]);
      case Pop => if q != [] { StopsExactly(q[1..], capacity, ops[1..]); }
    }
  }

  /** `r'` is `r` with its indices advanced by so many pushes and pops, modulo 2^16. */
  ghost predicate Advanced(r: Ring, pushes: nat, pops: nat, r': Ring) {
    r'.writeIndex == U16(r.writeIndex + pushes) && r'.readIndex == U16(r.readIndex + pops)
  }

  lemma AdvancedOne(r: Ring, r1: Ring, a: nat, b: nat, pushes: nat, pops: nat, r': Ring)
    requires Advanced(r, a, b, r1) && Advanced(r1, pushes, pops, r')
    ensures Advanced(r, a + pushes, b + pops, r')
  {
    U16Sum(r.writeIndex, a, pushes);
    U16Sum(r.readIndex, b, pops);
  }

  lemma FirstPush(r: Ring, ops: seq<Op>)
    requires r.Valid() && Fit(ops, r.itemSize) && ops != [] && ops[0].Push? && RingRun(r, ops).Some?
    ensures var r1 := r.Pushed(ops[0].item);
            && r1.Valid() && Advanced(r, 1, 0, r1)
            && RingRun(r1, ops[1..]) == RingRun(r, ops)
  {
    PushAppends(r, ops[0].item);
    U16Small(r.readIndex);
  }

  lemma FirstPop(r: Ring, ops: seq<Op>)
    requires r.Valid() && Fit(ops, r.itemSize) && ops != [] && ops[0].Pop? && RingRun(r, ops).Some?
    ensures var r1 := r.Popped();
            && r1.Valid() && Advanced(r, 0, 1, r1)
            && RingRun(r1, ops[1..]).Some?
            && RingRun(r1, ops[1..]).value.0 == RingRun(r, ops).value.0
  {
    PopRemoves(r);
    U16Small(r.writeIndex);
  }

  /** The indices count the pushes and the pops. */
  lemma {:induction false} IndicesCount(r: Ring, ops: seq<Op>)
    requires r.Valid() && Fit(ops, r.itemSize) && RingRun(r, ops).Some?
    ensures Advanced(r, Pushes(ops), |ops| - Pushes(ops), RingRun(r, ops).value.0)
    decreases |ops|
  {
    if ops == [] {
      U16Small(r.writeIndex);
      U16Small(r.readIndex);
    } else {
      var rest, r' := ops[1..], RingRun(r, ops).value.0;
      if ops[0].Push? {
        FirstPush(r, ops);
        IndicesCount(r.Pushed(ops[0].item), rest);
        AdvancedOne(r, r.Pushed(ops[0].item), 1, 0, Pushes(rest), |rest| - Pushes(rest), r');
      } else {
        FirstPop(r, ops);
        IndicesCount(r.Popped(), rest);
        AdvancedOne(r, r.Popped(), 0, 1, Pushes(rest), |rest| - Pushes(rest), r');
      }
    }
  }

  /** Conservation: what came out, one item for each pop, followed by what is left, is what was there
      followed by what went in. */
  lemma {:induction false} FifoConserves(q: seq<Item>, capacity: nat, ops: seq<Op>)
    ensures var o := FifoRun(q, capacity, ops);
            o.Some? ==> o.value.1 + o.value.0 == q + PushedItems(ops) && |o.value.1| == |ops| - Pushes(ops)
    decreases |ops|
  {
    if ops != [] {
      match ops[0]
      case Push(item) =>
        FifoConserves(q + [item], capacity, ops[1..]);
        assert (q + [item]) + PushedItems(ops[1..]) == q + ([item] + PushedItems(ops[1..]));
      case Pop =>
        if q != [] {
          FifoConserves(q[1..], capacity, ops[1..]);
          var o := FifoRun(q[1..], capacity, ops[1..]);
          if o.Some? {
            assert ([q[0]] + o.value.1) + o.value.0 == [q[0]] + (o.value.1 + o.value.0);
            assert [q[0]] + (q[1..] + PushedItems(ops[1..])) == q + PushedItems(ops[1..]);
          }
        }
    }
  }
}
