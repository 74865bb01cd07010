/** `poski::OsRing`: the byte ring as an object updated in place. */
module OsRingClass {
  import opened Types
  import opened Bits
  import opened Ring

  /** `memcpy` between different objects. */
  method CopyBytes(dst: array<byte>, to: nat, src: array<byte>, from: nat, n: nat)
    requires to + n <= dst.Length && from + n <= src.Length && dst != src
    modifies dst
    ensures dst[..] == old(dst[..to]) + src[from..from + n] + old(dst[to + n..])
  {
    forall i | 0 <= i < n {
      dst[to + i] := src[from + i];
    }
  }

  class OsRing {
    const buffer: array<byte>
    const itemSize: nat
    const itemCount: nat
    var readIndex: nat
    var writeIndex: nat

    ghost function State(): Ring
      reads this, buffer
    {
      Ring(buffer[..], itemSize, itemCount, readIndex, writeIndex)
    }

    ghost predicate Valid()
      reads this, buffer
    {
      State().Valid()
    }

    ghost function Contents(): seq<Item>
      requires Valid()
      reads this, buffer
    {
      State().Contents()
    }

    constructor (itemSize: nat, itemCount: nat)
      requires itemSize < 0x1_0000 && itemCount < 0x1_0000
      requires itemCount > 0 && And(itemCount - 1, itemCount) == 0
      ensures Valid() && fresh(buffer)
      ensures this.itemSize == itemSize && this.itemCount == itemCount
      ensures readIndex == 0 && writeIndex == 0
      ensures Contents() == []
    {
      this.itemSize := itemSize;
      this.itemCount := itemCount;
      readIndex := 0;
      writeIndex := 0;
      buffer := new byte[itemSize * itemCount];
    }

    method Size() returns (n: nat)
      requires Valid()
      ensures n == |Contents()|
    {
      n := U16(writeIndex - readIndex);
    }

    method Empty() returns (e: bool)
      requires Valid()
      ensures e <==> Contents() == []
    {
      ObserversAgree(State());
      e := readIndex == writeIndex;
    }

    method Full() returns (f: bool)
      requires Valid()
      ensures f <==> |Contents()| == itemCount
    {
      var n := Size();
      f := n == itemCount;
    }

    /** The caller's `item` is `itemSize` bytes that do not overlap the ring's own storage. */
    method PushBack(item: array<byte>)
      requires Valid() && |Contents()| < itemCount
      requires item.Length >= itemSize && item != buffer
      modifies this`writeIndex, buffer
      ensures Valid()
      ensures State() == old(State().Pushed(item[..itemSize]))
      ensures Contents() == old(Contents()) + [item[..itemSize]]
    {
      PushAppends(State(), item[..itemSize]);
      var at := Mask(writeIndex, itemCount) * itemSize;
      assert at == State().Offset(writeIndex);
      CopyBytes(buffer, at, item, 0, itemSize);
      writeIndex := U16(writeIndex + 1);
    }

    method PopFront()
      requires Valid() && Contents() != []
      modifies this`readIndex
      ensures Valid()
      ensures State() == old(State()).Popped()
      ensures Contents() == old(Contents())[1..]
    {
      ObserversAgree(State());
      PopRemoves(State());
      readIndex := U16(readIndex + 1);
    }

    /** NULL, or where in the buffer the oldest item starts. */
    method Front() returns (item: Option<nat>)
      requires Valid()
      ensures item.None? <==> Contents() == []
      ensures item.Some? ==>
                && item.value + itemSize <= buffer.Length
                && buffer[item.value..item.value + itemSize] == Contents()[0]
    {
      ObserversAgree(State());
      var at := Mask(readIndex, itemCount) * itemSize;
      assert at == State().Offset(readIndex);
      var empty := Empty();
      if empty {
        item := None;
      } else {
        PopRemoves(State());
        item := Some(at);
      }
    }
  }
}
