/** The bounded first-in first-out queue the control side uses to hand
    commands to the processing callback. The byte ring underneath belongs to
    JACK; it is modelled as `capacity + 1` slots with a read and a write
    index, one slot always left free so that a full ring and an empty ring
    differ, which is how JACK's ring tells them apart. */
module Rings {
  import opened Ints

  class RingBuffer<T(0)> {
    /** The element count asked for at construction. */
    const size: uint32
    /** How many elements the ring holds at most; fixed at construction. */
    const capacity: nat

    /** The queued elements, oldest first. */
    ghost var Contents: seq<T>
    ghost var Repr: set<object>

    var slots: array<T>
    var readIndex: nat
    var writeIndex: nat
    /** The one-element transfer buffer every copy in and out goes through. */
    var transfer: T

    ghost predicate Valid()
      reads this, Repr
    {
      && Repr == {this, slots}
      && slots.Length == capacity + 1
      && readIndex < slots.Length && writeIndex < slots.Length
      && Contents == (if readIndex <= writeIndex then slots[readIndex..writeIndex]
                      else slots[readIndex..] + slots[..writeIndex])
    }

    /** The number of queued elements, from the two indices. */
    function Count(): (n: nat)
      reads this, Repr
      requires Valid()
      ensures n == |Contents|
    {
      if readIndex <= writeIndex then writeIndex - readIndex
      else slots.Length - readIndex + writeIndex
    }

    constructor (size: uint32, capacity: nat)
      ensures Valid() && fresh(Repr)
      ensures Contents == []
      ensures this.size == size && this.capacity == capacity
    {
      this.size := size;
      this.capacity := capacity;
      slots := new T[capacity + 1];
      readIndex, writeIndex := 0, 0;
      Contents := [];
      Repr := {this, slots};
    }

    /** There is room for one more whole element. */
    function CanWrite(): (b: bool)
      reads this, Repr
      requires Valid()
      ensures b <==> |Contents| < capacity
    {
      Count() < capacity
    }

    /** At least one whole element is queued. */
    function CanRead(): (b: bool)
      reads this, Repr
      requires Valid()
      ensures b <==> |Contents| > 0
    {
      readIndex != writeIndex
    }

    function Next(i: nat): nat
      reads this, Repr
      requires Valid() && i < slots.Length
    {
      if i + 1 == slots.Length then 0 else i + 1
    }

    /** Copies `t` into the transfer buffer and from there to the back of the
        queue. Callers check `CanWrite` first: without room JACK's ring would
        take only part of the element's bytes. */
    method Write(t: T)
      requires Valid() && |Contents| < capacity
      modifies Repr
      ensures Valid() && Repr == old(Repr)
      ensures Contents == old(Contents) + [t]
      ensures transfer == t
    {
      transfer := t;
      slots[writeIndex] := t;
      writeIndex := Next(writeIndex);
      Contents := Contents + [t];
    }

    /** Drops the front element. JACK advances the read index
        unconditionally, so callers check `CanRead` first. */
    method ReadAdvance()
      requires Valid() && |Contents| > 0
      modifies Repr
      ensures Valid() && Repr == old(Repr)
      ensures Contents == old(Contents)[1..]
      ensures transfer == old(transfer)
    {
      readIndex := Next(readIndex);
      Contents := Contents[1..];
    }

    /** Copies the front element out without removing it. On an empty ring
        nothing is copied and the transfer buffer's last content comes back. */
    method Snoop() returns (t: T)
      requires Valid()
      modifies this`transfer
      ensures Valid() && Contents == old(Contents)
      ensures old(Contents) != [] ==> t == Contents[0]
      ensures old(Contents) == [] ==> t == old(transfer)
      ensures transfer == t
    {
      if readIndex != writeIndex {
        transfer := slots[readIndex];
      }
      t := transfer;
    }

    /** Copies the front element out and removes it; on an empty ring it gives
        back the transfer buffer's last content and changes nothing. */
    method Read() returns (t: T)
      requires Valid()
      modifies Repr
      ensures Valid() && Repr == old(Repr)
      ensures old(Contents) != [] ==> t == old(Contents)[0] && Contents == old(Contents)[1..]
      ensures old(Contents) == [] ==> t == old(transfer) && Contents == []
      ensures transfer == t
    {
      if readIndex != writeIndex {
        transfer := slots[readIndex];
        readIndex := Next(readIndex);
        Contents := Contents[1..];
      }
      t := transfer;
    }
  }

  /** `Read` does what `Snoop` followed by `ReadAdvance` does. */
  method ReadIsSnoopThenAdvance<T(0)>(a: RingBuffer<T>, b: RingBuffer<T>) returns (x: T, y: T)
    requires a.Valid() && b.Valid() && a.Repr !! b.Repr
    requires a.Contents == b.Contents && a.Contents != []
    modifies a.Repr, b.Repr
    ensures x == y == old(a.Contents)[0]
    ensures a.Valid() && b.Valid()
    ensures a.Contents == b.Contents == old(a.Contents)[1..]
  {
    x := a.Read();
    y := b.Snoop();
    b.ReadAdvance();
  }

  /** Snooping twice gives the same element and leaves the ring readable. */
  method SnoopIsRepeatable<T(0)>(r: RingBuffer<T>) returns (x: T, y: T)
    requires r.Valid() && r.Contents != []
    modifies r`transfer
    ensures x == y == r.Contents[0]
    ensures r.Valid() && r.Contents == old(r.Contents) && r.CanRead()
  {
    x := r.Snoop();
    y := r.Snoop();
  }

  /** Two writes then two reads give the elements back in the order written. */
  method FirstInFirstOut<T(0)>(r: RingBuffer<T>, x: T, y: T) returns (first: T, second: T)
    requires r.Valid() && r.Contents == [] && r.capacity >= 2
    modifies r.Repr
    ensures first == x && second == y
    ensures r.Valid() && r.Contents == []
  {
    r.Write(x);
    r.Write(y);
    first := r.Read();
    second := r.Read();
  }
}
