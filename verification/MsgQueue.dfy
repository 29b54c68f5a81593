/** The bounded message queue: a ring of slots, a count and a semaphore (`wprint_msgq.c`). */
module MsgQueue {
  import opened Common
  import FixedPoint

  /** Position of the k-th message after position `at` of a ring. */
  function Ahead(at: nat, k: nat, size: nat): (r: nat)
    requires size > 0
    ensures r < size
  {
    (at + k) % size
  }

  lemma AheadStep(at: nat, k: nat, size: nat)
    requires size > 0
    ensures Ahead(Ahead(at, 1, size), k, size) == Ahead(at, k + 1, size)
    ensures Ahead(at, 0, size) == at % size && (at < size ==> Ahead(at, 0, size) == at)
  {
    FixedPoint.ModAdd(at + 1, k, size);
    if at < size {
      FixedPoint.SmallMod(at, size);
    }
  }

  lemma AheadDistinct(at: nat, j: nat, k: nat, size: nat)
    requires j < k < j + size
    ensures Ahead(at, j, size) != Ahead(at, k, size)
  {
    var x, y := at + j, at + k;
    var e := y / size - x / size;
    assert x == x / size * size + x % size && y == y / size * size + y % size;
    assert y - x == e * size + (y % size - x % size);
    FixedPoint.MulMonotone(e, size);
  }

  /** The queue as one thread sees it between operations. A message shorter than its slot leaves the rest
      of the slot as it was. */
  class MsgQ {
    const maxMsgs: nat
    const maxLength: nat
    const slots: array2<Byte>
    var numMsgs: nat
    var sem: nat
    var readOffset: nat
    var writeOffset: nat

    ghost predicate Valid()
      reads this
    {
      && slots.Length0 == maxMsgs && slots.Length1 == maxLength
      && numMsgs <= maxMsgs && sem == numMsgs
      && (maxMsgs == 0 ==> readOffset == writeOffset == 0)
      && (maxMsgs > 0 ==> readOffset < maxMsgs && writeOffset == Ahead(readOffset, numMsgs, maxMsgs))
    }

    ghost function Slot(i: nat): (r: seq<Byte>)
      requires i < slots.Length0
      reads slots
      ensures |r| == slots.Length1
    {
      seq(slots.Length1, j requires 0 <= j < slots.Length1 reads slots => slots[i, j])
    }

    /** The queued messages, oldest first. */
    ghost function Contents(): (r: seq<seq<Byte>>)
      requires Valid()
      reads this, slots
      ensures |r| == numMsgs
    {
      seq(numMsgs, k requires 0 <= k < numMsgs && Valid() reads this, slots => Slot(Ahead(readOffset, k, maxMsgs)))
    }

    /** `msgQCreate`. */
    constructor (max: nat, length: nat)
      ensures Valid() && Contents() == [] && maxMsgs == max && maxLength == length && fresh(slots)
    {
      maxMsgs, maxLength, numMsgs, sem, readOffset, writeOffset := max, length, 0, 0, 0, 0;
      slots := new Byte[max, length]((i, j) => 0);
    }

    /** `msgQSend`. */
    method Send(buffer: seq<Byte>, noWait: bool, fifo: bool) returns (ok: bool)
      requires Valid()
      modifies this, slots
      ensures Valid()
      ensures ok <==> noWait && fifo && |buffer| <= maxLength && old(numMsgs) < maxMsgs
      ensures if ok then |Contents()| == |old(Contents())| + 1 && old(Contents()) == Contents()[..old(numMsgs)]
                         && buffer <= Contents()[old(numMsgs)]
              else Contents() == old(Contents())
    {
      ok := false;
      if noWait && fifo {
        if |buffer| <= maxLength && numMsgs < maxMsgs {
          Append(buffer);
          ok := true;
        }
      }
    }

    /** The part of `msgQSend` that runs when there is room. */
    method Append(buffer: seq<Byte>)
      requires Valid() && |buffer| <= maxLength && numMsgs < maxMsgs
      modifies this, slots
      ensures Valid() && numMsgs == old(numMsgs) + 1
      ensures old(Contents()) == Contents()[..old(numMsgs)] && buffer <= Contents()[old(numMsgs)]
    {
      ghost var before := Contents();
      Copy(buffer);
      ghost var slot := Slot(writeOffset);
      assert forall k | 0 <= k < numMsgs :: Slot(Ahead(readOffset, k, maxMsgs)) == before[k];
      AheadAfter(readOffset, numMsgs, maxMsgs);
      writeOffset := (writeOffset + 1) % maxMsgs;
      numMsgs := numMsgs + 1;
      sem := sem + 1;
    }

    /** `memcpy` into the slot at the write position. */
    method Copy(buffer: seq<Byte>)
      requires Valid() && |buffer| <= maxLength && numMsgs < maxMsgs
      modifies slots
      ensures buffer <= Slot(writeOffset)
      ensures Contents() == old(Contents())
    {
      var j := 0;
      while j < |buffer|
        invariant 0 <= j <= |buffer|
        invariant forall i, k | 0 <= i < maxMsgs && 0 <= k < maxLength && (i != writeOffset || k >= j) ::
                    slots[i, k] == old(slots[i, k])
        invariant forall k | 0 <= k < j :: slots[writeOffset, k] == buffer[k]
      {
        slots[writeOffset, j] := buffer[j];
        j := j + 1;
      }
      forall k | 0 <= k < numMsgs
        ensures Slot(Ahead(readOffset, k, maxMsgs)) == old(Slot(Ahead(readOffset, k, maxMsgs)))
      {
        AheadDistinct(readOffset, k, numMsgs, maxMsgs);
      }
    }

    /** Byte i of the slots from the read position on, which stand one behind the other, is in the queue. */
    predicate InQueue(i: nat)
      reads `readOffset
    {
      slots.Length0 == maxMsgs && slots.Length1 == maxLength > 0 && readOffset + i / maxLength < maxMsgs
    }

    function ByteAt(i: nat): Byte
      requires InQueue(i)
      reads `readOffset, slots
    {
      slots[readOffset + i / maxLength, i % maxLength]
    }

    /** These are the bytes of the slots from `at` on, which stand one behind the other. */
    ghost predicate Copied(at: nat, buffer: seq<Byte>)
      reads slots
    {
      forall i: nat | i < |buffer| ::
        && slots.Length0 == maxMsgs && slots.Length1 == maxLength > 0 && at + i / maxLength < maxMsgs
        && buffer[i] == slots[at + i / maxLength, i % maxLength]
    }

    /** `msgQReceive`. A caller that is willing to wait is modelled from the moment its wait is over. However long
        its buffer is, that many bytes are copied, as long as they stand in the queue: of a message, and what
        follows it. */
    method Receive(maxBytes: nat, noWait: bool) returns (ok: bool, buffer: seq<Byte>)
      requires Valid() && (noWait || sem > 0)
      requires numMsgs > 0 ==> maxBytes <= (maxMsgs - readOffset) * maxLength
      modifies this
      ensures Valid() && (ok <==> old(numMsgs) > 0)
      ensures if ok then old(Contents()) == [old(Contents())[0]] + Contents() && |buffer| == maxBytes
              else Contents() == old(Contents()) && buffer == []
      ensures ok ==> Copied(old(readOffset), buffer)
      ensures ok && maxBytes <= maxLength ==> buffer == old(Contents())[0][..maxBytes]
    {
      hide Ahead, Slot;
      ok, buffer := sem > 0, [];
      if ok {
        AheadStep(readOffset, 0, maxMsgs);
        ghost var before := Contents();
        assert before[0] == Slot(readOffset);
        sem := sem - 1;
        buffer := CopyMessage(maxBytes);
        RemoveFirst();
      }
    }

    /** `memcpy` from the slot at the read position. */
    method CopyOut(n: nat) returns (buffer: seq<Byte>)
      requires forall i: nat | i < n :: InQueue(i)
      ensures |buffer| == n
      ensures forall i: nat | i < n :: buffer[i] == ByteAt(i)
    {
      hide InQueue;
      buffer := [];
      while |buffer| < n
        invariant |buffer| <= n
        invariant forall i: nat | i < |buffer| :: buffer[i] == ByteAt(i)
      {
        buffer := buffer + [ByteAt(|buffer|)];
      }
    }

    method CopyMessage(n: nat) returns (buffer: seq<Byte>)
      requires slots.Length0 == maxMsgs && slots.Length1 == maxLength && readOffset < maxMsgs
      requires n <= (maxMsgs - readOffset) * maxLength
      ensures |buffer| == n && forall i: nat | i < n :: InQueue(i) && buffer[i] == ByteAt(i)
      ensures n <= maxLength ==> buffer == Slot(readOffset)[..n]
    {
      hide InQueue, ByteAt, Slot;
      BytesInQueue(n);
      buffer := CopyOut(n);
      if n <= maxLength {
        forall i: nat | i < n
          ensures buffer[i] == Slot(readOffset)[i]
        {
          FirstBytes(i);
        }
      }
    }

    lemma BytesInQueue(n: nat)
      requires slots.Length0 == maxMsgs && slots.Length1 == maxLength && readOffset < maxMsgs
      requires n <= (maxMsgs - readOffset) * maxLength
      ensures forall i: nat | i < n :: InQueue(i)
    {
      forall i: nat | i < n
        ensures InQueue(i)
      {
        SlotOf(i, maxMsgs - readOffset, maxLength);
      }
    }

    lemma FirstBytes(i: nat)
      requires InQueue(i) && i < maxLength
      ensures ByteAt(i) == Slot(readOffset)[i]
    {
      FixedPoint.DivMul(0, maxLength, i);
    }

    /** The offsets and the count, after a message has been copied out. */
    method RemoveFirst()
      requires numMsgs > 0 && sem == numMsgs - 1
      requires slots.Length0 == maxMsgs && slots.Length1 == maxLength && numMsgs <= maxMsgs
      requires readOffset < maxMsgs && writeOffset == Ahead(readOffset, numMsgs, maxMsgs)
      modifies this
      ensures Valid() && numMsgs == old(numMsgs) - 1
      ensures forall k | 0 <= k < numMsgs :: Contents()[k] == Slot(Ahead(old(readOffset), k + 1, maxMsgs))
    {
      assert Ahead(readOffset, 1, maxMsgs) == (readOffset + 1) % maxMsgs;
      hide Ahead;
      forall k: nat
        ensures Ahead(Ahead(readOffset, 1, maxMsgs), k, maxMsgs) == Ahead(readOffset, k + 1, maxMsgs)
      {
        AheadStep(readOffset, k, maxMsgs);
      }
      readOffset := (readOffset + 1) % maxMsgs;
      numMsgs := numMsgs - 1;
    }

    /** `msgQNumMsgs`. */
    method NumMsgs() returns (n: nat)
      requires Valid()
      ensures n == |Contents()|
    {
      n := numMsgs;
    }
  }

  lemma SlotOf(i: nat, rows: nat, length: nat)
    requires i < rows * length
    ensures length > 0 && i / length < rows
  {
    if length > 0 {
      assert i == i / length * length + i % length;
      FixedPoint.MulMonotone(rows - i / length, length);
      assert (rows - i / length) * length == rows * length - i / length * length;
    }
  }

  lemma AheadAfter(at: nat, k: nat, size: nat)
    requires size > 0
    ensures Ahead(Ahead(at, k, size), 1, size) == Ahead(at, k + 1, size)
  {
    FixedPoint.ModAdd(at + k, 1, size);
  }
}
