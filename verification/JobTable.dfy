/** The table of spooled jobs and its generation-tagged handles (`lib_wprint.c`). */
module JobTable {
  import opened Common
  import FixedPoint

  const SLOTS: nat := 100
  const GENERATIONS: nat := 0x100_0000 // 24 bits of running number
  const TAG: nat := 0x100              // 8 bits of slot number

  datatype JobState = Free | Queued | Running | Blocked | CancelRequest | Cancelled | Completed | Error | Corrupted

  datatype Slot = Slot(handle: nat, state: JobState)

  /** A handle, or the value that is no handle: all bits of an `unsigned long` set. */
  function BadHandle(modulus: nat): int { modulus - 1 }

  function Encode(number: nat, index: nat): nat {
    number % GENERATIONS * TAG + index % TAG
  }

  /** Width of `unsigned long`: the running number wraps at a multiple of 2^24 that is not one of the table
      size. */
  predicate IsModulus(modulus: nat) {
    modulus >= UINT32 && modulus % GENERATIONS == 0 && modulus % SLOTS != 0
  }

  lemma BothWidthsAreModuli()
    ensures IsModulus(0x1_0000_0000) && IsModulus(0x1_0000_0000_0000_0000)
  {
  }

  predicate Finished(s: JobState) {
    s.Cancelled? || s.Error? || s.Corrupted? || s.Completed?
  }

  /** The slot the i-th probe of an allocation looks at. */
  function Probe(i: nat, running: nat, modulus: nat): (r: nat)
    requires modulus > 0
    ensures r < SLOTS
  {
    (i + running) % modulus % SLOTS
  }

  /** The slot is the first free one that an allocation looks at. */
  ghost predicate FirstFree(slots: seq<Slot>, running: nat, modulus: nat, index: nat)
    requires |slots| == SLOTS && modulus > 0
  {
    exists i: nat :: i < SLOTS && Probe(i, running, modulus) == index && slots[index].state == Free
                     && forall j: nat | j < i :: slots[Probe(j, running, modulus)].state != Free
  }

  class Table {
    const modulus: nat
    var slots: seq<Slot>
    var running: nat
    ghost var issued: seq<nat> // every handle given out
    ghost var issue: seq<nat>  // for each slot, which of them it got last

    /** Live slots hold the handle of their last allocation, and every handle says when and where it was
        given out. */
    ghost predicate Valid()
      reads this
    {
      && IsModulus(modulus) && |slots| == |issue| == SLOTS && running == |issued| % modulus
      && (forall k | 0 <= k < |issued| ::
            && issued[k] / TAG == (k + 1) % GENERATIONS
            && issued[k] % TAG < SLOTS && issue[issued[k] % TAG] >= k)
      && (forall i | 0 <= i < SLOTS && slots[i].state != Free ::
            issue[i] < |issued| && slots[i].handle == issued[issue[i]] && slots[i].handle % TAG == i)
    }

    constructor (width: nat)
      requires IsModulus(width)
      ensures Valid() && issued == [] && modulus == width && forall s | s in slots :: s.state == Free
    {
      modulus, slots, running := width, seq(SLOTS, _ => Slot(0, Free)), 0;
      issued, issue := [], seq(SLOTS, _ => 0);
    }

    /** The job that got the k-th handle is gone. */
    ghost predicate Retired(k: nat)
      requires Valid()
      reads this
    {
      forall i | 0 <= i < SLOTS && slots[i].state != Free :: issue[i] != k
    }

    /** `_get_job_desc`. */
    function Lookup(handle: nat): (r: Option<nat>)
      requires Valid()
      reads this
    {
      if handle == BadHandle(modulus) then None
      else
        var index := handle % TAG;
        if index < SLOTS && slots[index].handle == handle && slots[index].state != Free then Some(index) else None
    }

    /** A live job is found under its handle and under no other, and no two live jobs share a handle. */
    lemma LiveHandlesAreInjective(i: nat, j: nat)
      requires Valid() && i < SLOTS && j < SLOTS && slots[i].state != Free && slots[j].state != Free
      ensures Lookup(slots[i].handle) == Some(i)
      ensures slots[i].handle == slots[j].handle <==> i == j
      ensures issue[i] == issue[j] ==> i == j
    {
      NotBad(slots[i].handle, modulus);
    }

    /** The handle of a job that is gone resolves to nothing for as long as less than 2^24 handles have been
        given out since. */
    lemma StaleHandleNeverResolves(k: nat)
      requires Valid() && k < |issued| && Retired(k) && |issued| - k <= GENERATIONS
      ensures Lookup(issued[k]) == None
    {
      var i := issued[k] % TAG;
      SameGeneration(issue[i] + 1, k + 1, |issued|);
    }

    /** `_get_handle`; `memory` says whether the record's strings can be allocated. */
    method GetHandle(memory: bool) returns (handle: nat)
      requires Valid()
      modifies this
      ensures Valid()
      ensures var found := exists i: nat :: i < SLOTS && old(slots)[Probe(i, old(running), modulus)].state == Free;
              if found && memory then
                && issued == old(issued) + [handle]
                && Lookup(handle) == Some(handle % TAG) && FirstFree(old(slots), old(running), modulus, handle % TAG)
                && slots == old(slots)[handle % TAG := Slot(handle, Queued)]
                && issue == old(issue)[handle % TAG := |old(issued)|]
              else
                handle == BadHandle(modulus) && slots == old(slots) && running == old(running)
                && issued == old(issued) && issue == old(issue)
      ensures forall k: nat | k < |old(issued)| && old(Retired(k)) :: Retired(k)
    {
      hide Encode;
      handle := modulus - 1;
      var i := 0;
      while i < SLOTS
        invariant 0 <= i <= SLOTS && Valid() && handle == modulus - 1
        invariant slots == old(slots) && issued == old(issued) && running == old(running) && issue == old(issue)
        invariant forall j: nat | j < i :: slots[Probe(j, running, modulus)].state != Free
      {
        var index := (i + running) % modulus % SLOTS;
        assert index == Probe(i, running, modulus);
        hide Probe;
        if slots[index].state == Free {
          if memory {
            assert FirstFree(slots, running, modulus, index);
            handle := Take(index);
          }
          break;
        }
        i := i + 1;
      }
    }

    method Take(index: nat) returns (handle: nat)
      requires Valid() && index < SLOTS && slots[index].state == Free
      modifies this
      ensures Valid() && issued == old(issued) + [handle] && Lookup(handle) == Some(index) && handle % TAG == index
      ensures slots == old(slots)[index := Slot(handle, Queued)] && issue == old(issue)[index := |old(issued)|]
    {
      NextNumber(running, |issued|, modulus);
      EncodeParts((running + 1) % modulus, index, modulus);
      hide Encode;
      running := (running + 1) % modulus;
      handle := Encode(running, index);
      slots := slots[index := Slot(handle, Queued)];
      issue := issue[index := |issued|];
      issued := issued + [handle];
    }

    /** The job thread moves a live job to another state. */
    method SetState(handle: nat, state: JobState)
      requires Valid() && Lookup(handle).Some? && state != Free
      modifies this`slots
      ensures Valid() && Lookup(handle) == old(Lookup(handle))
      ensures var i := old(Lookup(handle)).value; slots == old(slots)[i := old(slots)[i].(state := state)]
      ensures forall k: nat | old(Retired(k)) :: Retired(k)
    {
      var i := Lookup(handle).value;
      slots := slots[i := slots[i].(state := state)];
    }

    /** `_recycle_handle`: only a finished job's slot becomes free, and its handle stops resolving. */
    method Recycle(handle: nat) returns (ok: bool)
      requires Valid()
      modifies this`slots
      ensures Valid()
      ensures var at := old(Lookup(handle));
              && (ok <==> at.Some? && old(slots)[at.value].state in {Cancelled, Error, Corrupted, Completed})
              && slots == if ok then old(slots)[at.value := old(slots)[at.value].(state := Free)] else old(slots)
      ensures ok ==> Lookup(handle) == None && Retired(issue[handle % TAG])
      ensures forall k: nat | old(Retired(k)) :: Retired(k)
    {
      var at := Lookup(handle);
      ok := false;
      if at.Some? && Finished(slots[at.value].state) {
        forall i | 0 <= i < SLOTS && slots[i].state != Free && issue[i] == issue[at.value]
          ensures i == at.value
        {
          LiveHandlesAreInjective(i, at.value);
        }
        slots := slots[at.value := slots[at.value].(state := Free)];
        ok := true;
      }
    }
  }

  lemma NotBad(handle: nat, modulus: nat)
    requires IsModulus(modulus) && handle % TAG < SLOTS
    ensures handle != BadHandle(modulus)
  {
    EncodeParts(0, 0, modulus);
    FixedPoint.ModMod(modulus, GENERATIONS, TAG);
    assert modulus - 1 == (modulus / TAG - 1) * TAG + (TAG - 1);
    FixedPoint.DivMul(modulus / TAG - 1, TAG, TAG - 1);
  }

  lemma SameGeneration(a: nat, b: nat, n: nat)
    ensures a % GENERATIONS == b % GENERATIONS && b <= a <= n && n - b < GENERATIONS ==> a == b
  {
  }

  /** An allocation finds the free slot of every table that has one if and only if none of its hundred probes
      wraps around; the number of values of an `unsigned long` is no multiple of the table size, so the last 99
      running numbers miss slots. */
  lemma EverySlotIsProbedIff(running: nat, modulus: nat)
    requires IsModulus(modulus) && running < modulus
    ensures (forall s: nat | s < SLOTS :: Probed(s, running, modulus)) <==> running + SLOTS - 1 < modulus
  {
    if running + SLOTS - 1 < modulus {
      forall s: nat | s < SLOTS
        ensures Probed(s, running, modulus)
      {
        ProbeFor(s, running, modulus);
      }
    } else {
      var s := Missed(running, modulus);
      forall i: nat | i < SLOTS
        ensures Probe(i, running, modulus) != s
      {
        MissedIsMissed(running, modulus, i);
      }
      assert !Probed(s, running, modulus);
    }
  }

  ghost predicate Probed(s: nat, running: nat, modulus: nat)
    requires modulus > 0
  {
    exists i: nat :: i < SLOTS && Probe(i, running, modulus) == s
  }

  lemma ProbeFor(s: nat, running: nat, modulus: nat)
    requires s < SLOTS && running + SLOTS - 1 < modulus
    ensures Probed(s, running, modulus)
  {
    var m := running % SLOTS;
    var i := if s >= m then s - m else s + SLOTS - m;
    FixedPoint.SmallMod(i + running, modulus);
    FixedPoint.ModAdd(running, i, SLOTS);
    FixedPoint.DivMul(if s >= m then 0 else 1, SLOTS, s);
    assert Probe(i, running, modulus) == s;
  }

  /** A slot that none of the probes looks at when they wrap around. */
  function Missed(running: nat, modulus: nat): (s: nat)
    requires running < modulus < running + SLOTS && modulus % SLOTS != 0
    ensures s < SLOTS
  {
    var j, r := modulus - running, modulus % SLOTS;
    if r <= j then SLOTS - 1 - j + r else SLOTS - 1
  }

  lemma MissedIsMissed(running: nat, modulus: nat, i: nat)
    requires i < SLOTS && running < modulus < running + SLOTS && IsModulus(modulus)
    ensures Probe(i, running, modulus) != Missed(running, modulus)
  {
    var j, q, r, x := modulus - running, modulus / SLOTS, modulus % SLOTS, i + running;
    assert modulus == q * SLOTS + r;
    if x < modulus {
      var d := r - (j - i);
      FixedPoint.SmallMod(x, modulus);
      assert x == q * SLOTS + d;
      FixedPoint.DivMul(if d >= 0 then q else q - 1, SLOTS, if d >= 0 then d else d + SLOTS);
    } else {
      FixedPoint.DivMul(1, modulus, i - j);
      assert x % modulus == i - j;
    }
  }

  lemma NextNumber(running: nat, n: nat, modulus: nat)
    requires IsModulus(modulus) && running == n % modulus
    ensures (running + 1) % modulus == (n + 1) % modulus
    ensures (running + 1) % modulus % GENERATIONS == (n + 1) % GENERATIONS
  {
    FixedPoint.ModAdd(n, 1, modulus);
    FixedPoint.ModMod(n + 1, modulus, GENERATIONS);
  }

  lemma EncodeParts(number: nat, index: nat, modulus: nat)
    requires index < SLOTS && IsModulus(modulus)
    ensures var h := Encode(number, index);
            && h / TAG == number % GENERATIONS && h % TAG == index && h != BadHandle(modulus)
  {
    var q, h := number % GENERATIONS, Encode(number, index);
    assert h == q * TAG + index;
    FixedPoint.DivMul(q, TAG, index);
    assert modulus - 1 == (modulus / TAG - 1) * TAG + (TAG - 1) by {
      FixedPoint.ModMod(modulus, GENERATIONS, TAG);
      assert modulus % TAG == 0;
    }
    FixedPoint.DivMul(modulus / TAG - 1, TAG, TAG - 1);
  }

  /** The last 32-bit number: its probes look at slot 95 and then at the slots from 0 to 98, never at slot 99. */
  lemma LastNumberMissesSlot()
    ensures !Probed(99, 0xffff_ffff, 0x1_0000_0000)
  {
    BothWidthsAreModuli();
    forall i: nat | i < SLOTS
      ensures Probe(i, 0xffff_ffff, 0x1_0000_0000) != 99
    {
      MissedIsMissed(0xffff_ffff, 0x1_0000_0000, i);
    }
  }
}
