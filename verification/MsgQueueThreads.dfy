/** The message queue shared by any number of threads: every access to the mutex, the semaphore, a slot or a
    field is a step of its own. */
module MsgQueueThreads {
  import opened Common
  import FixedPoint
  import opened MsgQueue

  type Msg = seq<Byte>

  /** Where a thread is. Between locking and unlocking it is inside the critical section. */
  datatype Pc =
    | Outside
    | Sending(m: Msg)      // wants the lock
    | Checking(m: Msg)     // locked, about to check for room
    | Copying(m: Msg)      // there is room, about to fill the slot
    | Copied(m: Msg)       // about to advance the write position
    | Advanced             // about to count the message
    | Counted              // about to post the semaphore
    | Granted              // past the semaphore, wants the lock
    | Locked               // about to read the slot
    | Taken(m: Msg)        // about to advance the read position
    | Passed(m: Msg)       // about to uncount the message
    | Unlocking            // about to unlock
    | Asking               // `msgQNumMsgs`, wants the lock

  datatype Queue = Queue(
    slots: seq<Msg>,       // one per message the queue can hold
    maxLength: nat,
    numMsgs: int,
    sem: nat,
    read: nat,
    write: nat,
    owner: int,            // the thread that holds the mutex, or -1
    threads: seq<Pc>,
    accepted: seq<Msg>,    // every message taken, oldest first
    delivered: seq<Msg>,   // every message handed out
    answer: int            // what the last call of `msgQNumMsgs` saw
  )

  datatype Action =
    | Send(m: Msg)
    | Receive
    | AskCount
    | Go

  predicate Inside(pc: Pc) { !(pc.Outside? || pc.Sending? || pc.Granted? || pc.Asking?) }

  predicate Enabled(q: Queue, t: nat, a: Action) {
    t < |q.threads| &&
    match a
    case Send(_) | AskCount => q.threads[t].Outside?
    case Receive => q.threads[t].Outside? && q.sem > 0
    case Go =>
      if q.threads[t].Sending? || q.threads[t].Granted? || q.threads[t].Asking? then q.owner == -1
      else !q.threads[t].Outside?
  }

  function At(q: Queue, t: nat, pc: Pc): Queue
    requires t < |q.threads|
  {
    q.(threads := q.threads[t := pc])
  }

  /** One step of thread t. A queue without slots never has room, so its positions never move. */
  function Do(q: Queue, t: nat, a: Action): Queue
    requires Enabled(q, t, a)
  {
    var size := |q.slots|;
    match a
    case Send(m) => At(q, t, Sending(m))
    case AskCount => At(q, t, Asking)
    case Receive => At(q, t, Granted).(sem := q.sem - 1)
    case Go =>
      match q.threads[t]
      case Sending(m) => At(q, t, Checking(m)).(owner := t)
      case Asking => At(q, t, Unlocking).(owner := t, answer := q.numMsgs)
      case Granted => At(q, t, Locked).(owner := t)
      case Checking(m) => At(q, t, if |m| <= q.maxLength && q.numMsgs < size then Copying(m) else Unlocking)
      case Copying(m) =>
        if q.write < size then At(q, t, Copied(m)).(slots := q.slots[q.write := m]) else q
      case Copied(m) =>
        At(q, t, Advanced).(write := if size > 0 then Ahead(q.write, 1, size) else 0, accepted := q.accepted + [m])
      case Advanced => At(q, t, Counted).(numMsgs := q.numMsgs + 1)
      case Counted => At(q, t, Unlocking).(sem := q.sem + 1)
      case Locked =>
        if q.read < size then At(q, t, Taken(q.slots[q.read])) else q
      case Taken(m) =>
        At(q, t, Passed(m)).(read := if size > 0 then Ahead(q.read, 1, size) else 0, delivered := q.delivered + [m])
      case Passed(_) => At(q, t, Unlocking).(numMsgs := q.numMsgs - 1)
      case Unlocking => At(q, t, Outside).(owner := -1)
      case Outside => q
  }

  function Step(q: Queue, t: nat, a: Action): Queue {
    if Enabled(q, t, a) then Do(q, t, a) else q
  }

  function Start(size: nat, maxLength: nat, threads: nat): Queue {
    Queue(seq(size, _ => []), maxLength, 0, 0, 0, 0, -1, seq(threads, _ => Outside), [], [], -1)
  }

  /** The state after an interleaving; a step that is not possible leaves its thread waiting. */
  function After(q: Queue, schedule: seq<(nat, Action)>): Queue {
    if schedule == [] then q
    else
      var n := |schedule| - 1;
      Step(After(q, schedule[..n]), schedule[n].0, schedule[n].1)
  }

  // ----- what every interleaving keeps -----

  /** What the thread in the critical section has already done to the state. */
  function OwnerPc(q: Queue): Pc {
    if 0 <= q.owner < |q.threads| then q.threads[q.owner] else Outside
  }

  function Holds(pc: Pc): nat { if pc.Granted? || pc.Locked? || pc.Taken? || pc.Passed? then 1 else 0 }

  /** Threads that are past the semaphore and have not yet uncounted their message. */
  function Permits(threads: seq<Pc>): nat {
    if threads == [] then 0 else Permits(threads[..|threads| - 1]) + Holds(threads[|threads| - 1])
  }

  lemma {:induction false} PermitsUpdate(threads: seq<Pc>, t: nat, pc: Pc)
    requires t < |threads|
    ensures Permits(threads[t := pc]) == Permits(threads) - Holds(threads[t]) + Holds(pc)
    ensures Permits(threads) >= Holds(threads[t])
  {
    var n := |threads| - 1;
    if t == n {
      assert threads[t := pc][..n] == threads[..n];
    } else {
      PermitsUpdate(threads[..n], t, pc);
      assert threads[t := pc][..n] == threads[..n][t := pc];
    }
  }

  predicate Exclusive(q: Queue) {
    && -1 <= q.owner < |q.threads|
    && forall t | 0 <= t < |q.threads| :: Inside(q.threads[t]) <==> q.owner == t
  }

  /** Messages counted by the semaphore, or by a thread that has taken a permit, are those in `numMsgs`. */
  predicate CountsAgree(q: Queue) {
    var pc := OwnerPc(q);
    && q.sem + Permits(q.threads) + (if pc.Counted? then 1 else 0) == q.numMsgs
    && q.numMsgs + (if pc.Advanced? then 1 else 0)
       == |q.accepted| - |q.delivered| + (if pc.Passed? then 1 else 0)
    && q.numMsgs <= |q.slots|
    && (pc.Copying? || pc.Copied? || pc.Advanced? ==> q.numMsgs < |q.slots|)
  }

  predicate PositionsAgree(q: Queue) {
    && (|q.slots| == 0 ==> q.accepted == [])
    && |q.delivered| <= |q.accepted|
    && (|q.slots| > 0 ==>
          q.read == Ahead(0, |q.delivered|, |q.slots|) && q.write == Ahead(0, |q.accepted|, |q.slots|))
  }

  /** Every undelivered message is intact in its slot. */
  predicate SlotsAgree(q: Queue) {
    && q.delivered <= q.accepted
    && |q.accepted| - |q.delivered| <= |q.slots|
    && (forall j {:trigger q.accepted[j]} | |q.delivered| <= j < |q.accepted| ::
          q.slots[Ahead(0, j, |q.slots|)] == q.accepted[j])
    && (match OwnerPc(q)
        case Copied(m) => q.write < |q.slots| && q.slots[q.write] == m
        case Taken(m) => |q.delivered| < |q.accepted| && m == q.accepted[|q.delivered|]
        case _ => true)
  }

  ghost predicate Inv(q: Queue) {
    Exclusive(q) && CountsAgree(q) && PositionsAgree(q) && SlotsAgree(q)
  }

  lemma ExclusiveKept(q: Queue, t: nat, a: Action)
    requires Exclusive(q) && Enabled(q, t, a)
    ensures Exclusive(Do(q, t, a))
  {
    hide Ahead;
  }

  lemma CountsKept(q: Queue, t: nat, a: Action)
    requires Exclusive(q) && CountsAgree(q) && PositionsAgree(q) && Enabled(q, t, a)
    ensures CountsAgree(Do(q, t, a))
  {
    hide Ahead, Permits;
    ExclusiveKept(q, t, a);
    PermitsUpdate(q.threads, t, Do(q, t, a).threads[t]);
  }

  lemma PositionsKept(q: Queue, t: nat, a: Action)
    requires Inv(q) && Enabled(q, t, a)
    ensures PositionsAgree(Do(q, t, a))
  {
    hide Permits;
    if |q.slots| > 0 {
      AheadAfter(0, |q.accepted|, |q.slots|);
      AheadAfter(0, |q.delivered|, |q.slots|);
    }
    hide Ahead;
  }

  lemma SlotsKept(q: Queue, t: nat, a: Action)
    requires Inv(q) && Enabled(q, t, a)
    ensures SlotsAgree(Do(q, t, a))
  {
    var pc := q.threads[t];
    if a == Go && pc.Copying? {
      FillKept(q, t);
    } else {
      hide Ahead, Permits;
      PermitsUpdate(q.threads, t, pc);
    }
  }

  /** The slot that is filled holds no message that is still to be delivered. */
  lemma FillKept(q: Queue, t: nat)
    requires Inv(q) && t < |q.threads| && q.threads[t].Copying?
    ensures SlotsAgree(Do(q, t, Go))
  {
    var r := Do(q, t, Go);
    forall j | |q.delivered| <= j < |q.accepted|
      ensures Ahead(0, j, |q.slots|) != q.write
    {
      AheadDistinct(0, j, |q.accepted|, |q.slots|);
    }
    hide Ahead, Permits;
  }

  lemma {:induction false} InvAlways(size: nat, maxLength: nat, threads: nat, schedule: seq<(nat, Action)>)
    ensures Inv(After(Start(size, maxLength, threads), schedule))
  {
    var q := Start(size, maxLength, threads);
    if schedule == [] {
      NoPermits(threads);
    } else {
      var n := |schedule| - 1;
      InvAlways(size, maxLength, threads, schedule[..n]);
      var before, t, a := After(q, schedule[..n]), schedule[n].0, schedule[n].1;
      if Enabled(before, t, a) {
        ExclusiveKept(before, t, a);
        CountsKept(before, t, a);
        PositionsKept(before, t, a);
        SlotsKept(before, t, a);
      }
    }
  }

  lemma {:induction false} NoPermits(threads: nat)
    ensures Permits(seq(threads, _ => Outside)) == 0
  {
    if threads > 0 {
      NoPermits(threads - 1);
      assert seq(threads, _ => Outside)[..threads - 1] == seq(threads - 1, _ => Outside);
    }
  }

  lemma SlotsStep(q: Queue, t: nat, a: Action)
    ensures |Step(q, t, a).slots| == |q.slots| && Step(q, t, a).maxLength == q.maxLength
  {
    hide Ahead;
  }

  lemma {:induction false} SlotsConstant(q: Queue, schedule: seq<(nat, Action)>)
    ensures |After(q, schedule).slots| == |q.slots| && After(q, schedule).maxLength == q.maxLength
  {
    hide Step;
    if schedule != [] {
      var n := |schedule| - 1;
      SlotsConstant(q, schedule[..n]);
      SlotsStep(After(q, schedule[..n]), schedule[n].0, schedule[n].1);
    }
  }

  /** With any number of senders and receivers: messages are delivered in the order they were accepted, none
      lost or duplicated, and whenever no thread is inside the critical section, the count is the number of
      undelivered messages, the semaphore and the permits taken from it add up to it, the write position is
      that many slots past the read position, and every undelivered message is intact in its slot. */
  lemma QueueIsFifo(size: nat, maxLength: nat, threads: nat, schedule: seq<(nat, Action)>)
    ensures var q := After(Start(size, maxLength, threads), schedule);
            && q.delivered <= q.accepted && |q.accepted| - |q.delivered| <= size == |q.slots|
            && (q.owner == -1 ==>
                  && q.numMsgs == |q.accepted| - |q.delivered| == q.sem + Permits(q.threads)
                  && (size > 0 ==> q.write == Ahead(q.read, q.numMsgs, size))
                  && (forall k | 0 <= k < q.numMsgs ::
                        q.slots[Ahead(q.read, k, size)] == q.accepted[|q.delivered| + k]))
  {
    InvAlways(size, maxLength, threads, schedule);
    var q := After(Start(size, maxLength, threads), schedule);
    SlotsConstant(Start(size, maxLength, threads), schedule);
    hide After, Permits, Ahead;
    if q.owner == -1 {
      if size > 0 {
        AheadSum(0, |q.delivered|, q.numMsgs, size);
      }
      forall k | 0 <= k < q.numMsgs
        ensures q.slots[Ahead(q.read, k, size)] == q.accepted[|q.delivered| + k]
      {
        AheadSum(0, |q.delivered|, k, size);
      }
    }
  }

  lemma AheadSum(at: nat, j: nat, k: nat, size: nat)
    requires size > 0
    ensures Ahead(Ahead(at, j, size), k, size) == Ahead(at, j + k, size)
  {
    FixedPoint.ModAdd(at + j, k, size);
  }

  /** A message is turned down exactly when it is too long or as many messages as there are slots are
      undelivered; a receiver always gets the oldest undelivered message; and `msgQNumMsgs` sees how many
      there are. */
  lemma StepsAreRight(size: nat, maxLength: nat, threads: nat, schedule: seq<(nat, Action)>, t: nat)
    requires var q := After(Start(size, maxLength, threads), schedule); t < |q.threads| && Enabled(q, t, Go)
    ensures var q := After(Start(size, maxLength, threads), schedule);
            var pending := |q.accepted| - |q.delivered|;
            match q.threads[t]
            case Checking(m) => Do(q, t, Go).threads[t].Copying? <==> |m| <= maxLength && pending < size
            case Locked => pending > 0 && Do(q, t, Go).threads[t] == Taken(q.accepted[|q.delivered|])
            case Asking => Do(q, t, Go).answer == pending
            case _ => true
  {
    InvAlways(size, maxLength, threads, schedule);
    SlotsConstant(Start(size, maxLength, threads), schedule);
    var q := After(Start(size, maxLength, threads), schedule);
    PermitsUpdate(q.threads, t, q.threads[t]);
    hide Permits, After;
  }

  /** No wake-up is lost: while there are more undelivered messages than receivers on their way to one, and
      nobody is about to post, the semaphore lets another receiver through. */
  lemma NoLostWakeup(size: nat, maxLength: nat, threads: nat, schedule: seq<(nat, Action)>)
    ensures var q := After(Start(size, maxLength, threads), schedule);
            q.owner == -1 && |q.accepted| - |q.delivered| > Permits(q.threads) ==> q.sem > 0
  {
    InvAlways(size, maxLength, threads, schedule);
  }
}
