/** What `cancel` leaves behind: registrations that are called all the same, and queries that are not started. */
module CapabilitiesCancel {
  import opened Common
  import opened CapabilitiesScheduler
  import opened CapabilitiesRuns

  // ----- callbacks that are still called -----

  function CountOf(regs: seq<Reg>, callback: nat): nat {
    if regs == [] then 0 else (if regs[0].callback == callback then 1 else 0) + CountOf(regs[1..], callback)
  }

  lemma {:induction false} RemoveFirstCount(regs: seq<Reg>, callback: nat)
    ensures CountOf(RemoveFirst(regs, callback), callback)
         == if CountOf(regs, callback) == 0 then 0 else CountOf(regs, callback) - 1
  {
    if regs != [] && regs[0].callback != callback {
      RemoveFirstCount(regs[1..], callback);
      assert RemoveFirst(regs, callback)[1..] == RemoveFirst(regs[1..], callback);
    }
  }

  /** A registration of the callback is left: it waits in a request, or a delivery is still to call it. */
  ghost predicate MayBeCalled(s: State, callback: nat) {
    || (exists p :: p in s.requests && CountOf(s.requests[p].callbacks, callback) > 0)
    || (exists f :: 0 <= f < |s.frames| && CountOf(s.frames[f].rest, callback) > 0)
  }

  /** No request has the callback twice, and no delivery is on its way to it. */
  ghost predicate CancelReaches(s: State, callback: nat) {
    && (forall p | p in s.requests :: CountOf(s.requests[p].callbacks, callback) <= 1)
    && (forall f | 0 <= f < |s.frames| :: CountOf(s.frames[f].rest, callback) == 0)
  }

  lemma LeftCount(requests: map<Uri, Request>, callback: nat, p: Uri)
    requires p in requests
    ensures CountOf(requests[p].callbacks, callback) <= 1
        <==> (p in Left(requests, callback) ==> CountOf(Left(requests, callback)[p].callbacks, callback) == 0)
  {
    RemoveFirstCount(requests[p].callbacks, callback);
  }

  /** Nobody in the requests waits for the callback. */
  ghost predicate Unasked(requests: map<Uri, Request>, callback: nat) {
    forall p | p in requests :: CountOf(requests[p].callbacks, callback) == 0
  }

  lemma LeftUnaskedIff(requests: map<Uri, Request>, callback: nat)
    ensures Unasked(Left(requests, callback), callback)
        <==> forall p | p in requests :: CountOf(requests[p].callbacks, callback) <= 1
  {
    var left := Left(requests, callback);
    forall p | p in requests
      ensures CountOf(requests[p].callbacks, callback) <= 1
          <==> (p in left ==> CountOf(left[p].callbacks, callback) == 0)
    {
      LeftCount(requests, callback, p);
    }
    assert left.Keys <= requests.Keys;
    hide RemoveFirst, CountOf, Left;
  }

  /** `cancel` is said to end all attempts for a callback. It does so exactly when no request has the callback
      more than once and no delivery in progress still has it before it. */
  lemma CancelEndsAllIff(s: State, callback: nat)
    ensures !MayBeCalled(Withdrawn(s, callback), callback) <==> CancelReaches(s, callback)
  {
    hide RemoveFirst, CountOf, Left, Ids, Active;
    LeftUnaskedIff(s.requests, callback);
  }

  lemma {:induction false} CountAdded(regs: seq<Reg>, r: Reg, callback: nat)
    ensures CountOf(regs + [r], callback) == CountOf(regs, callback) + if r.callback == callback then 1 else 0
  {
    if regs == [] {
      assert regs + [r] == [r];
    } else {
      CountAdded(regs[1..], r, callback);
      assert (regs + [r])[1..] == regs[1..] + [r];
    }
  }

  lemma {:induction false} RemovalCounts(regs: seq<Reg>, gone: nat, callback: nat)
    ensures CountOf(RemoveFirst(regs, gone), callback) <= CountOf(regs, callback)
  {
    if regs != [] && regs[0].callback != gone {
      RemovalCounts(regs[1..], gone, callback);
      assert RemoveFirst(regs, gone)[1..] == RemoveFirst(regs[1..], gone);
    }
  }

  lemma StartedQuiet(max: nat, s: State, t: State, callback: nat)
    requires Started(max, s, t) && !MayBeCalled(s, callback)
    ensures !MayBeCalled(t, callback)
  {
    hide CountOf;
    if !(t == s) {
      var p :| IsNext(max, s.requests, p) && t == s.(requests := s.requests[p := Begin(s.requests[p])]);
      assert forall q | q in t.requests :: t.requests[q].callbacks == s.requests[q].callbacks;
    }
  }

  lemma AskQuiet(s: State, path: Uri, uuid: Option<string>, high: bool, other: nat, callback: nat)
    requires !MayBeCalled(s, callback) && other != callback
    ensures !MayBeCalled(Register(s, path, uuid, high, other), callback)
  {
    CountAdded(if path in s.requests then s.requests[path].callbacks else [], Reg(other, s.registered), callback);
    assert CountOf([], callback) == 0;
    hide CountOf;
  }

  lemma WithdrawQuiet(s: State, other: nat, callback: nat)
    requires !MayBeCalled(s, callback)
    ensures !MayBeCalled(Withdrawn(s, other), callback)
  {
    forall p | p in Left(s.requests, other)
      ensures CountOf(Left(s.requests, other)[p].callbacks, callback) == 0
    {
      RemovalCounts(s.requests[p].callbacks, other, callback);
    }
    hide CountOf, RemoveFirst;
  }

  lemma AnswerQuiet(s: State, path: Uri, caps: Option<Caps>, callback: nat)
    requires !MayBeCalled(s, callback) && path in s.requests
    ensures !MayBeCalled(Answered(s, path, caps), callback)
  {
    hide CountOf;
    var t := Answered(s, path, caps);
    assert forall q | q in t.requests :: t.requests[q].callbacks == s.requests[q].callbacks;
  }

  lemma DeliverQuiet(max: nat, s: State, t: State, callback: nat)
    requires !MayBeCalled(s, callback) && Step(max, s, Deliver, t)
    ensures !MayBeCalled(t, callback)
    ensures s.frames != [] && Top(s).rest != [] && Top(s).rest[0].callback != callback
  {
    assert CountOf(Top(s).rest, callback) == 0;
    assert CountOf(Top(t).rest, callback) == 0;
  }

  lemma QuietKept(max: nat, s: State, e: Event, t: State, callback: nat)
    requires !MayBeCalled(s, callback) && Step(max, s, e, t) && !(e.Ask? && e.callback == callback)
    ensures !MayBeCalled(t, callback)
  {
    hide MayBeCalled, Started, Register, Answered, Withdrawn;
    match e
    case Ask(path, uuid, high, other) =>
      AskQuiet(s, path, uuid, high, other, callback);
      StartedQuiet(max, Register(s, path, uuid, high, other), t, callback);
    case Withdraw(other) => WithdrawQuiet(s, other, callback);
    case Answer(path, caps) =>
      if !s.stopped {
        AnswerQuiet(s, path, caps, callback);
        if RetriesWith(s.requests[path], caps) {
          StartedQuiet(max, Answered(s, path, caps), t, callback);
        }
      }
    case Deliver => DeliverQuiet(max, s, t, callback);
    case Finish =>
      FinishQuiet(s, callback);
      StartedQuiet(max, s.(frames := s.frames[..|s.frames| - 1]), t, callback);
    case Close => CloseQuiet(s, callback);
  }

  lemma FinishQuiet(s: State, callback: nat)
    requires !MayBeCalled(s, callback) && s.frames != []
    ensures !MayBeCalled(s.(frames := s.frames[..|s.frames| - 1]), callback)
  {
    hide CountOf;
  }

  lemma CloseQuiet(s: State, callback: nat)
    requires !MayBeCalled(s, callback)
    ensures !MayBeCalled(s.(stopped := true), callback)
  {
    hide CountOf;
  }

  /** In every run, a callback that was cancelled when `cancel` reached all its registrations is not called
      again, unless it is registered again. */
  lemma {:induction false} CancelledStaysQuiet(max: nat, states: seq<State>, events: seq<Event>, i: nat, j: nat, callback: nat)
    requires Run(max, states, events) && i < j <= |events|
    requires events[i] == Withdraw(callback) && CancelReaches(states[i], callback)
    requires forall k | i < k < j :: !(events[k].Ask? && events[k].callback == callback)
    ensures !MayBeCalled(states[j], callback)
    ensures j < |events| && events[j] == Deliver ==>
              states[j].frames != [] && Top(states[j]).rest != [] && Top(states[j]).rest[0].callback != callback
  {
    hide MayBeCalled, CancelReaches, Step;
    if j == i + 1 {
      assert Step(max, states[i], events[i], states[j]);
      WithdrawMeans(max, states[i], callback, states[j]);
      CancelEndsAllIff(states[i], callback);
    } else {
      CancelledStaysQuiet(max, states, events, i, j - 1, callback);
      assert Step(max, states[j - 1], events[j - 1], states[j]);
      QuietKept(max, states[j - 1], events[j - 1], states[j], callback);
    }
    if j < |events| && events[j] == Deliver {
      assert Step(max, states[j], events[j], states[j + 1]);
      DeliverQuiet(max, states[j], states[j + 1], callback);
    }
  }

  lemma WithdrawMeans(max: nat, s: State, callback: nat, t: State)
    requires Step(max, s, Withdraw(callback), t)
    ensures t == Withdrawn(s, callback)
  {
    hide Withdrawn;
  }

  lemma ThreeSteps(max: nat, s1: State, s2: State, s3: State, e1: Event, e2: Event, e3: Event)
    requires Step(max, INIT, e1, s1) && Step(max, s1, e2, s2) && Step(max, s2, e3, s3)
    ensures Run(max, [INIT, s1, s2, s3], [e1, e2, e3])
  {
    hide Step;
  }

  function Queried(callback: nat): Request {
    Pending(None, SECOND_PASS_TIMEOUT, true, true, [Reg(callback, 0)], 1, true)
  }

  lemma FirstQuery(path: Uri, callback: nat)
    ensures Step(1, INIT, Ask(path, None, true, callback),
                 OneQueried(path, callback))
  {
    var m := Register(INIT, path, None, true, callback);
    assert [] + [Reg(callback, 0)] == [Reg(callback, 0)];
    assert m.requests == map[path := Pending(None, SECOND_PASS_TIMEOUT, true, false, [Reg(callback, 0)], 0, true)];
    assert Active(m.requests) == {};
    assert IsNext(1, m.requests, path);
    assert m.requests[path := Begin(m.requests[path])] == map[path := Queried(callback)];
  }

  /** While the only slot is taken, another call only registers its callback. */
  lemma QueuedBehind(s: State, a: Uri, path: Uri, callback: nat)
    requires a in s.requests && s.requests[a].querying
    ensures Step(1, s, Ask(path, None, true, callback), Register(s, path, None, true, callback))
  {
    var m := Register(s, path, None, true, callback);
    assert a in Active(m.requests) && {a} <= Active(m.requests);
    assert |Active(m.requests)| >= 1;
  }

  lemma WithdrawStep(max: nat, s: State, callback: nat)
    ensures Step(max, s, Withdraw(callback), Withdrawn(s, callback))
    ensures Withdrawn(s, callback).requests == Left(s.requests, callback) && Withdrawn(s, callback).frames == s.frames
  {
  }

  lemma RemoveFromShort(callback: nat, other: nat, i: nat, j: nat)
    ensures RemoveFirst([Reg(callback, i)], callback) == []
    ensures RemoveFirst([Reg(callback, i), Reg(callback, j)], callback) == [Reg(callback, j)]
    ensures other != callback ==> RemoveFirst([Reg(other, j)], callback) == [Reg(other, j)]
  {
    assert RemoveFirst([], callback) == [];
  }

  function OneQueried(path: Uri, callback: nat): State {
    INIT.(registered := 1, requests := map[path := Queried(callback)])
  }

  /** After a callback was registered twice for one printer, cancelling it leaves the second registration
      waiting. */
  lemma CancelLeavesDuplicate(path: Uri)
    ensures var s1 := OneQueried(path, 7);
            var s2 := Register(s1, path, None, true, 7);
            var s3 := Withdrawn(s2, 7);
            && Run(1, [INIT, s1, s2, s3], [Ask(path, None, true, 7), Ask(path, None, true, 7), Withdraw(7)])
            && path in s3.requests && s3.requests[path].callbacks == [Reg(7, 1)]
  {
    var s1 := OneQueried(path, 7);
    var s2 := Register(s1, path, None, true, 7);
    assert s1.requests[path].querying && path in s2.requests && s2.requests[path].callbacks == [Reg(7, 0), Reg(7, 1)];
    FirstQuery(path, 7);
    hide Step, Register, RemoveFirst, Ids, Withdrawn, Run, OneQueried;
    QueuedBehind(s1, path, path, 7);
    WithdrawStep(1, s2, 7);
    RemoveFromShort(7, 7, 0, 1);
    ThreeSteps(1, s1, s2, Withdrawn(s2, 7), Ask(path, None, true, 7), Ask(path, None, true, 7), Withdraw(7));
  }

  /** Two callbacks wait for one printer, and its answer is delivered. */
  function TwoWait(path: Uri): State { Register(OneQueried(path, 1), path, None, true, 2) }

  function Delivering(path: Uri, caps: Caps, rest: seq<Reg>, fired: seq<nat>): State {
    INIT.(registered := 2, frames := [Frame(rest, Some(caps))], fired := fired)
  }

  lemma AnswerDelivers(path: Uri, caps: Caps)
    ensures Step(1, TwoWait(path), Answer(path, Some(caps)), Delivering(path, caps, [Reg(1, 0), Reg(2, 1)], []))
  {
    var s2 := TwoWait(path);
    assert s2.requests[path].callbacks == [Reg(1, 0), Reg(2, 1)] && s2.requests[path].querying;
    assert s2.requests - {path} == map[];
  }

  lemma DeliverStep(path: Uri, caps: Caps, r: Reg, rest: seq<Reg>, fired: seq<nat>)
    ensures Step(1, Delivering(path, caps, [r] + rest, fired), Deliver, Delivering(path, caps, rest, fired + [r.id]))
  {
    assert ([r] + rest)[1..] == rest;
    assert [Frame([r] + rest, Some(caps))][0 := Frame(rest, Some(caps))] == [Frame(rest, Some(caps))];
  }

  lemma SixSteps(states: seq<State>, events: seq<Event>)
    requires |states| == 7 && |events| == 6 && states[0] == INIT
    requires Step(1, states[0], events[0], states[1]) && Step(1, states[1], events[1], states[2])
    requires Step(1, states[2], events[2], states[3]) && Step(1, states[3], events[3], states[4])
    requires Step(1, states[4], events[4], states[5]) && Step(1, states[5], events[5], states[6])
    ensures Run(1, states, events)
  {
    hide Step;
  }

  lemma TwoCallbacks(path: Uri)
    ensures Step(1, OneQueried(path, 1), Ask(path, None, true, 2), TwoWait(path))
  {
    assert OneQueried(path, 1).requests[path].querying;
    QueuedBehind(OneQueried(path, 1), path, path, 2);
    hide Step;
  }

  /** Two callbacks wait for one printer. When its answer is delivered, the first cancels the second, which no
      request has any more, and which is called all the same. */
  lemma CancelledDuringDelivery(path: Uri, caps: Caps)
    ensures var between := Delivering(path, caps, [Reg(2, 1)], [0]);
            && Run(1, [INIT, OneQueried(path, 1), TwoWait(path),
                       Delivering(path, caps, [Reg(1, 0), Reg(2, 1)], []), between, between,
                       Delivering(path, caps, [], [0, 1])],
                      [Ask(path, None, true, 1), Ask(path, None, true, 2), Answer(path, Some(caps)), Deliver,
                       Withdraw(2), Deliver])
            && (forall p | p in between.requests :: CountOf(between.requests[p].callbacks, 2) <= 1)
  {
    hide Step, Run, OneQueried, TwoWait;
    FirstQuery(path, 1);
    TwoCallbacks(path);
    AnswerDelivers(path, caps);
    assert [Reg(1, 0)] + [Reg(2, 1)] == [Reg(1, 0), Reg(2, 1)] && [] + [0] == [0];
    DeliverStep(path, caps, Reg(1, 0), [Reg(2, 1)], []);
    WithdrawNothing(1, Delivering(path, caps, [Reg(2, 1)], [0]), 2);
    assert [Reg(2, 1)] + [] == [Reg(2, 1)] && [0] + [1] == [0, 1];
    DeliverStep(path, caps, Reg(2, 1), [], [0]);
    SixSteps([INIT, OneQueried(path, 1), TwoWait(path), Delivering(path, caps, [Reg(1, 0), Reg(2, 1)], []),
              Delivering(path, caps, [Reg(2, 1)], [0]), Delivering(path, caps, [Reg(2, 1)], [0]),
              Delivering(path, caps, [], [0, 1])],
             [Ask(path, None, true, 1), Ask(path, None, true, 2), Answer(path, Some(caps)), Deliver, Withdraw(2),
              Deliver]);
  }

  /** With nothing in the requests, `cancel` finds nothing. */
  lemma WithdrawNothing(max: nat, s: State, callback: nat)
    requires s.requests == map[]
    ensures Step(max, s, Withdraw(callback), s)
  {
    assert Left(s.requests, callback) == map[];
    assert Withdrawn(s, callback) == s;
  }

  // ----- queries that are not started -----

  ghost predicate SomethingWaits(requests: map<Uri, Request>) {
    exists p :: IsWaiting(requests, p)
  }

  /** Slots in use, or promised by a delivery: at its end it starts a query. */
  function Taken(s: State): nat { |Active(s.requests)| + |s.frames| }

  /** Slots that stay free although something waits. */
  ghost function Deficit(max: nat, s: State): nat {
    if SomethingWaits(s.requests) && Taken(s) < max then max - Taken(s) else 0
  }

  /** Nobody else than this callback waits for the request. */
  predicate Alone(r: Request, callback: nat) {
    |r.callbacks| == 1 && r.callbacks[0].callback == callback
  }

  function BrokenOff(requests: map<Uri, Request>, callback: nat): set<Uri> {
    set p | p in Active(requests) && Alone(requests[p], callback)
  }

  lemma RemovalEmpties(regs: seq<Reg>, callback: nat)
    requires regs != []
    ensures RemoveFirst(regs, callback) == [] <==> |regs| == 1 && regs[0].callback == callback
  {
    if regs[0].callback != callback {
      assert RemoveFirst(regs, callback)[0] == regs[0];
    }
  }

  lemma LeftMeans(requests: map<Uri, Request>, callback: nat)
    requires forall p | p in requests :: requests[p].callbacks != []
    ensures forall p | p in requests :: p in Left(requests, callback) <==> !Alone(requests[p], callback)
    ensures forall p | p in Left(requests, callback) ::
              p in requests && Left(requests, callback)[p].querying == requests[p].querying
  {
    forall p | p in requests
      ensures p in Left(requests, callback) <==> !Alone(requests[p], callback)
    {
      RemovalEmpties(requests[p].callbacks, callback);
    }
    hide RemoveFirst;
  }

  lemma BrokenOffMeans(requests: map<Uri, Request>, callback: nat)
    requires forall p | p in requests :: requests[p].callbacks != []
    ensures |Active(Left(requests, callback))| == |Active(requests)| - |BrokenOff(requests, callback)|
  {
    LeftMeans(requests, callback);
    ActiveLeft(requests, callback);
    assert BrokenOff(requests, callback) == Active(requests) - Left(requests, callback).Keys by { hide Left, Alone; }
    hide *;
  }

  lemma WaitingLeft(requests: map<Uri, Request>, callback: nat)
    requires forall p | p in requests :: requests[p].callbacks != []
    ensures SomethingWaits(Left(requests, callback))
        <==> exists p :: IsWaiting(requests, p) && !Alone(requests[p], callback)
  {
    LeftMeans(requests, callback);
    hide Left, Alone;
    var left := Left(requests, callback);
    if p :| IsWaiting(requests, p) && !Alone(requests[p], callback) {
      assert IsWaiting(left, p);
    }
  }

  /** `cancel` does not start the next query. If it leaves slots free although something waits, these are the
      ones that were free before and those whose query it broke off; when every slot was taken before, it leaves
      none free exactly when it breaks off no query or nothing else waits. */
  lemma CancelStallsIff(max: nat, s: State, callback: nat)
    requires forall p | p in s.requests :: s.requests[p].callbacks != []
    ensures var waits := exists p :: IsWaiting(s.requests, p) && !Alone(s.requests[p], callback);
            var after := Taken(s) - |BrokenOff(s.requests, callback)|;
            && Deficit(max, Withdrawn(s, callback)) == (if waits && after < max then max - after else 0)
            && (Taken(s) == max ==>
                  (Deficit(max, Withdrawn(s, callback)) == 0 <==> BrokenOff(s.requests, callback) == {} || !waits))
  {
    hide Left, BrokenOff, Active, Ids, SomethingWaits, Alone, IsWaiting;
    BrokenOffMeans(s.requests, callback);
    WaitingLeft(s.requests, callback);
    assert Taken(Withdrawn(s, callback)) == Taken(s) - |BrokenOff(s.requests, callback)|;
    assert BrokenOff(s.requests, callback) == {} <==> |BrokenOff(s.requests, callback)| == 0;
  }

  lemma StartedDeficit(max: nat, m: State, t: State)
    requires Started(max, m, t)
    ensures Deficit(max, t) == 0 || Deficit(max, t) == Deficit(max, m) - 1
    ensures (forall p, q | IsWaiting(m.requests, p) && IsWaiting(m.requests, q) :: p == q) ==> Deficit(max, t) == 0
  {
    if t == m && NothingToStart(max, m.requests) {
      hide Active;
    } else {
      var p :| IsNext(max, m.requests, p) && t == m.(requests := m.requests[p := Begin(m.requests[p])]);
      ActiveBegins(m.requests, p);
      assert forall q | IsWaiting(t.requests, q) :: IsWaiting(m.requests, q) && q != p;
      hide Active;
    }
  }

  lemma NotThere(requests: map<Uri, Request>, p: Uri)
    requires p !in requests
    ensures !IsWaiting(requests, p)
  {
  }

  /** How long free slots stay free: only a new request takes one back; every other event but `cancel` leaves
      their number as it is, unless nothing waits any more. */
  lemma DeficitStep(max: nat, s: State, e: Event, t: State)
    requires Step(max, s, e, t) && !e.Withdraw?
    ensures Deficit(max, t) == 0 || Deficit(max, t) == Deficit(max, s) - (if e.Ask? then 1 else 0)
  {
    hide Register, Answered, Withdrawn, Started, Active, RetriesWith, IsWaiting;
    match e
    case Ask(path, uuid, high, callback) =>
      RegisterEffect(max, s, path, uuid, high, callback);
      StartedDeficit(max, Register(s, path, uuid, high, callback), t);
    case Answer(path, caps) =>
      if !s.stopped {
        AnsweredEffect(max, s, path, caps);
        if RetriesWith(s.requests[path], caps) {
          StartedDeficit(max, Answered(s, path, caps), t);
        } else {
          assert !IsWaiting(t.requests, path) by { NotThere(t.requests, path); }
        }
      }
    case Finish =>
      StartedDeficit(max, s.(frames := s.frames[..|s.frames| - 1]), t);
    case Deliver =>
      assert |t.frames| == |s.frames|;
    case _ =>
  }

  function Asks(events: seq<Event>): nat {
    if events == [] then 0 else Asks(events[..|events| - 1]) + if events[|events| - 1].Ask? then 1 else 0
  }

  /** In every run without further calls of `cancel`, the free slots that it left come back one by one with new
      requests, however many answers arrive, until none is left or nothing waits. */
  lemma {:induction false} DeficitLasts(max: nat, states: seq<State>, events: seq<Event>, i: nat, j: nat)
    requires Run(max, states, events) && i <= j <= |events|
    requires forall k | i <= k < j :: !events[k].Withdraw?
    ensures Deficit(max, states[j]) == 0 || Deficit(max, states[j]) == Deficit(max, states[i]) - Asks(events[i..j])
  {
    hide Step, Deficit;
    if i < j {
      DeficitLasts(max, states, events, i, j - 1);
      assert Step(max, states[j - 1], events[j - 1], states[j]);
      DeficitStep(max, states[j - 1], events[j - 1], states[j]);
      assert events[i..j][..|events[i..j]| - 1] == events[i..j - 1];
    }
  }

  lemma StallStates(a: Uri, b: Uri)
    requires a != b
    ensures var s1 := OneQueried(a, 1);
            var s2 := Register(s1, b, None, true, 2);
            && a in s1.requests && s1.requests[a].querying && s2.frames == [] && s2.requests.Keys == {a, b}
            && s2.requests[a].callbacks == [Reg(1, 0)]
            && s2.requests[b].callbacks == [Reg(2, 1)] && !s2.requests[b].querying
  {
  }

  lemma OnlyOneWaits(requests: map<Uri, Request>, a: Uri, b: Uri)
    requires a != b && requests.Keys == {a, b} && !requests[b].querying
    requires requests[a].callbacks == [Reg(1, 0)] && requests[b].callbacks == [Reg(2, 1)]
    ensures IsWaiting(Left(requests, 1), b) && Active(Left(requests, 1)) == {}
  {
    RemoveFromShort(1, 2, 0, 1);
    hide RemoveFirst;
  }

  /** Breaking off a query does not start the next one: with one slot, cancelling the only active query leaves
      another request waiting although nothing is active. */
  lemma CancelCanStall(a: Uri, b: Uri)
    requires a != b
    ensures var s1 := OneQueried(a, 1);
            var s2 := Register(s1, b, None, true, 2);
            var s3 := Withdrawn(s2, 1);
            && Run(1, [INIT, s1, s2, s3], [Ask(a, None, true, 1), Ask(b, None, true, 2), Withdraw(1)])
            && IsWaiting(s3.requests, b) && Active(s3.requests) == {} && s3.frames == [] && Deficit(1, s3) == 1
  {
    hide Step, Register, RemoveFirst, Ids, Withdrawn, Left, Run, OneQueried, Active, IsWaiting;
    var s1 := OneQueried(a, 1);
    var s2 := Register(s1, b, None, true, 2);
    StallStates(a, b);
    FirstQuery(a, 1);
    QueuedBehind(s1, a, b, 2);
    WithdrawStep(1, s2, 1);
    OnlyOneWaits(s2.requests, a, b);
    ThreeSteps(1, s1, s2, Withdrawn(s2, 1), Ask(a, None, true, 1), Ask(b, None, true, 2), Withdraw(1));
  }
}
