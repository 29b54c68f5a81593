/** What the capability cache keeps over all its runs, whatever its callbacks do. */
module CapabilitiesRuns {
  import opened Common
  import opened CapabilitiesScheduler

  ghost predicate Run(max: nat, states: seq<State>, events: seq<Event>) {
    && |states| == |events| + 1 && states[0] == INIT
    && forall i | 0 <= i < |events| :: Step(max, states[i], events[i], states[i + 1])
  }

  // ----- slots -----

  /** A request is queried for the first time when it is new, and once more when it is back in the queue with
      the longer timeout; one that starts with high priority has that timeout from the start. */
  predicate StartsRight(r: Request) {
    && (r.timeout == FIRST_PASS_TIMEOUT || r.timeout == SECOND_PASS_TIMEOUT)
    && (r.bornHigh ==> r.timeout == SECOND_PASS_TIMEOUT && r.high)
    && r.starts == (if r.querying then 1 else 0)
                   + (if r.timeout == SECOND_PASS_TIMEOUT && !r.bornHigh then 1 else 0)
  }

  ghost predicate Slots(max: nat, s: State) {
    && |Active(s.requests)| <= max
    && forall p | p in s.requests :: StartsRight(s.requests[p]) && s.requests[p].callbacks != []
  }

  /** A waiting request finds every slot in use, or promised by a delivery that is still to end, or lost to a
      broken off query. */
  ghost predicate Busy(max: nat, s: State) {
    (exists p :: IsWaiting(s.requests, p)) ==> |Active(s.requests)| + |s.frames| + s.lost >= max
  }

  lemma ActiveBegins(requests: map<Uri, Request>, p: Uri)
    requires IsWaiting(requests, p)
    ensures Active(requests[p := Begin(requests[p])]) == Active(requests) + {p}
    ensures |Active(requests[p := Begin(requests[p])])| == |Active(requests)| + 1
  {
    assert Active(requests[p := Begin(requests[p])]) == Active(requests) + {p};
  }

  lemma StartedSlots(max: nat, s: State, t: State)
    requires Slots(max, s) && Started(max, s, t)
    ensures Slots(max, t)
  {
    if !(t == s) {
      var p :| IsNext(max, s.requests, p) && t == s.(requests := s.requests[p := Begin(s.requests[p])]);
      ActiveBegins(s.requests, p);
    }
  }

  lemma RegisterEffect(max: nat, s: State, path: Uri, uuid: Option<string>, high: bool, callback: nat)
    ensures var m := Register(s, path, uuid, high, callback);
            && Active(m.requests) == Active(s.requests) && m.frames == s.frames && m.lost == s.lost
            && (forall p | IsWaiting(m.requests, p) && p != path :: IsWaiting(s.requests, p))
            && (Slots(max, s) ==> Slots(max, m))
  {
    var m := Register(s, path, uuid, high, callback);
    assert Active(m.requests) == Active(s.requests);
  }

  lemma AnsweredEffect(max: nat, s: State, path: Uri, caps: Option<Caps>)
    requires path in s.requests && s.requests[path].querying
    ensures var m := Answered(s, path, caps);
            && |Active(m.requests)| == |Active(s.requests)| - 1 && m.lost == s.lost
            && (forall p | IsWaiting(m.requests, p) && p != path :: IsWaiting(s.requests, p))
            && (!RetriesWith(s.requests[path], caps) ==> path !in m.requests && |m.frames| == |s.frames| + 1)
            && (RetriesWith(s.requests[path], caps) ==> m.frames == s.frames)
            && (Slots(max, s) ==> Slots(max, m))
  {
    var m := Answered(s, path, caps);
    assert Active(m.requests) == Active(s.requests) - {path};
  }

  lemma SameRequests(max: nat, s: State, t: State)
    requires s.requests == t.requests
    ensures Slots(max, s) ==> Slots(max, t)
    ensures |s.frames| + s.lost == |t.frames| + t.lost && Busy(max, s) ==> Busy(max, t)
  {
  }

  lemma SlotsKept(max: nat, s: State, e: Event, t: State)
    requires Slots(max, s) && Step(max, s, e, t)
    ensures Slots(max, t)
  {
    hide Slots, Busy, Register, Answered, Withdrawn, Started, Active, Left, Ids, IsWaiting, RetriesWith;
    match e
    case Ask(path, uuid, high, callback) =>
      RegisterEffect(max, s, path, uuid, high, callback);
      StartedSlots(max, Register(s, path, uuid, high, callback), t);
    case Withdraw(callback) =>
      WithdrawnEffect(max, s, callback);
    case Answer(path, caps) =>
      if !s.stopped {
        AnsweredEffect(max, s, path, caps);
        if RetriesWith(s.requests[path], caps) {
          StartedSlots(max, Answered(s, path, caps), t);
        }
      }
    case Finish =>
      SameRequests(max, s, s.(frames := s.frames[..|s.frames| - 1]));
      StartedSlots(max, s.(frames := s.frames[..|s.frames| - 1]), t);
    case _ =>
      SameRequests(max, s, t);
  }

  lemma WithdrawnEffect(max: nat, s: State, callback: nat)
    ensures var t := Withdrawn(s, callback);
            && (Slots(max, s) ==> Slots(max, t))
            && (Busy(max, s) ==> Busy(max, t))
  {
    hide RemoveFirst, Ids;
    ActiveLeft(s.requests, callback);
    assert forall p | IsWaiting(Left(s.requests, callback), p) :: IsWaiting(s.requests, p);
  }

  lemma ActiveLeft(requests: map<Uri, Request>, callback: nat)
    ensures var left := Left(requests, callback);
            && Active(left) <= Active(requests)
            && |Active(left)| + |Active(requests) - left.Keys| == |Active(requests)|
  {
    hide RemoveFirst;
    var left := Left(requests, callback);
    var gone := Active(requests) - left.Keys;
    assert Active(left) + gone == Active(requests) && Active(left) !! gone;
  }

  /** One query is started: if a request still waits afterwards, a waiting request was passed over. */
  lemma StartedBusy(max: nat, s: State, t: State, slots: int)
    requires Started(max, s, t) && |s.frames| + s.lost == slots
    requires forall p, q | IsWaiting(s.requests, p) && IsWaiting(s.requests, q) && p != q ::
               |Active(s.requests)| + 1 + slots >= max
    ensures Busy(max, t)
  {
    if !(t == s) {
      var p :| IsNext(max, s.requests, p) && t == s.(requests := s.requests[p := Begin(s.requests[p])]);
      ActiveBegins(s.requests, p);
      if q :| IsWaiting(t.requests, q) {
        assert IsWaiting(s.requests, q) && q != p;
      }
    }
  }

  lemma BusyKept(max: nat, s: State, e: Event, t: State)
    requires Busy(max, s) && Step(max, s, e, t)
    ensures Busy(max, t)
  {
    hide Slots, Busy, Register, Answered, Withdrawn, Started, Active, Left, Ids, IsWaiting, RetriesWith;
    match e
    case Ask(path, uuid, high, callback) =>
      RegisterEffect(max, s, path, uuid, high, callback);
      BusyMeans(max, s);
      StartedBusy(max, Register(s, path, uuid, high, callback), t, |s.frames| + s.lost);
    case Withdraw(callback) =>
      WithdrawnEffect(max, s, callback);
    case Answer(path, caps) =>
      if s.stopped {
      } else {
        AnsweredEffect(max, s, path, caps);
        BusyMeans(max, s);
        if RetriesWith(s.requests[path], caps) {
          StartedBusy(max, Answered(s, path, caps), t, |s.frames| + s.lost);
        } else {
          AllWaitedBefore(max, s, t, path);
        }
      }
    case Finish =>
      BusyMeans(max, s);
      StartedBusy(max, s.(frames := s.frames[..|s.frames| - 1]), t, |s.frames| + s.lost - 1);
    case _ =>
      SameRequests(max, s, t);
  }

  lemma BusyMeans(max: nat, s: State)
    requires Busy(max, s)
    ensures forall p | IsWaiting(s.requests, p) :: |Active(s.requests)| + |s.frames| + s.lost >= max
  {
  }

  lemma AllWaitedBefore(max: nat, s: State, t: State, path: Uri)
    requires Busy(max, s) && path !in t.requests
    requires forall p | IsWaiting(t.requests, p) && p != path :: IsWaiting(s.requests, p)
    requires |Active(t.requests)| + |t.frames| + t.lost == |Active(s.requests)| + |s.frames| + s.lost
    ensures Busy(max, t)
  {
  }

  /** In every run, at most `max` queries are active; every request has somebody waiting for it, is queried at
      most twice, and at most once if it began with high priority; and while no query has been broken off by
      `cancel` and no delivery is in progress, a request only waits if all slots are in use. */
  lemma {:induction false} RunsRespectSlots(max: nat, states: seq<State>, events: seq<Event>)
    requires Run(max, states, events)
    ensures forall s | s in states :: Slots(max, s) && Busy(max, s)
    ensures forall s, p | s in states && p in s.requests ::
              s.requests[p].starts <= 2 && (s.requests[p].bornHigh ==> s.requests[p].starts <= 1)
  {
    var n := |events|;
    if n == 0 {
      assert Active(INIT.requests) == {};
      assert forall s | s in states :: s == INIT;
    } else {
      RunsRespectSlots(max, states[..n], events[..n - 1]);
      var before := states[n - 1];
      assert before == states[..n][n - 1] && before in states[..n];
      SlotsKept(max, before, events[n - 1], states[n]);
      BusyKept(max, before, events[n - 1], states[n]);
      assert forall s | s in states :: s in states[..n] || s == states[n];
    }
  }

  /** What counts as broken off: the active queries that a `cancel` ends, and nothing else. */
  lemma BrokenOffCounted(max: nat, s: State, e: Event, t: State)
    requires Step(max, s, e, t)
    ensures t.lost == s.lost + if e.Withdraw? then |Active(s.requests)| - |Active(t.requests)| else 0
  {
    hide Started, Active, Ids, Left, RetriesWith;
    match e
    case Ask(path, uuid, high, callback) => StartedLost(max, Register(s, path, uuid, high, callback), t);
    case Withdraw(callback) => ActiveLeft(s.requests, callback);
    case Answer(path, caps) =>
      if !s.stopped && RetriesWith(s.requests[path], caps) {
        StartedLost(max, Answered(s, path, caps), t);
      }
    case Finish => StartedLost(max, s.(frames := s.frames[..|s.frames| - 1]), t);
    case _ =>
  }

  lemma StartedLost(max: nat, m: State, t: State)
    requires Started(max, m, t)
    ensures t.lost == m.lost
  {
    hide IsNext, NothingToStart;
  }

  // ----- priorities -----

  /** The step from s to t started the query of p. */
  predicate Starts(s: State, t: State, p: Uri) {
    p in t.requests && t.requests[p].starts > if p in s.requests then s.requests[p].starts else 0
  }

  /** A start between m and t is one of a request that goes before all that are left waiting. */
  lemma StartedForemost(max: nat, s: State, m: State, t: State, p: Uri)
    requires Started(max, m, t) && Starts(s, t, p)
    requires forall q | q in m.requests :: m.requests[q].starts == if q in s.requests then s.requests[q].starts else 0
    ensures t.requests[p].querying && Foremost(t.requests, p)
  {
    if !(t == m) {
      var next :| IsNext(max, m.requests, next) && t == m.(requests := m.requests[next := Begin(m.requests[next])]);
      assert p == next;
      forall q | IsWaiting(t.requests, q)
        ensures IsWaiting(m.requests, q) && t.requests[q] == m.requests[q]
      {
      }
    }
  }

  lemma StepStartsForemost(max: nat, s: State, e: Event, t: State, p: Uri)
    requires Slots(max, s) && Step(max, s, e, t) && Starts(s, t, p)
    ensures t.requests[p].querying && Foremost(t.requests, p)
  {
    hide Foremost, Started, Active, Ids, RetriesWith, RemoveFirst, IsWaiting;
    match e
    case Ask(path, uuid, high, callback) =>
      StartedForemost(max, s, Register(s, path, uuid, high, callback), t, p);
    case Withdraw(callback) =>
    case Answer(path, caps) =>
      if !s.stopped && RetriesWith(s.requests[path], caps) {
        StartedForemost(max, s, Answered(s, path, caps), t, p);
      }
    case Finish =>
      StartedForemost(max, s, s.(frames := s.frames[..|s.frames| - 1]), t, p);
    case _ =>
  }

  /** In every run, a query is started only for a request that goes before all that are left waiting: if it has no
      priority none of them has, and none of its priority has a shorter timeout. */
  lemma RunsStartForemost(max: nat, states: seq<State>, events: seq<Event>, i: nat, p: Uri)
    requires Run(max, states, events) && i < |events| && Starts(states[i], states[i + 1], p)
    ensures var requests := states[i + 1].requests;
            && requests[p].querying
            && (!requests[p].high ==> forall q | q in requests && !requests[q].querying :: !requests[q].high)
            && (forall q | q in requests && !requests[q].querying && requests[q].high == requests[p].high ::
                  requests[p].timeout <= requests[q].timeout)
  {
    RunsRespectSlots(max, states, events);
    assert states[i] in states && Step(max, states[i], events[i], states[i + 1]);
    StepStartsForemost(max, states[i], events[i], states[i + 1], p);
    hide Run, Step, Slots, Busy;
    var requests := states[i + 1].requests;
    forall q | q in requests && !requests[q].querying
      ensures IsWaiting(requests, q)
    {
    }
  }

  // ----- answers -----

  /** Which answers are delivered: those of the device asked for in either pass, and the failure of the second pass;
      the failure of the first pass keeps the request and its callbacks. */
  lemma AnswersAreChecked(max: nat, s: State, path: Uri, caps: Option<Caps>, t: State)
    requires Step(max, s, Answer(path, caps), t) && !s.stopped
    ensures var r := s.requests[path];
            var right := caps.Some? && (r.uuid.Some? ==> r.uuid.value == caps.value.uuid);
            if right || r.timeout != FIRST_PASS_TIMEOUT then
              path !in t.requests && t.frames == s.frames + [Frame(r.callbacks, if right then caps else None)]
            else
              && t.frames == s.frames && path in t.requests && t.requests[path].timeout == SECOND_PASS_TIMEOUT
              && t.requests[path].callbacks == r.callbacks
  {
  }

  // ----- what requests keep -----

  /** Registration k is the one that `ArrayList.remove` takes out, if there is one. */
  ghost predicate RemovedAt(regs: seq<Reg>, callback: nat, k: nat) {
    && k <= |regs| && (forall i | 0 <= i < k :: regs[i].callback != callback)
    && (k < |regs| ==> regs[k].callback == callback && RemoveFirst(regs, callback) == regs[..k] + regs[k + 1..])
    && (k == |regs| ==> RemoveFirst(regs, callback) == regs)
  }

  lemma OneFurther(regs: seq<Reg>, callback: nat, k: nat)
    requires regs != [] && regs[0].callback != callback && RemovedAt(regs[1..], callback, k)
    ensures RemovedAt(regs, callback, k + 1)
  {
    assert RemoveFirst(regs, callback) == [regs[0]] + RemoveFirst(regs[1..], callback);
    hide RemoveFirst;
    assert forall i | 0 < i < k + 1 :: regs[i] == regs[1..][i - 1];
    if k + 1 < |regs| {
      WithoutOne(regs, k + 1);
    } else {
      assert [regs[0]] + regs[1..] == regs;
    }
  }

  lemma {:induction false} RemoveFirstMeans(regs: seq<Reg>, callback: nat) returns (k: nat)
    ensures RemovedAt(regs, callback, k)
  {
    if regs == [] || regs[0].callback == callback {
      k := 0;
    } else {
      hide RemovedAt;
      k := RemoveFirstMeans(regs[1..], callback);
      OneFurther(regs, callback, k);
      k := k + 1;
    }
  }

  lemma WithoutOne(regs: seq<Reg>, k: nat)
    requires 0 < k < |regs|
    ensures [regs[0]] + (regs[1..][..k - 1] + regs[1..][k..]) == regs[..k] + regs[k + 1..]
  {
  }

  /** `less` is `regs` without the first registration of this callback, if there is one. */
  ghost predicate WithoutFirst(less: seq<Reg>, regs: seq<Reg>, callback: nat) {
    || (less == regs && forall i | 0 <= i < |regs| :: regs[i].callback != callback)
    || exists k: nat :: k < |regs| && regs[k].callback == callback && less == regs[..k] + regs[k + 1..]
                        && forall i | 0 <= i < k :: regs[i].callback != callback
  }

  lemma RemoveFirstIs(regs: seq<Reg>, callback: nat)
    ensures WithoutFirst(RemoveFirst(regs, callback), regs, callback)
  {
    var k := RemoveFirstMeans(regs, callback);
    hide RemoveFirst;
  }

  /** Starting a query changes nothing about a request but that it is queried. */
  ghost predicate SameTerms(r: Request, q: Request) {
    r.uuid == q.uuid && r.timeout == q.timeout && r.high == q.high && r.callbacks == q.callbacks && r.bornHigh == q.bornHigh
  }

  lemma StartedKeeps(max: nat, m: State, t: State, p: Uri)
    requires Started(max, m, t)
    ensures p in t.requests <==> p in m.requests
    ensures p in t.requests ==> SameTerms(t.requests[p], m.requests[p])
  {
    hide Foremost, Active, NothingToStart;
  }

  /** What a request is for, in every step: it is made by `request`, with the device, priority and timeout asked for;
      its device never changes; it rises to high priority when asked for with it; it gets a new timeout only when
      it is answered; and new callbacks join behind, while `cancel` takes out the first of its registrations. */
  lemma StepKeepsTerms(max: nat, s: State, e: Event, t: State, p: Uri)
    requires Step(max, s, e, t) && p in t.requests
    ensures var asks, r := e.Ask? && e.path == p, t.requests[p];
            if p in s.requests then
              var q := s.requests[p];
              && r.uuid == q.uuid && r.bornHigh == q.bornHigh && r.high == (q.high || (asks && e.high))
              && (r.timeout != q.timeout ==> e.Answer? && e.path == p)
              && (if e.Withdraw? then WithoutFirst(r.callbacks, q.callbacks, e.callback)
                  else r.callbacks == q.callbacks + (if asks then [Reg(e.callback, s.registered)] else []))
            else
              asks && r.uuid == e.uuid && r.high == e.high && r.bornHigh == e.high
              && r.timeout == (if e.high then 8000 else 500) && r.callbacks == [Reg(e.callback, s.registered)]
  {
    hide Started, Active, Ids, RetriesWith, RemoveFirst, WithoutFirst;
    match e
    case Ask(path, uuid, high, callback) =>
      StartedKeeps(max, Register(s, path, uuid, high, callback), t, p);
    case Withdraw(callback) =>
      RemoveFirstIs(s.requests[p].callbacks, callback);
    case Answer(path, caps) =>
      if !s.stopped && RetriesWith(s.requests[path], caps) {
        StartedKeeps(max, Answered(s, path, caps), t, p);
      }
    case Finish =>
      StartedKeeps(max, s.(frames := s.frames[..|s.frames| - 1]), t, p);
    case _ =>
  }

  // ----- registrations -----

  datatype Place = InRequest(path: Uri) | InDelivery(depth: nat) | Called | Gone

  ghost predicate HasId(regs: seq<Reg>, id: nat) {
    exists i :: 0 <= i < |regs| && regs[i].id == id
  }

  /** The registrations in `regs` are all different, and they are exactly those whose place is `at`. */
  ghost predicate Holds(regs: seq<Reg>, place: seq<Place>, at: Place) {
    && (forall i, j | 0 <= i < j < |regs| :: regs[i].id != regs[j].id)
    && (forall i | 0 <= i < |regs| :: regs[i].id < |place| && place[regs[i].id] == at)
    && (forall id: nat | id < |place| && place[id] == at :: HasId(regs, id))
  }

  ghost predicate Placed(s: State, place: seq<Place>) {
    && |place| == s.registered
    && (forall p | p in s.requests :: Holds(s.requests[p].callbacks, place, InRequest(p)))
    && (forall f: nat | f < |s.frames| :: Holds(s.frames[f].rest, place, InDelivery(f)))
    && (forall id: nat | id < |place| && place[id].InRequest? :: place[id].path in s.requests)
    && (forall id: nat | id < |place| && place[id].InDelivery? :: place[id].depth < |s.frames|)
    && (forall i, j | 0 <= i < j < |s.fired| :: s.fired[i] != s.fired[j])
    && (forall i | 0 <= i < |s.fired| :: s.fired[i] < |place| && place[s.fired[i]] == Called)
    && (forall id: nat | id < |place| && place[id] == Called :: id in s.fired)
    && (forall id | id in s.cancelled :: id < |place| && place[id] == Gone)
    && (forall id: nat | id < |place| && place[id] == Gone :: id in s.cancelled)
  }

  /** Every registration is in exactly one place: once in one request, once in one delivery, called once, or
      withdrawn. */
  ghost predicate Accounted(s: State) {
    exists place :: Placed(s, place)
  }

  lemma StartedPlaces(max: nat, s: State, t: State, place: seq<Place>)
    requires Placed(s, place) && Started(max, s, t)
    ensures Placed(t, place)
  {
    hide Holds;
    if !(t == s) {
      var p :| IsNext(max, s.requests, p) && t == s.(requests := s.requests[p := Begin(s.requests[p])]);
    }
  }

  lemma HoldsMore(regs: seq<Reg>, place: seq<Place>, at: Place, callback: nat)
    requires Holds(regs, place, at)
    ensures Holds(regs + [Reg(callback, |place|)], place + [at], at)
  {
    var more := regs + [Reg(callback, |place|)];
    forall id: nat | id < |place + [at]| && (place + [at])[id] == at
      ensures HasId(more, id)
    {
      if id < |place| {
        assert HasId(regs, id);
        var i :| 0 <= i < |regs| && regs[i].id == id;
        assert more[i].id == id;
      } else {
        assert more[|regs|].id == id;
      }
    }
  }

  lemma HoldsSame(regs: seq<Reg>, place: seq<Place>, after: seq<Place>, at: Place)
    requires Holds(regs, place, at) && |place| <= |after|
    requires forall id: nat | id < |place| :: (place[id] == at <==> after[id] == at)
    requires forall id: nat | |place| <= id < |after| :: after[id] != at
    ensures Holds(regs, after, at)
  {
  }

  lemma RegisterPlaces(s: State, path: Uri, uuid: Option<string>, high: bool, callback: nat, place: seq<Place>)
    requires Placed(s, place)
    ensures Placed(Register(s, path, uuid, high, callback), place + [InRequest(path)])
  {
    var t, after := Register(s, path, uuid, high, callback), place + [InRequest(path)];
    HoldsMore(if path in s.requests then s.requests[path].callbacks else [], place, InRequest(path), callback);
    forall p | p in s.requests && p != path
      ensures Holds(s.requests[p].callbacks, after, InRequest(p))
    {
      HoldsSame(s.requests[p].callbacks, place, after, InRequest(p));
    }
    forall f: nat | f < |s.frames|
      ensures Holds(s.frames[f].rest, after, InDelivery(f))
    {
      HoldsSame(s.frames[f].rest, place, after, InDelivery(f));
    }
    hide Holds;
  }

  /** The place of a registration after the callbacks of a request are on their way. */
  ghost function Moved(place: seq<Place>, from: Place, to: Place): (r: seq<Place>)
    ensures |r| == |place|
  {
    seq(|place|, id requires 0 <= id < |place| => if place[id] == from then to else place[id])
  }

  lemma DeliveryPlaces(s: State, path: Uri, caps: Option<Caps>, place: seq<Place>)
    requires Placed(s, place) && path in s.requests && !RetriesWith(s.requests[path], caps)
    ensures Placed(Answered(s, path, caps), Moved(place, InRequest(path), InDelivery(|s.frames|)))
  {
    var t, after := Answered(s, path, caps), Moved(place, InRequest(path), InDelivery(|s.frames|));
    var regs := s.requests[path].callbacks;
    forall p | p in t.requests
      ensures Holds(t.requests[p].callbacks, after, InRequest(p))
    {
      HoldsSame(t.requests[p].callbacks, place, after, InRequest(p));
    }
    forall f: nat | f < |s.frames|
      ensures Holds(s.frames[f].rest, after, InDelivery(f))
    {
      HoldsSame(s.frames[f].rest, place, after, InDelivery(f));
    }
    assert Holds(regs, after, InDelivery(|s.frames|));
    hide Holds;
  }

  lemma CallPlaces(max: nat, s: State, t: State, place: seq<Place>) returns (after: seq<Place>)
    requires Placed(s, place) && Step(max, s, Deliver, t)
    ensures Placed(t, after)
  {
    var n := |s.frames| - 1;
    var rest := Top(s).rest;
    var id0 := rest[0].id;
    assert Holds(rest, place, InDelivery(n));
    after := place[id0 := Called];
    forall p | p in t.requests
      ensures Holds(t.requests[p].callbacks, after, InRequest(p))
    {
      HoldsSame(t.requests[p].callbacks, place, after, InRequest(p));
    }
    forall f: nat | f < n
      ensures Holds(s.frames[f].rest, after, InDelivery(f))
    {
      HoldsSame(s.frames[f].rest, place, after, InDelivery(f));
    }
    HoldsTail(rest, place, InDelivery(n));
    hide Holds;
  }

  lemma HoldsTail(regs: seq<Reg>, place: seq<Place>, at: Place)
    requires Holds(regs, place, at) && regs != [] && at != Called
    ensures regs[0].id < |place| && place[regs[0].id] == at
    ensures Holds(regs[1..], place[regs[0].id := Called], at)
  {
    var after := place[regs[0].id := Called];
    forall id: nat | id < |after| && after[id] == at
      ensures HasId(regs[1..], id)
    {
      assert HasId(regs, id);
      var i :| 0 <= i < |regs| && regs[i].id == id;
      assert regs[1..][i - 1].id == id;
    }
  }

  lemma FinishPlaces(s: State, place: seq<Place>)
    requires Placed(s, place) && s.frames != [] && Top(s).rest == []
    ensures Placed(s.(frames := s.frames[..|s.frames| - 1]), place)
  {
    var n := |s.frames| - 1;
    NoneHeld(place, InDelivery(n));
    hide Holds;
  }

  lemma NoneHeld(place: seq<Place>, at: Place)
    requires Holds([], place, at)
    ensures forall id: nat | id < |place| :: place[id] != at
  {
    forall id: nat | id < |place|
      ensures place[id] != at
    {
      assert !HasId([], id);
    }
  }

  /** The places after `cancel`. */
  ghost function PlacesLeft(s: State, callback: nat, place: seq<Place>): (r: seq<Place>)
    ensures |r| == |place|
  {
    var left := Left(s.requests, callback);
    seq(|place|, id requires 0 <= id < |place| => if place[id].InRequest? && id !in Ids(left) then Gone else place[id])
  }

  lemma LeftIsPart(requests: map<Uri, Request>, callback: nat, p: Uri, i: nat)
    requires p in Left(requests, callback) && i < |Left(requests, callback)[p].callbacks|
    ensures HasId(requests[p].callbacks, Left(requests, callback)[p].callbacks[i].id)
    ensures Left(requests, callback)[p].callbacks[i] in requests[p].callbacks
  {
    var regs := requests[p].callbacks;
    var k := RemoveFirstMeans(regs, callback);
    assert Left(requests, callback)[p].callbacks[i] == regs[if i < k then i else i + 1];
  }

  lemma LeftHolds(s: State, callback: nat, place: seq<Place>, p: Uri)
    requires Placed(s, place) && p in Left(s.requests, callback)
    ensures Holds(Left(s.requests, callback)[p].callbacks, PlacesLeft(s, callback, place), InRequest(p))
  {
    var left := Left(s.requests, callback);
    var less, after := left[p].callbacks, PlacesLeft(s, callback, place);
    LeftDiffer(s.requests[p].callbacks, callback, place, InRequest(p));
    assert less == RemoveFirst(s.requests[p].callbacks, callback);
    forall i | 0 <= i < |less|
      ensures less[i].id < |after| && after[less[i].id] == InRequest(p)
    {
      LeftIsPart(s.requests, callback, p, i);
      assert less[i].id in Ids(left);
    }
    forall id: nat | id < |after| && after[id] == InRequest(p)
      ensures HasId(less, id)
    {
      LeftCovers(s, callback, place, id);
    }
    hide Left, Placed, RemoveFirst;
  }

  lemma LeftDiffer(regs: seq<Reg>, callback: nat, place: seq<Place>, at: Place)
    requires Holds(regs, place, at)
    ensures var less := RemoveFirst(regs, callback);
            && (forall i, j | 0 <= i < j < |less| :: less[i].id != less[j].id)
            && (forall i | 0 <= i < |less| :: less[i].id < |place| && place[less[i].id] == at)
  {
    var k := RemoveFirstMeans(regs, callback);
    var less := RemoveFirst(regs, callback);
    assert forall i | 0 <= i < |less| :: less[i] == regs[if i < k then i else i + 1];
    hide RemoveFirst;
  }

  lemma LeftCovers(s: State, callback: nat, place: seq<Place>, id: nat)
    requires Placed(s, place) && id < |place| && PlacesLeft(s, callback, place)[id].InRequest?
    ensures var p, left := place[id].path, Left(s.requests, callback); p in left && HasId(left[p].callbacks, id)
  {
    hide RemoveFirst;
    var left := Left(s.requests, callback);
    assert id in Ids(left);
    var q, i :| q in left && 0 <= i < |left[q].callbacks| && left[q].callbacks[i].id == id;
    LeftIsPart(s.requests, callback, q, i);
    assert Holds(s.requests[q].callbacks, place, InRequest(q));
  }

  lemma IdsPlaced(s: State, place: seq<Place>)
    requires Placed(s, place)
    ensures forall id: nat :: id in Ids(s.requests) <==> id < |place| && place[id].InRequest?
  {
    forall id: nat | id < |place| && place[id].InRequest?
      ensures id in Ids(s.requests)
    {
      var p := place[id].path;
      assert Holds(s.requests[p].callbacks, place, InRequest(p)) && HasId(s.requests[p].callbacks, id);
    }
    forall id | id in Ids(s.requests)
      ensures id < |place| && place[id].InRequest?
    {
      var p, i :| p in s.requests && 0 <= i < |s.requests[p].callbacks| && s.requests[p].callbacks[i].id == id;
      assert Holds(s.requests[p].callbacks, place, InRequest(p));
    }
  }

  lemma WithdrawPlaces(s: State, callback: nat, place: seq<Place>)
    requires Placed(s, place)
    ensures Placed(Withdrawn(s, callback), PlacesLeft(s, callback, place))
  {
    hide Holds, Left, Ids, PlacesLeft;
    var after, left := PlacesLeft(s, callback, place), Left(s.requests, callback);
    PlacesLeftMean(s, callback, place);
    LeftPlaces(s, callback, place);
    FramesKeepPlaces(s, callback, place);
    IdsPlaced(s, place);
    IdsLeft(s, callback);
  }

  lemma PlacesLeftMean(s: State, callback: nat, place: seq<Place>)
    ensures forall id: nat | id < |place| ::
              PlacesLeft(s, callback, place)[id]
              == if place[id].InRequest? && id !in Ids(Left(s.requests, callback)) then Gone else place[id]
  {
    hide Left, Ids;
  }

  /** The requests that are left hold their registrations, and every registration still in a request is in one. */
  lemma LeftPlaces(s: State, callback: nat, place: seq<Place>)
    requires Placed(s, place)
    ensures var after, left := PlacesLeft(s, callback, place), Left(s.requests, callback);
            && (forall p | p in left :: Holds(left[p].callbacks, after, InRequest(p)))
            && (forall id: nat | id < |after| && after[id].InRequest? :: after[id].path in left)
  {
    hide Holds, Left, Ids;
    var after, left := PlacesLeft(s, callback, place), Left(s.requests, callback);
    forall p | p in left
      ensures Holds(left[p].callbacks, after, InRequest(p))
    {
      LeftHolds(s, callback, place, p);
    }
    forall id: nat | id < |after| && after[id].InRequest?
      ensures after[id].path in left
    {
      LeftCovers(s, callback, place, id);
    }
  }

  lemma FramesKeepPlaces(s: State, callback: nat, place: seq<Place>)
    requires Placed(s, place)
    ensures forall f: nat | f < |s.frames| :: Holds(s.frames[f].rest, PlacesLeft(s, callback, place), InDelivery(f))
  {
    hide Holds, Left, Ids;
    forall f: nat | f < |s.frames|
      ensures Holds(s.frames[f].rest, PlacesLeft(s, callback, place), InDelivery(f))
    {
      HoldsSame(s.frames[f].rest, place, PlacesLeft(s, callback, place), InDelivery(f));
    }
  }

  /** What is left was there before. */
  lemma IdsLeft(s: State, callback: nat)
    ensures Ids(Left(s.requests, callback)) <= Ids(s.requests)
  {
    hide RemoveFirst;
    var left := Left(s.requests, callback);
    forall id | id in Ids(left)
      ensures id in Ids(s.requests)
    {
      var p, i :| p in left && 0 <= i < |left[p].callbacks| && left[p].callbacks[i].id == id;
      LeftIsPart(s.requests, callback, p, i);
    }
  }

  lemma AccountedKept(max: nat, s: State, e: Event, t: State)
    requires Accounted(s) && Step(max, s, e, t)
    ensures Accounted(t)
  {
    hide Started, Register, Answered, Placed, Withdrawn;
    var place :| Placed(s, place);
    match e
    case Ask(path, uuid, high, callback) =>
      RegisterPlaces(s, path, uuid, high, callback, place);
      StartedPlaces(max, Register(s, path, uuid, high, callback), t, place + [InRequest(path)]);
    case Withdraw(callback) =>
      WithdrawPlaces(s, callback, place);
    case Answer(path, caps) =>
      if !s.stopped {
        if RetriesWith(s.requests[path], caps) {
          RetryPlaces(s, path, caps, place);
          StartedPlaces(max, Answered(s, path, caps), t, place);
        } else {
          DeliveryPlaces(s, path, caps, place);
        }
      }
    case Deliver =>
      var after := CallPlaces(max, s, t, place);
    case Finish =>
      FinishPlaces(s, place);
      StartedPlaces(max, s.(frames := s.frames[..|s.frames| - 1]), t, place);
    case Close =>
      ClosePlaces(s, place);
  }

  lemma RetryPlaces(s: State, path: Uri, caps: Option<Caps>, place: seq<Place>)
    requires Placed(s, place) && path in s.requests && RetriesWith(s.requests[path], caps)
    ensures Placed(Answered(s, path, caps), place)
  {
    hide Holds;
  }

  lemma ClosePlaces(s: State, place: seq<Place>)
    requires Placed(s, place)
    ensures Placed(s.(stopped := true), place)
  {
    hide Holds;
  }

  /** In every run every registered callback is in exactly one place, so it is called at most once, and once
      nothing is queued or in delivery it has been called exactly once unless it was withdrawn. */
  lemma {:induction false} RunsAccount(max: nat, states: seq<State>, events: seq<Event>)
    requires Run(max, states, events)
    ensures forall s | s in states :: Accounted(s)
    ensures forall s, id: nat | s in states && s.requests == map[] && s.frames == [] && id < s.registered ::
              id in s.fired <==> id !in s.cancelled
  {
    var n := |events|;
    if n == 0 {
      assert Placed(INIT, []);
      assert forall s | s in states :: s == INIT;
    } else {
      RunsAccount(max, states[..n], events[..n - 1]);
      var before := states[n - 1];
      assert before == states[..n][n - 1] && before in states[..n];
      AccountedKept(max, before, events[n - 1], states[n]);
      assert forall s | s in states :: s in states[..n] || s == states[n];
    }
    forall s, id: nat | s in states && s.requests == map[] && s.frames == [] && id < s.registered
      ensures id in s.fired <==> id !in s.cancelled
    {
      var place :| Placed(s, place);
      assert place[id] == Called || place[id] == Gone;
    }
  }
}
