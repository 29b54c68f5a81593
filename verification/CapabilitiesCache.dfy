/** The scheduler of capability queries (`CapabilitiesCache.java`): what each call does to its state. */
module CapabilitiesScheduler {
  import opened Common

  type Uri = string

  const FIRST_PASS_TIMEOUT: nat := 500
  const SECOND_PASS_TIMEOUT: nat := 8000

  datatype Caps = Caps(uuid: string)

  /** One registration of a callback; every registration has its own number. */
  datatype Reg = Reg(callback: nat, id: nat)

  datatype Request = Pending(uuid: Option<string>, timeout: nat, high: bool, querying: bool,
                             callbacks: seq<Reg>, starts: nat, bornHigh: bool)

  /** A delivery in progress: the callbacks still to be called, and with what. */
  datatype Frame = Frame(rest: seq<Reg>, result: Option<Caps>)

  datatype State = State(
    requests: map<Uri, Request>,
    frames: seq<Frame>,     // the deliveries on the call stack, innermost last
    stopped: bool,
    registered: nat,        // registrations so far
    fired: seq<nat>,        // the registrations whose callback was called
    cancelled: set<nat>,    // the registrations that were withdrawn
    lost: nat               // queries that were broken off because nobody waited for them any more
  )

  const INIT: State := State(map[], [], false, 0, [], {}, 0)

  // ----- choosing the next request -----

  function Active(requests: map<Uri, Request>): set<Uri> {
    set p | p in requests && requests[p].querying
  }

  predicate IsWaiting(requests: map<Uri, Request>, p: Uri) {
    p in requests && !requests[p].querying
  }

  /** High priority first, then the shorter timeout. */
  predicate Better(a: Request, b: Request) {
    (a.high && !b.high) || (a.high == b.high && a.timeout < b.timeout)
  }

  /** Of the requests that wait, p has high priority if any has, and the shortest timeout of its priority. */
  ghost predicate Foremost(requests: map<Uri, Request>, p: Uri)
    requires p in requests
  {
    && (forall q | IsWaiting(requests, q) && requests[q].high :: requests[p].high)
    && (forall q | IsWaiting(requests, q) && requests[q].high == requests[p].high ::
          requests[p].timeout <= requests[q].timeout)
  }

  /** A request that may be started now: a slot is free, and no waiting request goes before it. */
  ghost predicate IsNext(max: nat, requests: map<Uri, Request>, p: Uri) {
    |Active(requests)| < max && IsWaiting(requests, p) && Foremost(requests, p)
  }

  ghost predicate NothingToStart(max: nat, requests: map<Uri, Request>) {
    |Active(requests)| >= max || forall q | q in requests :: requests[q].querying
  }

  function Begin(r: Request): Request { r.(querying := true, starts := r.starts + 1) }

  /** `startNextRequest`: one best request is started, if one may be. */
  ghost predicate Started(max: nat, s: State, t: State) {
    || (t == s && NothingToStart(max, s.requests))
    || exists p :: IsNext(max, s.requests, p) && t == s.(requests := s.requests[p := Begin(s.requests[p])])
  }

  // ----- the calls -----

  /** `request`, up to the start of the next query, when the answer is not cached. */
  function Register(s: State, path: Uri, uuid: Option<string>, high: bool, callback: nat): State {
    var timeout := if high then SECOND_PASS_TIMEOUT else FIRST_PASS_TIMEOUT;
    var r := if path in s.requests then s.requests[path] else Pending(uuid, timeout, false, false, [], 0, high);
    s.(requests := s.requests[path := r.(high := r.high || high,
                                         callbacks := r.callbacks + [Reg(callback, s.registered)])],
       registered := s.registered + 1)
  }

  /** `ArrayList.remove`: only the first occurrence goes. */
  function RemoveFirst(regs: seq<Reg>, callback: nat): seq<Reg> {
    if regs == [] then [] else if regs[0].callback == callback then regs[1..]
    else [regs[0]] + RemoveFirst(regs[1..], callback)
  }

  function Left(requests: map<Uri, Request>, callback: nat): map<Uri, Request> {
    map p | p in requests && RemoveFirst(requests[p].callbacks, callback) != [] ::
      requests[p].(callbacks := RemoveFirst(requests[p].callbacks, callback))
  }

  /** `cancel`: a request nobody waits for any more is dropped, with its query. */
  ghost function Withdrawn(s: State, callback: nat): State {
    var left := Left(s.requests, callback);
    s.(requests := left,
       cancelled := s.cancelled + (Ids(s.requests) - Ids(left)),
       lost := s.lost + |Active(s.requests) - left.Keys|)
  }

  /** The registrations that wait in some request. */
  ghost function Ids(requests: map<Uri, Request>): set<nat> {
    set p, i | p in requests && 0 <= i < |requests[p].callbacks| :: requests[p].callbacks[i].id
  }

  /** Capabilities of another device than the one asked for count as none. */
  function Checked(r: Request, caps: Option<Caps>): Option<Caps> {
    if caps.Some? && r.uuid.Some? && r.uuid.value != caps.value.uuid then None else caps
  }

  predicate RetriesWith(r: Request, caps: Option<Caps>) {
    Checked(r, caps).None? && r.timeout == FIRST_PASS_TIMEOUT
  }

  /** The first half of `accept`: back into the queue for a second pass, or out of the map for delivery. */
  function Answered(s: State, path: Uri, caps: Option<Caps>): State
    requires path in s.requests
  {
    var r := s.requests[path];
    if RetriesWith(r, caps) then
      s.(requests := s.requests[path := r.(timeout := SECOND_PASS_TIMEOUT, querying := false)])
    else
      s.(requests := s.requests - {path}, frames := s.frames + [Frame(r.callbacks, Checked(r, caps))])
  }

  datatype Event =
    | Ask(path: Uri, uuid: Option<string>, high: bool, callback: nat)
    | Withdraw(callback: nat)
    | Answer(path: Uri, caps: Option<Caps>)
    | Deliver // the innermost delivery calls its next callback
    | Finish  // the innermost delivery is over
    | Close

  function Top(s: State): Frame
    requires s.frames != []
  {
    s.frames[|s.frames| - 1]
  }

  /** What each event does. Anything may happen while a delivery is on the stack: its callbacks may call back
      into the cache. */
  ghost predicate Step(max: nat, s: State, e: Event, t: State) {
    match e
    case Ask(path, uuid, high, callback) => Started(max, Register(s, path, uuid, high, callback), t)
    case Withdraw(callback) => t == Withdrawn(s, callback)
    case Answer(path, caps) =>
      && path in s.requests && s.requests[path].querying
      && if s.stopped then t == s
         else if RetriesWith(s.requests[path], caps) then Started(max, Answered(s, path, caps), t)
         else t == Answered(s, path, caps)
    case Deliver =>
      && s.frames != [] && Top(s).rest != []
      && t == s.(frames := s.frames[|s.frames| - 1 := Top(s).(rest := Top(s).rest[1..])],
                 fired := s.fired + [Top(s).rest[0].id])
    case Finish =>
      && s.frames != [] && Top(s).rest == []
      && Started(max, s.(frames := s.frames[..|s.frames| - 1]), t)
    case Close => t == s.(stopped := true)
  }
}

/** The cache itself. */
module CapabilitiesCache {
  import opened Common
  import opened CapabilitiesScheduler

  class Cache {
    const maxConcurrent: nat
    var requests: map<Uri, Request>
    var frames: seq<Frame>
    var stopped: bool
    var registered: nat
    ghost var fired: seq<nat>
    ghost var cancelled: set<nat>
    ghost var lost: nat

    ghost function Now(): State
      reads this
    {
      State(requests, frames, stopped, registered, fired, cancelled, lost)
    }

    constructor (max: nat)
      ensures maxConcurrent == max && Now() == INIT
    {
      maxConcurrent, requests, frames, stopped, registered, fired, cancelled, lost := max, map[], [], false, 0, [], {}, 0;
    }

    /** `getNextRequest`: whatever order the map is walked in. */
    method GetNextRequest() returns (found: Option<Uri>)
      ensures found == None ==> NothingToStart(maxConcurrent, requests)
      ensures found.Some? ==> IsNext(maxConcurrent, requests, found.value)
    {
      found := None;
      var total := 0;
      var todo := requests.Keys;
      ghost var counted := {};
      while todo != {}
        invariant todo <= requests.Keys
        invariant counted == (set p | p in requests && p !in todo && requests[p].querying)
        invariant total == |counted|
        invariant found == None ==> forall q | q in requests && q !in todo :: requests[q].querying
        invariant found.Some? ==> IsWaiting(requests, found.value) && found.value !in todo
        invariant found.Some? ==> forall q | IsWaiting(requests, q) && q !in todo :: !Better(requests[q], requests[found.value])
        decreases todo
      {
        var p :| p in todo;
        var request := requests[p];
        todo := todo - {p};
        if request.querying {
          total := total + 1;
          counted := counted + {p};
        } else if found == None || Better(request, requests[found.value]) {
          found := Some(p);
        }
      }
      assert counted == Active(requests);
      if total >= maxConcurrent {
        found := None;
      }
    }

    /** `startNextRequest`. */
    method StartNextRequest()
      modifies this`requests
      ensures Started(maxConcurrent, old(Now()), Now())
    {
      var next := GetNextRequest();
      if next.Some? {
        var p := next.value;
        requests := requests[p := Begin(requests[p])];
        assert IsNext(maxConcurrent, old(requests), p);
      }
    }

    /** `request`, when the answer is not cached. */
    method Request(path: Uri, uuid: Option<string>, high: bool, callback: nat)
      modifies this
      ensures Step(maxConcurrent, old(Now()), Ask(path, uuid, high, callback), Now())
    {
      if path !in requests {
        var timeout := if high then SECOND_PASS_TIMEOUT else FIRST_PASS_TIMEOUT;
        requests := requests[path := Pending(uuid, timeout, false, false, [], 0, high)];
      }
      if high {
        requests := requests[path := requests[path].(high := true)];
      }
      requests := requests[path := requests[path].(callbacks := requests[path].callbacks + [Reg(callback, registered)])];
      registered := registered + 1;
      assert Now() == Register(old(Now()), path, uuid, high, callback);
      StartNextRequest();
    }

    /** `cancel`. */
    method Cancel(callback: nat)
      modifies this
      ensures Step(maxConcurrent, old(Now()), Withdraw(callback), Now())
    {
      Drop(callback);
      hide Left, Ids, Active;
      ghost var now := Withdrawn(old(Now()), callback);
      cancelled, lost := now.cancelled, now.lost;
    }

    method Drop(callback: nat)
      modifies this`requests
      ensures requests == Left(old(requests), callback)
    {
      hide RemoveFirst;
      var todo, toDrop := requests.Keys, {};
      while todo != {}
        invariant requests.Keys == old(requests).Keys && todo <= requests.Keys
        invariant forall p | p in toDrop :: p in requests && p !in todo
        invariant forall p | p in requests && p !in todo :: p in toDrop <==> RemoveFirst(old(requests)[p].callbacks, callback) == []
        invariant forall p | p in todo :: requests[p] == old(requests)[p]
        invariant forall p | p in requests && p !in todo && p !in toDrop ::
            requests[p] == old(requests)[p].(callbacks := RemoveFirst(old(requests)[p].callbacks, callback))
        decreases todo
      {
        var p :| p in todo;
        todo := todo - {p};
        var request := requests[p];
        request := request.(callbacks := RemoveFirst(request.callbacks, callback));
        if request.callbacks == [] {
          toDrop := toDrop + {p};
          request := request.(querying := false);
        }
        requests := requests[p := request];
      }
      requests := requests - toDrop;
    }

    /** `close`. */
    method Close()
      modifies this
      ensures Step(maxConcurrent, old(Now()), Event.Close, Now())
    {
      stopped := true;
    }

    /** `accept`, up to the delivery of its result. */
    method Accept(path: Uri, caps: Option<Caps>)
      requires path in requests && requests[path].querying
      modifies this
      ensures Step(maxConcurrent, old(Now()), Answer(path, caps), Now())
    {
      if stopped {
        return;
      }
      var request := requests[path];
      requests := requests - {path};
      var capabilities := caps;
      if capabilities.Some? && request.uuid.Some? && request.uuid.value != capabilities.value.uuid {
        capabilities := None;
      }
      if capabilities.None? && request.timeout == FIRST_PASS_TIMEOUT {
        requests := requests[path := request.(timeout := SECOND_PASS_TIMEOUT, querying := false)];
        assert Now() == Answered(old(Now()), path, caps);
        StartNextRequest();
        return;
      }
      frames := frames + [Frame(request.callbacks, capabilities)];
    }

    /** The next round of the delivery loop of `accept`. */
    method CallNext() returns (reg: Reg, result: Option<Caps>)
      requires frames != [] && Top(Now()).rest != []
      modifies this`frames, this`fired
      ensures Step(maxConcurrent, old(Now()), Deliver, Now())
      ensures reg == old(frames[|frames| - 1].rest[0]) && result == old(frames[|frames| - 1].result)
    {
      var frame := frames[|frames| - 1];
      reg, result := frame.rest[0], frame.result;
      frames := frames[|frames| - 1 := frame.(rest := frame.rest[1..])];
      fired := fired + [reg.id];
    }

    /** The end of `accept`. */
    method FinishAccept()
      requires frames != [] && Top(Now()).rest == []
      modifies this`frames, this`requests
      ensures Step(maxConcurrent, old(Now()), Finish, Now())
    {
      frames := frames[..|frames| - 1];
      assert Now() == old(Now()).(frames := old(frames)[..|old(frames)| - 1]);
      StartNextRequest();
    }
  }
}
