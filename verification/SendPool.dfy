/** The buffer pool of the raster plugin: `_print_page` fills eight buffers in turn and queues them, and
    `_send_thread` prints them and hands them back, in every interleaving of the two threads. */
module SendPool {
  import opened Common

  const MAX_SEND_BUFFS: nat := 8
  const QUEUE_SLOTS: nat := 16

  /** Stripe `stripe` of a page is decoded into buffer `stripe % MAX_SEND_BUFFS` of that page's pool. */
  datatype Msg =
    | StartJob
    | StartPage(page: nat)
    | Send(page: nat, stripe: nat)
    | EndPage(pool: Option<nat>)  // with the pool to free, if the page has one
    | EndJob

  function Buffer(stripe: nat): nat { stripe % MAX_SEND_BUFFS }

  /** Where the job thread is. */
  datatype Producer =
    | Starting
    | Idle
    | AtLoop(page: nat, count: nat)  // at the head of the stripe loop
    | Holding(page: nat, count: nat) // past `sem_wait`, about to decode into the next buffer
    | Filled(page: nat, count: nat)  // the buffer is decoded but not queued
    | Returning(page: nat)           // about to `sem_post` because nothing was queued
    | Leaving(page: nat)             // out of the loop, about to queue the end of the page
    | Joining

  /** Where the send thread is. */
  datatype Consumer = Receiving | Printing(m: Msg) | Posting | Ejecting(pool: nat) | Exited

  datatype State = State(
    sem: nat,
    queue: seq<Msg>,
    producer: Producer,
    consumer: Consumer,
    pages: nat,        // pools allocated so far
    freed: set<nat>,   // pools given back
    offered: seq<Msg>, // every message `msgQSend` was called with
    rejected: nat,     // how many of them it turned down
    accepted: seq<Msg>, // the stripes it took
    done: seq<Msg>     // the stripes printed
  )

  const INIT: State := State(MAX_SEND_BUFFS, [], Starting, Receiving, 0, {}, [], 0, [], [])

  datatype Action =
    | BeginJob | BeginPage | PoolFails | FailPage | Wait | Fill | Submit | NoData | GiveBack | Leave | FinishPage
    | BlankPage | FinishJob
    | Receive | Printed | Post | Free

  /** `msgQSend` with NO_WAIT. */
  function Offer(s: State, m: Msg): State {
    var t := s.(offered := s.offered + [m]);
    if |s.queue| < QUEUE_SLOTS then
      t.(queue := s.queue + [m], accepted := if m.Send? then s.accepted + [m] else s.accepted)
    else
      t.(rejected := s.rejected + 1)
  }

  predicate Enabled(s: State, a: Action) {
    match a
    case BeginJob => s.producer.Starting?
    case BeginPage | PoolFails | FailPage | BlankPage | FinishJob => s.producer.Idle?
    case Wait => s.producer.AtLoop? && s.sem > 0
    case Leave => s.producer.AtLoop?
    case Fill => s.producer.Holding?
    case Submit | NoData => s.producer.Filled?
    case GiveBack => s.producer.Returning?
    case FinishPage => s.producer.Leaving?
    case Receive => s.consumer.Receiving? && s.queue != []
    case Printed => s.consumer.Printing?
    case Post => s.consumer.Posting?
    case Free => s.consumer.Ejecting?
  }

  function Do(s: State, a: Action): State
    requires Enabled(s, a)
  {
    match a
    case BeginJob => Offer(s, StartJob).(producer := Idle)
    case BeginPage => Offer(s, StartPage(s.pages)).(producer := AtLoop(s.pages, 0), pages := s.pages + 1)
    case PoolFails => s.(producer := Leaving(s.pages), pages := s.pages + 1)
    case FailPage => Offer(s, EndPage(None))
    case Wait => s.(producer := Holding(s.producer.page, s.producer.count), sem := s.sem - 1)
    case Fill => s.(producer := Filled(s.producer.page, s.producer.count))
    case Submit =>
      var p, k := s.producer.page, s.producer.count;
      if |s.queue| < QUEUE_SLOTS then Offer(s, Send(p, k)).(producer := AtLoop(p, k + 1))
      else Offer(s, Send(p, k)).(producer := Returning(p))
    case NoData => s.(producer := Returning(s.producer.page))
    case GiveBack => s.(producer := Leaving(s.producer.page), sem := s.sem + 1)
    case Leave => s.(producer := Leaving(s.producer.page))
    case FinishPage => Offer(s, EndPage(Some(s.producer.page))).(producer := Idle)
    case BlankPage => Offer(s, EndPage(None))
    case FinishJob => Offer(s, EndJob).(producer := Joining)
    case Receive =>
      var m, t := s.queue[0], s.(queue := s.queue[1..]);
      (match m
       case Send(_, _) => t.(consumer := Printing(m))
       case EndPage(Some(p)) => t.(consumer := Ejecting(p))
       case EndJob => t.(consumer := Exited)
       case _ => t)
    case Printed => s.(consumer := Posting, done := s.done + [s.consumer.m])
    case Post => s.(consumer := Receiving, sem := s.sem + 1)
    case Free => s.(consumer := Receiving, freed := s.freed + {s.consumer.pool})
  }

  /** A step that is not possible when it is scheduled leaves its thread waiting. */
  function Step(s: State, a: Action): State {
    if Enabled(s, a) then Do(s, a) else s
  }

  /** The state an interleaving of the two threads leads to. */
  function After(schedule: seq<Action>): State {
    if schedule == [] then INIT
    else Step(After(schedule[..|schedule| - 1]), schedule[|schedule| - 1])
  }

  // ----- what every interleaving keeps -----

  function Sends(q: seq<Msg>): (r: seq<Msg>)
    ensures |r| <= |q|
  {
    if q == [] then [] else (if q[0].Send? then [q[0]] else []) + Sends(q[1..])
  }

  lemma SendsCons(m: Msg, q: seq<Msg>)
    ensures Sends([m] + q) == (if m.Send? then [m] else []) + Sends(q)
  {
    assert ([m] + q)[1..] == q;
  }

  lemma {:induction false} SendsConcat(a: seq<Msg>, b: seq<Msg>)
    ensures Sends(a + b) == Sends(a) + Sends(b)
  {
    if a == [] {
      assert a + b == b && Sends(a) == [];
    } else {
      hide Sends;
      SendsConcat(a[1..], b);
      SendsCons(a[0], a[1..]);
      SendsCons(a[0], a[1..] + b);
      assert [a[0]] + (a[1..] + b) == a + b && [a[0]] + a[1..] == a;
    }
  }

  lemma {:induction false} SendsKeep(q: seq<Msg>, m: Msg)
    ensures m in Sends(q) <==> m.Send? && m in q
  {
    if q != [] {
      SendsKeep(q[1..], m);
    }
  }

  /** Stripes handed over and not yet printed, oldest first. */
  function Outstanding(s: State): seq<Msg> {
    (if s.consumer.Printing? then [s.consumer.m] else []) + Sends(s.queue)
  }

  function ProducerTokens(s: State): nat {
    if s.producer.Holding? || s.producer.Filled? || s.producer.Returning? then 1 else 0
  }

  function ConsumerTokens(s: State): nat {
    if s.consumer.Printing? || s.consumer.Posting? then 1 else 0
  }

  /** The semaphore, the token the producer holds, and those of the stripes on their way. */
  predicate TokensConserved(s: State) {
    s.sem + ProducerTokens(s) + ConsumerTokens(s) + |Sends(s.queue)| == MAX_SEND_BUFFS
  }

  predicate InLoop(p: Producer) { p.AtLoop? || p.Holding? || p.Filled? }

  /** The page the producer is working on, whose pool it may touch. */
  predicate Works(p: Producer, page: nat) {
    (InLoop(p) || p.Returning? || p.Leaving?) && p.page == page
  }

  /** The stripes of the current page that are on their way are the last ones queued, in order. */
  predicate InOrder(s: State) {
    InLoop(s.producer) ==>
      var o := Outstanding(s);
      forall i | 0 <= i < |o| && o[i].Send? && o[i].page == s.producer.page :: o[i].stripe == s.producer.count - |o| + i
  }

  predicate Refers(m: Msg, pool: nat) {
    (m.Send? && m.page == pool) || m == EndPage(Some(pool))
  }

  predicate Owns(c: Consumer, pool: nat) {
    c == Ejecting(pool) || (c.Printing? && Refers(c.m, pool))
  }

  predicate Live(s: State, pool: nat) { pool < s.pages && pool !in s.freed }

  /** A pool that anyone still refers to has been allocated and not been given back. */
  ghost predicate PoolsLive(s: State) {
    && (forall p: nat | p in s.freed :: p < s.pages)
    && (forall p: nat {:trigger Works(s.producer, p)} | Works(s.producer, p) :: Live(s, p))
    && (forall p: nat {:trigger Owns(s.consumer, p)} | Owns(s.consumer, p) :: Live(s, p))
    && (forall i, p: nat {:trigger Refers(s.queue[i], p)} | 0 <= i < |s.queue| && Refers(s.queue[i], p) :: Live(s, p))
  }

  /** Nothing refers to a pool after the end of its page. */
  ghost predicate EndsLast(s: State) {
    && (forall i, j | 0 <= i < j < |s.queue| && s.queue[i].EndPage? && s.queue[i].pool.Some? ::
          !Refers(s.queue[j], s.queue[i].pool.value))
    && (forall i | 0 <= i < |s.queue| && s.queue[i].EndPage? && s.queue[i].pool.Some? ::
          !Works(s.producer, s.queue[i].pool.value))
    && (s.consumer.Ejecting? ==>
          && !Works(s.producer, s.consumer.pool)
          && forall i | 0 <= i < |s.queue| :: !Refers(s.queue[i], s.consumer.pool))
  }

  ghost predicate Inv(s: State) {
    && (s.consumer.Printing? ==> s.consumer.m.Send?)
    && TokensConserved(s)
    && InOrder(s)
    && s.accepted == s.done + Outstanding(s)
    && PoolsLive(s)
    && EndsLast(s)
  }

  /** Queueing one more message. */
  lemma OfferEffect(s: State, m: Msg)
    ensures var t := Offer(s, m);
            && t == s.(queue := t.queue, offered := t.offered, rejected := t.rejected, accepted := t.accepted)
            && (t.queue == s.queue || t.queue == s.queue + [m])
            && (|s.queue| < QUEUE_SLOTS <==> t.queue == s.queue + [m])
            && Sends(t.queue) == Sends(s.queue) + (if m.Send? && |s.queue| < QUEUE_SLOTS then [m] else [])
            && t.accepted == s.accepted + (if m.Send? && |s.queue| < QUEUE_SLOTS then [m] else [])
  {
    SendsConcat(s.queue, [m]);
    assert Sends([m]) == (if m.Send? then [m] else []) + Sends([]);
    if |s.queue| >= QUEUE_SLOTS {
      assert |s.queue| != |s.queue + [m]|;
    }
  }

  lemma ReceivedSends(s: State)
    requires s.queue != []
    ensures Sends(s.queue) == (if s.queue[0].Send? then [s.queue[0]] else []) + Sends(s.queue[1..])
  {
  }

  lemma TokensKept(s: State, a: Action)
    requires Inv(s) && Enabled(s, a)
    ensures TokensConserved(Do(s, a))
    ensures Do(s, a).consumer.Printing? ==> Do(s, a).consumer.m.Send?
  {
    hide PoolsLive, EndsLast, InOrder, Offer, Sends, Outstanding;
    if a == Receive {
      ReceivedSends(s);
    }
    match a
    case BeginJob => OfferEffect(s, StartJob);
    case BeginPage => OfferEffect(s, StartPage(s.pages));
    case FailPage | BlankPage => OfferEffect(s, EndPage(None));
    case Submit => OfferEffect(s, Send(s.producer.page, s.producer.count));
    case FinishPage => OfferEffect(s, EndPage(Some(s.producer.page)));
    case FinishJob => OfferEffect(s, EndJob);
    case _ =>
  }

  lemma OutstandingKnown(s: State, m: Msg)
    requires Inv(s) && m in Outstanding(s)
    ensures m.Send? && m.page < s.pages
  {
    if m in Sends(s.queue) {
      SendsKeep(s.queue, m);
      var i :| 0 <= i < |s.queue| && s.queue[i] == m;
      assert Refers(s.queue[i], m.page);
    } else {
      assert m == s.consumer.m && Refers(m, m.page);
      assert Owns(s.consumer, m.page);
    }
  }

  lemma FlowKept(s: State, a: Action)
    requires Inv(s) && Enabled(s, a)
    ensures InOrder(Do(s, a)) && Do(s, a).accepted == Do(s, a).done + Outstanding(Do(s, a))
  {
    if a in {BeginJob, FailPage, BlankPage, FinishPage, FinishJob} {
      OfferedFlow(s, a);
    } else if a == BeginPage {
      FirstStripeFlow(s);
    } else if a == Submit {
      SubmitFlow(s);
    } else if a == Receive {
      ReceiveFlow(s);
    } else {
      OwnFlow(s, a);
    }
  }

  lemma OwnFlow(s: State, a: Action)
    requires Inv(s) && Enabled(s, a) && a in {PoolFails, Wait, Fill, NoData, GiveBack, Leave, Printed, Post, Free}
    ensures InOrder(Do(s, a)) && Do(s, a).accepted == Do(s, a).done + Outstanding(Do(s, a))
  {
    hide PoolsLive, EndsLast, Sends, TokensConserved, Offer;
    if a == Printed {
      PrintedFlow(s);
    } else {
      assert Outstanding(Do(s, a)) == Outstanding(s);
    }
  }

  lemma PrintedFlow(s: State)
    requires Inv(s) && s.consumer.Printing?
    ensures var t := Do(s, Printed); InOrder(t) && t.accepted == t.done + Outstanding(t)
  {
    hide PoolsLive, EndsLast, Sends, TokensConserved, Offer;
    var o, n := Outstanding(s), Outstanding(Do(s, Printed));
    assert o == [s.consumer.m] + n && n == o[1..];
  }

  lemma OfferedFlow(s: State, a: Action)
    requires Inv(s) && Enabled(s, a) && a in {BeginJob, FailPage, BlankPage, FinishPage, FinishJob}
    ensures InOrder(Do(s, a)) && Do(s, a).accepted == Do(s, a).done + Outstanding(Do(s, a))
  {
    hide PoolsLive, EndsLast, Offer, Sends;
    match a
    case BeginJob => OfferEffect(s, StartJob);
    case FailPage | BlankPage => OfferEffect(s, EndPage(None));
    case FinishPage => OfferEffect(s, EndPage(Some(s.producer.page)));
    case _ => OfferEffect(s, EndJob);
  }

  lemma FirstStripeFlow(s: State)
    requires Inv(s) && s.producer.Idle?
    ensures var t := Do(s, BeginPage); InOrder(t) && t.accepted == t.done + Outstanding(t)
  {
    OfferEffect(s, StartPage(s.pages));
    forall m | m in Outstanding(s)
      ensures m.Send? && m.page < s.pages
    {
      OutstandingKnown(s, m);
    }
    hide PoolsLive, EndsLast, Offer, Sends;
  }

  lemma SubmitFlow(s: State)
    requires Inv(s) && s.producer.Filled?
    ensures var t := Do(s, Submit); InOrder(t) && t.accepted == t.done + Outstanding(t)
  {
    hide PoolsLive, EndsLast, Offer, Sends;
    var m := Send(s.producer.page, s.producer.count);
    OfferEffect(s, m);
    assert Outstanding(Do(s, Submit)) == Outstanding(s) + (if |s.queue| < QUEUE_SLOTS then [m] else []);
  }

  lemma ReceiveFlow(s: State)
    requires Inv(s) && Enabled(s, Receive)
    ensures var t := Do(s, Receive); InOrder(t) && t.accepted == t.done + Outstanding(t)
  {
    hide PoolsLive, EndsLast;
    assert Outstanding(Do(s, Receive)) == Outstanding(s);
  }

  lemma PoolsKept(s: State, a: Action)
    requires Inv(s) && Enabled(s, a)
    ensures PoolsLive(Do(s, a)) && EndsLast(Do(s, a))
  {
    hide InOrder, Sends;
    if a == Receive {
      ReceivePools(s);
    } else if a in {BeginJob, FailPage, BlankPage, FinishPage, FinishJob, Submit, BeginPage} {
      OfferedPools(s, a);
    } else {
      OwnPools(s, a);
    }
  }

  lemma EndsKnown(s: State)
    requires PoolsLive(s)
    ensures forall i | 0 <= i < |s.queue| && s.queue[i].EndPage? && s.queue[i].pool.Some? :: Live(s, s.queue[i].pool.value)
    ensures s.consumer.Ejecting? ==> Live(s, s.consumer.pool)
  {
    forall i | 0 <= i < |s.queue| && s.queue[i].EndPage? && s.queue[i].pool.Some?
      ensures Live(s, s.queue[i].pool.value)
    {
      assert Refers(s.queue[i], s.queue[i].pool.value);
    }
    if s.consumer.Ejecting? {
      assert Owns(s.consumer, s.consumer.pool);
    }
  }

  lemma OwnPools(s: State, a: Action)
    requires Inv(s) && Enabled(s, a) && a in {PoolFails, Wait, Fill, NoData, GiveBack, Leave, Printed, Post, Free}
    ensures PoolsLive(Do(s, a)) && EndsLast(Do(s, a))
  {
    hide InOrder, Sends, TokensConserved;
    var t := Do(s, a);
    EndsKnown(s);
    assert t.queue == s.queue;
    assert a == Free ==> Owns(s.consumer, s.consumer.pool);
    assert forall p: nat | Works(t.producer, p) :: Works(s.producer, p) || p == s.pages < t.pages;
    assert forall p: nat | Owns(t.consumer, p) :: Owns(s.consumer, p);
  }

  lemma ReceivePools(s: State)
    requires Inv(s) && Enabled(s, Receive)
    ensures PoolsLive(Do(s, Receive)) && EndsLast(Do(s, Receive))
  {
    hide InOrder, Sends, TokensConserved;
    var t := Do(s, Receive);
    assert forall i | 0 <= i < |t.queue| :: t.queue[i] == s.queue[i + 1];
    assert forall p: nat | Owns(t.consumer, p) :: Refers(s.queue[0], p);
  }

  lemma OfferedPools(s: State, a: Action)
    requires Inv(s) && Enabled(s, a)
    requires a in {BeginJob, FailPage, BlankPage, FinishPage, FinishJob, Submit, BeginPage}
    ensures PoolsLive(Do(s, a)) && EndsLast(Do(s, a))
  {
    hide InOrder, Sends, TokensConserved, Offer, Outstanding;
    EndsKnown(s);
    match a
    case BeginJob => OfferEffect(s, StartJob);
    case BeginPage => OfferEffect(s, StartPage(s.pages));
    case FailPage | BlankPage => OfferEffect(s, EndPage(None));
    case Submit =>
      OfferEffect(s, Send(s.producer.page, s.producer.count));
      assert Works(s.producer, s.producer.page);
    case FinishPage =>
      OfferEffect(s, EndPage(Some(s.producer.page)));
      assert Works(s.producer, s.producer.page);
    case _ => OfferEffect(s, EndJob);
  }

  lemma {:induction false} InvAlways(schedule: seq<Action>)
    ensures Inv(After(schedule))
  {
    if schedule != [] {
      var before, a := After(schedule[..|schedule| - 1]), schedule[|schedule| - 1];
      InvAlways(schedule[..|schedule| - 1]);
      if Enabled(before, a) {
        TokensKept(before, a);
        FlowKept(before, a);
        PoolsKept(before, a);
      }
    }
  }

  /** The producer never decodes into a buffer that a queued or printing stripe still refers to. */
  lemma FillIsExclusive(schedule: seq<Action>)
    ensures var s := After(schedule);
            s.producer.Holding? ==>
              && Live(s, s.producer.page)
              && forall m | m in Outstanding(s) :: m.Send? &&
                   (m.page == s.producer.page ==> Buffer(m.stripe) != Buffer(s.producer.count))
  {
    InvAlways(schedule);
    var s := After(schedule);
    if s.producer.Holding? {
      assert Works(s.producer, s.producer.page);
      var o, k := Outstanding(s), s.producer.count;
      forall m | m in o
        ensures m.Send? && (m.page == s.producer.page ==> Buffer(m.stripe) != Buffer(k))
      {
        OutstandingKnown(s, m);
        var i :| 0 <= i < |o| && o[i] == m;
        if m.page == s.producer.page {
          WithinRound(m.stripe, k);
        }
      }
    }
  }

  lemma WithinRound(a: nat, b: nat)
    requires a < b < a + MAX_SEND_BUFFS
    ensures Buffer(a) != Buffer(b)
  {
  }

  /** A page's buffers are given back only once, after every stripe of the page that was queued has been
      printed, and nobody refers to them any more. */
  lemma FreedAfterPrinting(schedule: seq<Action>)
    ensures var s := After(schedule);
            s.consumer.Ejecting? ==>
              && Live(s, s.consumer.pool) && !Works(s.producer, s.consumer.pool)
              && (forall m | m in s.queue :: !Refers(m, s.consumer.pool))
              && (forall m | m in s.accepted && m.Send? && m.page == s.consumer.pool :: m in s.done)
  {
    InvAlways(schedule);
    var s := After(schedule);
    if s.consumer.Ejecting? {
      assert Owns(s.consumer, s.consumer.pool);
      forall m | m in s.accepted && m.Send? && m.page == s.consumer.pool
        ensures m in s.done
      {
        SendsKeep(s.queue, m);
        assert Refers(m, s.consumer.pool);
      }
    }
  }

  /** No stripe is lost, duplicated or reordered on its way, and no pool in use has been freed. */
  lemma StripesFlowInOrder(schedule: seq<Action>)
    ensures var s := After(schedule);
            && TokensConserved(s)
            && s.accepted == s.done + Outstanding(s)
            && |Outstanding(s)| + s.sem + ProducerTokens(s) <= MAX_SEND_BUFFS
            && forall m | m in Outstanding(s) :: m.Send? && Live(s, m.page)
  {
    InvAlways(schedule);
    var s := After(schedule);
    forall m | m in Outstanding(s)
      ensures m.Send? && Live(s, m.page)
    {
      OutstandingKnown(s, m);
      if m in Sends(s.queue) {
        SendsKeep(s.queue, m);
        var i :| 0 <= i < |s.queue| && s.queue[i] == m;
        assert Refers(s.queue[i], m.page);
      } else {
        assert m == s.consumer.m && Refers(m, m.page);
        assert Owns(s.consumer, m.page);
      }
    }
  }

  // ----- the queue never overflows -----

  /** Where the stream of messages stands: whether every page brings at least a pool full of stripes and at
      most one page without any follows it. */
  datatype Phase = Fresh | Opened | InPage(stripes: nat) | Ended | Blanked | Over | Broken

  function NextPhase(ph: Phase, m: Msg): Phase {
    match m
    case StartJob => if ph == Fresh then Opened else Broken
    case StartPage(_) => if ph.Opened? || ph.Ended? || ph.Blanked? then InPage(0) else Broken
    case Send(_, _) =>
      if ph.InPage? then InPage(if ph.stripes < MAX_SEND_BUFFS then ph.stripes + 1 else MAX_SEND_BUFFS) else Broken
    case EndPage(Some(_)) => if ph == InPage(MAX_SEND_BUFFS) then Ended else Broken
    case EndPage(None) => if ph.Ended? then Blanked else Broken
    case EndJob => if ph.Opened? || ph.Ended? || ph.Blanked? then Over else Broken
  }

  function PhaseOf(offered: seq<Msg>): Phase {
    if offered == [] then Fresh else NextPhase(PhaseOf(offered[..|offered| - 1]), offered[|offered| - 1])
  }

  /** How far the messages between the stripes may run ahead of three for every eight stripes. */
  function Slack(ph: Phase): nat {
    match ph
    case Fresh => 0
    case Opened => 8
    case InPage(n) => if n <= MAX_SEND_BUFFS then 24 - 3 * n else 0
    case Ended => 8
    case Blanked => 16
    case Over => 24
    case Broken => 0
  }

  predicate SuffixBound(q: seq<Msg>, i: nat, slack: nat)
    requires i <= |q|
  {
    var sends := |Sends(q[i..])|;
    8 * (|q| - i - sends) <= 3 * sends + slack
  }

  ghost predicate Bounded(s: State) {
    var ph := PhaseOf(s.offered);
    ph != Broken ==>
      && s.rejected == 0 && (ph.InPage? ==> ph.stripes <= MAX_SEND_BUFFS)
      && forall i | 0 <= i <= |s.queue| :: SuffixBound(s.queue, i, Slack(ph))
  }

  lemma ShortQueue(s: State)
    requires Bounded(s) && TokensConserved(s) && PhaseOf(s.offered) != Broken
    ensures |s.queue| <= 14
  {
    assert SuffixBound(s.queue, 0, Slack(PhaseOf(s.offered)));
    assert s.queue[0..] == s.queue;
  }

  lemma SuffixGrows(q: seq<Msg>, i: nat, m: Msg, ph: Phase)
    requires i <= |q| && SuffixBound(q, i, Slack(ph)) && NextPhase(ph, m) != Broken
    requires ph.InPage? ==> ph.stripes <= MAX_SEND_BUFFS
    ensures SuffixBound(q + [m], i, Slack(NextPhase(ph, m)))
  {
    assert (q + [m])[i..] == q[i..] + [m];
    SendsConcat(q[i..], [m]);
    assert [m][1..] == [];
    assert Sends([m]) == if m.Send? then [m] else [];
    hide Sends;
  }

  lemma OfferBounded(s: State, m: Msg)
    requires Bounded(s) && TokensConserved(s)
    ensures Bounded(Offer(s, m))
  {
    var t := Offer(s, m);
    var ph, next := PhaseOf(s.offered), PhaseOf(t.offered);
    assert t.offered[..|t.offered| - 1] == s.offered;
    assert next == NextPhase(ph, m);
    if next != Broken {
      ShortQueue(s);
      forall i | 0 <= i <= |t.queue|
        ensures SuffixBound(t.queue, i, Slack(next))
      {
        if i <= |s.queue| {
          assert SuffixBound(s.queue, i, Slack(ph));
          SuffixGrows(s.queue, i, m, ph);
        } else {
          assert t.queue[i..] == [];
        }
      }
    }
  }

  lemma BoundKept(s: State, a: Action)
    requires Bounded(s) && TokensConserved(s) && Enabled(s, a)
    ensures Bounded(Do(s, a))
  {
    if a == Receive {
      var t := Do(s, a);
      forall i | 0 <= i <= |t.queue|
        ensures PhaseOf(s.offered) != Broken ==> SuffixBound(t.queue, i, Slack(PhaseOf(s.offered)))
      {
        assert t.queue[i..] == s.queue[i + 1..];
        if PhaseOf(s.offered) != Broken {
          assert SuffixBound(s.queue, i + 1, Slack(PhaseOf(s.offered)));
        }
      }
    } else {
      hide SuffixBound, Offer, TokensConserved;
      match a
      case BeginJob => OfferBounded(s, StartJob);
      case BeginPage => OfferBounded(s, StartPage(s.pages));
      case FailPage | BlankPage => OfferBounded(s, EndPage(None));
      case Submit => OfferBounded(s, Send(s.producer.page, s.producer.count));
      case FinishPage => OfferBounded(s, EndPage(Some(s.producer.page)));
      case FinishJob => OfferBounded(s, EndJob);
      case _ =>
    }
  }

  /** When every page brings at least eight stripes and at most one page without any follows it, the queue
      holds at most fourteen messages at any time, so its sixteen slots never turn a message down. */
  lemma {:induction false} QueueNeverFull(schedule: seq<Action>)
    ensures Bounded(After(schedule))
    ensures PhaseOf(After(schedule).offered) != Broken ==> |After(schedule).queue| <= 14 && After(schedule).rejected == 0
  {
    InvAlways(schedule);
    if schedule != [] {
      var before, a := After(schedule[..|schedule| - 1]), schedule[|schedule| - 1];
      QueueNeverFull(schedule[..|schedule| - 1]);
      InvAlways(schedule[..|schedule| - 1]);
      if Enabled(before, a) {
        BoundKept(before, a);
      }
    }
    if PhaseOf(After(schedule).offered) != Broken {
      ShortQueue(After(schedule));
    }
  }

  /** Without that discipline messages are lost: from the sixteenth page without stripes on, while the send
      thread is not scheduled, every end-of-page message is turned down. */
  lemma {:induction false} BlankPagesOverflow(n: nat)
    ensures var s := After([BeginJob] + seq(n, _ => BlankPage));
            && s.producer.Idle?
            && |s.queue| == (if n < QUEUE_SLOTS then n + 1 else QUEUE_SLOTS)
            && s.rejected == (if n < QUEUE_SLOTS then 0 else n + 1 - QUEUE_SLOTS)
  {
    var schedule := [BeginJob] + seq(n, _ => BlankPage);
    if n == 0 {
      assert schedule[..0] == [];
    } else {
      BlankPagesOverflow(n - 1);
      assert schedule[..|schedule| - 1] == [BeginJob] + seq(n - 1, _ => BlankPage);
    }
  }

  // ----- exactly which streams can be turned down -----

  /** Seventeen messages in a row with no more stripes among them than there are buffers. */
  predicate TightAt(m: seq<Msg>, i: nat)
    requires i + QUEUE_SLOTS + 1 <= |m|
  {
    |Sends(m[i..i + QUEUE_SLOTS + 1])| <= MAX_SEND_BUFFS
  }

  ghost predicate Tight(m: seq<Msg>) {
    exists i: nat :: i + QUEUE_SLOTS + 1 <= |m| && TightAt(m, i)
  }

  lemma TightGrows(m: seq<Msg>, more: seq<Msg>)
    requires Tight(m) && m <= more
    ensures Tight(more)
  {
    var i: nat :| i + QUEUE_SLOTS + 1 <= |m| && TightAt(m, i);
    assert more[i..i + QUEUE_SLOTS + 1] == m[i..i + QUEUE_SLOTS + 1];
    assert TightAt(more, i);
  }

  /** Until a message is turned down, the queue holds the last messages offered. */
  ghost predicate Suffix(s: State) {
    if s.rejected == 0 then |s.queue| <= |s.offered| && s.offered[|s.offered| - |s.queue|..] == s.queue
    else Tight(s.offered)
  }

  lemma OfferSuffix(s: State, m: Msg)
    requires Suffix(s) && TokensConserved(s) && |s.queue| <= QUEUE_SLOTS
    requires m.Send? ==> ProducerTokens(s) == 1
    ensures Suffix(Offer(s, m)) && |Offer(s, m).queue| <= QUEUE_SLOTS
  {
    var t := Offer(s, m);
    if s.rejected > 0 {
      TightGrows(s.offered, t.offered);
    } else if |s.queue| == QUEUE_SLOTS {
      var i := |s.offered| - QUEUE_SLOTS;
      assert t.offered[i..i + QUEUE_SLOTS + 1] == s.queue + [m];
      SendsConcat(s.queue, [m]);
      SendsCons(m, []);
      assert [m] + [] == [m];
      assert TightAt(t.offered, i);
    } else {
      assert t.offered[|t.offered| - |t.queue|..] == s.queue + [m];
    }
  }

  /** The steps that offer nothing. */
  predicate Silent(a: Action) {
    a in {PoolFails, Wait, Fill, NoData, GiveBack, Leave, Receive, Printed, Post, Free}
  }

  lemma SilentSuffix(s: State, a: Action)
    requires Suffix(s) && |s.queue| <= QUEUE_SLOTS && Enabled(s, a) && Silent(a)
    ensures Suffix(Do(s, a)) && |Do(s, a).queue| <= QUEUE_SLOTS
  {
    hide Offer, Tight, Sends;
    if a == Receive {
      assert Do(s, a).queue == s.queue[1..];
    } else {
      assert Do(s, a).queue == s.queue;
    }
  }

  lemma SuffixKept(s: State, a: Action)
    requires Suffix(s) && TokensConserved(s) && |s.queue| <= QUEUE_SLOTS && Enabled(s, a)
    ensures Suffix(Do(s, a)) && |Do(s, a).queue| <= QUEUE_SLOTS
  {
    hide Offer, TokensConserved, Suffix, Sends;
    match a
    case BeginJob => OfferSuffix(s, StartJob); SameSuffix(Offer(s, StartJob), Do(s, a));
    case BeginPage => OfferSuffix(s, StartPage(s.pages)); SameSuffix(Offer(s, StartPage(s.pages)), Do(s, a));
    case FailPage | BlankPage => OfferSuffix(s, EndPage(None));
    case Submit =>
      OfferSuffix(s, Send(s.producer.page, s.producer.count));
      SameSuffix(Offer(s, Send(s.producer.page, s.producer.count)), Do(s, a));
    case FinishPage =>
      OfferSuffix(s, EndPage(Some(s.producer.page)));
      SameSuffix(Offer(s, EndPage(Some(s.producer.page))), Do(s, a));
    case FinishJob => OfferSuffix(s, EndJob); SameSuffix(Offer(s, EndJob), Do(s, a));
    case _ => SilentSuffix(s, a);
  }

  lemma SameSuffix(s: State, t: State)
    requires Suffix(s) && s.queue == t.queue && s.offered == t.offered && s.rejected == t.rejected
    ensures Suffix(t)
  {
    hide Tight;
  }

  /** A message is turned down only in a tight stream. */
  lemma {:induction false} TurnedDownIsTight(schedule: seq<Action>)
    ensures Suffix(After(schedule)) && |After(schedule).queue| <= QUEUE_SLOTS
    ensures After(schedule).rejected > 0 ==> Tight(After(schedule).offered)
  {
    if schedule != [] {
      var before, a := After(schedule[..|schedule| - 1]), schedule[|schedule| - 1];
      TurnedDownIsTight(schedule[..|schedule| - 1]);
      InvAlways(schedule[..|schedule| - 1]);
      if Enabled(before, a) {
        SuffixKept(before, a);
      }
    }
    hide Tight, Inv;
  }

  /** What the job thread may offer next, after a stream of messages. */
  datatype Stage = ToOpen | Between(pages: nat) | InLoopOf(page: nat, stripes: nat) | Done | Stray

  function NextStage(st: Stage, m: Msg): Stage {
    match m
    case StartJob => if st.ToOpen? then Between(0) else Stray
    case StartPage(p) => if st == Between(p) then InLoopOf(p, 0) else Stray
    case Send(p, k) => if st == InLoopOf(p, k) then InLoopOf(p, k + 1) else Stray
    case EndPage(Some(p)) =>
      if st.InLoopOf? && st.page == p then Between(p + 1) else if st == Between(p) then Between(p + 1) else Stray
    case EndPage(None) => if st.Between? then st else Stray
    case EndJob => if st.Between? then Done else Stray
  }

  function StageOf(m: seq<Msg>): Stage {
    if m == [] then ToOpen else NextStage(StageOf(m[..|m| - 1]), m[|m| - 1])
  }

  /** Where the job thread is after offering a stream. */
  predicate AtStage(s: State, st: Stage) {
    match s.producer
    case Starting => st == ToOpen && s.pages == 0
    case Idle => st == Between(s.pages)
    case AtLoop(p, k) => st == InLoopOf(p, k) && s.pages == p + 1
    case Holding(p, k) => st == InLoopOf(p, k) && s.pages == p + 1
    case Filled(p, k) => st == InLoopOf(p, k) && s.pages == p + 1
    case Returning(p) => st.InLoopOf? && st.page == p && s.pages == p + 1
    case Leaving(p) => s.pages == p + 1 && ((st.InLoopOf? && st.page == p) || st == Between(p))
    case Joining => st == Done
  }

  lemma StageStep(s: State, m: Msg)
    ensures StageOf(Offer(s, m).offered) == NextStage(StageOf(s.offered), m)
  {
    assert (s.offered + [m])[..|s.offered + [m]| - 1] == s.offered;
  }

  lemma StageKept(s: State, a: Action)
    requires AtStage(s, StageOf(s.offered)) && Enabled(s, a)
    ensures AtStage(Do(s, a), StageOf(Do(s, a).offered))
  {
    hide StageOf;
    match a
    case BeginJob => StageStep(s, StartJob);
    case BeginPage => StageStep(s, StartPage(s.pages));
    case FailPage | BlankPage => StageStep(s, EndPage(None));
    case Submit => StageStep(s, Send(s.producer.page, s.producer.count));
    case FinishPage => StageStep(s, EndPage(Some(s.producer.page)));
    case FinishJob => StageStep(s, EndJob);
    case _ =>
  }

  lemma {:induction false} StageAlways(schedule: seq<Action>)
    ensures AtStage(After(schedule), StageOf(After(schedule).offered))
  {
    if schedule != [] {
      var before, a := After(schedule[..|schedule| - 1]), schedule[|schedule| - 1];
      StageAlways(schedule[..|schedule| - 1]);
      if Enabled(before, a) {
        StageKept(before, a);
      }
    }
  }

  /** A schedule that continues from a state. */
  function Run(s: State, more: seq<Action>): State {
    if more == [] then s else Step(Run(s, more[..|more| - 1]), more[|more| - 1])
  }

  lemma {:induction false} AfterConcat(schedule: seq<Action>, more: seq<Action>)
    ensures After(schedule + more) == Run(After(schedule), more)
  {
    if more == [] {
      assert schedule + more == schedule;
    } else {
      AfterConcat(schedule, more[..|more| - 1]);
      assert (schedule + more)[..|schedule + more| - 1] == schedule + more[..|more| - 1];
    }
  }

  lemma RunOne(s: State, a: Action)
    ensures Run(s, [a]) == Step(s, a)
  {
    hide Step;
    assert [a][..0] == [];
  }

  lemma RunTwo(s: State, a: Action, b: Action)
    ensures Run(s, [a, b]) == Step(Step(s, a), b)
  {
    hide Step;
    RunOne(s, a);
    assert [a, b][..1] == [a];
  }

  lemma RunThree(s: State, a: Action, b: Action, c: Action)
    ensures Run(s, [a, b, c]) == Step(Step(Step(s, a), b), c)
  {
    hide Step;
    RunTwo(s, a, b);
    assert [a, b, c][..2] == [a, b];
  }

  /** The steps in which the job thread offers a message, and those in which the send thread deals with it. */
  function Emits(m: Msg, st: Stage): seq<Action> {
    match m
    case StartJob => [BeginJob]
    case StartPage(_) => [BeginPage]
    case Send(_, _) => [Wait, Fill, Submit]
    case EndPage(Some(_)) => if st.InLoopOf? then [Leave, FinishPage] else [PoolFails, FinishPage]
    case EndPage(None) => [BlankPage]
    case EndJob => [FinishJob]
  }

  function Consumes(m: Msg): seq<Action> {
    match m
    case Send(_, _) => [Receive, Printed, Post]
    case EndPage(Some(_)) => [Receive, Free]
    case _ => [Receive]
  }

  /** The messages in `q` wait, and neither thread is in the middle of anything. */
  predicate Ready(s: State, st: Stage, q: seq<Msg>) {
    && s.rejected == 0 && s.queue == q && s.consumer.Receiving?
    && s.sem + |Sends(q)| == MAX_SEND_BUFFS
    && (match st
        case ToOpen => s.producer.Starting? && s.pages == 0
        case Between(n) => s.producer.Idle? && s.pages == n
        case InLoopOf(p, k) => s.producer == AtLoop(p, k) && s.pages == p + 1
        case Done => s.producer.Joining?
        case Stray => false)
  }

  /** Nothing of the stream `m` was turned down, and the threads are ready to go on. */
  predicate Poised(s: State, m: seq<Msg>, q: seq<Msg>) {
    s.offered == m && Ready(s, StageOf(m), q)
  }

  lemma SendsSnoc(q: seq<Msg>, x: Msg)
    ensures Sends(q + [x]) == Sends(q) + if x.Send? then [x] else []
  {
    SendsConcat(q, [x]);
    SendsCons(x, []);
    assert [x] + [] == [x];
  }

  /** What offering one message does to threads that are ready. */
  predicate Emitted(s: State, t: State, st: Stage, q: seq<Msg>, x: Msg) {
    && t.offered == s.offered + [x]
    && (|q| < QUEUE_SLOTS ==> Ready(t, NextStage(st, x), q + [x]))
    && (|q| == QUEUE_SLOTS ==> t.rejected == 1)
  }

  lemma EmitStripe(s: State, st: Stage, q: seq<Msg>, x: Msg)
    requires Ready(s, st, q) && NextStage(st, x) != Stray && |q| <= QUEUE_SLOTS
    requires x.Send? && |Sends(q)| < MAX_SEND_BUFFS
    ensures Emitted(s, Step(Step(Step(s, Wait), Fill), Submit), st, q, x)
  {
    SendsSnoc(q, x);
    hide Sends;
  }

  lemma EmitEnd(s: State, st: Stage, q: seq<Msg>, x: Msg)
    requires Ready(s, st, q) && NextStage(st, x) != Stray && |q| <= QUEUE_SLOTS
    requires x.EndPage? && x.pool.Some?
    ensures Emitted(s, Step(Step(s, if st.InLoopOf? then Leave else PoolFails), FinishPage), st, q, x)
  {
    SendsSnoc(q, x);
    hide Sends;
  }

  lemma EmitLone(s: State, st: Stage, q: seq<Msg>, x: Msg)
    requires Ready(s, st, q) && NextStage(st, x) != Stray && |q| <= QUEUE_SLOTS
    requires x.StartJob? || x.StartPage? || x == EndPage(None) || x.EndJob?
    ensures Emitted(s, Step(s, Emits(x, st)[0]), st, q, x)
  {
    SendsSnoc(q, x);
    hide Sends;
  }

  lemma EmitReady(s: State, st: Stage, q: seq<Msg>, x: Msg)
    requires Ready(s, st, q) && NextStage(st, x) != Stray && |q| <= QUEUE_SLOTS
    requires x.Send? ==> |Sends(q)| < MAX_SEND_BUFFS
    ensures Emitted(s, Run(s, Emits(x, st)), st, q, x)
  {
    hide Ready, Step, Run, Emitted, Sends, NextStage;
    if x.Send? {
      EmitStripe(s, st, q, x);
      RunThree(s, Wait, Fill, Submit);
    } else if x.EndPage? && x.pool.Some? {
      EmitEnd(s, st, q, x);
      RunTwo(s, if st.InLoopOf? then Leave else PoolFails, FinishPage);
    } else {
      EmitLone(s, st, q, x);
      RunOne(s, Emits(x, st)[0]);
    }
  }

  lemma StageSnoc(m: seq<Msg>, x: Msg)
    ensures StageOf(m + [x]) == NextStage(StageOf(m), x)
  {
    assert (m + [x])[..|m + [x]| - 1] == m;
  }

  lemma EmitOne(s: State, m: seq<Msg>, q: seq<Msg>, x: Msg)
    requires Poised(s, m, q) && NextStage(StageOf(m), x) != Stray && |q| <= QUEUE_SLOTS
    requires x.Send? ==> |Sends(q)| < MAX_SEND_BUFFS
    ensures var t := Run(s, Emits(x, StageOf(m)));
            && t.offered == m + [x]
            && (|q| < QUEUE_SLOTS ==> Poised(t, m + [x], q + [x]))
            && (|q| == QUEUE_SLOTS ==> t.rejected == 1)
  {
    hide Ready, Run, Sends, Emits, NextStage, StageOf;
    EmitReady(s, StageOf(m), q, x);
    StageSnoc(m, x);
  }

  lemma ConsumeStripe(s: State, st: Stage, x: Msg)
    requires Ready(s, st, [x]) && x.Send?
    ensures var t := Step(Step(Step(s, Receive), Printed), Post); Ready(t, st, []) && t.offered == s.offered
  {
    SendsSnoc([], x);
    assert [] + [x] == [x] && [x][1..] == [] && Sends([]) == [];
    hide Sends;
  }

  lemma ConsumeEnd(s: State, st: Stage, x: Msg)
    requires Ready(s, st, [x]) && x.EndPage? && x.pool.Some?
    ensures var t := Step(Step(s, Receive), Free); Ready(t, st, []) && t.offered == s.offered
  {
    SendsSnoc([], x);
    assert [] + [x] == [x] && [x][1..] == [] && Sends([]) == [];
    hide Sends;
  }

  lemma ConsumeLone(s: State, st: Stage, x: Msg)
    requires Ready(s, st, [x]) && (x.StartJob? || x.StartPage? || x == EndPage(None))
    ensures var t := Step(s, Receive); Ready(t, st, []) && t.offered == s.offered
  {
    SendsSnoc([], x);
    assert [] + [x] == [x] && [x][1..] == [] && Sends([]) == [];
    hide Sends;
  }

  lemma ConsumeOne(s: State, m: seq<Msg>, x: Msg)
    requires Poised(s, m, [x]) && x != EndJob
    ensures Poised(Run(s, Consumes(x)), m, [])
  {
    hide Ready, Step, Run, Sends, StageOf;
    if x.Send? {
      ConsumeStripe(s, StageOf(m), x);
      RunThree(s, Receive, Printed, Post);
    } else if x.EndPage? && x.pool.Some? {
      ConsumeEnd(s, StageOf(m), x);
      RunTwo(s, Receive, Free);
    } else {
      ConsumeLone(s, StageOf(m), x);
      RunOne(s, Receive);
    }
  }

  lemma {:induction false} PrefixNotStray(m: seq<Msg>, i: nat)
    requires i <= |m| && StageOf(m) != Stray
    ensures StageOf(m[..i]) != Stray
  {
    if i == |m| {
      assert m[..i] == m;
    } else {
      PrefixNotStray(m[..|m| - 1], i);
      assert m[..|m| - 1][..i] == m[..i];
    }
  }

  lemma NextNotStray(m: seq<Msg>, i: nat)
    requires i < |m| && StageOf(m) != Stray
    ensures NextStage(StageOf(m[..i]), m[i]) != Stray && (i + 1 < |m| ==> m[i] != EndJob)
  {
    assert m[..i + 1][..i] == m[..i];
    PrefixNotStray(m, i + 1);
    if i + 1 < |m| {
      assert m[..i + 2][..i + 1] == m[..i + 1];
      PrefixNotStray(m, i + 2);
    }
  }

  lemma NoSends()
    ensures Sends([]) == []
  {
  }

  /** The schedule goes on with one more message. */
  lemma EmitAfter(schedule: seq<Action>, m: seq<Msg>, q: seq<Msg>, x: Msg) returns (longer: seq<Action>)
    requires Poised(After(schedule), m, q) && NextStage(StageOf(m), x) != Stray && |q| <= QUEUE_SLOTS
    requires x.Send? ==> |Sends(q)| < MAX_SEND_BUFFS
    ensures After(longer).offered == m + [x]
    ensures |q| < QUEUE_SLOTS ==> Poised(After(longer), m + [x], q + [x])
    ensures |q| == QUEUE_SLOTS ==> After(longer).rejected == 1
  {
    hide Poised, Run, Sends, Emits, NextStage, StageOf, After;
    var emits := Emits(x, StageOf(m));
    longer := schedule + emits;
    EmitOne(After(schedule), m, q, x);
    AfterConcat(schedule, emits);
  }

  lemma ConsumeAfter(schedule: seq<Action>, m: seq<Msg>, x: Msg) returns (longer: seq<Action>)
    requires Poised(After(schedule), m, [x]) && x != EndJob
    ensures Poised(After(longer), m, [])
  {
    hide Poised, Run, Consumes, After;
    longer := schedule + Consumes(x);
    ConsumeOne(After(schedule), m, x);
    AfterConcat(schedule, Consumes(x));
  }

  /** A send thread that keeps up: the first i messages are offered and dealt with one by one. */
  lemma {:induction false} KeepsUp(m: seq<Msg>, i: nat) returns (schedule: seq<Action>)
    requires i < |m| && StageOf(m) != Stray
    ensures Poised(After(schedule), m[..i], [])
  {
    if i == 0 {
      schedule := [];
      assert m[..0] == [];
    } else {
      hide Sends, Poised, NextStage, StageOf, After;
      schedule := KeepsUp(m, i - 1);
      NextNotStray(m, i - 1);
      NoSends();
      schedule := EmitAfter(schedule, m[..i - 1], [], m[i - 1]);
      assert m[..i - 1] + [m[i - 1]] == m[..i] && [] + [m[i - 1]] == [m[i - 1]];
      schedule := ConsumeAfter(schedule, m[..i], m[i - 1]);
    }
  }

  lemma FillOne(schedule: seq<Action>, m: seq<Msg>, i: nat, k: nat) returns (longer: seq<Action>)
    requires i + QUEUE_SLOTS + 1 <= |m| && StageOf(m) != Stray && TightAt(m, i) && k < QUEUE_SLOTS
    requires Poised(After(schedule), m[..i + k], m[i..i + k])
    ensures Poised(After(longer), m[..i + k + 1], m[i..i + k + 1])
  {
    hide Poised, TightAt, NextStage, StageOf, Sends, After;
    NextNotStray(m, i + k);
    FewSends(m, i, k);
    longer := EmitAfter(schedule, m[..i + k], m[i..i + k], m[i + k]);
    assert m[..i + k] + [m[i + k]] == m[..i + k + 1] && m[i..i + k] + [m[i + k]] == m[i..i + k + 1];
  }

  /** A send thread that then stops: the next k messages wait in the queue. */
  lemma {:induction false} FillsUp(m: seq<Msg>, i: nat, k: nat) returns (schedule: seq<Action>)
    requires i + QUEUE_SLOTS + 1 <= |m| && StageOf(m) != Stray && TightAt(m, i) && k <= QUEUE_SLOTS
    ensures Poised(After(schedule), m[..i + k], m[i..i + k])
  {
    if k == 0 {
      schedule := KeepsUp(m, i);
      assert m[i..i + k] == [];
    } else {
      hide *;
      assert QUEUE_SLOTS == 16;
      schedule := FillsUp(m, i, k - 1);
      schedule := FillOne(schedule, m, i, k - 1);
    }
  }

  lemma FewSends(m: seq<Msg>, i: nat, k: nat)
    requires i + QUEUE_SLOTS + 1 <= |m| && TightAt(m, i) && k <= QUEUE_SLOTS
    ensures m[i + k].Send? ==> |Sends(m[i..i + k])| < MAX_SEND_BUFFS
  {
    var end := i + QUEUE_SLOTS + 1;
    var x := m[i + k];
    assert m[i..end] == m[i..i + k] + ([x] + m[i + k + 1..end]);
    SendsConcat(m[i..i + k], [x] + m[i + k + 1..end]);
    SendsCons(x, m[i + k + 1..end]);
  }

  /** Some interleaving of the threads loses a message of this stream. */
  ghost predicate CanLose(m: seq<Msg>) {
    exists schedule :: After(schedule).offered <= m && After(schedule).rejected > 0
  }

  /** A job thread whose stream is tight, and a send thread that stops at the wrong moment. */
  lemma TightIsLost(m: seq<Msg>)
    requires Tight(m) && StageOf(m) != Stray
    ensures CanLose(m)
  {
    hide Poised, TightAt, NextStage, StageOf, Sends, After;
    var i: nat :| i + QUEUE_SLOTS + 1 <= |m| && TightAt(m, i);
    var full := FillsUp(m, i, QUEUE_SLOTS);
    var n := i + QUEUE_SLOTS;
    NextNotStray(m, n);
    FewSends(m, i, QUEUE_SLOTS);
    var lost := EmitAfter(full, m[..n], m[i..n], m[n]);
    assert m[..n] + [m[n]] == m[..n + 1] <= m;
  }

  lemma LostIsTight(m: seq<Msg>)
    requires CanLose(m)
    ensures Tight(m)
  {
    hide After, Tight;
    var t :| After(t).offered <= m && After(t).rejected > 0;
    TurnedDownIsTight(t);
    TightGrows(After(t).offered, m);
  }

  /** What the job thread offers in any run follows the stages. */
  lemma NeverStray(schedule: seq<Action>)
    ensures StageOf(After(schedule).offered) != Stray
  {
    StageAlways(schedule);
    hide After, StageOf;
  }

  /** Exactly which streams of messages the queue may turn down: those with seventeen messages in a row of
      which at most eight are stripes. */
  lemma CanLoseIff(m: seq<Msg>)
    requires StageOf(m) != Stray
    ensures CanLose(m) <==> Tight(m)
  {
    hide CanLose, Tight, StageOf;
    if CanLose(m) {
      LostIsTight(m);
    }
    if Tight(m) {
      TightIsLost(m);
    }
  }

  // ----- nobody waits for ever -----

  ghost predicate Joins(s: State) {
    && (EndJob in s.queue || s.consumer.Exited? ==> s.producer.Joining?)
    && (s.producer.Joining? && s.rejected == 0 ==> EndJob in s.queue || s.consumer.Exited?)
  }

  lemma JoinsKept(s: State, a: Action)
    requires Joins(s) && Enabled(s, a)
    ensures Joins(Do(s, a))
  {
    if a == Receive {
      assert s.queue == [s.queue[0]] + s.queue[1..];
    }
  }

  lemma {:induction false} JoinsAlways(schedule: seq<Action>)
    ensures Joins(After(schedule))
  {
    if schedule != [] {
      var before, a := After(schedule[..|schedule| - 1]), schedule[|schedule| - 1];
      JoinsAlways(schedule[..|schedule| - 1]);
      if Enabled(before, a) {
        JoinsKept(before, a);
      }
    }
  }

  predicate SenderCanMove(s: State) {
    Enabled(s, Receive) || Enabled(s, Printed) || Enabled(s, Post) || Enabled(s, Free)
  }

  /** A job thread that waits for a buffer, or for the send thread to end (unless the message that ends it was
      turned down), waits for a thread that can move. */
  lemma NobodyIsStuck(schedule: seq<Action>)
    ensures var s := After(schedule);
            && (s.producer.AtLoop? && s.sem == 0 ==> SenderCanMove(s))
            && (s.producer.Joining? && s.rejected == 0 ==> s.consumer.Exited? || SenderCanMove(s))
  {
    hide After, Inv, Joins, SenderCanMove;
    InvAlways(schedule);
    JoinsAlways(schedule);
    SenderMoves(After(schedule));
  }

  lemma SenderMoves(s: State)
    requires Inv(s) && Joins(s)
    ensures s.producer.AtLoop? && s.sem == 0 ==> SenderCanMove(s)
    ensures s.producer.Joining? && s.rejected == 0 ==> s.consumer.Exited? || SenderCanMove(s)
  {
    hide InOrder, PoolsLive, EndsLast, Outstanding;
  }
}
