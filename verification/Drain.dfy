/** Stopping without loss: producers, the polling goroutine and the main loop as one state machine. */
module Drain {

  const CAPACITY := 10000

  /** Where the polling goroutine is. */
  datatype Poller<E> =
    | Top                 // about to look at the context
    | Taking              // about to take from the queue
    | Idle                // queue was empty, waiting for a tick or the end
    | Sending(event: E)   // an event in hand
    | Closed

  /** `accepted` and `delivered` record what the queue took and what the main loop received. */
  datatype State<E> = State(
    tracing: bool,        // probes attached
    cancelled: bool,      // polling context cancelled
    draining: bool,
    poller: Poller<E>,
    queue: seq<E>,
    accepted: seq<E>,
    delivered: seq<E>)

  function Start<E>(): State<E>
  {
    State(true, false, false, Top, [], [], [])
  }

  datatype Action<E> =
    | Produce(e: E)       // a probe pushes an event
    | StopTracing         // the main loop detaches the probes...
    | StopPolling         // ...and only then cancels polling
    | Look                // poller: notice the cancelled context, or go on
    | Take                // poller: take from the queue
    | Wait                // poller: wake up from an empty queue
    | Deliver             // poller and main loop: hand an event over

  predicate Enabled<E>(s: State<E>, a: Action<E>)
  {
    match a
    case Produce(_) => s.tracing
    case StopTracing => s.tracing
    case StopPolling => !s.tracing && !s.cancelled
    case Look => s.poller.Top?
    case Take => s.poller.Taking?
    case Wait => s.poller.Idle?
    case Deliver => s.poller.Sending?
  }

  /** One step. A full queue refuses the event; the poller ends only on an empty queue it has
   *  found while draining. `noticed` says whether a select with several ready cases took the
   *  cancelled one. */
  function Step<E>(s: State<E>, a: Action<E>, noticed: bool): State<E>
    requires Enabled(s, a)
  {
    match a
    case Produce(e) =>
      if |s.queue| < CAPACITY then s.(queue := s.queue + [e], accepted := s.accepted + [e]) else s
    case StopTracing => s.(tracing := false)
    case StopPolling => s.(cancelled := true)
    case Look => s.(draining := s.draining || s.cancelled, poller := Taking)
    case Take =>
      if |s.queue| > 0 then s.(queue := s.queue[1..], poller := Sending(s.queue[0]))
      else if s.draining then s.(poller := Closed)
      else s.(poller := Idle)
    case Wait => s.(draining := s.draining || (s.cancelled && noticed), poller := Top)
    case Deliver =>
      s.(delivered := s.delivered + [s.poller.event], poller := Top,
         draining := s.draining || (s.cancelled && noticed))
  }

  /** Accepted and not yet delivered: the event in hand, then the queue. */
  function Pending<E>(s: State<E>): seq<E>
  {
    if s.poller.Sending? then [s.poller.event] + s.queue else s.queue
  }

  /** Kept by every step of every interleaving. */
  ghost predicate Invariant<E(!new)>(s: State<E>)
  {
    && s.accepted == s.delivered + Pending(s)
    && (s.cancelled ==> !s.tracing)
    && (s.draining ==> s.cancelled)
    && (s.poller.Closed? ==> s.draining && s.queue == [])
    && |s.queue| <= CAPACITY
  }

  lemma StepKeeps<E(!new)>(s: State<E>, a: Action<E>, noticed: bool)
    requires Invariant(s) && Enabled(s, a)
    ensures Invariant(Step(s, a, noticed))
  {
    match a
    case Produce(e) =>
      assert s.delivered + (Pending(s) + [e]) == s.accepted + [e];
      if s.poller.Sending? {
        assert [s.poller.event] + (s.queue + [e]) == Pending(s) + [e];
      }
    case Take =>
      if |s.queue| > 0 { assert [s.queue[0]] + s.queue[1..] == s.queue; }
    case Deliver =>
      assert s.delivered + ([s.poller.event] + s.queue) == (s.delivered + [s.poller.event]) + s.queue;
    case _ =>
  }

  datatype Event<E> = Event(action: Action<E>, noticed: bool)

  /** A run: any interleaving of enabled steps. */
  ghost predicate Run<E(!new)>(s: State<E>, steps: seq<Event<E>>, s': State<E>)
    decreases |steps|
  {
    if steps == [] then s' == s
    else Enabled(s, steps[0].action) && Run(Step(s, steps[0].action, steps[0].noticed), steps[1..], s')
  }

  lemma {:induction false} RunKeeps<E(!new)>(s: State<E>, steps: seq<Event<E>>, s': State<E>)
    requires Invariant(s) && Run(s, steps, s')
    ensures Invariant(s')
    ensures s.poller.Closed? ==> s'.poller.Closed? && s'.accepted == s.accepted && s'.delivered == s.delivered
    decreases |steps|
  {
    if steps != [] {
      StepKeeps(s, steps[0].action, steps[0].noticed);
      RunKeeps(Step(s, steps[0].action, steps[0].noticed), steps[1..], s');
    }
  }

  /** Shutdown loses nothing. In every interleaving in which probes stop before polling is
   *  cancelled, the channel closes only on an empty queue, and then exactly the events the queue
   *  accepted have been delivered, once each and in queue order, and none is accepted later. */
  lemma ShutdownLosesNothing<E(!new)>(steps: seq<Event<E>>, s: State<E>, more: seq<Event<E>>, later: State<E>)
    requires Run(Start(), steps, s) && s.poller.Closed?
    requires Run(s, more, later)
    ensures s.queue == [] && s.delivered == s.accepted
    ensures later.accepted == s.accepted && later.delivered == s.delivered && later.queue == []
  {
    assert Invariant(Start<E>());
    RunKeeps(Start(), steps, s);
    RunKeeps(s, more, later);
  }

  /** At every moment the delivered events are the oldest accepted ones. */
  lemma DeliveredInOrder<E(!new)>(steps: seq<Event<E>>, s: State<E>)
    requires Run(Start(), steps, s)
    ensures s.delivered <= s.accepted
  {
    assert Invariant(Start<E>());
    RunKeeps(Start(), steps, s);
  }

  // ---- the drain ends ----

  predicate IsPollerStep<E>(a: Action<E>)
  {
    a.Look? || a.Take? || a.Wait? || a.Deliver?
  }

  /** Poller steps that are left at most once polling has been cancelled. */
  function StepsLeft<E>(s: State<E>): nat
  {
    3 * |s.queue| +
    match s.poller
    case Closed => 0
    case Taking => if s.draining then 1 else 4
    case Top => 2
    case Idle => 3
    case Sending(_) => 3
  }

  /** After cancellation every poller step brings the end closer, and until the poller has closed
   *  the channel it can always take one. */
  lemma DrainProgress<E(!new)>(s: State<E>, a: Action<E>, noticed: bool)
    requires Invariant(s) && s.cancelled && Enabled(s, a)
    ensures IsPollerStep(a) && StepsLeft(Step(s, a, noticed)) < StepsLeft(s)
    ensures !s.poller.Closed? ==> exists b: Action<E> :: Enabled(s, b)
  {
    if !s.poller.Closed? { PollerEnabled(s); }
  }

  lemma PollerEnabled<E(!new)>(s: State<E>)
    requires !s.poller.Closed?
    ensures exists b: Action<E> :: Enabled(s, b) && IsPollerStep(b)
  {
    var b: Action<E> := match s.poller case Top => Look case Taking => Take case Idle => Wait case Sending(_) => Deliver;
    assert Enabled(s, b) && IsPollerStep(b);
  }

  /** So a cancelled poll ends: no run from there is longer than the bound. */
  lemma {:induction false} DrainTerminates<E(!new)>(s: State<E>, steps: seq<Event<E>>, s': State<E>)
    requires Invariant(s) && s.cancelled && Run(s, steps, s')
    ensures |steps| <= StepsLeft(s)
    ensures |steps| == StepsLeft(s) ==> s'.poller.Closed?
    decreases |steps|
  {
    if steps != [] {
      var next := Step(s, steps[0].action, steps[0].noticed);
      DrainProgress(s, steps[0].action, steps[0].noticed);
      StepKeeps(s, steps[0].action, steps[0].noticed);
      DrainTerminates(next, steps[1..], s');
    }
  }

  /** The events the producers had, in order. */
  function Produced<E>(steps: seq<Event<E>>): seq<E>
  {
    if steps == [] then []
    else (if steps[0].action.Produce? then [steps[0].action.e] else []) + Produced(steps[1..])
  }

  /** Until 10000 events have been produced none is refused, so all of them are delivered. */
  lemma {:induction false} NothingRefused<E(!new)>(s: State<E>, steps: seq<Event<E>>, s': State<E>)
    requires Invariant(s) && Run(s, steps, s') && |s.accepted| + |Produced(steps)| <= 10000
    ensures s'.accepted == s.accepted + Produced(steps)
    decreases |steps|
  {
    if steps != [] {
      hide Invariant, Step, Enabled;
      var a := steps[0].action;
      StepKeeps(s, a, steps[0].noticed);
      StepAccepts(s, a, steps[0].noticed);
      var next := Step(s, a, steps[0].noticed);
      NothingRefused(next, steps[1..], s');
      Regrouped(s.accepted, if a.Produce? then [a.e] else [], Produced(steps[1..]));
    } else {
      assert s.accepted + [] == s.accepted;
    }
  }

  lemma Regrouped<E>(a: seq<E>, b: seq<E>, c: seq<E>)
    ensures (a + b) + c == a + (b + c) && |a + b| == |a| + |b|
  {
  }

  lemma StepAccepts<E(!new)>(s: State<E>, a: Action<E>, noticed: bool)
    requires Invariant(s) && Enabled(s, a) && (a.Produce? ==> |s.accepted| < 10000)
    ensures Step(s, a, noticed).accepted == s.accepted + if a.Produce? then [a.e] else []
  {
  }
}
