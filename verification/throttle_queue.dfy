/** `ThrottleQueue<T>`: a FIFO queue drained by one processing loop that hands one item
    at a time to the handler and sleeps `interval` after each. Time is not modelled:
    `Settle` is the moment the in-flight handler call and the sleep after it are over. */
module ThrottleQueue {
  import opened Prelude

  /** `inFlight` is the item whose handler call (plus the sleep after it) the processing
      loop is awaiting; it is `None` when no loop is running. */
  datatype Throttle<T> = Throttle(queue: seq<T>, processing: bool, inFlight: Option<T>)
  {
    /** `length` */
    function Length(): nat { |queue| }

    /** A loop runs exactly while `processing` is set, and an idle queue is empty. */
    predicate Valid() {
      (processing <==> inFlight.Some?) && (!processing ==> |queue| == 0)
    }
  }

  /** The queue after a call, and the items whose handler the call invoked. */
  datatype Handled<T> = Handled(q: Throttle<T>, handled: seq<T>)

  function New<T>(): Throttle<T> {
    Throttle([], false, None)
  }

  /** A new queue is well formed, idle and empty. */
  lemma NewIsIdle<T>(q: Throttle<T>)
    requires q == New()
    ensures q.Valid() && q.Length() == 0
  {
  }

  /** `push(item)`: appends, and starts the processing loop unless one is marked as
      running; a new loop takes the front item at once. */
  function Push<T>(t: Throttle<T>, item: T): (r: Handled<T>)
    ensures t.processing ==> r == Handled(t.(queue := t.queue + [item]), [])
    ensures !t.processing ==>
              && r.handled == [(t.queue + [item])[0]]
              && r.handled + r.q.queue == t.queue + [item]
              && r.q.processing && r.q.inFlight == Some(r.handled[0])
  {
    var queued := t.queue + [item];
    if t.processing then Handled(t.(queue := queued), [])
    else Handled(Throttle(queued[1..], true, Some(queued[0])), [queued[0]])
  }

  /** The in-flight handler call settles and the interval passes. On success the loop
      takes the next item or, with the queue empty, clears `processing`. When the
      handler threw, the loop's promise rejects and `processing` is never cleared. */
  function Settle<T>(t: Throttle<T>, failed: bool): (r: Handled<T>)
    ensures t.inFlight.None? ==> r == Handled(t, [])
    ensures t.inFlight.Some? && failed ==> r == Handled(t.(inFlight := None), [])
    ensures t.inFlight.Some? && !failed && |t.queue| > 0 ==>
              && r.handled == [t.queue[0]] && r.handled + r.q.queue == t.queue
              && r.q.processing == t.processing && r.q.inFlight == Some(t.queue[0])
    ensures t.inFlight.Some? && !failed && |t.queue| == 0 ==>
              r == Handled(Throttle([], false, None), [])
  {
    if t.inFlight.None? then Handled(t, [])
    else if failed then Handled(t.(inFlight := None), [])
    else if |t.queue| > 0 then Handled(t.(queue := t.queue[1..], inFlight := Some(t.queue[0])), [t.queue[0]])
    else Handled(Throttle([], false, None), [])
  }

  /** `clear()`: drops the waiting items; the in-flight one is not affected. */
  function Clear<T>(t: Throttle<T>): (q: Throttle<T>)
    ensures q.Length() == 0 && q.processing == t.processing && q.inFlight == t.inFlight
  {
    t.(queue := [])
  }

  datatype Event<T> = PushItem(item: T) | Done

  function PushedBy<T>(ev: Event<T>): seq<T> {
    if ev.PushItem? then [ev.item] else []
  }

  function Pushed<T>(evs: seq<Event<T>>): seq<T>
    decreases |evs|
  {
    if |evs| == 0 then [] else PushedBy(evs[0]) + Pushed(evs[1..])
  }

  /** Pushes and successful settlements. */
  function Step<T>(t: Throttle<T>, ev: Event<T>): Handled<T> {
    match ev
    case PushItem(x) => Push(t, x)
    case Done => Settle(t, false)
  }

  function Replay<T>(t: Throttle<T>, evs: seq<Event<T>>): Handled<T>
    decreases |evs|
  {
    if |evs| == 0 then Handled(t, [])
    else
      var step := Step(t, evs[0]);
      var rest := Replay(step.q, evs[1..]);
      Handled(rest.q, step.handled + rest.handled)
  }

  /** Each event starts at most one handler call, and only when none is in flight. */
  lemma StepOneAtATime<T>(t: Throttle<T>, ev: Event<T>)
    requires t.Valid()
    ensures var r := Step(t, ev);
      && r.q.Valid()
      && r.handled + r.q.queue == t.queue + PushedBy(ev)
      && |r.handled| <= 1
      && (ev.PushItem? && t.inFlight.Some? ==> r.handled == [])
  {
  }

  /** Items reach the handler in push order, and nothing pushed is lost. */
  lemma {:induction false} ReplayInPushOrder<T>(t: Throttle<T>, evs: seq<Event<T>>)
    requires t.Valid()
    ensures var r := Replay(t, evs);
      r.handled + r.q.queue == t.queue + Pushed(evs) && r.q.Valid()
    decreases |evs|
  {
    if |evs| > 0 {
      var step := Step(t, evs[0]);
      StepOneAtATime(t, evs[0]);
      ReplayInPushOrder(step.q, evs[1..]);
      var rest := Replay(step.q, evs[1..]);
      assert Replay(t, evs) == Handled(rest.q, step.handled + rest.handled);
      assert Pushed(evs) == PushedBy(evs[0]) + Pushed(evs[1..]);
      Regroup(t.queue, PushedBy(evs[0]), Pushed(evs[1..]), step.handled, step.q.queue, rest.handled, rest.q.queue);
    }
  }

  /** After a handler throws, `processing` stays set with no loop running, so no later
      push ever reaches the handler. */
  lemma FailedHandlerStallsQueue<T>(t: Throttle<T>, x: T)
    requires t.Valid() && t.inFlight.Some?
    ensures var s := Settle(t, true).q;
      s.processing && s.inFlight.None?
      && Push(s, x).handled == [] && Push(s, x).q.processing && Push(s, x).q.inFlight.None?
  {
  }
}
