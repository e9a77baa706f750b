/** `Scheduler`: a FIFO queue of deferred tasks, identified here by opaque ids `K`, and
    a counter of running tasks capped by `maxConcurrency`. The tasks' own work and
    results are not modelled; a task finishing is the `Finish` transition. */
module Scheduler {
  import opened Prelude

  datatype Scheduler<K> = Scheduler(queue: seq<K>, running: int, maxConcurrency: int)
  {
    /** `pending` */
    function Pending(): nat { |queue| }

    /** `activeCount` */
    function ActiveCount(): int { running }

    /** At most `maxConcurrency` tasks run, and a task waits only while every slot is
        taken. */
    predicate Valid() {
      0 <= running <= maxConcurrency && (|queue| > 0 ==> running == maxConcurrency)
    }
  }

  /** The scheduler after a call, and the tasks that call started, in start order. */
  datatype Started<K> = Started(sched: Scheduler<K>, started: seq<K>)

  /** `new Scheduler(maxConcurrency)`; the source does not validate the bound. */
  function New<K>(maxConcurrency: int): Scheduler<K> {
    Scheduler([], 0, maxConcurrency)
  }

  /** A new scheduler has nothing pending and nothing running; it is well formed
      when the bound is not negative. */
  lemma NewIsIdle<K>(s: Scheduler<K>, maxConcurrency: int)
    requires s == New(maxConcurrency)
    ensures s.Pending() == 0 && s.ActiveCount() == 0
    ensures maxConcurrency >= 0 ==> s.Valid()
  {
  }

  /** The admission loop `run()`: starts tasks from the front of the queue while a slot
      is free. */
  function RunLoop<K>(s: Scheduler<K>): (r: Started<K>)
    ensures r.started + r.sched.queue == s.queue
    ensures r.sched.running == s.running + |r.started|
    ensures r.sched.maxConcurrency == s.maxConcurrency
    ensures s.running <= s.maxConcurrency ==> r.sched.running <= s.maxConcurrency
    ensures |r.sched.queue| > 0 ==> r.sched.running >= s.maxConcurrency
    ensures s.running >= s.maxConcurrency ==> r.started == []
    decreases |s.queue|
  {
    if s.running < s.maxConcurrency && |s.queue| > 0 then
      var rest := RunLoop(s.(queue := s.queue[1..], running := s.running + 1));
      assert [s.queue[0]] + s.queue[1..] == s.queue;
      Started(rest.sched, [s.queue[0]] + rest.started)
    else Started(s, [])
  }

  /** `add(task)`: enqueue, then run the admission loop. The task joins the back of
      the queue; with a free slot it starts at once. */
  function Add<K>(s: Scheduler<K>, task: K): (r: Started<K>)
    ensures r.started + r.sched.queue == s.queue + [task]
    ensures r.sched.running == s.running + |r.started|
    ensures s.Valid() ==> r.sched.Valid() && |r.started| <= 1
    ensures s.Valid() && s.running < s.maxConcurrency ==> r.started == [task]
    ensures s.Valid() && s.running == s.maxConcurrency ==> r.started == []
  {
    RunLoop(s.(queue := s.queue + [task]))
  }

  /** A running task settles (`finally`): its slot is freed and the loop runs again,
      handing the slot to the oldest waiting task if there is one. */
  function Finish<K>(s: Scheduler<K>): (r: Started<K>)
    ensures r.started + r.sched.queue == s.queue
    ensures r.sched.running == s.running - 1 + |r.started|
    ensures s.Valid() && s.running > 0 ==> r.sched.Valid() && |r.started| <= 1
    ensures s.Valid() && s.running > 0 && |s.queue| > 0 ==> r.started == [s.queue[0]]
  {
    RunLoop(s.(running := s.running - 1))
  }

  lemma AddKeepsValid<K>(s: Scheduler<K>, task: K)
    requires s.Valid()
    ensures Add(s, task).sched.Valid()
    ensures |Add(s, task).started| <= 1
  {
  }

  lemma FinishKeepsValid<K>(s: Scheduler<K>)
    requires s.Valid() && s.running > 0
    ensures Finish(s).sched.Valid()
    ensures |Finish(s).started| <= 1
  {
  }

  datatype Event<K> = Submit(task: K) | Complete

  /** The task an event submits, if any. */
  function SubmittedBy<K>(ev: Event<K>): seq<K> {
    if ev.Submit? then [ev.task] else []
  }

  /** The tasks submitted by a sequence of events, in submission order. */
  function Submitted<K>(evs: seq<Event<K>>): seq<K>
    decreases |evs|
  {
    if |evs| == 0 then [] else SubmittedBy(evs[0]) + Submitted(evs[1..])
  }

  /** One event: an `add` call, or a running task settling. A `Complete` with nothing
      running is ignored, since no task could report it. */
  function Step<K>(s: Scheduler<K>, ev: Event<K>): Started<K> {
    match ev
    case Submit(t) => Add(s, t)
    case Complete => if s.running > 0 then Finish(s) else Started(s, [])
  }

  function Replay<K>(s: Scheduler<K>, evs: seq<Event<K>>): Started<K>
    decreases |evs|
  {
    if |evs| == 0 then Started(s, [])
    else
      var step := Step(s, evs[0]);
      var rest := Replay(step.sched, evs[1..]);
      Started(rest.sched, step.started + rest.started)
  }

  lemma StepFifoAndBounded<K>(s: Scheduler<K>, ev: Event<K>)
    requires s.Valid()
    ensures var r := Step(s, ev);
      r.started + r.sched.queue == s.queue + SubmittedBy(ev) && r.sched.Valid()
  {
    match ev {
      case Submit(t) => AddKeepsValid(s, t);
      case Complete => if s.running > 0 { FinishKeepsValid(s); }
    }
  }

  /** Over any run, tasks start in exactly the order they were submitted, never more
      than `maxConcurrency` run at once, and a task waits only while all slots are busy. */
  lemma {:induction false} ReplayFifoAndBounded<K>(s: Scheduler<K>, evs: seq<Event<K>>)
    requires s.Valid()
    ensures var r := Replay(s, evs);
      r.started + r.sched.queue == s.queue + Submitted(evs) && r.sched.Valid()
    decreases |evs|
  {
    if |evs| > 0 {
      var step := Step(s, evs[0]);
      StepFifoAndBounded(s, evs[0]);
      ReplayFifoAndBounded(step.sched, evs[1..]);
      var rest := Replay(step.sched, evs[1..]);
      assert Replay(s, evs) == Started(rest.sched, step.started + rest.started);
      assert Submitted(evs) == SubmittedBy(evs[0]) + Submitted(evs[1..]);
      Regroup(s.queue, SubmittedBy(evs[0]), Submitted(evs[1..]), step.started, step.sched.queue, rest.started, rest.sched.queue);
    }
  }

  /** With `maxConcurrency = 2`, five submissions start the first two and queue three. */
  lemma TwoSlotsFiveTasks(t1: int, t2: int, t3: int, t4: int, t5: int)
    ensures var s := New<int>(2);
      var a1 := Add(s, t1);
      var a2 := Add(a1.sched, t2);
      var a3 := Add(a2.sched, t3);
      var a4 := Add(a3.sched, t4);
      var a5 := Add(a4.sched, t5);
      && a1.started == [t1] && a2.started == [t2]
      && a3.started == [] && a4.started == [] && a5.started == []
      && a5.sched.queue == [t3, t4, t5] && a5.sched.running == 2
  {
  }
}
