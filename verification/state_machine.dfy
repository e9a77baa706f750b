/** The finite state machine of the behavioural patterns. Each state may list the
    events it accepts (with their target state) and may carry `enter` and `exit`
    hooks. Hooks and transition listeners are foreign code; the model records, in
    order, which of them a call runs. */
module StateMachine {
  import opened Prelude

  datatype StateConfig<S, E> = StateConfig(on: map<E, S>, hasEnter: bool, hasExit: bool)

  datatype Config<S, E> = Config(initial: S, states: map<S, StateConfig<S, E>>)

  /** A call into foreign code: a state's hook, or listener `id` told `(next, prev)`. */
  datatype Effect<S, L> = Enter(state: S) | Exit(state: S) | Notify(listener: L, next: S, prev: S)

  /** `listeners` is a JavaScript `Set`: no repeats, iterated in insertion order. */
  datatype Machine<S, E, L> = Machine(config: Config<S, E>, current: S, listeners: seq<L>)

  /** The hooks a state runs on entry: its `enter`, if the state is configured and has one. */
  function EnterHook<S, E, L>(config: Config<S, E>, s: S): seq<Effect<S, L>> {
    if s in config.states && config.states[s].hasEnter then [Enter(s)] else []
  }

  /** The constructor: start in the initial state and run its `enter` hook. */
  function New<S, E, L>(config: Config<S, E>): (Machine<S, E, L>, seq<Effect<S, L>>) {
    (Machine(config, config.initial, []), EnterHook(config, config.initial))
  }

  /** The constructor leaves the machine in the initial state with no listener, and
      runs the initial state's `enter` hook exactly when that state has one. */
  lemma NewStarts<S, E, L>(config: Config<S, E>, m: Machine<S, E, L>, effects: seq<Effect<S, L>>)
    requires (m, effects) == New(config)
    ensures m.current == config.initial && m.config == config && m.listeners == []
    ensures effects == [Enter(config.initial)] <==>
              config.initial in config.states && config.states[config.initial].hasEnter
    ensures effects == [] || effects == [Enter(config.initial)]
  {
  }

  /** The target of `event` from the current state, if the current state lists it. */
  function Target<S, E, L>(m: Machine<S, E, L>, event: E): (r: Option<S>)
    ensures r.Some? <==> m.current in m.config.states && event in m.config.states[m.current].on
  {
    if m.current in m.config.states && event in m.config.states[m.current].on
    then Some(m.config.states[m.current].on[event])
    else None
  }

  /** `can(event)`. */
  predicate Can<S, E, L>(m: Machine<S, E, L>, event: E) {
    Target(m, event).Some?
  }

  /** `is(state)`. */
  predicate Is<S(==), E, L>(m: Machine<S, E, L>, s: S) {
    m.current == s
  }

  /** One notification per registered listener, in registration order. */
  function NotifyAll<S, L>(listeners: seq<L>, next: S, prev: S): (r: seq<Effect<S, L>>)
    ensures |r| == |listeners|
    ensures forall i :: 0 <= i < |r| ==> r[i] == Notify(listeners[i], next, prev)
  {
    if |listeners| == 0 then []
    else [Notify(listeners[0], next, prev)] + NotifyAll(listeners[1..], next, prev)
  }

  datatype Step<S, E, L> = Step(machine: Machine<S, E, L>, moved: bool, effects: seq<Effect<S, L>>)

  /** `transition(event)`: without an edge nothing happens and the answer is `false`;
      with one, the old state's `exit` runs, the state changes, the new state's `enter`
      runs, and every listener hears `(next, prev)`. */
  function Transition<S, E, L>(m: Machine<S, E, L>, event: E): (r: Step<S, E, L>)
    ensures r.moved <==> Can(m, event)
    ensures !r.moved ==> r.machine == m && r.effects == []
    ensures r.moved ==> r.machine == m.(current := m.config.states[m.current].on[event])
    ensures r.moved ==> var next := r.machine.current;
      r.effects ==
        (if m.config.states[m.current].hasExit then [Exit(m.current)] else []) +
        EnterHook(m.config, next) + NotifyAll(m.listeners, next, m.current)
  {
    match Target(m, event)
    case None => Step(m, false, [])
    case Some(next) =>
      var sc := m.config.states[m.current];
      var exit := if sc.hasExit then [Exit(m.current)] else [];
      Step(m.(current := next), true, exit + EnterHook(m.config, next) + NotifyAll(m.listeners, next, m.current))
  }

  /** `onTransition(callback)`: the listener joins the back of the set unless it is
      already there. */
  function OnTransition<S, E, L(==,!new)>(m: Machine<S, E, L>, listener: L): (r: Machine<S, E, L>)
    ensures r.listeners == Added(m.listeners, listener)
    ensures NoDup(m.listeners) ==> NoDup(r.listeners)
    ensures listener in r.listeners
    ensures forall x :: x in r.listeners <==> x in m.listeners || x == listener
    ensures r.current == m.current && r.config == m.config
  {
    m.(listeners := Added(m.listeners, listener))
  }

  /** The function `onTransition` returns: it deletes the listener from the set. */
  function Unsubscribe<S, E, L(==,!new)>(m: Machine<S, E, L>, listener: L): (r: Machine<S, E, L>)
    ensures r.listeners == Without(m.listeners, listener)
    ensures NoDup(m.listeners) ==> NoDup(r.listeners)
    ensures listener !in r.listeners
    ensures forall x :: x in r.listeners <==> x in m.listeners && x != listener
    ensures r.current == m.current && r.config == m.config
  {
    m.(listeners := Without(m.listeners, listener))
  }

  /** A new listener is notified after every earlier one. */
  lemma SubscribeNotifiesLast<S, E, L(!new)>(m: Machine<S, E, L>, listener: L, next: S, prev: S)
    requires listener !in m.listeners
    ensures NotifyAll(OnTransition(m, listener).listeners, next, prev) ==
              NotifyAll(m.listeners, next, prev) + [Notify(listener, next, prev)]
  {
    assert OnTransition(m, listener).listeners == m.listeners + [listener];
    NotifyAllSnoc(m.listeners, listener, next, prev);
  }

  lemma {:induction false} NotifyAllSnoc<S, L>(s: seq<L>, x: L, next: S, prev: S)
    ensures NotifyAll(s + [x], next, prev) == NotifyAll(s, next, prev) + [Notify(x, next, prev)]
  {
    if |s| > 0 {
      assert (s + [x])[1..] == s[1..] + [x];
      NotifyAllSnoc(s[1..], x, next, prev);
    }
  }

  /** Calling the function `onTransition` returned gives back the machine as it was. */
  lemma UnsubscribeUndoes<S, E, L(!new)>(m: Machine<S, E, L>, listener: L)
    requires NoDup(m.listeners) && listener !in m.listeners
    ensures Unsubscribe(OnTransition(m, listener), listener) == m
  {
    var s := m.listeners;
    var t := OnTransition(m, listener).listeners;
    assert t[..|s|] == s && t[|s|] == listener && |t| == |s| + 1;
    assert Without(t, listener) == t[..|s|] + t[|s| + 1..];
    assert t[|s| + 1..] == [];
  }

  /** The states a run of events visits, starting from `m`. */
  function Run<S, E, L>(m: Machine<S, E, L>, events: seq<E>): Machine<S, E, L>
    decreases |events|
  {
    if |events| == 0 then m else Run(Transition(m, events[0]).machine, events[1..])
  }

  /** A machine whose edges all lead to configured states stays in configured states,
      whatever events arrive. */
  lemma {:induction false} RunStaysConfigured<S, E, L>(m: Machine<S, E, L>, events: seq<E>)
    requires m.current in m.config.states
    requires forall s, e :: s in m.config.states && e in m.config.states[s].on ==>
               m.config.states[s].on[e] in m.config.states
    ensures Run(m, events).current in m.config.states
    ensures Run(m, events).config == m.config && Run(m, events).listeners == m.listeners
    decreases |events|
  {
    if |events| > 0 {
      RunStaysConfigured(Transition(m, events[0]).machine, events[1..]);
    }
  }

  /** An event the current state does not list is ignored however often it repeats. */
  lemma {:induction false} IgnoredEventsChangeNothing<S, E, L>(m: Machine<S, E, L>, e: E, n: nat)
    requires !Can(m, e)
    ensures Run(m, seq(n, _ => e)) == m
  {
    if n > 0 {
      var events := seq(n, _ => e);
      assert events[0] == e && events[1..] == seq(n - 1, _ => e);
      IgnoredEventsChangeNothing(m, e, n - 1);
    }
  }
}
