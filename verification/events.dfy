/** The event emitter: per event name, a set of regular listeners and a set of
    one-shot listeners, each a JavaScript `Set` kept in insertion order. Listeners
    are foreign callbacks; `emit` reports which ones it calls, in order. */
module Events {
  import opened Prelude

  datatype Emitter<L> = Emitter(regular: map<string, seq<L>>, once: map<string, seq<L>>)
  {
    /** Every listener set is duplicate-free. */
    ghost predicate Valid() {
      (forall e :: e in regular ==> NoDup(regular[e])) &&
      (forall e :: e in once ==> NoDup(once[e]))
    }
  }

  function New<L>(): Emitter<L> {
    Emitter(map[], map[])
  }

  /** A new emitter is well formed and has no listener, so an `emit` calls nothing. */
  lemma NewHasNoListeners<L>(em: Emitter<L>, e: string)
    requires em == New()
    ensures em.Valid() && ListenerCount(em, e) == 0 && !HasListeners(em, e)
    ensures Emit(em, e).1 == []
  {
  }

  /** The listeners registered for `e` in one of the two maps (none if absent). */
  function ListenersIn<L>(m: map<string, seq<L>>, e: string): seq<L> {
    if e in m then m[e] else []
  }

  /** `listenerCount(event)`: regular plus one-shot listeners. */
  function ListenerCount<L>(em: Emitter<L>, e: string): nat {
    |ListenersIn(em.regular, e)| + |ListenersIn(em.once, e)|
  }

  /** `hasListeners(event)`. */
  predicate HasListeners<L>(em: Emitter<L>, e: string) {
    ListenerCount(em, e) > 0
  }

  /** `on(event, callback)`: add to the regular set of `e`, creating it if needed. */
  function On<L(==)>(em: Emitter<L>, e: string, callback: L): (r: Emitter<L>)
    requires em.Valid()
    ensures r.Valid()
    ensures ListenersIn(r.regular, e) == Added(ListenersIn(em.regular, e), callback)
    ensures callback in ListenersIn(r.regular, e)
    ensures ListenerCount(r, e) ==
              ListenerCount(em, e) + (if callback in ListenersIn(em.regular, e) then 0 else 1)
    ensures forall x :: x != e ==> ListenersIn(r.regular, x) == ListenersIn(em.regular, x)
    ensures r.once == em.once
  {
    em.(regular := em.regular[e := Added(ListenersIn(em.regular, e), callback)])
  }

  /** `once(event, callback)`: add to the one-shot set of `e`. */
  function Once<L(==)>(em: Emitter<L>, e: string, callback: L): (r: Emitter<L>)
    requires em.Valid()
    ensures r.Valid()
    ensures ListenersIn(r.once, e) == Added(ListenersIn(em.once, e), callback)
    ensures callback in ListenersIn(r.once, e)
    ensures ListenerCount(r, e) ==
              ListenerCount(em, e) + (if callback in ListenersIn(em.once, e) then 0 else 1)
    ensures forall x :: x != e ==> ListenersIn(r.once, x) == ListenersIn(em.once, x)
    ensures r.regular == em.regular
  {
    em.(once := em.once[e := Added(ListenersIn(em.once, e), callback)])
  }

  /** Drop `callback` from the set of `e`, if that set exists. */
  function DeleteFrom<L(==)>(m: map<string, seq<L>>, e: string, callback: L): (r: map<string, seq<L>>)
    ensures r.Keys == m.Keys
    ensures callback !in ListenersIn(r, e)
    ensures forall x :: x != e ==> ListenersIn(r, x) == ListenersIn(m, x)
  {
    if e in m then m[e := Without(m[e], callback)] else m
  }

  /** `off(event, callback?)`: with a callback, remove it from both sets of `e`;
      without one, remove both sets of `e`. Other events keep their listeners. */
  function Off<L(==)>(em: Emitter<L>, e: string, callback: Option<L>): (r: Emitter<L>)
    requires em.Valid()
    ensures r.Valid()
    ensures callback.None? ==> ListenerCount(r, e) == 0
    ensures callback.Some? ==>
              callback.value !in ListenersIn(r.regular, e) && callback.value !in ListenersIn(r.once, e)
    ensures callback.Some? ==>
              ListenersIn(r.regular, e) == Without(ListenersIn(em.regular, e), callback.value) &&
              ListenersIn(r.once, e) == Without(ListenersIn(em.once, e), callback.value)
    ensures callback.Some? ==> forall x :: x in ListenersIn(em.regular, e) && x != callback.value ==>
              x in ListenersIn(r.regular, e)
    ensures callback.Some? ==> forall x :: x in ListenersIn(em.once, e) && x != callback.value ==>
              x in ListenersIn(r.once, e)
    ensures forall x :: x != e ==>
              ListenersIn(r.regular, x) == ListenersIn(em.regular, x) && ListenersIn(r.once, x) == ListenersIn(em.once, x)
  {
    match callback
    case Some(c) => Emitter(DeleteFrom(em.regular, e, c), DeleteFrom(em.once, e, c))
    case None => Emitter(em.regular - {e}, em.once - {e})
  }

  /** `emit(event)`: call the regular listeners of `e`, then its one-shot listeners,
      then forget the one-shot set. */
  function Emit<L>(em: Emitter<L>, e: string): (r: (Emitter<L>, seq<L>))
    requires em.Valid()
    ensures r.0.Valid()
    ensures r.1 == ListenersIn(em.regular, e) + ListenersIn(em.once, e)
    ensures ListenersIn(r.0.once, e) == [] && r.0.regular == em.regular
    ensures ListenerCount(r.0, e) == |ListenersIn(em.regular, e)|
    ensures forall x :: x != e ==> ListenersIn(r.0.once, x) == ListenersIn(em.once, x)
  {
    var calls := ListenersIn(em.regular, e) + ListenersIn(em.once, e);
    if e in em.once then (em.(once := em.once - {e}), calls) else (em, calls)
  }

  /** A one-shot listener is called by the next `emit` of its event and by no later one
      (unless registered again). */
  lemma OnceFiresOnce<L>(em: Emitter<L>, e: string, callback: L)
    requires em.Valid() && callback !in ListenersIn(em.regular, e)
    ensures var (first, calls1) := Emit(Once(em, e, callback), e);
      var (_, calls2) := Emit(first, e);
      callback in calls1 && callback !in calls2
  {
  }

  /** A listener registered with `on` is called after the event's earlier regular
      listeners and before its one-shot listeners, and `off` with that callback undoes
      the registration. */
  lemma OnThenEmitAndOff<L>(em: Emitter<L>, e: string, callback: L)
    requires em.Valid()
    requires callback !in ListenersIn(em.regular, e) && callback !in ListenersIn(em.once, e)
    ensures Emit(On(em, e, callback), e).1 ==
              ListenersIn(em.regular, e) + [callback] + ListenersIn(em.once, e)
    ensures var r := Off(On(em, e, callback), e, Some(callback));
      ListenersIn(r.regular, e) == ListenersIn(em.regular, e) &&
      ListenersIn(r.once, e) == ListenersIn(em.once, e)
  {
    var s := ListenersIn(em.regular, e);
    assert Added(s, callback) == s + [callback];
    assert (s + [callback])[|s|] == callback && (s + [callback])[..|s|] == s;
  }

  /** `removeAllListeners(event?)` as written: the event is tested for truthiness, so
      the empty event name falls into the branch that clears every event. */
  function RemoveAllListenersAsWritten<L>(em: Emitter<L>, e: Option<string>): (r: Emitter<L>)
    ensures e.Some? && e.value != "" ==> r == Emitter(em.regular - {e.value}, em.once - {e.value})
    ensures e.None? || e.value == "" ==> forall x :: ListenerCount(r, x) == 0
  {
    if e.Some? && e.value != "" then Emitter(em.regular - {e.value}, em.once - {e.value})
    else Emitter(map[], map[])
  }

  /** Removing the listeners of the event named `""` also removes those of every other
      event. */
  lemma RemoveEmptyNameClearsAll()
    ensures var em := On(On(New<int>(), "", 1), "save", 2);
      ListenerCount(em, "save") == 1 &&
      ListenerCount(RemoveAllListenersAsWritten(em, Some("")), "save") == 0
  {
  }

  /** `removeAllListeners(event?)` with the test on presence: a named event, whatever
      its name, loses exactly its own listeners; no argument clears everything. */
  function RemoveAllListeners<L>(em: Emitter<L>, e: Option<string>): (r: Emitter<L>)
    requires em.Valid()
    ensures r.Valid()
    ensures e.None? ==> forall x :: ListenerCount(r, x) == 0
    ensures e.Some? ==> ListenerCount(r, e.value) == 0
    ensures e.Some? ==> forall x :: x != e.value ==> ListenerCount(r, x) == ListenerCount(em, x)
    ensures e.Some? && e.value != "" ==> r == RemoveAllListenersAsWritten(em, e)
  {
    if e.Some? then Emitter(em.regular - {e.value}, em.once - {e.value})
    else Emitter(map[], map[])
  }

  /** Removing all listeners of one event is `off` without a callback. */
  lemma RemoveAllIsOff<L>(em: Emitter<L>, e: string)
    requires em.Valid()
    ensures RemoveAllListeners(em, Some(e)) == Off(em, e, None)
  {
  }
}
