/** `Semaphore`: a permit counter with a FIFO queue of suspended acquirers. A suspended
    acquirer is represented by an opaque id `W` standing for its stored `resolve`. */
module Semaphore {
  import opened Prelude

  datatype Semaphore<W> = Semaphore(permits: int, waiting: seq<W>)
  {
    /** `availablePermits`: waiters are not reflected in it. */
    function AvailablePermits(): int { permits }

    /** The state every correctly used semaphore stays in: permits are never negative
        and nobody waits while a permit is free. */
    predicate Valid() {
      permits >= 0 && (|waiting| > 0 ==> permits == 0)
    }
  }

  datatype Acquire<W> = Acquire(sem: Semaphore<W>, granted: bool)
  datatype Release<W> = Release(sem: Semaphore<W>, woken: Option<W>)

  function New<W>(permits: int): Semaphore<W> {
    Semaphore(permits, [])
  }

  /** A new semaphore has the given permits and no waiter; it is well formed when
      the count is not negative. */
  lemma NewHasPermits<W>(s: Semaphore<W>, permits: int)
    requires s == New(permits)
    ensures s.AvailablePermits() == permits && s.waiting == []
    ensures permits >= 0 ==> s.Valid()
  {
  }

  /** `acquire()` by the caller `w`: takes a permit if one is free, otherwise suspends
      `w` at the back of the queue. */
  function AcquireBy<W>(s: Semaphore<W>, w: W): (a: Acquire<W>)
    ensures a.granted <==> s.permits > 0
    ensures a.granted ==> a.sem == Semaphore(s.permits - 1, s.waiting)
    ensures !a.granted ==> a.sem == Semaphore(s.permits, s.waiting + [w])
  {
    if s.permits > 0 then Acquire(Semaphore(s.permits - 1, s.waiting), true)
    else Acquire(Semaphore(s.permits, s.waiting + [w]), false)
  }

  /** `release()`: hands the permit straight to the longest waiter, or returns it to
      the count when nobody waits. Over-release is not checked. */
  function ReleaseOne<W>(s: Semaphore<W>): (r: Release<W>)
    ensures |s.waiting| > 0 ==>
              && r.woken == Some(s.waiting[0])
              && r.sem.permits == s.permits
              && [s.waiting[0]] + r.sem.waiting == s.waiting
    ensures |s.waiting| == 0 ==> r.woken == None && r.sem == Semaphore(s.permits + 1, [])
  {
    if |s.waiting| > 0 then Release(Semaphore(s.permits, s.waiting[1..]), Some(s.waiting[0]))
    else Release(Semaphore(s.permits + 1, s.waiting), None)
  }

  lemma AcquireKeepsValid<W>(s: Semaphore<W>, w: W)
    requires s.Valid()
    ensures AcquireBy(s, w).sem.Valid()
  {
  }

  lemma ReleaseKeepsValid<W>(s: Semaphore<W>)
    requires s.Valid()
    ensures ReleaseOne(s).sem.Valid()
  {
  }

  /** `withPermit(fn)` with a permit free: acquiring and then releasing on the way out
      of `fn` leaves the semaphore as it was. */
  lemma WithPermitRestores<W>(s: Semaphore<W>, w: W)
    requires s.Valid() && s.permits > 0
    ensures ReleaseOne(AcquireBy(s, w).sem).sem == s
  {
  }

  /** `k` releases in a row, and the waiters they wake, in waking order. */
  function ReleaseTimes<W>(s: Semaphore<W>, k: nat): (Semaphore<W>, seq<W>)
    decreases k
  {
    if k == 0 then (s, [])
    else
      var r := ReleaseOne(s);
      var rest := ReleaseTimes(r.sem, k - 1);
      (rest.0, (if r.woken.Some? then [r.woken.value] else []) + rest.1)
  }

  /** FIFO: `k` releases wake exactly the first `k` waiters, in the order they queued. */
  lemma {:induction false} ReleasesWakeInOrder<W>(s: Semaphore<W>, k: nat)
    requires k <= |s.waiting|
    ensures ReleaseTimes(s, k).1 == s.waiting[..k]
    ensures ReleaseTimes(s, k).0 == Semaphore(s.permits, s.waiting[k..])
    decreases k
  {
    if k > 0 {
      var r := ReleaseOne(s);
      ReleasesWakeInOrder(r.sem, k - 1);
      assert r.sem.waiting == s.waiting[1..];
      assert s.waiting[1..][..k - 1] == s.waiting[1..k];
      assert s.waiting[..k] == [s.waiting[0]] + s.waiting[1..k];
      assert s.waiting[1..][k - 1..] == s.waiting[k..];
    }
  }

  /** Bookkeeping around a semaphore that the library itself does not keep: which callers
      currently hold a permit. */
  datatype Usage<W> = Usage(sem: Semaphore<W>, holders: multiset<W>)

  /** Permits are conserved: free permits plus holders is the initial count. */
  ghost predicate Conserves<W>(u: Usage<W>, n: int) {
    u.sem.Valid() && u.sem.permits + |u.holders| == n
  }

  function UseAcquire<W>(u: Usage<W>, w: W): Usage<W> {
    var a := AcquireBy(u.sem, w);
    Usage(a.sem, if a.granted then u.holders + multiset{w} else u.holders)
  }

  /** The holder `h` leaves; a woken waiter, if any, becomes a holder. */
  function UseRelease<W>(u: Usage<W>, h: W): Usage<W> {
    var r := ReleaseOne(u.sem);
    Usage(r.sem, (u.holders - multiset{h}) + (if r.woken.Some? then multiset{r.woken.value} else multiset{}))
  }

  lemma UseAcquireConserves<W>(u: Usage<W>, w: W, n: int)
    requires Conserves(u, n)
    ensures Conserves(UseAcquire(u, w), n)
  {
  }

  lemma UseReleaseConserves<W>(u: Usage<W>, h: W, n: int)
    requires Conserves(u, n) && h in u.holders
    ensures Conserves(UseRelease(u, h), n)
  {
  }

  /** Mutual exclusion: with matched acquire/release pairs, never more than `n` callers
      hold a permit, and the `n+1`-th acquire suspends. */
  lemma AtMostNHolders<W>(u: Usage<W>, n: int, w: W)
    requires Conserves(u, n)
    ensures |u.holders| <= n
    ensures |u.holders| == n ==> !AcquireBy(u.sem, w).granted
  {
  }
}
