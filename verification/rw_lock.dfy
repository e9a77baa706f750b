/** `ReadWriteLock`: a reader count, a writer flag and two FIFO queues of suspended
    acquirers. In the source a suspended acquirer sits in a `while (...) await` loop:
    `resolve()` does not admit it but schedules it to resume, and on resuming it tests
    the loop condition again. Resolved-but-not-yet-resumed waiters are kept here in
    `woken`, in the order they were resolved; `Resume` runs the oldest of them. */
module ReadWriteLock {
  import opened Prelude

  datatype Mode = Read | Write

  datatype Woken<W> = Woken(id: W, mode: Mode)

  datatype Lock<W> = Lock(
    readers: int,
    writer: bool,
    waitingReaders: seq<W>,
    waitingWriters: seq<W>,
    woken: seq<Woken<W>>)

  datatype Outcome<W> = Outcome(lock: Lock<W>, admitted: bool)

  function New<W>(): Lock<W> {
    Lock(0, false, [], [], [])
  }

  /** The loop condition of `acquireRead`: an active writer or any queued writer
      keeps readers out. */
  predicate ReadBlocked<W>(l: Lock<W>) {
    l.writer || |l.waitingWriters| > 0
  }

  /** The loop condition of `acquireWrite`. */
  predicate WriteBlocked<W>(l: Lock<W>) {
    l.writer || l.readers > 0
  }

  /** The safety property: while a writer holds the lock no reader does. */
  predicate Exclusive<W>(l: Lock<W>) {
    l.writer ==> l.readers <= 0
  }

  /** One pass of the `acquireRead` loop for reader `w`. */
  function TryRead<W>(l: Lock<W>, w: W): (o: Outcome<W>)
    ensures o.admitted <==> !ReadBlocked(l)
    ensures o.admitted ==> o.lock == l.(readers := l.readers + 1)
    ensures !o.admitted ==> o.lock == l.(waitingReaders := l.waitingReaders + [w])
  {
    if ReadBlocked(l) then Outcome(l.(waitingReaders := l.waitingReaders + [w]), false)
    else Outcome(l.(readers := l.readers + 1), true)
  }

  /** One pass of the `acquireWrite` loop for writer `w`. */
  function TryWrite<W>(l: Lock<W>, w: W): (o: Outcome<W>)
    ensures o.admitted <==> !WriteBlocked(l)
    ensures o.admitted ==> o.lock == l.(writer := true)
    ensures !o.admitted ==> o.lock == l.(waitingWriters := l.waitingWriters + [w])
  {
    if WriteBlocked(l) then Outcome(l.(waitingWriters := l.waitingWriters + [w]), false)
    else Outcome(l.(writer := true), true)
  }

  /** `acquireRead()` called by `w`: it enters when no writer holds or waits for the
      lock, and otherwise waits at the back of the reader queue. */
  function AcquireRead<W>(l: Lock<W>, w: W): (o: Outcome<W>)
    ensures o.admitted <==> !l.writer && |l.waitingWriters| == 0
    ensures o.admitted ==> o.lock.readers == l.readers + 1 && o.lock.waitingReaders == l.waitingReaders
    ensures !o.admitted ==> o.lock.readers == l.readers && o.lock.waitingReaders == l.waitingReaders + [w]
    ensures o.lock.writer == l.writer && o.lock.waitingWriters == l.waitingWriters && o.lock.woken == l.woken
  {
    TryRead(l, w)
  }

  /** `acquireWrite()` called by `w`: it enters only an empty lock, and otherwise waits
      at the back of the writer queue. */
  function AcquireWrite<W>(l: Lock<W>, w: W): (o: Outcome<W>)
    ensures o.admitted <==> !l.writer && l.readers <= 0
    ensures o.admitted ==> o.lock.writer && o.lock.waitingWriters == l.waitingWriters
    ensures !o.admitted ==> o.lock.writer == l.writer && o.lock.waitingWriters == l.waitingWriters + [w]
    ensures o.lock.readers == l.readers && o.lock.waitingReaders == l.waitingReaders && o.lock.woken == l.woken
  {
    TryWrite(l, w)
  }

  /** `releaseRead()`: the last reader out resolves the first queued writer. */
  function ReleaseRead<W>(l: Lock<W>): (r: Lock<W>)
    ensures r.readers == l.readers - 1 && r.writer == l.writer
    ensures r.waitingReaders == l.waitingReaders
    ensures r.readers == 0 && |l.waitingWriters| > 0 ==>
              && r.woken == l.woken + [Woken(l.waitingWriters[0], Write)]
              && r.waitingWriters == l.waitingWriters[1..]
    ensures !(r.readers == 0 && |l.waitingWriters| > 0) ==>
              r.woken == l.woken && r.waitingWriters == l.waitingWriters
  {
    var l' := l.(readers := l.readers - 1);
    if l'.readers == 0 && |l'.waitingWriters| > 0 then
      l'.(woken := l'.woken + [Woken(l'.waitingWriters[0], Write)],
          waitingWriters := l'.waitingWriters[1..])
    else l'
  }

  /** The queued ids as resolved waiters of one mode, in queue order. */
  function AsWoken<W>(ids: seq<W>, mode: Mode): (r: seq<Woken<W>>)
    ensures |r| == |ids|
    ensures forall i :: 0 <= i < |ids| ==> r[i] == Woken(ids[i], mode)
  {
    seq(|ids|, i requires 0 <= i < |ids| => Woken(ids[i], mode))
  }

  /** `releaseWrite()`: clears the writer, resolves every queued reader, then the first
      queued writer if there is one. */
  function ReleaseWrite<W>(l: Lock<W>): (r: Lock<W>)
    ensures !r.writer && r.readers == l.readers && r.waitingReaders == []
    ensures |l.waitingWriters| > 0 ==>
              && r.woken == l.woken + AsWoken(l.waitingReaders, Read) + [Woken(l.waitingWriters[0], Write)]
              && r.waitingWriters == l.waitingWriters[1..]
    ensures |l.waitingWriters| == 0 ==>
              r.woken == l.woken + AsWoken(l.waitingReaders, Read) && r.waitingWriters == []
  {
    var l' := l.(writer := false, waitingReaders := [],
                 woken := l.woken + AsWoken(l.waitingReaders, Read));
    if |l'.waitingWriters| > 0 then
      l'.(woken := l'.woken + [Woken(l'.waitingWriters[0], Write)],
          waitingWriters := l'.waitingWriters[1..])
    else l'
  }

  /** The oldest resolved waiter resumes and tests its loop condition again: it is
      admitted or queued once more at the back. Nothing happens if nobody was resolved. */
  function Resume<W>(l: Lock<W>): (o: Outcome<W>)
    ensures |l.woken| == 0 ==> o == Outcome(l, false)
    ensures |l.woken| > 0 && l.woken[0].mode == Read ==>
              o == TryRead(l.(woken := l.woken[1..]), l.woken[0].id)
    ensures |l.woken| > 0 && l.woken[0].mode == Write ==>
              o == TryWrite(l.(woken := l.woken[1..]), l.woken[0].id)
  {
    if |l.woken| == 0 then Outcome(l, false)
    else
      var w := l.woken[0];
      var l' := l.(woken := l.woken[1..]);
      match w.mode
      case Read => TryRead(l', w.id)
      case Write => TryWrite(l', w.id)
  }

  /** Everything that can happen to a lock, in any interleaving. */
  datatype Op<W> = AcqRead(w: W) | AcqWrite(w: W) | RelRead | RelWrite | ResumeOne

  function Apply<W>(l: Lock<W>, op: Op<W>): Lock<W> {
    match op
    case AcqRead(w) => AcquireRead(l, w).lock
    case AcqWrite(w) => AcquireWrite(l, w).lock
    case RelRead => ReleaseRead(l)
    case RelWrite => ReleaseWrite(l)
    case ResumeOne => Resume(l).lock
  }

  function Run<W>(l: Lock<W>, ops: seq<Op<W>>): Lock<W>
    decreases |ops|
  {
    if |ops| == 0 then l else Run(Apply(l, ops[0]), ops[1..])
  }

  lemma ApplyKeepsExclusive<W>(l: Lock<W>, op: Op<W>)
    requires Exclusive(l)
    ensures Exclusive(Apply(l, op))
  {
  }

  /** Readers and a writer never hold the lock together, after any sequence of calls,
      matched or not. */
  lemma {:induction false} RunKeepsExclusive<W>(l: Lock<W>, ops: seq<Op<W>>)
    requires Exclusive(l)
    ensures Exclusive(Run(l, ops))
    decreases |ops|
  {
    if |ops| > 0 {
      ApplyKeepsExclusive(l, ops[0]);
      RunKeepsExclusive(Apply(l, ops[0]), ops[1..]);
    }
  }

  /** Writer preference: while a writer is queued, no reader gets in, neither a new
      caller nor a resolved reader that resumes. */
  lemma QueuedWriterBlocksReaders<W>(l: Lock<W>, w: W)
    requires |l.waitingWriters| > 0
    ensures !AcquireRead(l, w).admitted
    ensures |l.woken| > 0 && l.woken[0].mode == Read ==> !Resume(l).admitted
  {
  }

  /** A writer is admitted only with no writer and no reader inside. */
  lemma WriterNeedsEmptyLock<W>(l: Lock<W>, w: W)
    ensures AcquireWrite(l, w).admitted <==> !l.writer && l.readers <= 0
    ensures |l.woken| > 0 && l.woken[0].mode == Write ==>
              (Resume(l).admitted <==> !l.writer && l.readers <= 0)
  {
  }

  /** Three readers get in together; a writer arriving then waits, and it is resolved
      by the third `releaseRead` and admitted when it resumes. */
  lemma ThreeReadersThenWriter<W>(r1: W, r2: W, r3: W, w: W)
    ensures var l0 := New<W>();
      var a1 := AcquireRead(l0, r1);
      var a2 := AcquireRead(a1.lock, r2);
      var a3 := AcquireRead(a2.lock, r3);
      var aw := AcquireWrite(a3.lock, w);
      var l1 := ReleaseRead(ReleaseRead(aw.lock));
      var l2 := ReleaseRead(l1);
      && a1.admitted && a2.admitted && a3.admitted && !aw.admitted
      && l1.woken == [] && l2.woken == [Woken(w, Write)]
      && Resume(l2).admitted && Resume(l2).lock.writer
  {
  }

  /** The writer preference has a gap: a writer resolved by the last `releaseRead` has
      left `waitingWriters` but is not yet admitted, so a reader calling `acquireRead`
      before it resumes gets in ahead of it, and the writer goes back to the queue. */
  lemma ReaderOvertakesResolvedWriter<W>(r1: W, r2: W, w: W)
    ensures var a1 := AcquireRead(New<W>(), r1);
      var aw := AcquireWrite(a1.lock, w);
      var l := ReleaseRead(aw.lock);
      var a2 := AcquireRead(l, r2);
      var res := Resume(a2.lock);
      && a1.admitted && !aw.admitted
      && l.woken == [Woken(w, Write)] && l.waitingWriters == []
      && a2.admitted && !res.admitted && res.lock.waitingWriters == [w]
  {
  }

  /** A batch of readers resolved by `releaseWrite` re-queues itself when a second
      writer is still waiting: resolving readers does not admit them. */
  lemma ResolvedReadersRequeueBehindWriters<W>(r: W, w1: W, w2: W)
    ensures var l := Lock(0, true, [r], [w1, w2], []);
      var l1 := ReleaseWrite(l);
      var res := Resume(l1);
      && l1.woken == [Woken(r, Read), Woken(w1, Write)]
      && !res.admitted && res.lock.waitingReaders == [r]
  {
  }
}
