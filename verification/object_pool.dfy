/** `ObjectPool<T>`: a free list used as a stack plus the set of objects handed out.
    The `create` factory is not called here: its next result is passed in as `made`. */
module ObjectPool {
  import opened Prelude

  /** The `max` option; an absent `max` is `Infinity`. */
  datatype Limit = Unbounded | AtMost(n: int)

  /** `count < maxSize`, with `Infinity` above every count. */
  predicate Below(count: nat, limit: Limit) {
    limit.Unbounded? || count < limit.n
  }

  datatype Pool<T> = Pool(free: seq<T>, inUse: set<T>, maxSize: Limit, hasReset: bool)
  {
    /** `available` */
    function Available(): nat { |free| }

    /** `active` */
    function Active(): nat { |inUse| }

    /** `size` */
    function Size(): nat { |free| + |inUse| }

    /** Every tracked object sits in exactly one place: the free list holds no
        duplicates and shares nothing with the in-use set. */
    ghost predicate Valid() {
      && NoDup(free)
      && forall i :: 0 <= i < |free| ==> free[i] !in inUse
    }

    /** The objects the pool currently knows about. */
    ghost function Tracked(): set<T> {
      (set i | 0 <= i < |free| :: free[i]) + inUse
    }
  }

  datatype Acquired<T> = Acquired(pool: Pool<T>, obj: T)
  datatype Released<T> = Released(pool: Pool<T>, resetCalled: bool)

  /** The constructor: the `initial` pre-warmed objects `created` go to the free list in
      creation order, whatever `max` says. */
  function New<T>(created: seq<T>, maxSize: Limit, hasReset: bool): (p: Pool<T>)
    ensures p.free == created && p.inUse == {}
    ensures p.maxSize == maxSize && p.hasReset == hasReset
    ensures p.Available() == |created| && p.Active() == 0
    ensures NoDup(created) ==> p.Valid()
  {
    Pool(created, {}, maxSize, hasReset)
  }

  /** The free list keeps creation order, so the first `acquire` on a pre-warmed pool
      hands out the object created last. */
  lemma NewAcquiresLastCreated<T>(created: seq<T>, maxSize: Limit, hasReset: bool, made: T)
    requires |created| > 0
    ensures Acquire(New(created, maxSize, hasReset), made).obj == created[|created| - 1]
    ensures Acquire(New(created, maxSize, hasReset), made).pool.free == created[..|created| - 1]
  {
  }

  /** `acquire()`: pops the most recently freed object, or takes a new one from `create()`,
      and marks it in use. */
  function Acquire<T>(p: Pool<T>, made: T): (a: Acquired<T>)
    ensures a.obj in a.pool.inUse
    ensures |p.free| > 0 ==> a.obj == p.free[|p.free| - 1] && a.pool.free + [a.obj] == p.free
    ensures |p.free| == 0 ==> a.obj == made && a.pool.free == []
    ensures a.pool.inUse == p.inUse + {a.obj} && a.pool.maxSize == p.maxSize
  {
    if |p.free| > 0 then
      var obj := p.free[|p.free| - 1];
      Acquired(p.(free := p.free[..|p.free| - 1], inUse := p.inUse + {obj}), obj)
    else
      Acquired(p.(inUse := p.inUse + {made}), made)
  }

  /** `release(obj)`: ignored unless `obj` is in use; otherwise it leaves the in-use set,
      is reset, and goes back on the free list only while the list is below `max`. */
  function Release<T>(p: Pool<T>, obj: T): (r: Released<T>)
    ensures obj !in p.inUse ==> r.pool == p && !r.resetCalled
    ensures obj in p.inUse ==> r.pool.inUse == p.inUse - {obj} && r.resetCalled == p.hasReset
    ensures obj in p.inUse && Below(|p.free|, p.maxSize) ==> r.pool.free == p.free + [obj]
    ensures !Below(|p.free|, p.maxSize) ==> r.pool.free == p.free
  {
    if obj !in p.inUse then Released(p, false)
    else
      var q := p.(inUse := p.inUse - {obj});
      if Below(|p.free|, p.maxSize) then Released(q.(free := p.free + [obj]), p.hasReset)
      else Released(q, p.hasReset)
  }

  /** `clear()`: both collections are dropped without resetting anything. */
  function Clear<T>(p: Pool<T>): (q: Pool<T>)
    ensures q.Size() == 0 && q.maxSize == p.maxSize
  {
    p.(free := [], inUse := {})
  }

  /** `size` counts every tracked object exactly once. */
  lemma SizeCountsTracked<T>(p: Pool<T>)
    requires p.Valid()
    ensures p.Size() == |p.Tracked()|
  {
    var fs := set i | 0 <= i < |p.free| :: p.free[i];
    DistinctElements(p.free);
    assert fs !! p.inUse;
  }

  lemma {:induction false} DistinctElements<T>(s: seq<T>)
    requires NoDup(s)
    ensures |set i | 0 <= i < |s| :: s[i]| == |s|
  {
    if |s| > 0 {
      var init := s[..|s| - 1];
      DistinctElements(init);
      var a := set i | 0 <= i < |init| :: init[i];
      var b := set i | 0 <= i < |s| :: s[i];
      assert b == a + {s[|s| - 1]};
      assert s[|s| - 1] !in a;
    }
  }

  lemma AcquireKeepsValid<T>(p: Pool<T>, made: T)
    requires p.Valid()
    requires |p.free| == 0 ==> made !in p.inUse
    ensures Acquire(p, made).pool.Valid()
  {
  }

  /** Taking a pooled object keeps `size`; creating one grows it by one. */
  lemma AcquireSize<T>(p: Pool<T>, made: T)
    requires p.Valid()
    requires |p.free| == 0 ==> made !in p.inUse
    ensures var a := Acquire(p, made);
      a.pool.Size() == p.Size() + (if |p.free| > 0 then 0 else 1)
      && a.pool.Active() == p.Active() + 1
  {
  }

  lemma ReleaseKeepsValid<T>(p: Pool<T>, obj: T)
    requires p.Valid()
    ensures Release(p, obj).pool.Valid()
  {
  }

  /** Releasing shrinks `size` by one exactly when the free list is full and the object
      is dropped; otherwise the object only changes sides. */
  lemma ReleaseSize<T>(p: Pool<T>, obj: T)
    requires obj in p.inUse
    ensures var q := Release(p, obj).pool;
      q.Size() == p.Size() - (if Below(|p.free|, p.maxSize) then 0 else 1)
  {
  }

  /** `release` never grows the free list past `max`. */
  lemma ReleaseRespectsMax<T>(p: Pool<T>, obj: T)
    requires p.maxSize.AtMost? && |p.free| <= p.maxSize.n
    ensures |Release(p, obj).pool.free| <= p.maxSize.n
  {
  }

  /** `acquire(); release(o); acquire()` hands back `o` itself when the free list has room. */
  lemma ReleaseThenAcquireReuses<T>(p: Pool<T>, obj: T, made: T)
    requires obj in p.inUse && Below(|p.free|, p.maxSize)
    ensures Acquire(Release(p, obj).pool, made).obj == obj
  {
  }

  /** Releases applied one after another, left to right. */
  function ReleaseAll<T>(p: Pool<T>, objs: seq<T>): Pool<T>
    decreases |objs|
  {
    if |objs| == 0 then p else ReleaseAll(Release(p, objs[0]).pool, objs[1..])
  }

  /** Releasing distinct in-use objects keeps the first ones until the free list reaches
      `max` and discards the rest. */
  lemma {:induction false} ReleaseAllFills<T>(p: Pool<T>, objs: seq<T>)
    requires NoDup(objs)
    requires forall i :: 0 <= i < |objs| ==> objs[i] in p.inUse
    requires p.maxSize.AtMost? && |p.free| <= p.maxSize.n
    ensures |ReleaseAll(p, objs).free| == Min(p.maxSize.n, |p.free| + |objs|)
    decreases |objs|
  {
    if |objs| > 0 {
      var q := Release(p, objs[0]).pool;
      forall i | 0 <= i < |objs[1..]|
        ensures objs[1..][i] in q.inUse
      {
        assert objs[1..][i] == objs[i + 1] != objs[0];
      }
      ReleaseAllFills(q, objs[1..]);
    }
  }

  /** With `max = 1`, two released objects leave exactly the first one in the free list,
      and the next `acquire` returns it without calling `create`. */
  lemma MaxOneKeepsFirst<T>(a: T, b: T, made: T)
    requires a != b
    ensures var p := Pool([], {a, b}, AtMost(1), false);
      var q := ReleaseAll(p, [a, b]);
      q.free == [a] && q.inUse == {} && Acquire(q, made).obj == a
  {
    var p := Pool([], {a, b}, AtMost(1), false);
    var p1 := Release(p, a).pool;
    assert p1.free == [a] && p1.inUse == {b};
    assert [a, b][1..] == [b];
    assert ReleaseAll(p, [a, b]) == ReleaseAll(p1, [b]);
    assert [b][1..] == [];
  }
}
