/**
 The public operations of the thread registry. Each one runs under the
 registry's single lock, so it is modelled as one atomic transition from a
 registry value to a registry value (and a reply). A failed internal
 assertion ends the process, so each assertion becomes a precondition.
 */
module ThreadRegistry {
  import opened RegistryState
  import opened ShutdownDispatch

  /** The registry as constructed: both indices empty. */
  function Create(): (r: Registry)
    ensures Valid(r)
    ensures r.threads == map[]
    ensures forall p :: Members(r, p) == {}
  {
    Registry(map[], map[])
  }

  /** The two assertions `registerThread` makes before inserting. */
  predicate CanRegister(r: Registry, pool: string, tid: Tid)
  {
    tid !in Members(r, pool) && tid !in r.threads
  }

  /**
   Registers `tid` under `pool`: the pool entry is created if needed, `tid`
   joins its set, and `tid` gets a fresh record with a clear shutdown flag
   and the label "Starting up".
   */
  function RegisterThread(r: Registry, pool: string, tid: Tid): (r': Registry)
    requires CanRegister(r, pool, tid)
    ensures pool in r'.store && tid in r'.store[pool]
    ensures tid in r'.threads && r'.threads[tid] == ThreadData(pool, false, StartingUp)
    ensures r'.store.Keys == r.store.Keys + {pool}
    ensures |Members(r', pool)| == |Members(r, pool)| + 1
    ensures forall p :: p != pool ==> Members(r', p) == Members(r, p)
    ensures Members(r', pool) == Members(r, pool) + {tid}
    ensures r'.threads.Keys == r.threads.Keys + {tid}
    ensures forall t :: t in r.threads ==> r'.threads[t] == r.threads[t]
  {
    var joined := Members(r, pool) + {tid};
    assert |joined| == |Members(r, pool)| + 1;
    r.(store := r.store[pool := joined],
       threads := r.threads[tid := ThreadData(pool, false, StartingUp)])
  }

  /** Registration keeps the cross-index invariant. */
  lemma RegisterKeepsValid(r: Registry, pool: string, tid: Tid)
    requires CanRegister(r, pool, tid)
    ensures Valid(r) ==> Valid(RegisterThread(r, pool, tid))
  {
    var r' := RegisterThread(r, pool, tid);
    if Valid(r) {
      forall p, t | p in r'.store && t in r'.store[p]
        ensures t in r'.threads && r'.threads[t].pool == p
      {
        if p == pool {
          assert r'.store[p] == Members(r, pool) + {tid};
          if t != tid {
            assert t in Members(r, pool);
          }
        } else {
          assert r'.store[p] == r.store[p];
        }
      }
      forall t | t in r'.threads
        ensures r'.threads[t].pool in r'.store && t in r'.store[r'.threads[t].pool]
      {
        if t != tid {
          var p := r.threads[t].pool;
          assert r'.threads[t] == r.threads[t];
          assert t in Members(r, p);
          assert t in Members(r', p);
        }
      }
    }
  }

  /** The two assertions `unregisterThread` makes before erasing. */
  predicate CanUnregister(r: Registry, pool: string, tid: Tid)
  {
    tid in Members(r, pool) && tid in r.threads
  }

  /**
   Unregisters `tid` from `pool`: `tid` leaves the pool set and loses its
   record. The pool entry stays, even when its set becomes empty.
   */
  function UnregisterThread(r: Registry, pool: string, tid: Tid): (r': Registry)
    requires CanUnregister(r, pool, tid)
    ensures pool in r'.store && tid !in r'.store[pool]
    ensures r'.store.Keys == r.store.Keys
    ensures |Members(r', pool)| == |Members(r, pool)| - 1
    ensures forall p :: p != pool ==> Members(r', p) == Members(r, p)
    ensures Members(r', pool) == Members(r, pool) - {tid}
    ensures r'.threads.Keys == r.threads.Keys - {tid}
    ensures forall t :: t in r'.threads ==> r'.threads[t] == r.threads[t]
  {
    r.(store := r.store[pool := Members(r, pool) - {tid}],
       threads := r.threads - {tid})
  }

  /**
   Unregistration keeps the cross-index invariant, and afterwards the thread
   is a member of no pool set at all.
   */
  lemma UnregisterKeepsValid(r: Registry, pool: string, tid: Tid)
    requires CanUnregister(r, pool, tid)
    ensures Valid(r) ==> Valid(UnregisterThread(r, pool, tid))
    ensures Valid(r) ==> forall p :: tid !in Members(UnregisterThread(r, pool, tid), p)
  {
    var r' := UnregisterThread(r, pool, tid);
    if Valid(r) {
      forall p, t | p in r'.store && t in r'.store[p]
        ensures t in r'.threads && r'.threads[t].pool == p
      {
        assert t in Members(r, p);
      }
      forall t | t in r'.threads
        ensures r'.threads[t].pool in r'.store && t in r'.store[r'.threads[t].pool]
      {
        assert t in Members(r, r.threads[t].pool);
      }
      assert r.threads[tid].pool == pool;
    }
  }

  /**
   The number of threads registered under `pool`, with the entry for `pool`
   created as a side effect. The reply is the number of thread records that
   name `pool`, whichever index it is read from.
   */
  function PoolCount(r: Registry, pool: string): (res: (Registry, nat))
    ensures res.1 == |Members(r, pool)|
    ensures Valid(r) ==> res.1 == |ThreadsOf(r.threads, pool)|
    ensures pool in res.0.store && res.0.store.Keys == r.store.Keys + {pool}
    ensures forall p :: Members(res.0, p) == Members(r, p)
    ensures res.0.threads == r.threads
  {
    ValidIffViews(r);
    (Touch(r, pool), |Members(r, pool)|)
  }

  /** Counting a pool keeps the cross-index invariant. */
  lemma PoolCountKeepsValid(r: Registry, pool: string)
    ensures Valid(r) ==> Valid(PoolCount(r, pool).0)
  {
  }

  /**
   Raises the shutdown flag of up to `count` threads of `pool` whose flag is
   clear, visiting the pool's set in the iteration order `order`, and
   replies whether exactly `count` flags were raised. With `count == 0` the
   walk never stops early: every clear flag of the pool is raised and the
   reply is true only when there was none.
   */
  function SendShutdown(r: Registry, pool: string, count: nat, order: seq<Tid>): (res: (Registry, bool))
    requires IsEnumeration(order, Members(r, pool))
    requires forall t :: t in Members(r, pool) ==> t in r.threads
    ensures pool in res.0.store && res.0.store.Keys == r.store.Keys + {pool}
    ensures forall p :: Members(res.0, p) == Members(r, p)
    ensures res.0.threads.Keys == r.threads.Keys
    ensures forall t :: t in r.threads ==>
      && res.0.threads[t].pool == r.threads[t].pool
      && res.0.threads[t].state == r.threads[t].state
      && (r.threads[t].shouldShutdown ==> res.0.threads[t].shouldShutdown)
    ensures forall t :: t in r.threads && t !in Members(r, pool) ==> res.0.threads[t] == r.threads[t]
    ensures Flipped(r.threads, res.0.threads) <= Unflagged(r.threads, Members(r, pool))
    ensures RaisesInOrder(order, r.threads, res.0.threads)
    ensures count > 0 ==> |Flipped(r.threads, res.0.threads)| == Min(count, |Unflagged(r.threads, Members(r, pool))|)
    ensures count == 0 ==> Flipped(r.threads, res.0.threads) == Unflagged(r.threads, Members(r, pool))
    ensures res.1 <==> |Flipped(r.threads, res.0.threads)| == count
    ensures res.1 <==> if count == 0 then Unflagged(r.threads, Members(r, pool)) == {}
                       else count <= |Unflagged(r.threads, Members(r, pool))|
  {
    var walk := Dispatch(order, r.threads, count, 0);
    (Touch(r, pool).(threads := walk.0), walk.1 == count)
  }

  /** A shutdown request keeps the cross-index invariant. */
  lemma SendShutdownKeepsValid(r: Registry, pool: string, count: nat, order: seq<Tid>)
    requires IsEnumeration(order, Members(r, pool))
    requires forall t :: t in Members(r, pool) ==> t in r.threads
    ensures Valid(r) ==> Valid(SendShutdown(r, pool, count, order).0)
  {
    var r' := SendShutdown(r, pool, count, order).0;
    if Valid(r) {
      forall t | t in r'.threads
        ensures r'.threads[t].pool in r'.store && t in r'.store[r'.threads[t].pool]
      {
        assert r'.threads[t].pool == r.threads[t].pool;
        assert t in Members(r, r.threads[t].pool);
      }
    }
  }

  /** The assertion `shouldShutdown` and `setThreadState` make. */
  predicate IsRegistered(r: Registry, tid: Tid)
  {
    tid in r.threads
  }

  /**
   Polls the shutdown flag of `tid`. The flag is raised exactly when `tid` is
   no longer among the threads of its pool that a shutdown request can
   still recruit. The registry is not changed.
   */
  function ShouldShutdown(r: Registry, tid: Tid): (b: bool)
    requires IsRegistered(r, tid)
    ensures Valid(r) ==> (b <==> tid !in Unflagged(r.threads, Members(r, r.threads[tid].pool)))
  {
    r.threads[tid].shouldShutdown
  }

  /** Overwrites the status label of `tid`; nothing else changes. */
  function SetThreadState(r: Registry, tid: Tid, state: string): (r': Registry)
    requires IsRegistered(r, tid)
    ensures r'.store == r.store
    ensures r'.threads.Keys == r.threads.Keys
    ensures r'.threads[tid].state == state
    ensures forall t :: t in r.threads ==>
      && r'.threads[t].pool == r.threads[t].pool
      && r'.threads[t].shouldShutdown == r.threads[t].shouldShutdown
    ensures forall t :: t in r.threads && t != tid ==> r'.threads[t] == r.threads[t]
  {
    r.(threads := r.threads[tid := r.threads[tid].(state := state)])
  }

  /** A status update keeps the cross-index invariant. */
  lemma SetThreadStateKeepsValid(r: Registry, tid: Tid, state: string)
    requires IsRegistered(r, tid)
    ensures Valid(r) ==> Valid(SetThreadState(r, tid, state))
  {
  }

  /**
   A copy of the thread index, records included. Under the invariant the copy
   lists, for every pool, exactly the members of that pool's set.
   */
  function GetThreadMap(r: Registry): (snapshot: map<Tid, ThreadData>)
    ensures snapshot.Keys == r.threads.Keys
    ensures forall t :: t in snapshot ==> snapshot[t] == r.threads[t]
    ensures Valid(r) ==> forall p :: ThreadsOf(snapshot, p) == Members(r, p)
    ensures Valid(r) ==> forall t :: t in snapshot ==> t in Members(r, snapshot[t].pool)
  {
    ValidIffViews(r);
    r.threads
  }

  /** The assertion the destructor makes: no thread is still registered. */
  predicate CanDestroy(r: Registry)
  {
    |r.threads| == 0
  }
}
