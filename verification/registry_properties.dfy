/**
 Properties that relate several operations of the thread registry: the
 register/unregister round trip, the contract violations of the lifecycle,
 the order independence and exhaustion of shutdown dispatch, and the
 invariant every run of operations keeps.
 */
module RegistryProperties {
  import opened RegistryState
  import opened ShutdownDispatch
  import opened ThreadRegistry

  /**
   Registering and then unregistering the same thread under the same pool
   gives back the thread index and the pool's set; the only trace left is
   the pool entry, which now exists even if it did not before.
   */
  lemma RegisterUnregisterRoundTrip(r: Registry, pool: string, tid: Tid)
    requires CanRegister(r, pool, tid)
    ensures CanUnregister(RegisterThread(r, pool, tid), pool, tid)
    ensures UnregisterThread(RegisterThread(r, pool, tid), pool, tid).threads == r.threads
    ensures Members(UnregisterThread(RegisterThread(r, pool, tid), pool, tid), pool) == Members(r, pool)
    ensures UnregisterThread(RegisterThread(r, pool, tid), pool, tid) == Touch(r, pool)
    ensures pool in r.store ==> UnregisterThread(RegisterThread(r, pool, tid), pool, tid) == r
  {
    var r1 := RegisterThread(r, pool, tid);
    var r2 := UnregisterThread(r1, pool, tid);
    var m := Members(r, pool);
    MapRoundTrip(r.store, r.threads, pool, m, tid, ThreadData(pool, false, StartingUp));
    assert r2.store == r.store[pool := m];
    assert r2.threads == r.threads;
  }

  lemma MapRoundTrip(store: map<string, set<Tid>>, threads: map<Tid, ThreadData>, pool: string, m: set<Tid>, tid: Tid, d: ThreadData)
    requires tid !in m && tid !in threads
    ensures store[pool := m + {tid}][pool := (m + {tid}) - {tid}] == store[pool := m]
    ensures threads[tid := d] - {tid} == threads
  {
    assert (m + {tid}) - {tid} == m;
  }

  /**
   Under the invariant, `registerThread` is a contract violation exactly when
   the thread is already registered, under any pool.
   */
  lemma RegisterViolationIsDoubleRegistration(r: Registry, pool: string, tid: Tid)
    requires Valid(r)
    ensures CanRegister(r, pool, tid) <==> tid !in r.threads
  {
  }

  /** A second registration of the same thread, under the same pool or another, is refused. */
  lemma DoubleRegistrationRefused(r: Registry, pool: string, tid: Tid, other: string)
    requires CanRegister(r, pool, tid)
    ensures !CanRegister(RegisterThread(r, pool, tid), other, tid)
  {
  }

  /**
   Under the invariant, `unregisterThread` is allowed exactly when the thread
   is registered and registered under that very pool.
   */
  lemma UnregisterViolationIsWrongOrAbsent(r: Registry, pool: string, tid: Tid)
    requires Valid(r)
    ensures CanUnregister(r, pool, tid) <==> tid in r.threads && r.threads[tid].pool == pool
  {
  }

  /** A registration raises the pool's count by one, and the new thread is not asked to stop. */
  lemma RegisterThenQuery(r: Registry, pool: string, tid: Tid)
    requires CanRegister(r, pool, tid)
    ensures PoolCount(RegisterThread(r, pool, tid), pool).1 == PoolCount(r, pool).1 + 1
    ensures !ShouldShutdown(RegisterThread(r, pool, tid), tid)
  {
  }

  /**
   Two iteration orders of the pool give the same reply, the same number of
   raised flags and the same pool index; when the walk cannot stop early
   (a count of zero, or no more threads with a clear flag than requested)
   they give the very same registry.
   */
  lemma SendShutdownOrderIndependent(r: Registry, pool: string, count: nat, o1: seq<Tid>, o2: seq<Tid>)
    requires IsEnumeration(o1, Members(r, pool)) && IsEnumeration(o2, Members(r, pool))
    requires forall t :: t in Members(r, pool) ==> t in r.threads
    ensures SendShutdown(r, pool, count, o1).1 == SendShutdown(r, pool, count, o2).1
    ensures SendShutdown(r, pool, count, o1).0.store == SendShutdown(r, pool, count, o2).0.store
    ensures |Flipped(r.threads, SendShutdown(r, pool, count, o1).0.threads)|
         == |Flipped(r.threads, SendShutdown(r, pool, count, o2).0.threads)|
    ensures count == 0 || |Unflagged(r.threads, Members(r, pool))| <= count ==>
      SendShutdown(r, pool, count, o1).0 == SendShutdown(r, pool, count, o2).0
  {
    var a := SendShutdown(r, pool, count, o1).0;
    var b := SendShutdown(r, pool, count, o2).0;
    if count == 0 || |Unflagged(r.threads, Members(r, pool))| <= count {
      AllEligibleFlipped(r, pool, count, o1);
      AllEligibleFlipped(r, pool, count, o2);
      SameRaisesSameIndex(r.threads, a.threads, b.threads);
    }
  }

  /** Two changes that only raise flags, and raise the same ones, give the same thread index. */
  lemma SameRaisesSameIndex(before: map<Tid, ThreadData>, a: map<Tid, ThreadData>, b: map<Tid, ThreadData>)
    requires a.Keys == before.Keys && b.Keys == before.Keys
    requires forall t :: t in before ==>
      && a[t].pool == before[t].pool && a[t].state == before[t].state
      && b[t].pool == before[t].pool && b[t].state == before[t].state
      && (before[t].shouldShutdown ==> a[t].shouldShutdown && b[t].shouldShutdown)
    requires Flipped(before, a) == Flipped(before, b)
    ensures a == b
  {
    forall t | t in before
      ensures a[t] == b[t]
    {
      if !before[t].shouldShutdown {
        assert a[t].shouldShutdown <==> t in Flipped(before, a);
        assert b[t].shouldShutdown <==> t in Flipped(before, b);
      }
    }
  }

  /** When the walk cannot stop early, every thread of the pool with a clear flag gets its flag raised. */
  lemma AllEligibleFlipped(r: Registry, pool: string, count: nat, order: seq<Tid>)
    requires IsEnumeration(order, Members(r, pool))
    requires forall t :: t in Members(r, pool) ==> t in r.threads
    requires count == 0 || |Unflagged(r.threads, Members(r, pool))| <= count
    ensures Flipped(r.threads, SendShutdown(r, pool, count, order).0.threads) == Unflagged(r.threads, Members(r, pool))
  {
    var after := SendShutdown(r, pool, count, order).0.threads;
    var eligible := Unflagged(r.threads, Members(r, pool));
    if count > 0 {
      SubsetOfSameSizeIsEqual(Flipped(r.threads, after), eligible);
    }
  }

  /** A subset as large as its superset is the superset. */
  lemma SubsetOfSameSizeIsEqual(a: set<Tid>, b: set<Tid>)
    requires a <= b && |a| == |b|
    ensures a == b
  {
    assert |b - a| == |b| - |a|;
  }

  /**
   A call that asked for at least one thread and was not satisfied leaves no
   thread of the pool with a clear flag.
   */
  lemma UnsatisfiedShutdownExhaustsPool(r: Registry, pool: string, count: nat, order: seq<Tid>)
    requires IsEnumeration(order, Members(r, pool))
    requires forall t :: t in Members(r, pool) ==> t in r.threads
    requires count > 0 && !SendShutdown(r, pool, count, order).1
    ensures Unflagged(SendShutdown(r, pool, count, order).0.threads, Members(r, pool)) == {}
  {
    var after := SendShutdown(r, pool, count, order).0.threads;
    AllEligibleFlipped(r, pool, count, order);
    forall t | t in Members(r, pool)
      ensures after[t].shouldShutdown
    {
      if !r.threads[t].shouldShutdown {
        assert t in Flipped(r.threads, after);
      }
    }
  }

  /** On a pool whose flags are all raised, a request for one thread or more fails and changes no flag. */
  lemma ShutdownOnExhaustedPool(r: Registry, pool: string, count: nat, order: seq<Tid>)
    requires IsEnumeration(order, Members(r, pool))
    requires forall t :: t in Members(r, pool) ==> t in r.threads
    requires Unflagged(r.threads, Members(r, pool)) == {}
    requires count > 0
    ensures !SendShutdown(r, pool, count, order).1
    ensures SendShutdown(r, pool, count, order).0.threads == r.threads
  {
    var after := SendShutdown(r, pool, count, order).0.threads;
    forall t | t in r.threads
      ensures after[t] == r.threads[t]
    {
      if t in Members(r, pool) {
        assert t !in Unflagged(r.threads, Members(r, pool));
      }
    }
  }

  /**
   After a shutdown request, the threads of the pool whose flag is still
   clear are those whose flag was clear before and that the request did not
   recruit; their number is what the request left over.
   */
  lemma ShutdownLeavesRemainder(r: Registry, pool: string, count: nat, order: seq<Tid>)
    requires IsEnumeration(order, Members(r, pool))
    requires forall t :: t in Members(r, pool) ==> t in r.threads
    ensures var after := SendShutdown(r, pool, count, order).0.threads;
            Unflagged(after, Members(r, pool))
            == Unflagged(r.threads, Members(r, pool)) - Flipped(r.threads, after)
    ensures count > 0 ==>
      |Unflagged(SendShutdown(r, pool, count, order).0.threads, Members(r, pool))|
      == |Unflagged(r.threads, Members(r, pool))| - Min(count, |Unflagged(r.threads, Members(r, pool))|)
  {
    var after := SendShutdown(r, pool, count, order).0.threads;
    var before := Unflagged(r.threads, Members(r, pool));
    var flips := Flipped(r.threads, after);
    forall t | t in Members(r, pool)
      ensures t in Unflagged(after, Members(r, pool)) <==> t in before && t !in flips
    {
    }
    assert Unflagged(after, Members(r, pool)) == before - flips;
    assert |before - flips| == |before| - |flips|;
  }

  /** The registry a fresh one becomes after three distinct threads register under one pool; all three flags are clear. */
  function ThreeRegistered(pool: string, a: Tid, b: Tid, c: Tid): (r: Registry)
    requires a != b && b != c && a != c
    ensures Members(r, pool) == {a, b, c}
    ensures forall t :: t in Members(r, pool) ==> t in r.threads
    ensures |Unflagged(r.threads, {a, b, c})| == 3
  {
    var r1 := RegisterThread(Create(), pool, a);
    assert Members(r1, pool) == {a};
    var r2 := RegisterThread(r1, pool, b);
    assert Members(r2, pool) == {a, b};
    var r := RegisterThread(r2, pool, c);
    assert Members(r, pool) == {a, b, c};
    assert !r.threads[a].shouldShutdown && !r.threads[b].shouldShutdown && !r.threads[c].shouldShutdown;
    assert Unflagged(r.threads, {a, b, c}) == {a, b, c};
    r
  }

  /** A request for two on a pool with three clear flags succeeds and leaves one clear flag. */
  lemma TwoOfThree(r: Registry, pool: string, s: set<Tid>, order: seq<Tid>)
    requires Members(r, pool) == s && IsEnumeration(order, s)
    requires forall t :: t in s ==> t in r.threads
    requires |Unflagged(r.threads, s)| == 3
    ensures var res := SendShutdown(r, pool, 2, order);
            && res.1
            && Members(res.0, pool) == s
            && (forall t :: t in s ==> t in res.0.threads)
            && |Unflagged(res.0.threads, s)| == 1
  {
    ShutdownLeavesRemainder(r, pool, 2, order);
  }

  /** A request for two on a pool with one clear flag fails and leaves no clear flag. */
  lemma TwoOfOne(r: Registry, pool: string, s: set<Tid>, order: seq<Tid>)
    requires Members(r, pool) == s && IsEnumeration(order, s)
    requires forall t :: t in s ==> t in r.threads
    requires |Unflagged(r.threads, s)| == 1
    ensures var res := SendShutdown(r, pool, 2, order);
            && !res.1
            && Members(res.0, pool) == s
            && (forall t :: t in s ==> t in res.0.threads)
            && Unflagged(res.0.threads, s) == {}
  {
    ShutdownLeavesRemainder(r, pool, 2, order);
  }

  /**
   Three threads registered in an empty registry under one pool, none
   flagged: a request for two raises two flags and succeeds, leaving one
   thread with a clear flag; a second request for two raises that last
   flag and fails; a third request for any positive count fails and
   raises nothing. Each call may walk the pool in its own order.
   */
  lemma ThreeThreadShutdownScenario(pool: string, a: Tid, b: Tid, c: Tid, o1: seq<Tid>, o2: seq<Tid>, o3: seq<Tid>, k: nat)
    requires a != b && b != c && a != c
    requires IsEnumeration(o1, {a, b, c}) && IsEnumeration(o2, {a, b, c}) && IsEnumeration(o3, {a, b, c})
    requires k > 0
    ensures var r3 := ThreeRegistered(pool, a, b, c);
            var first := SendShutdown(r3, pool, 2, o1);
            var second := SendShutdown(first.0, pool, 2, o2);
            var third := SendShutdown(second.0, pool, k, o3);
            && first.1
            && |Unflagged(first.0.threads, {a, b, c})| == 1
            && !second.1
            && Unflagged(second.0.threads, {a, b, c}) == {}
            && !third.1
            && third.0.threads == second.0.threads
  {
    var r3 := ThreeRegistered(pool, a, b, c);
    TwoOfThree(r3, pool, {a, b, c}, o1);
    var first := SendShutdown(r3, pool, 2, o1);
    TwoOfOne(first.0, pool, {a, b, c}, o2);
    var second := SendShutdown(first.0, pool, 2, o2);
    ShutdownOnExhaustedPool(second.0, pool, k, o3);
  }

  /**
   A request for one thread on a pool of two clear threads raises the flag
   of the one met first and stops: the other keeps its clear flag.
   */
  lemma FirstClearIsRaised(r: Registry, pool: string, a: Tid, b: Tid)
    requires a != b && Members(r, pool) == {a, b}
    requires a in r.threads && !r.threads[a].shouldShutdown
    requires b in r.threads && !r.threads[b].shouldShutdown
    ensures var res := SendShutdown(r, pool, 1, [a, b]);
            && res.1
            && res.0.threads[a].shouldShutdown
            && !res.0.threads[b].shouldShutdown
  {
    var order := [a, b];
    assert Elements(order) == {a, b};
    var after := SendShutdown(r, pool, 1, order).0.threads;
    var flips := Flipped(r.threads, after);
    assert Unflagged(r.threads, Members(r, pool)) == {a, b};
    assert |flips| == 1;
    assert order[0] == a && order[1] == b;
    assert b in flips ==> {a, b} <= flips;
    assert flips <= {a, b};
    assert a in flips;
  }

  /** Registers each thread of `tids` under `pool`, one after the other. */
  function RegisterAll(r: Registry, pool: string, tids: seq<Tid>): (r': Registry)
    requires NoDuplicates(tids)
    requires forall i :: 0 <= i < |tids| ==> CanRegister(r, pool, tids[i])
    ensures Members(r', pool) == Members(r, pool) + Elements(tids)
    ensures forall p :: p != pool ==> Members(r', p) == Members(r, p)
    ensures r'.threads.Keys == r.threads.Keys + Elements(tids)
    decreases |tids|
  {
    if |tids| == 0 then
      assert Elements(tids) == {};
      r
    else
      var r1 := RegisterThread(r, pool, tids[0]);
      RegisterAllStep(r, pool, tids);
      var r' := RegisterAll(r1, pool, tids[1..]);
      AddOneThenRest(Members(r, pool), Members(r1, pool), tids[0], Elements(tids), Elements(tids[1..]));
      AddOneThenRest(r.threads.Keys, r1.threads.Keys, tids[0], Elements(tids), Elements(tids[1..]));
      r'
  }

  /** Adding one element and then the rest is adding the whole. */
  lemma AddOneThenRest(before: set<Tid>, after: set<Tid>, t: Tid, all: set<Tid>, rest: set<Tid>)
    requires after == before + {t} && all == {t} + rest
    ensures after + rest == before + all
  {
  }

  /** After the first registration the remaining ones are still allowed. */
  lemma RegisterAllStep(r: Registry, pool: string, tids: seq<Tid>)
    requires NoDuplicates(tids) && |tids| > 0
    requires forall i :: 0 <= i < |tids| ==> CanRegister(r, pool, tids[i])
    ensures NoDuplicates(tids[1..])
    ensures Elements(tids) == {tids[0]} + Elements(tids[1..])
    ensures forall i :: 0 <= i < |tids[1..]| ==> CanRegister(RegisterThread(r, pool, tids[0]), pool, tids[1..][i])
  {
    HeadNotInTail(tids);
    var r1 := RegisterThread(r, pool, tids[0]);
    forall i | 0 <= i < |tids[1..]|
      ensures CanRegister(r1, pool, tids[1..][i])
    {
      assert tids[1..][i] == tids[i + 1];
      assert CanRegister(r, pool, tids[i + 1]);
      assert tids[i + 1] != tids[0];
    }
  }

  /**
   `K` threads with distinct identifiers registering under one pool, in any
   serial order the lock imposes, raise its count by exactly `K`: no entry
   is lost or duplicated.
   */
  lemma RegistrationsAllCounted(r: Registry, pool: string, tids: seq<Tid>)
    requires NoDuplicates(tids)
    requires forall i :: 0 <= i < |tids| ==> CanRegister(r, pool, tids[i])
    ensures PoolCount(RegisterAll(r, pool, tids), pool).1 == PoolCount(r, pool).1 + |tids|
  {
    NoDuplicatesCardinality(tids);
    assert Members(r, pool) !! Elements(tids);
  }

  /**
   Under the invariant, the destructor's check that the thread index is
   empty holds exactly when every pool set is empty.
   */
  lemma DestroyOnlyWhenAllPoolsEmpty(r: Registry)
    requires Valid(r)
    ensures CanDestroy(r) <==> forall p :: Members(r, p) == {}
  {
    if !CanDestroy(r) {
      var t :| t in r.threads;
      assert t in Members(r, r.threads[t].pool);
    }
  }

  /** One call into the registry, with the arguments its caller passes. */
  datatype Call =
    | Register(pool: string, tid: Tid)
    | Unregister(pool: string, tid: Tid)
    | CountPool(pool: string)
    | Shutdown(pool: string, count: nat, order: seq<Tid>)
    | Poll(tid: Tid)
    | SetState(tid: Tid, status: string)
    | Snapshot

  /** The registry after a call, or the end of the process when an assertion of the call fails. */
  datatype Outcome = Terminated | Running(r: Registry)

  /** Every finite set of threads has an iteration order. */
  lemma {:induction false} EnumerationExists(s: set<Tid>)
    ensures exists order :: IsEnumeration(order, s)
    decreases |s|
  {
    if s == {} {
      assert IsEnumeration([], s);
    } else {
      var t :| t in s;
      EnumerationExists(s - {t});
      var rest :| IsEnumeration(rest, s - {t});
      var order := [t] + rest;
      forall x
        ensures x in Elements(order) <==> x in s
      {
        assert x in order <==> x == t || x in rest;
        assert x in rest <==> x in Elements(rest);
      }
      assert Elements(order) == s;
      assert t !in rest;
      forall i, j | 0 <= i < j < |order|
        ensures order[i] != order[j]
      {
        if i > 0 {
          assert order[i] == rest[i - 1] && order[j] == rest[j - 1];
        } else {
          assert order[j] == rest[j - 1];
        }
      }
      assert IsEnumeration(order, s);
    }
  }

  /** An iteration order of `s`: which one is left unspecified. */
  ghost function SomeOrder(s: set<Tid>): (order: seq<Tid>)
    ensures IsEnumeration(order, s)
  {
    EnumerationExists(s);
    var order :| IsEnumeration(order, s);
    order
  }

  /**
   The order a shutdown call walks: the order the call names when it lists
   the pool's set exactly once, and otherwise some iteration order of it.
   */
  ghost function WalkOrder(order: seq<Tid>, s: set<Tid>): (walk: seq<Tid>)
    ensures IsEnumeration(walk, s)
    ensures IsEnumeration(order, s) ==> walk == order
  {
    if IsEnumeration(order, s) then order else SomeOrder(s)
  }

  /** The effect of one call; `sendShutdown` walks the iteration order the call carries. */
  ghost function Step(r: Registry, call: Call): Outcome
  {
    match call
    case Register(pool, tid) =>
      if CanRegister(r, pool, tid) then Running(RegisterThread(r, pool, tid)) else Terminated
    case Unregister(pool, tid) =>
      if CanUnregister(r, pool, tid) then Running(UnregisterThread(r, pool, tid)) else Terminated
    case CountPool(pool) => Running(PoolCount(r, pool).0)
    case Shutdown(pool, count, order) =>
      if forall t :: t in Members(r, pool) ==> t in r.threads then
        Running(SendShutdown(r, pool, count, WalkOrder(order, Members(r, pool))).0)
      else Terminated
    case Poll(tid) => if IsRegistered(r, tid) then Running(r) else Terminated
    case SetState(tid, status) =>
      if IsRegistered(r, tid) then Running(SetThreadState(r, tid, status)) else Terminated
    case Snapshot => Running(r)
  }

  /** The effect of a sequence of calls, each one atomic. */
  ghost function Run(r: Registry, calls: seq<Call>): Outcome
    decreases |calls|
  {
    if |calls| == 0 then Running(r)
    else
      match Step(r, calls[0])
      case Terminated => Terminated
      case Running(r1) => Run(r1, calls[1..])
  }

  /** Every call keeps the cross-index invariant, never clears a shutdown flag and never moves a thread to another pool. */
  lemma StepKeepsInvariant(r: Registry, call: Call)
    requires Valid(r)
    ensures Step(r, call).Running? ==> Valid(Step(r, call).r)
    ensures Step(r, call).Running? ==> forall t :: t in r.threads && t in Step(r, call).r.threads ==>
      && Step(r, call).r.threads[t].pool == r.threads[t].pool
      && (r.threads[t].shouldShutdown ==> Step(r, call).r.threads[t].shouldShutdown)
  {
    match call
    case Register(pool, tid) =>
      if CanRegister(r, pool, tid) { RegisterKeepsValid(r, pool, tid); }
    case Unregister(pool, tid) =>
      if CanUnregister(r, pool, tid) { UnregisterKeepsValid(r, pool, tid); }
    case CountPool(pool) => PoolCountKeepsValid(r, pool);
    case Shutdown(pool, count, order) => ShutdownStepKeepsInvariant(r, pool, count, order);
    case Poll(tid) =>
    case SetState(tid, status) =>
      if IsRegistered(r, tid) { SetThreadStateKeepsValid(r, tid, status); }
    case Snapshot =>
  }

  /** A shutdown request, in whichever iteration order it walks, keeps the invariant. */
  lemma ShutdownStepKeepsInvariant(r: Registry, pool: string, count: nat, order: seq<Tid>)
    requires Valid(r)
    ensures Step(r, Shutdown(pool, count, order)).Running? ==> Valid(Step(r, Shutdown(pool, count, order)).r)
  {
    if forall t :: t in Members(r, pool) ==> t in r.threads {
      SendShutdownKeepsValid(r, pool, count, WalkOrder(order, Members(r, pool)));
    }
  }

  /**
   Every run of calls that starts from any registry keeping the invariant and
   does not end the process leaves a registry that keeps the cross-index
   invariant.
   */
  lemma {:induction false} RunKeepsInvariant(r: Registry, calls: seq<Call>)
    requires Valid(r)
    ensures Run(r, calls).Running? ==> Valid(Run(r, calls).r)
    decreases |calls|
  {
    if |calls| > 0 {
      StepKeepsInvariant(r, calls[0]);
      if Step(r, calls[0]).Running? {
        RunKeepsInvariant(Step(r, calls[0]).r, calls[1..]);
      }
    }
  }

  /** Every registry reachable from a freshly constructed one keeps the invariant. */
  lemma ReachableRegistriesAreValid(calls: seq<Call>)
    ensures Run(Create(), calls).Running? ==> Valid(Run(Create(), calls).r)
  {
    RunKeepsInvariant(Create(), calls);
  }
}
