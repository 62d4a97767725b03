/**
 The state of the thread registry: a pool index (pool name to the set of
 thread ids registered under it) and a thread index (thread id to the
 record kept about that thread), together with the invariant that makes the
 two indices describe the same set of registrations.
 */
module RegistryState {

  /** Identifier of a worker thread: opaque, only ever compared for equality. */
  type Tid(==)

  /** The status label every freshly registered thread starts with. */
  const StartingUp: string := "Starting up"

  /** What the registry keeps about one registered thread. */
  datatype ThreadData = ThreadData(pool: string, shouldShutdown: bool, state: string)

  /** `store` is the pool index, `threads` the thread index. */
  datatype Registry = Registry(store: map<string, set<Tid>>, threads: map<Tid, ThreadData>)

  /** The threads recorded under `pool`; a pool that has no entry has none. */
  function Members(r: Registry, pool: string): set<Tid>
  {
    if pool in r.store then r.store[pool] else {}
  }

  /**
   The effect of looking `pool` up with the index operator of the pool index:
   an empty entry is created when there was none, and nothing else changes.
   */
  function Touch(r: Registry, pool: string): (r': Registry)
    ensures pool in r'.store
    ensures r'.store.Keys == r.store.Keys + {pool}
    ensures forall p :: Members(r', p) == Members(r, p)
    ensures r'.threads == r.threads
  {
    r.(store := r.store[pool := Members(r, pool)])
  }

  /** The threads of a thread index whose record names `pool` as their owner. */
  function ThreadsOf(threads: map<Tid, ThreadData>, pool: string): set<Tid>
  {
    set t | t in threads && threads[t].pool == pool
  }

  /** The threads of `s` whose shutdown flag is still clear. */
  function Unflagged(threads: map<Tid, ThreadData>, s: set<Tid>): set<Tid>
  {
    set t | t in s && t in threads && !threads[t].shouldShutdown
  }

  /** The threads whose shutdown flag is clear in `before` and set in `after`. */
  function Flipped(before: map<Tid, ThreadData>, after: map<Tid, ThreadData>): set<Tid>
  {
    set t | t in before && t in after && !before[t].shouldShutdown && after[t].shouldShutdown
  }

  /**
   The cross-index invariant: `t` is a member of the pool set of `p` exactly
   when `t` has a thread record and that record names `p` as its pool.
   */
  ghost predicate Valid(r: Registry)
  {
    && (forall p, t :: p in r.store && t in r.store[p] ==> t in r.threads && r.threads[t].pool == p)
    && (forall t :: t in r.threads ==> r.threads[t].pool in r.store && t in r.store[r.threads[t].pool])
  }

  /**
   The invariant holds exactly when each pool set is the pool's view of the
   thread index and every pool a record names has an entry.
   */
  lemma ValidIffViews(r: Registry)
    ensures Valid(r) <==>
      && (forall p :: Members(r, p) == ThreadsOf(r.threads, p))
      && (forall t :: t in r.threads ==> r.threads[t].pool in r.store)
  {
    if (forall p :: Members(r, p) == ThreadsOf(r.threads, p))
      && (forall t :: t in r.threads ==> r.threads[t].pool in r.store)
    {
      forall p, t | p in r.store && t in r.store[p]
        ensures t in r.threads && r.threads[t].pool == p
      {
        assert t in Members(r, p);
      }
      forall t | t in r.threads
        ensures t in r.store[r.threads[t].pool]
      {
        assert t in ThreadsOf(r.threads, r.threads[t].pool);
      }
    }
  }

  /** Distinct elements, as the elements of a set are. */
  predicate NoDuplicates(s: seq<Tid>)
  {
    forall i, j :: 0 <= i < j < |s| ==> s[i] != s[j]
  }

  /** The set of the elements of a sequence. */
  function Elements(s: seq<Tid>): set<Tid>
  {
    set t | t in s
  }

  /** `order` lists every element of `s` exactly once: one iteration order of `s`. */
  predicate IsEnumeration(order: seq<Tid>, s: set<Tid>)
  {
    NoDuplicates(order) && Elements(order) == s
  }

  /** A sequence without duplicates has as many distinct elements as entries. */
  lemma {:induction false} NoDuplicatesCardinality(s: seq<Tid>)
    requires NoDuplicates(s)
    ensures |Elements(s)| == |s|
  {
    if |s| > 0 {
      NoDuplicatesCardinality(s[1..]);
      assert Elements(s) == {s[0]} + Elements(s[1..]);
      assert s[0] !in Elements(s[1..]);
    }
  }

  /** The smaller of two counts. */
  function Min(a: nat, b: nat): nat
  {
    if a <= b then a else b
  }
}
