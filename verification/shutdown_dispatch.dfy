/**
 The loop of `sendShutdown`: a walk over one iteration order of a pool's
 thread set that raises the shutdown flag of threads whose flag is clear
 and stops as soon as the number of raised flags reaches the requested
 count. A count of zero is never reached by a counter that is checked only
 after it was incremented, so with a count of zero the walk raises every
 clear flag it meets.
 */
module ShutdownDispatch {
  import opened RegistryState

  /** The thread index with the shutdown flag of `t` raised. */
  function Raise(threads: map<Tid, ThreadData>, t: Tid): map<Tid, ThreadData>
    requires t in threads
  {
    threads[t := threads[t].(shouldShutdown := true)]
  }

  /** Raising the flag of a thread with a clear flag removes it, and only it, from the clear ones. */
  lemma RaiseShrinksUnflagged(threads: map<Tid, ThreadData>, t: Tid, rest: seq<Tid>)
    requires t in threads && !threads[t].shouldShutdown
    requires t !in rest
    ensures Unflagged(Raise(threads, t), Elements(rest)) == Unflagged(threads, Elements([t] + rest)) - {t}
    ensures t in Unflagged(threads, Elements([t] + rest))
  {
    assert Elements([t] + rest) == {t} + Elements(rest);
  }

  /** The flips of a walk that first raised `t` are `t` and the flips of the rest of the walk. */
  lemma FlippedAfterRaise(threads: map<Tid, ThreadData>, t: Tid, after: map<Tid, ThreadData>)
    requires t in threads && !threads[t].shouldShutdown
    requires after.Keys == threads.Keys && after[t].shouldShutdown
    ensures Flipped(threads, after) == Flipped(Raise(threads, t), after) + {t}
    ensures t !in Flipped(Raise(threads, t), after)
  {
  }

  /**
   The thread index `after` differs from `before` at most in shutdown flags
   that went from clear to raised, and only for threads listed in `order`.
   */
  ghost predicate OnlyRaisesWithin(before: map<Tid, ThreadData>, after: map<Tid, ThreadData>, order: seq<Tid>)
  {
    && after.Keys == before.Keys
    && (forall t :: t in before ==>
          && after[t].pool == before[t].pool
          && after[t].state == before[t].state
          && (before[t].shouldShutdown ==> after[t].shouldShutdown))
    && (forall t :: t in before && t !in order ==> after[t] == before[t])
  }

  /**
   The flags raised from `before` to `after` are the first clear ones of
   `order`: a thread whose flag was raised is preceded in `order` only by
   threads whose flag was already raised or was raised as well.
   */
  ghost predicate RaisesInOrder(order: seq<Tid>, before: map<Tid, ThreadData>, after: map<Tid, ThreadData>)
  {
    forall i, j ::
      (0 <= i < j < |order| && order[i] in before && !before[order[i]].shouldShutdown
       && order[j] in Flipped(before, after)) ==> order[i] in Flipped(before, after)
  }

  /** The outcome promised for a walk over `order` that started with `sent` flags raised. */
  ghost predicate WalkOutcome(order: seq<Tid>, threads: map<Tid, ThreadData>, count: nat, sent: nat, res: (map<Tid, ThreadData>, nat))
  {
    && OnlyRaisesWithin(threads, res.0, order)
    && RaisesInOrder(order, threads, res.0)
    && Flipped(threads, res.0) <= Unflagged(threads, Elements(order))
    && res.1 == sent + |Flipped(threads, res.0)|
    && (count == 0 ==> Flipped(threads, res.0) == Unflagged(threads, Elements(order)))
    && (count > sent ==> res.1 == sent + Min(count - sent, |Unflagged(threads, Elements(order))|))
  }

  /** The head of a sequence without duplicates does not occur in its tail. */
  lemma HeadNotInTail(order: seq<Tid>)
    requires NoDuplicates(order) && |order| > 0
    ensures order[0] !in order[1..]
    ensures NoDuplicates(order[1..])
    ensures Elements(order) == {order[0]} + Elements(order[1..])
  {
    forall k | 0 <= k < |order[1..]|
      ensures order[1..][k] != order[0]
    {
      assert order[1..][k] == order[k + 1];
    }
  }

  /** Skipping a head whose flag is already raised keeps the raised flags first in the order. */
  lemma InOrderSkip(order: seq<Tid>, threads: map<Tid, ThreadData>, after: map<Tid, ThreadData>)
    requires |order| > 0 && order[0] in threads && threads[order[0]].shouldShutdown
    requires RaisesInOrder(order[1..], threads, after)
    ensures RaisesInOrder(order, threads, after)
  {
    forall i, j | 0 <= i < j < |order| && order[i] in threads && !threads[order[i]].shouldShutdown
      && order[j] in Flipped(threads, after)
      ensures order[i] in Flipped(threads, after)
    {
      assert i > 0;
      assert order[i] == order[1..][i - 1] && order[j] == order[1..][j - 1];
    }
  }

  /** Raising only the head's flag raises the first clear flag of the order. */
  lemma InOrderLast(order: seq<Tid>, threads: map<Tid, ThreadData>)
    requires |order| > 0 && order[0] in threads && order[0] !in order[1..]
    ensures RaisesInOrder(order, threads, Raise(threads, order[0]))
  {
    var after := Raise(threads, order[0]);
    forall j | 0 < j < |order|
      ensures order[j] !in Flipped(threads, after)
    {
      assert order[j] == order[1..][j - 1];
    }
  }

  /** Raising the head's flag and then the first clear flags of the tail raises the first clear flags of the whole order. */
  lemma InOrderRaise(order: seq<Tid>, threads: map<Tid, ThreadData>, after: map<Tid, ThreadData>)
    requires |order| > 0 && order[0] in threads && !threads[order[0]].shouldShutdown
    requires order[0] !in order[1..]
    requires order[0] in after && after[order[0]].shouldShutdown
    requires RaisesInOrder(order[1..], Raise(threads, order[0]), after)
    ensures RaisesInOrder(order, threads, after)
  {
    var raised := Raise(threads, order[0]);
    forall i, j | 0 <= i < j < |order| && order[i] in threads && !threads[order[i]].shouldShutdown
      && order[j] in Flipped(threads, after)
      ensures order[i] in Flipped(threads, after)
    {
      if i > 0 {
        assert order[i] == order[1..][i - 1] && order[j] == order[1..][j - 1];
        assert order[i] != order[0] && order[j] != order[0];
        assert order[j] in Flipped(raised, after);
      }
    }
  }

  /** Walking past a thread whose flag is already raised changes nothing and costs nothing. */
  lemma SkipStep(order: seq<Tid>, threads: map<Tid, ThreadData>, count: nat, sent: nat, res: (map<Tid, ThreadData>, nat))
    requires NoDuplicates(order) && |order| > 0
    requires order[0] in threads && threads[order[0]].shouldShutdown
    requires WalkOutcome(order[1..], threads, count, sent, res)
    ensures WalkOutcome(order, threads, count, sent, res)
  {
    HeadNotInTail(order);
    InOrderSkip(order, threads, res.0);
    assert Unflagged(threads, Elements(order)) == Unflagged(threads, Elements(order[1..]));
  }

  /** Raising the head's flag and stopping there is the outcome when that flip reaches the count. */
  lemma LastStep(order: seq<Tid>, threads: map<Tid, ThreadData>, count: nat, sent: nat)
    requires NoDuplicates(order) && |order| > 0
    requires order[0] in threads && !threads[order[0]].shouldShutdown
    requires sent + 1 == count
    ensures WalkOutcome(order, threads, count, sent, (Raise(threads, order[0]), sent + 1))
  {
    var t := order[0];
    HeadNotInTail(order);
    assert order == [t] + order[1..];
    RaiseShrinksUnflagged(threads, t, order[1..]);
    InOrderLast(order, threads);
    assert Flipped(threads, Raise(threads, t)) == {t};
  }

  /** A raise of the head followed by changes confined to the tail is a change confined to the whole walk. */
  lemma RaiseThenWithin(order: seq<Tid>, threads: map<Tid, ThreadData>, after: map<Tid, ThreadData>)
    requires |order| > 0 && order[0] in threads
    requires OnlyRaisesWithin(Raise(threads, order[0]), after, order[1..])
    ensures OnlyRaisesWithin(threads, after, order)
  {
    var raised := Raise(threads, order[0]);
    forall t | t in threads
      ensures after[t].pool == threads[t].pool && after[t].state == threads[t].state
      ensures threads[t].shouldShutdown ==> after[t].shouldShutdown
    {
      assert t in raised;
    }
    forall t | t in threads && t !in order
      ensures after[t] == threads[t]
    {
      assert t != order[0] && t !in order[1..];
    }
  }

  /**
   The counting step behind `RaiseStep`, on plain sets: one more flip, of a
   clear thread, on top of the flips of the rest of the walk.
   */
  lemma RaiseCounts(before: set<Tid>, later: set<Tid>, flips: set<Tid>, laterFlips: set<Tid>, t: Tid, count: nat, sent: nat, total: nat)
    requires t in before && later == before - {t}
    requires t !in laterFlips && flips == laterFlips + {t}
    requires laterFlips <= later
    requires total == sent + 1 + |laterFlips|
    requires count == 0 || sent + 1 < count
    requires count == 0 ==> laterFlips == later
    requires count > sent + 1 ==> total == sent + 1 + Min(count - (sent + 1), |later|)
    ensures flips <= before
    ensures total == sent + |flips|
    ensures count == 0 ==> flips == before
    ensures count > sent ==> total == sent + Min(count - sent, |before|)
  {
    assert |later| == |before| - 1;
    assert |flips| == |laterFlips| + 1;
  }

  /** Raising the head's flag and walking on composes with the outcome of the rest of the walk. */
  lemma RaiseStep(order: seq<Tid>, threads: map<Tid, ThreadData>, count: nat, sent: nat, res: (map<Tid, ThreadData>, nat))
    requires NoDuplicates(order) && |order| > 0
    requires order[0] in threads && !threads[order[0]].shouldShutdown
    requires count == 0 || sent + 1 < count
    requires WalkOutcome(order[1..], Raise(threads, order[0]), count, sent + 1, res)
    ensures WalkOutcome(order, threads, count, sent, res)
  {
    var t := order[0];
    var raised := Raise(threads, t);
    HeadNotInTail(order);
    assert order == [t] + order[1..];
    RaiseThenWithin(order, threads, res.0);
    RaiseShrinksUnflagged(threads, t, order[1..]);
    FlippedAfterRaise(threads, t, res.0);
    InOrderRaise(order, threads, res.0);
    RaiseCounts(Unflagged(threads, Elements(order)), Unflagged(raised, Elements(order[1..])),
                Flipped(threads, res.0), Flipped(raised, res.0), t, count, sent, res.1);
  }

  /**
   Walks `order` from its start with `sent` flags already raised. Returns the
   new thread index and the number of flags raised so far (the counter
   `msg_sent`).
   */
  function Dispatch(order: seq<Tid>, threads: map<Tid, ThreadData>, count: nat, sent: nat): (res: (map<Tid, ThreadData>, nat))
    requires NoDuplicates(order)
    requires forall i :: 0 <= i < |order| ==> order[i] in threads
    requires count == 0 || sent < count
    ensures WalkOutcome(order, threads, count, sent, res)
    decreases |order|
  {
    if |order| == 0 then
      assert Flipped(threads, threads) == {};
      assert Unflagged(threads, Elements(order)) == {};
      (threads, sent)
    else
      var t := order[0];
      HeadNotInTail(order);
      if !threads[t].shouldShutdown then
        if sent + 1 == count then
          LastStep(order, threads, count, sent);
          (Raise(threads, t), sent + 1)
        else
          var res := Dispatch(order[1..], Raise(threads, t), count, sent + 1);
          RaiseStep(order, threads, count, sent, res);
          res
      else
        var res := Dispatch(order[1..], threads, count, sent);
        SkipStep(order, threads, count, sent, res);
        res
  }
}
