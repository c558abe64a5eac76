/** The delete phase of a run and how the run ends. Every key left in the
    set of listed keys is deleted from the bucket, in the set's iteration
    order, which Go leaves unspecified. With ignoreDots the loop returns
    nil at the first key whose base name is hidden, and a failed delete
    returns that error; both skip the progress Stop. */
module Deletion {
  import opened Types
  import opened Paths

  datatype DeleteStop = Running | HiddenKey(key: Key) | DeleteFailed(err: Error)

  /** The bucket and the deletes so far, and whether the loop has returned. */
  datatype DeleteState = DeleteState(store: Store, trace: seq<Action>, stop: DeleteStop)

  /** One iteration of the loop, on key `k`; a returned loop stays returned. */
  function DeleteStep(ignoreDots: bool, remote: Remote, st: DeleteState, k: Key): DeleteState {
    if !st.stop.Running? then st
    else if IgnoredPath(ignoreDots, k) then st.(stop := HiddenKey(k))
    else if remote.deleteFault(k).Some? then st.(stop := DeleteFailed(remote.deleteFault(k).value))
    else DeleteState(st.store - {k}, st.trace + [Deleted(k)], Running)
  }

  /** The loop run over the keys in `order`, from the bucket `store`. */
  function DeleteAll(ignoreDots: bool, remote: Remote, store: Store, order: seq<Key>): (d: DeleteState)
    ensures |d.trace| <= |order|
    decreases |order|
  {
    if order == [] then DeleteState(store, [], Running)
    else DeleteStep(ignoreDots, remote, DeleteAll(ignoreDots, remote, store, order[..|order| - 1]), order[|order| - 1])
  }

  /** The loop deletes the first keys of `order`, in order, each of them
      neither hidden (with ignoreDots) nor failing. */
  lemma {:induction false} DeletesPrefix(ignoreDots: bool, remote: Remote, store: Store, order: seq<Key>)
    ensures var d := DeleteAll(ignoreDots, remote, store, order);
      forall j | 0 <= j < |d.trace| ::
        && d.trace[j] == Deleted(order[j])
        && !IgnoredPath(ignoreDots, order[j])
        && remote.deleteFault(order[j]) == None
    decreases |order|
  {
    if order != [] {
      var init := order[..|order| - 1];
      var k := order[|order| - 1];
      DeletesPrefix(ignoreDots, remote, store, init);
      LoopEnd(ignoreDots, remote, store, init);
      var prev := DeleteAll(ignoreDots, remote, store, init);
      var d := DeleteAll(ignoreDots, remote, store, order);
      if prev.stop == Running && !IgnoredPath(ignoreDots, k) && remote.deleteFault(k) == None {
        assert d.trace == prev.trace + [Deleted(k)];
        forall j | 0 <= j < |d.trace|
          ensures d.trace[j] == Deleted(order[j]) && !IgnoredPath(ignoreDots, order[j]) && remote.deleteFault(order[j]) == None
        {
          if j < |prev.trace| {
            assert d.trace[j] == prev.trace[j] && init[j] == order[j];
          }
        }
      } else {
        assert d.trace == prev.trace;
        forall j | 0 <= j < |d.trace|
          ensures d.trace[j] == Deleted(order[j]) && !IgnoredPath(ignoreDots, order[j]) && remote.deleteFault(order[j]) == None
        {
          assert init[j] == order[j];
        }
      }
    }
  }

  /** The loop ends at the first key that is hidden (with ignoreDots) or
      whose delete fails, and runs through `order` otherwise. */
  lemma {:induction false} LoopEnd(ignoreDots: bool, remote: Remote, store: Store, order: seq<Key>)
    ensures var d := DeleteAll(ignoreDots, remote, store, order);
      && (d.stop == Running <==> |d.trace| == |order|)
      && (d.stop.HiddenKey? ==> d.stop.key == order[|d.trace|] && IgnoredPath(ignoreDots, d.stop.key))
      && (d.stop.DeleteFailed? ==>
           && !IgnoredPath(ignoreDots, order[|d.trace|])
           && remote.deleteFault(order[|d.trace|]) == Some(d.stop.err))
    decreases |order|
  {
    if order != [] {
      var init := order[..|order| - 1];
      var k := order[|order| - 1];
      LoopEnd(ignoreDots, remote, store, init);
      var prev := DeleteAll(ignoreDots, remote, store, init);
      var d := DeleteAll(ignoreDots, remote, store, order);
      assert d == DeleteStep(ignoreDots, remote, prev, k);
      if prev.stop != Running {
        assert d == prev;
        assert init[|prev.trace|] == order[|prev.trace|];
      } else if IgnoredPath(ignoreDots, k) {
        assert d == prev.(stop := HiddenKey(k));
      } else if remote.deleteFault(k).Some? {
        assert d == prev.(stop := DeleteFailed(remote.deleteFault(k).value));
      } else {
        assert d.trace == prev.trace + [Deleted(k)] && d.stop == Running;
      }
    }
  }

  /** The bucket loses exactly the keys the loop deleted. */
  lemma {:induction false} StoreAfterLoop(ignoreDots: bool, remote: Remote, store: Store, order: seq<Key>)
    ensures var d := DeleteAll(ignoreDots, remote, store, order);
      d.store == store - DeletedKeys(d.trace)
    decreases |order|
  {
    if order == [] {
      assert DeletedKeys([]) == {};
    } else {
      var init := order[..|order| - 1];
      var k := order[|order| - 1];
      StoreAfterLoop(ignoreDots, remote, store, init);
      var prev := DeleteAll(ignoreDots, remote, store, init);
      var d := DeleteAll(ignoreDots, remote, store, order);
      assert d == DeleteStep(ignoreDots, remote, prev, k);
      if prev.stop == Running && !IgnoredPath(ignoreDots, k) && remote.deleteFault(k) == None {
        assert d.store == prev.store - {k} && d.trace == prev.trace + [Deleted(k)];
        DeletedKeysConcat(prev.trace, [Deleted(k)]);
        assert DeletedKeys([Deleted(k)]) == {k} by { assert [Deleted(k)][0] == Deleted(k); }
        assert (store - DeletedKeys(prev.trace)) - {k} == store - (DeletedKeys(prev.trace) + {k});
      } else {
        assert d.store == prev.store && d.trace == prev.trace;
      }
    }
  }

  /** Once the loop has returned, the keys it has not reached are never visited. */
  lemma {:induction false} ReturnedLoopIgnoresRest(ignoreDots: bool, remote: Remote, store: Store, p: seq<Key>, q: seq<Key>)
    requires !DeleteAll(ignoreDots, remote, store, p).stop.Running?
    ensures DeleteAll(ignoreDots, remote, store, p + q) == DeleteAll(ignoreDots, remote, store, p)
    decreases |q|
  {
    if q == [] {
      assert p + q == p;
    } else {
      var pq := p + q;
      assert pq[..|pq| - 1] == p + q[..|q| - 1];
      ReturnedLoopIgnoresRest(ignoreDots, remote, store, p, q[..|q| - 1]);
    }
  }

  /** Visited keys followed by an enumeration of the unvisited ones enumerate the whole set. */
  lemma EnumerationExtends(visited: seq<Key>, rest: seq<Key>, pending: set<Key>, remaining: set<Key>)
    requires forall i, j | 0 <= i < j < |visited| :: visited[i] != visited[j]
    requires forall k :: k in visited <==> k in pending && k !in remaining
    requires remaining <= pending && IsEnumeration(rest, remaining)
    ensures IsEnumeration(visited + rest, pending)
  {
    var all := visited + rest;
    forall i, j | 0 <= i < j < |all| ensures all[i] != all[j] {
      if j < |visited| {
      } else if i >= |visited| {
        assert all[i] == rest[i - |visited|] && all[j] == rest[j - |visited|];
      } else {
        assert all[i] in visited && all[j] == rest[j - |visited|] && all[j] in remaining;
      }
    }
  }

  /** The delete loop: `for relPath := range existingObjects`. Each
      iteration picks any key not yet visited. Besides the outcome, the
      method yields the order in which the keys were (or would have been)
      visited: the outcome is the loop run over that order. */
  method DeleteRemaining(ignoreDots: bool, remote: Remote, pending: set<Key>, store0: Store)
    returns (d: DeleteState, ghost order: seq<Key>)
    ensures IsEnumeration(order, pending)
    ensures d == DeleteAll(ignoreDots, remote, store0, order)
    ensures DeletedKeys(d.trace) <= pending
    ensures d.stop == Running ==> DeletedKeys(d.trace) == pending && d.store == store0 - pending
  {
    var remaining := pending;
    var store, trace := store0, [];
    ghost var visited: seq<Key> := [];
    while remaining != {}
      invariant remaining <= pending
      invariant forall i, j | 0 <= i < j < |visited| :: visited[i] != visited[j]
      invariant forall k :: k in visited <==> k in pending && k !in remaining
      invariant DeleteAll(ignoreDots, remote, store0, visited) == DeleteState(store, trace, Running)
      decreases remaining
    {
      var k :| k in remaining;
      ghost var next := visited + [k];
      assert next[..|next| - 1] == visited;
      if IgnoredPath(ignoreDots, k) {
        d := DeleteState(store, trace, HiddenKey(k));
        ghost var rest := EnumerationOf(remaining - {k});
        EnumerationExtends(next, rest, pending, remaining - {k});
        ReturnedLoopIgnoresRest(ignoreDots, remote, store0, next, rest);
        order := next + rest;
        LoopDeletesWithinSet(ignoreDots, remote, store0, order, pending);
        return;
      }
      var fault := remote.deleteFault(k);
      if fault.Some? {
        d := DeleteState(store, trace, DeleteFailed(fault.value));
        ghost var rest := EnumerationOf(remaining - {k});
        EnumerationExtends(next, rest, pending, remaining - {k});
        ReturnedLoopIgnoresRest(ignoreDots, remote, store0, next, rest);
        order := next + rest;
        LoopDeletesWithinSet(ignoreDots, remote, store0, order, pending);
        return;
      }
      store := store - {k};
      trace := trace + [Deleted(k)];
      remaining := remaining - {k};
      visited := next;
    }
    d := DeleteState(store, trace, Running);
    order := visited;
    LoopDeletesWithinSet(ignoreDots, remote, store0, order, pending);
  }

  /** Everything before the delete loop: either the run has already
      returned, or the loop is still to run over the keys left in the set. */
  datatype Plan =
    | Halted(run: Run)
    | Draining(trace: seq<Action>, store: Store, pending: set<Key>, walkErr: Option<Error>)

  /** The keys the delete loop goes through. */
  function Pending(p: Plan): set<Key> {
    if p.Draining? then p.pending else {}
  }

  /** How a run ends, given what happened before the delete loop and the
      loop's iteration order: a returned loop ends the run at once, without
      stopping the progress indicator; otherwise the indicator is stopped
      and the walk's error is returned unless a successful delete has
      overwritten it. */
  function Conclude(ignoreDots: bool, remote: Remote, p: Plan, order: seq<Key>): (r: Run)
    ensures p.Halted? ==> r == p.run
    ensures p.Draining? ==> |r.trace| >= |p.trace| && r.trace[..|p.trace|] == p.trace
    ensures p.Draining? && r.progressStopped ==>
      (r.status.Failed? <==> p.walkErr.Some? && r.trace == p.trace)
    ensures p.Draining? ==> r.store == DeleteAll(ignoreDots, remote, p.store, order).store
    ensures p.Draining? && DeleteAll(ignoreDots, remote, p.store, order).stop.DeleteFailed? ==>
      r.status == Failed(DeleteAll(ignoreDots, remote, p.store, order).stop.err) && !r.progressStopped
    ensures p.Draining? && r.progressStopped && r.status.Failed? ==> r.status == Failed(p.walkErr.value)
  {
    match p
    case Halted(run) => run
    case Draining(trace, store, _, walkErr) =>
      var d := DeleteAll(ignoreDots, remote, store, order);
      match d.stop
      case HiddenKey(_) => Run(trace + d.trace, d.store, Succeeded, false)
      case DeleteFailed(e) => Run(trace + d.trace, d.store, Failed(e), false)
      case Running =>
        var err := if d.trace == [] then walkErr else None;
        Run(trace + d.trace, d.store, if err.Some? then Failed(err.value) else Succeeded, true)
  }

  /** How the delete phase ends a run, whatever the iteration order: the
      deletes are the first keys of the order; the bucket loses exactly
      them; the progress indicator is stopped exactly when the loop got
      through every key, and the walk's error is then returned unless a
      delete happened; otherwise the run returns nil at a hidden key (with
      ignoreDots), or the error of the first failing delete. */
  lemma ConcludeEnds(ignoreDots: bool, remote: Remote, p: Plan, order: seq<Key>)
    requires p.Draining?
    ensures var r := Conclude(ignoreDots, remote, p, order);
      var t := r.trace[|p.trace|..];
      && |t| <= |order|
      && (forall j | 0 <= j < |t| :: t[j] == Deleted(order[j]))
      && r.store == p.store - DeletedKeys(t)
      && (r.progressStopped <==> |t| == |order|)
      && (r.progressStopped ==>
           r.status == (if t == [] && p.walkErr.Some? then Failed(p.walkErr.value) else Succeeded))
      && (!r.progressStopped && r.status.Succeeded? ==> IgnoredPath(ignoreDots, order[|t|]))
      && (!r.progressStopped && !r.status.Succeeded? ==>
           && r.status.Failed?
           && !IgnoredPath(ignoreDots, order[|t|])
           && remote.deleteFault(order[|t|]) == Some(r.status.err))
  {
    var d := DeleteAll(ignoreDots, remote, p.store, order);
    var r := Conclude(ignoreDots, remote, p, order);
    assert r.trace[|p.trace|..] == d.trace;
    DeletesPrefix(ignoreDots, remote, p.store, order);
    LoopEnd(ignoreDots, remote, p.store, order);
    StoreAfterLoop(ignoreDots, remote, p.store, order);
  }

  /** With ignoreDots, no key whose base name is hidden is ever deleted,
      whatever the iteration order. */
  lemma HiddenKeysNeverDeleted(remote: Remote, store: Store, order: seq<Key>, k: Key)
    requires IsHidden(Base(k))
    ensures k !in DeletedKeys(DeleteAll(true, remote, store, order).trace)
    ensures k in store ==> k in DeleteAll(true, remote, store, order).store
  {
    var d := DeleteAll(true, remote, store, order);
    DeletesPrefix(true, remote, store, order);
    StoreAfterLoop(true, remote, store, order);
    forall a | a in d.trace ensures a != Deleted(k) {
      var j :| 0 <= j < |d.trace| && d.trace[j] == a;
      assert !IgnoredPath(true, order[j]);
    }
  }

  /** Over an enumeration of a set, the loop deletes only keys of the set,
      and, when it runs to the end, all of them. */
  lemma LoopDeletesWithinSet(ignoreDots: bool, remote: Remote, store: Store, order: seq<Key>, pending: set<Key>)
    requires IsEnumeration(order, pending)
    ensures var d := DeleteAll(ignoreDots, remote, store, order);
      && DeletedKeys(d.trace) <= pending
      && (d.stop == Running ==> DeletedKeys(d.trace) == pending && d.store == store - pending)
  {
    var d := DeleteAll(ignoreDots, remote, store, order);
    DeletesPrefix(ignoreDots, remote, store, order);
    LoopEnd(ignoreDots, remote, store, order);
    StoreAfterLoop(ignoreDots, remote, store, order);
    forall k | k in DeletedKeys(d.trace) ensures k in pending {
      var j :| 0 <= j < |d.trace| && d.trace[j] == Deleted(k);
      assert order[j] == k;
    }
    if d.stop == Running {
      forall k | k in pending ensures k in DeletedKeys(d.trace) {
        var j :| 0 <= j < |order| && order[j] == k;
        assert d.trace[j] == Deleted(k);
      }
    }
  }

  /** When no key of the set stops the loop and no delete fails, the loop
      deletes every key of the set, in any iteration order, and nothing else. */
  lemma DrainedLoopDeletesAll(ignoreDots: bool, remote: Remote, store: Store, order: seq<Key>, pending: set<Key>)
    requires IsEnumeration(order, pending)
    requires forall k | k in pending :: !IgnoredPath(ignoreDots, k) && remote.deleteFault(k) == None
    ensures DeleteAll(ignoreDots, remote, store, order).stop == Running
    ensures DeletedKeys(DeleteAll(ignoreDots, remote, store, order).trace) == pending
    ensures DeleteAll(ignoreDots, remote, store, order).store == store - pending
  {
    var d := DeleteAll(ignoreDots, remote, store, order);
    DeletesPrefix(ignoreDots, remote, store, order);
    LoopEnd(ignoreDots, remote, store, order);
    StoreAfterLoop(ignoreDots, remote, store, order);
    forall k ensures k in DeletedKeys(d.trace) <==> k in pending {
      if k in pending {
        var j :| 0 <= j < |order| && order[j] == k;
        assert d.trace[j] == Deleted(k);
      }
      if k in DeletedKeys(d.trace) {
        var j :| 0 <= j < |d.trace| && d.trace[j] == Deleted(k);
      }
    }
  }

  /** When nothing before the loop was a delete, the run deletes only keys of the set. */
  lemma ConcludeDeletesOnlyPending(ignoreDots: bool, remote: Remote, p: Plan, order: seq<Key>)
    requires p.Draining? && IsEnumeration(order, p.pending)
    requires forall a | a in p.trace :: !a.Deleted?
    ensures DeletedKeys(Conclude(ignoreDots, remote, p, order).trace) <= p.pending
  {
    var d := DeleteAll(ignoreDots, remote, p.store, order);
    var r := Conclude(ignoreDots, remote, p, order);
    DeletesPrefix(ignoreDots, remote, p.store, order);
    assert r.trace == p.trace + d.trace;
    forall k | k in DeletedKeys(r.trace) ensures k in p.pending {
      var a :| a in r.trace && a.Deleted? && a.key == k;
      var j :| 0 <= j < |d.trace| && d.trace[j] == a;
      assert order[j] == k;
    }
  }

  /** With ignoreDots, a stored key whose base name is hidden is still
      stored when the run ends, and was never deleted. */
  lemma ConcludeKeepsHidden(remote: Remote, p: Plan, order: seq<Key>, k: Key)
    requires p.Draining? && IsHidden(Base(k)) && k in p.store
    requires forall a | a in p.trace :: !a.Deleted?
    ensures k in Conclude(true, remote, p, order).store
    ensures Deleted(k) !in Conclude(true, remote, p, order).trace
  {
    HiddenKeysNeverDeleted(remote, p.store, order, k);
    var d := DeleteAll(true, remote, p.store, order);
    assert Conclude(true, remote, p, order).trace == p.trace + d.trace;
  }

  /** With ignoreDots, a hidden key left in the set makes the loop return
      before its end, whatever the iteration order: the progress indicator
      is not stopped, the hidden key is not deleted, and the run returns
      either nil (dropping any walk error) or the error of a delete that
      failed before the loop reached the hidden key. */
  lemma HiddenLeftoverEndsRunEarly(remote: Remote, p: Plan, order: seq<Key>, k: Key)
    requires p.Draining? && IsEnumeration(order, p.pending)
    requires k in p.pending && IsHidden(Base(k))
    ensures var r := Conclude(true, remote, p, order);
      && !r.progressStopped
      && Deleted(k) !in r.trace[|p.trace|..]
      && (r.status.Succeeded?
          || (r.status.Failed? && exists j | j in p.pending :: remote.deleteFault(j) == Some(r.status.err)))
  {
    var d := DeleteAll(true, remote, p.store, order);
    var r := Conclude(true, remote, p, order);
    LoopEnd(true, remote, p.store, order);
    DeletesPrefix(true, remote, p.store, order);
    HiddenKeysNeverDeleted(remote, p.store, order, k);
    var i :| 0 <= i < |order| && order[i] == k;
    assert IgnoredPath(true, order[i]);
    assert |d.trace| <= i;
    assert r.trace[|p.trace|..] == d.trace;
    if d.stop.DeleteFailed? {
      assert order[|d.trace|] in p.pending;
    }
  }
}
