/** The walk phase of a run: filepath.Walk calls the callback once per
    entry, in walk order, and stops at the first error the callback
    returns. The callback decides, for each entry, whether to leave it,
    to drop its key from the set of listed keys (the file is already in
    the bucket), to upload it, or to abort; the walk applies that decision
    to the key set and to the bucket. */
module Walk {
  import opened Types

  datatype Decision = Pass | Skip(key: Key) | Upload(key: Key, meta: Meta) | Abort(err: Error)

  /** The callback: the entry and the keys still in the set decide what happens. */
  type Callback = (WalkEntry, set<Key>) -> Decision

  /** The key set and the bucket after the walk, the walk's actions, and
      the error that stopped it, if any. */
  datatype WalkResult = WalkResult(existing: set<Key>, store: Store, trace: seq<Action>, err: Option<Error>)

  function Prepend(a: Action, w: WalkResult): WalkResult {
    w.(trace := [a] + w.trace)
  }

  /** The walk's result once `done` has already been performed. */
  function After(done: seq<Action>, w: WalkResult): WalkResult {
    w.(trace := done + w.trace)
  }

  /** The walk over `es`, starting from the key set `existing` and the bucket `store`. */
  function WalkFrom(visit: Callback, es: seq<WalkEntry>, existing: set<Key>, store: Store): (w: WalkResult)
    ensures |w.trace| <= |es|
    decreases |es|
  {
    if es == [] then WalkResult(existing, store, [], None)
    else
      match visit(es[0], existing)
      case Pass => WalkFrom(visit, es[1..], existing, store)
      case Skip(k) => Prepend(Skipped(k), WalkFrom(visit, es[1..], existing - {k}, store))
      case Upload(k, m) => Prepend(Uploaded(k, m), WalkFrom(visit, es[1..], existing, store[k := m]))
      case Abort(e) => WalkResult(existing, store, [], Some(e))
  }

  /** The walk takes out of the set exactly the keys it skipped; the bucket
      gains exactly the keys it uploaded, each holding the metadata of one
      of its uploads, and keeps every other key's metadata; the walk only
      skips and uploads. */
  lemma {:induction false} WalkFromSpec(visit: Callback, es: seq<WalkEntry>, existing: set<Key>, store: Store)
    ensures var w := WalkFrom(visit, es, existing, store);
      && w.existing == existing - SkippedKeys(w.trace)
      && w.store.Keys == store.Keys + UploadedKeys(w.trace)
      && (forall k | k in store && k !in UploadedKeys(w.trace) :: w.store[k] == store[k])
      && (forall k | k in UploadedKeys(w.trace) :: k in w.store && Uploaded(k, w.store[k]) in w.trace)
      && (forall a | a in w.trace :: a.Skipped? || a.Uploaded?)
    decreases |es|
  {
    if es != [] {
      match visit(es[0], existing)
      case Pass => WalkFromSpec(visit, es[1..], existing, store);
      case Skip(k) =>
        var left := existing - {k};
        WalkFromSpec(visit, es[1..], left, store);
        var rest := WalkFrom(visit, es[1..], left, store);
        ActionKeysPrepend(Skipped(k), rest.trace);
      case Upload(k, m) =>
        var put := store[k := m];
        WalkFromSpec(visit, es[1..], existing, put);
        var rest := WalkFrom(visit, es[1..], existing, put);
        ActionKeysPrepend(Uploaded(k, m), rest.trace);
        if k !in UploadedKeys(rest.trace) {
          assert rest.store[k] == m;
        }
      case Abort(e) =>
    }
  }

  lemma ActionKeysPrepend(a: Action, t: seq<Action>)
    ensures SkippedKeys([a] + t) == (if a.Skipped? then {a.key} else {}) + SkippedKeys(t)
    ensures UploadedKeys([a] + t) == (if a.Uploaded? then {a.key} else {}) + UploadedKeys(t)
    ensures forall b | b in [a] + t :: b == a || b in t
  {
    assert ([a] + t)[0] == a;
    forall b | b in t ensures b in [a] + t {
      var i :| 0 <= i < |t| && t[i] == b;
      assert ([a] + t)[i + 1] == b;
    }
  }

  /** The walk loop: the key set and the bucket are updated in place, one
      entry at a time, and the first abort ends the walk. */
  method WalkTree(visit: Callback, es: seq<WalkEntry>, existing0: set<Key>, store0: Store) returns (w: WalkResult)
    ensures w == WalkFrom(visit, es, existing0, store0)
  {
    var existing, store, trace := existing0, store0, [];
    var i := 0;
    while i < |es|
      invariant i <= |es|
      invariant WalkFrom(visit, es, existing0, store0) == After(trace, WalkFrom(visit, es[i..], existing, store))
    {
      assert es[i..][0] == es[i] && es[i..][1..] == es[i + 1..];
      match visit(es[i], existing) {
        case Pass =>
        case Skip(k) =>
          AfterStep(trace, Skipped(k), WalkFrom(visit, es[i + 1..], existing - {k}, store));
          existing := existing - {k};
          trace := trace + [Skipped(k)];
        case Upload(k, m) =>
          AfterStep(trace, Uploaded(k, m), WalkFrom(visit, es[i + 1..], existing, store[k := m]));
          store := store[k := m];
          trace := trace + [Uploaded(k, m)];
        case Abort(e) =>
          return WalkResult(existing, store, trace, Some(e));
      }
      i := i + 1;
    }
    assert es[i..] == [];
    return WalkResult(existing, store, trace, None);
  }

  lemma AfterStep(done: seq<Action>, a: Action, w: WalkResult)
    ensures After(done, Prepend(a, w)) == After(done + [a], w)
  {
    assert done + ([a] + w.trace) == (done + [a]) + w.trace;
  }

  /** Once an entry aborts the walk, no later entry is visited. */
  lemma {:induction false} AbortedWalkIgnoresRest(visit: Callback, p: seq<WalkEntry>, q: seq<WalkEntry>, existing: set<Key>, store: Store)
    requires WalkFrom(visit, p, existing, store).err.Some?
    ensures WalkFrom(visit, p + q, existing, store) == WalkFrom(visit, p, existing, store)
    decreases |p|
  {
    assert p != [];
    assert (p + q)[0] == p[0];
    assert (p + q)[1..] == p[1..] + q;
    match visit(p[0], existing)
    case Pass => AbortedWalkIgnoresRest(visit, p[1..], q, existing, store);
    case Skip(k) => AbortedWalkIgnoresRest(visit, p[1..], q, existing - {k}, store);
    case Upload(k, m) => AbortedWalkIgnoresRest(visit, p[1..], q, existing, store[k := m]);
    case Abort(e) =>
  }

  /** A listed key that no entry can skip is still in the set after the walk. */
  lemma {:induction false} UnskippableKeyRemains(visit: Callback, es: seq<WalkEntry>, existing: set<Key>, store: Store, k: Key)
    requires k in existing
    requires forall i, s | 0 <= i < |es| :: visit(es[i], s) != Skip(k)
    ensures k in WalkFrom(visit, es, existing, store).existing
    decreases |es|
  {
    if es != [] {
      assert forall i, s | 0 <= i < |es[1..]| :: visit(es[1..][i], s) == visit(es[i + 1], s);
      match visit(es[0], existing)
      case Pass => UnskippableKeyRemains(visit, es[1..], existing, store, k);
      case Skip(j) =>
        assert visit(es[0], existing) != Skip(k);
        UnskippableKeyRemains(visit, es[1..], existing - {j}, store, k);
      case Upload(j, m) => UnskippableKeyRemains(visit, es[1..], existing, store[j := m], k);
      case Abort(e) =>
    }
  }

  /** When no entry can abort, the walk visits every entry: it ends
      without error, and an entry that is uploaded whatever keys are left
      of `existing` appears as an upload in the trace. */
  lemma {:induction false} CompleteWalkUploads(visit: Callback, es: seq<WalkEntry>, existing: set<Key>, store: Store, n: nat, k: Key, m: Meta)
    requires forall i, s | 0 <= i < |es| :: !visit(es[i], s).Abort?
    requires n < |es| && forall s | s <= existing :: visit(es[n], s) == Upload(k, m)
    ensures WalkFrom(visit, es, existing, store).err == None
    ensures Uploaded(k, m) in WalkFrom(visit, es, existing, store).trace
    decreases |es|
  {
    assert !visit(es[0], existing).Abort?;
    assert forall i, s | 0 <= i < |es[1..]| :: visit(es[1..][i], s) == visit(es[i + 1], s);
    if n == 0 {
      assert visit(es[0], existing) == Upload(k, m);
      WalkNeverAborts(visit, es[1..], existing, store[k := m]);
    } else {
      match visit(es[0], existing)
      case Pass => CompleteWalkUploads(visit, es[1..], existing, store, n - 1, k, m);
      case Skip(j) => CompleteWalkUploads(visit, es[1..], existing - {j}, store, n - 1, k, m);
      case Upload(j, m') => CompleteWalkUploads(visit, es[1..], existing, store[j := m'], n - 1, k, m);
    }
  }

  /** When no entry can abort, a key of the set that some entry skips
      whenever the key is still in the set has left the set by the end of
      the walk. */
  lemma {:induction false} CompleteWalkSkips(visit: Callback, es: seq<WalkEntry>, existing: set<Key>, store: Store, n: nat, k: Key)
    requires forall i, s | 0 <= i < |es| :: !visit(es[i], s).Abort?
    requires k in existing
    requires n < |es| && forall s | s <= existing && k in s :: visit(es[n], s) == Skip(k)
    ensures WalkFrom(visit, es, existing, store).err == None
    ensures k in SkippedKeys(WalkFrom(visit, es, existing, store).trace)
    ensures k !in WalkFrom(visit, es, existing, store).existing
    decreases |es|
  {
    assert !visit(es[0], existing).Abort?;
    assert forall i, s | 0 <= i < |es[1..]| :: visit(es[1..][i], s) == visit(es[i + 1], s);
    var w := WalkFrom(visit, es, existing, store);
    WalkFromSpec(visit, es, existing, store);
    if n == 0 {
      assert visit(es[0], existing) == Skip(k);
      WalkNeverAborts(visit, es[1..], existing - {k}, store);
      assert w.trace[0] == Skipped(k);
    } else {
      match visit(es[0], existing)
      case Pass => CompleteWalkSkips(visit, es[1..], existing, store, n - 1, k);
      case Skip(j) =>
        if j == k {
          WalkNeverAborts(visit, es[1..], existing - {k}, store);
          assert w.trace[0] == Skipped(k);
        } else {
          CompleteWalkSkips(visit, es[1..], existing - {j}, store, n - 1, k);
          var rest := WalkFrom(visit, es[1..], existing - {j}, store);
          assert w.trace == [Skipped(j)] + rest.trace;
          var a :| a in rest.trace && a == Skipped(k);
          assert a in w.trace;
        }
      case Upload(j, m) => CompleteWalkSkips(visit, es[1..], existing, store[j := m], n - 1, k);
    }
  }

  /** A walk whose entries can never abort ends without error. */
  lemma {:induction false} WalkNeverAborts(visit: Callback, es: seq<WalkEntry>, existing: set<Key>, store: Store)
    requires forall i, s | 0 <= i < |es| :: !visit(es[i], s).Abort?
    ensures WalkFrom(visit, es, existing, store).err == None
    decreases |es|
  {
    if es != [] {
      assert !visit(es[0], existing).Abort?;
      assert forall i, s | 0 <= i < |es[1..]| :: visit(es[1..][i], s) == visit(es[i + 1], s);
      match visit(es[0], existing)
      case Pass => WalkNeverAborts(visit, es[1..], existing, store);
      case Skip(j) => WalkNeverAborts(visit, es[1..], existing - {j}, store);
      case Upload(j, m) => WalkNeverAborts(visit, es[1..], existing, store[j := m]);
    }
  }
}
