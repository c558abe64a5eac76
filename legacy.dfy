/** The reconciliation run of sync/sync.go, the older version: the same
    listing, bootstrap and delete loop as the current one, but the walk
    decides by existence only. A listed file is skipped without any content
    comparison, an unlisted one is uploaded without metadata, and there is
    no dot-file filter anywhere (the shared phases run with ignoreDots
    off). */
module LegacySync {
  import opened Types
  import opened Walk
  import opened Bootstrap
  import opened Deletion
  import Syncer

  /** The walk callback of sync/sync.go. */
  function Visit(remote: Remote, e: WalkEntry, existing: set<Key>): (d: Decision)
    ensures d.Skip? || d.Upload? ==> e.Entry? && !e.isDir && d.key == e.relPath
    ensures d.Skip? ==> d.key in existing
  {
    match e
    case WalkFault(_, err) => Abort(err)
    case Entry(_, relPath, isDir, _, openFault) =>
      if isDir then Pass
      else if relPath in existing then Skip(relPath)
      else if openFault.Some? then Abort(openFault.value)
      else if remote.putFault(relPath).Some? then Abort(remote.putFault(relPath).value)
      else Upload(relPath, map[])
  }

  function Callback(remote: Remote): Walk.Callback {
    (e, s) => Visit(remote, e, s)
  }

  /** Do up to the delete loop. */
  function Prepare(remote: Remote, local: Local, store: Store): Plan {
    match remote.listObjects
    case Err(e) => Halted(Run([], store, Failed(e), false))
    case Ok(keys) =>
      var existing := set k | k in keys;
      match local.dir
      case Unopenable(e) => Halted(Run([], store, Exited(e), false))
      case Dir(_, _) =>
        if IsLocalDirEmpty(local.dir) then
          var d := DownloadFrom(false, remote, local, DownloadListing(remote));
          if d.err.Some? then Halted(Run(d.trace, store, Failed(d.err.value), false))
          else Draining(d.trace, store, existing, None)
        else
          var w := WalkFrom(Callback(remote), local.walk, existing, store);
          Draining(w.trace, w.store, w.existing, w.err)
  }

  /** The run that ends with the delete loop going through the set in `order`. */
  function Outcome(remote: Remote, local: Local, store: Store, order: seq<Key>): Run {
    Conclude(false, remote, Prepare(remote, local, store), order)
  }

  /** Sync.Do of sync/sync.go: one reconciliation run against the bucket
      `store0`; `order` is the delete loop's iteration order. */
  method Do(remote: Remote, local: Local, store0: Store) returns (r: Run, ghost order: seq<Key>)
    ensures IsEnumeration(order, Pending(Prepare(remote, local, store0)))
    ensures r == Outcome(remote, local, store0, order)
    ensures remote.listObjects.Err? ==> r == Run([], store0, Failed(remote.listObjects.error), false)
    ensures remote.listObjects.Ok? && local.dir.Unopenable? ==> r == Run([], store0, Exited(local.dir.err), false)
  {
    order := [];
    if remote.listObjects.Err? {
      r := Run([], store0, Failed(remote.listObjects.error), false);
      return;
    }
    var existing := Syncer.BuildInventory(remote.listObjects.value);
    assert existing == set k | k in remote.listObjects.value;
    if local.dir.Unopenable? {
      r := Run([], store0, Exited(local.dir.err), false);
      return;
    }
    var trace: seq<Action>;
    var store: Store;
    var walkErr: Option<Error>;
    if IsLocalDirEmpty(local.dir) {
      var d := DownloadFromS3(false, remote, local);
      if d.err.Some? {
        r := Run(d.trace, store0, Failed(d.err.value), false);
        return;
      }
      trace, store, walkErr := d.trace, store0, None;
    } else {
      var w := WalkTree(Callback(remote), local.walk, existing, store0);
      existing, store, trace, walkErr := w.existing, w.store, w.trace, w.err;
    }
    var del;
    del, order := DeleteRemaining(false, remote, existing, store);
    match del.stop {
      case HiddenKey(_) =>
        r := Run(trace + del.trace, del.store, Succeeded, false);
      case DeleteFailed(e) =>
        r := Run(trace + del.trace, del.store, Failed(e), false);
      case Running =>
        // every successful DeleteObject overwrites the walk's error
        var err := if del.trace == [] then walkErr else None;
        r := Run(trace + del.trace, del.store, if err.Some? then Failed(err.value) else Succeeded, true);
    }
  }

  // ---------------------------------------------------------------
  // One entry of the walk

  /** Only directories are passed over: hidden files are visited too. */
  lemma VisitPassesDirectoriesOnly(remote: Remote, e: WalkEntry, s: set<Key>)
    ensures Visit(remote, e, s) == Pass <==> e.Entry? && e.isDir
  {
  }

  /** A file is skipped exactly when its key is in the set, whatever its
      content: the local hash is never consulted. */
  lemma VisitSkipsExactly(remote: Remote, e: WalkEntry, s: set<Key>, k: Key)
    ensures Visit(remote, e, s) == Skip(k) <==> e.Entry? && !e.isDir && e.relPath == k && k in s
    ensures e.Entry? ==> forall h :: Visit(remote, e.(md5 := h), s) == Visit(remote, e, s)
  {
  }

  /** A file is uploaded exactly when its key is not in the set and
      opening and putting it succeed; it goes to its relative path with no
      metadata. */
  lemma VisitUploadsExactly(remote: Remote, e: WalkEntry, s: set<Key>)
    ensures Visit(remote, e, s).Upload? <==>
      e.Entry? && !e.isDir && e.relPath !in s && e.openFault == None && remote.putFault(e.relPath) == None
    ensures Visit(remote, e, s).Upload? ==> e.Entry? && Visit(remote, e, s) == Upload(e.relPath, map[])
  {
  }

  /** The walk aborts on a walker error and on a failed open or PutObject
      of an unlisted file, with that error; a failed open is reported
      before PutObject is tried. */
  lemma VisitAbortsExactly(remote: Remote, e: WalkEntry, s: set<Key>)
    ensures e.WalkFault? ==> Visit(remote, e, s) == Abort(e.err)
    ensures Visit(remote, e, s).Abort? <==>
      || e.WalkFault?
      || (!e.isDir && e.relPath !in s && (e.openFault.Some? || remote.putFault(e.relPath).Some?))
    ensures e.Entry? && !e.isDir && e.relPath !in s && Visit(remote, e, s).Abort? ==>
      Visit(remote, e, s)
        == Abort(if e.openFault.Some? then e.openFault.value else remote.putFault(e.relPath).value)
  {
  }

  /** Every walked path can be stat'ed, opened and put. */
  predicate CleanWalk(remote: Remote, es: seq<WalkEntry>) {
    forall i | 0 <= i < |es| ::
      es[i].Entry? && es[i].openFault == None && remote.putFault(es[i].relPath) == None
  }

  // ---------------------------------------------------------------
  // Whole runs

  /** An empty root takes the bootstrap branch, and the delete loop then
      runs over the never-drained set: when the two listings agree and
      nothing fails, every listed object is downloaded in listing order and
      then deleted from the bucket. */
  lemma EmptyRootDownloadsThenDeletesListing(remote: Remote, local: Local, store: Store, order: seq<Key>, keys: seq<Key>)
    requires remote.listObjects == Ok(keys) && remote.listObjectsV2 == Ok(keys)
    requires local.dir == Dir([], None)
    requires forall k | k in keys :: FetchFault(remote, local, k) == None && remote.deleteFault(k) == None
    requires IsEnumeration(order, Pending(Prepare(remote, local, store)))
    ensures var r := Outcome(remote, local, store, order);
      && |keys| <= |r.trace|
      && (forall j | 0 <= j < |keys| :: r.trace[j] == Downloaded(keys[j]))
      && DeletedKeys(r.trace) == (set k | k in keys)
      && r.store == store - (set k | k in keys)
      && r.status == Succeeded && r.progressStopped
  {
    var dl := DownloadFrom(false, remote, local, keys);
    DownloadsPrefix(false, remote, local, keys);
    DownloadStop(false, remote, local, keys);
    var pending := set k | k in keys;
    DrainedLoopDeletesAll(false, remote, store, order, pending);
    var d := DeleteAll(false, remote, store, order);
    assert Outcome(remote, local, store, order).trace == dl.trace + d.trace;
    DeletedKeysConcat(dl.trace, d.trace);
  }

  /** With no dot test, the delete loop never returns quietly: a run that
      reaches it either gets through every key left in the set, deleting
      all of them and stopping the progress indicator, or returns the error
      of a failing delete of one of those keys without stopping it. */
  lemma DeletePhaseEnds(remote: Remote, local: Local, store: Store, order: seq<Key>)
    requires Prepare(remote, local, store).Draining?
    requires IsEnumeration(order, Pending(Prepare(remote, local, store)))
    ensures var p := Prepare(remote, local, store);
      var r := Outcome(remote, local, store, order);
      && (r.progressStopped ==>
           && DeletedKeys(r.trace[|p.trace|..]) == p.pending
           && r.store == p.store - p.pending)
      && (!r.progressStopped ==>
           && r.status.Failed?
           && exists k | k in p.pending :: remote.deleteFault(k) == Some(r.status.err))
  {
    var p := Prepare(remote, local, store);
    var d := DeleteAll(false, remote, p.store, order);
    ConcludeEnds(false, remote, p, order);
    LoopDeletesWithinSet(false, remote, p.store, order, p.pending);
    var r := Outcome(remote, local, store, order);
    var t := r.trace[|p.trace|..];
    assert t == d.trace;
    if !r.progressStopped {
      assert order[|t|] in p.pending;
    }
  }

  /** When every listed object is stored, the walk visits everything and
      every delete succeeds, the run makes the listed part of the bucket
      mirror the local files: every walked file is stored under its
      relative path, every listed key that no file has is gone, and
      unlisted objects are untouched. */
  lemma CleanRunMirrorsFiles(remote: Remote, local: Local, store: Store, order: seq<Key>, keys: seq<Key>)
    requires remote.listObjects == Ok(keys) && forall k | k in keys :: k in store
    requires local.dir.Dir? && !IsLocalDirEmpty(local.dir)
    requires CleanWalk(remote, local.walk)
    requires forall k | k in keys :: remote.deleteFault(k) == None
    requires IsEnumeration(order, Pending(Prepare(remote, local, store)))
    ensures var r := Outcome(remote, local, store, order);
      && r.status == Succeeded && r.progressStopped
      && (forall i | 0 <= i < |local.walk| && local.walk[i].Entry? && !local.walk[i].isDir ::
            local.walk[i].relPath in r.store)
      && (forall k | k in keys && (forall i | 0 <= i < |local.walk| && local.walk[i].Entry? && !local.walk[i].isDir ::
            local.walk[i].relPath != k) :: k !in r.store)
      && (forall k | k in store && k !in keys :: k in r.store)
  {
    var cb := Callback(remote);
    var es := local.walk;
    var existing := set k | k in keys;
    assert forall i, s | 0 <= i < |es| :: !cb(es[i], s).Abort?;
    var w := WalkFrom(cb, es, existing, store);
    WalkFromSpec(cb, es, existing, store);
    WalkNeverAborts(cb, es, existing, store);
    DrainedLoopDeletesAll(false, remote, w.store, order, w.existing);
    var r := Outcome(remote, local, store, order);
    assert r.store == w.store - w.existing;
    forall i | 0 <= i < |es| && es[i].Entry? && !es[i].isDir ensures es[i].relPath in r.store {
      var k := es[i].relPath;
      if k in existing {
        CompleteWalkSkips(cb, es, existing, store, i, k);
      } else {
        CompleteWalkUploads(cb, es, existing, store, i, k, map[]);
        assert k in UploadedKeys(w.trace);
      }
    }
    forall k | k in keys && (forall i | 0 <= i < |es| && es[i].Entry? && !es[i].isDir :: es[i].relPath != k)
      ensures k !in r.store
    {
      forall i, s | 0 <= i < |es| ensures cb(es[i], s) != Skip(k) {
        VisitSkipsExactly(remote, es[i], s, k);
      }
      UnskippableKeyRemains(cb, es, existing, store, k);
    }
  }
}
