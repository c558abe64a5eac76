/** The reconciliation run of syncer/sync.go, the version the program
    calls: list the bucket into a set of keys, then either download
    everything (empty local root) or walk the root comparing each file's
    MD5 with the object's ETag, and finally delete every key left in the set. */
module Syncer {
  import opened Types
  import opened Paths
  import opened Walk
  import opened Bootstrap
  import opened Deletion

  /** `strings.ReplaceAll(etag, "\"", "")`: the ETag without any double quote. */
  function StripQuotes(s: string): (r: string)
    ensures '"' !in r
    ensures |r| <= |s|
    ensures '"' !in s ==> r == s
  {
    if s == [] then []
    else (if s[0] == '"' then [] else [s[0]]) + StripQuotes(s[1..])
  }

  lemma {:induction false} StripQuotesConcat(a: string, b: string)
    ensures StripQuotes(a + b) == StripQuotes(a) + StripQuotes(b)
    decreases |a|
  {
    if a == [] {
      assert a + b == b;
    } else {
      assert (a + b)[0] == a[0] && (a + b)[1..] == a[1..] + b;
      StripQuotesConcat(a[1..], b);
      var head := if a[0] == '"' then [] else [a[0]];
      assert head + (StripQuotes(a[1..]) + StripQuotes(b)) == (head + StripQuotes(a[1..])) + StripQuotes(b);
    }
  }

  /** A quoted hex digest, as the store returns it, compares equal to the bare digest. */
  lemma QuotedETagIsDigest(h: string)
    requires '"' !in h
    ensures StripQuotes("\"" + h + "\"") == h
  {
    StripQuotesConcat("\"" + h, "\"");
    StripQuotesConcat("\"", h);
  }

  /** getObjectMetadata: the object's ETag with its quotes removed (so a
      quoted digest reads as the bare digest, see QuotedETagIsDigest), or
      the HeadObject error. */
  function ObjectMetadataHash(remote: Remote, key: Key): (r: Result<string>)
    ensures r.Err? <==> remote.headETag(key).Err?
    ensures r.Err? ==> r.error == remote.headETag(key).error
    ensures r.Ok? ==> r.value == StripQuotes(remote.headETag(key).value)
    ensures r.Ok? ==> '"' !in r.value
  {
    match remote.headETag(key)
    case Ok(etag) => Ok(StripQuotes(etag))
    case Err(e) => Err(e)
  }

  /** The string calculateLocalMD5 yields: the digest, or "" when hashing
      failed (its error is overwritten before anyone reads it). */
  function LocalHash(md5: Option<string>): string {
    if md5.Some? then md5.value else ""
  }

  /** The user metadata attached to an upload. */
  function UploadMeta(hash: string): Meta {
    map["md5-hash" := hash]
  }

  /** The walk callback of syncer/sync.go. */
  function Visit(ignoreDots: bool, remote: Remote, e: WalkEntry, existing: set<Key>): (d: Decision)
    ensures d.Skip? || d.Upload? ==> e.Entry? && !e.isDir && d.key == e.relPath
    ensures d.Skip? ==> d.key in existing
    ensures e.Entry? && IgnoredPath(ignoreDots, e.path) ==> d == Pass
  {
    match e
    case WalkFault(_, err) => Abort(err)
    case Entry(path, relPath, isDir, md5, openFault) =>
      if IgnoredPath(ignoreDots, path) then Pass
      else if isDir then Pass
      else
        var hash := LocalHash(md5);
        var remoteHash := ObjectMetadataHash(remote, relPath);
        if relPath in existing && remoteHash.Err? then Abort(remoteHash.error)
        else if relPath in existing && remoteHash.value == hash then Skip(relPath)
        else if openFault.Some? then Abort(openFault.value)
        else if remote.putFault(relPath).Some? then Abort(remote.putFault(relPath).value)
        else Upload(relPath, UploadMeta(hash))
  }

  function Callback(ignoreDots: bool, remote: Remote): Walk.Callback {
    (e, s) => Visit(ignoreDots, remote, e, s)
  }

  /** The set of listed keys: `existingObjects[key] = true` for every key of the page. */
  method BuildInventory(keys: seq<Key>) returns (existing: set<Key>)
    ensures forall k :: k in existing <==> k in keys
  {
    existing := {};
    for i := 0 to |keys|
      invariant forall k :: k in existing <==> k in keys[..i]
    {
      assert keys[..i + 1] == keys[..i] + [keys[i]];
      existing := existing + {keys[i]};
    }
    assert keys[..|keys|] == keys;
  }

  /** Do up to the delete loop. */
  function Prepare(ignoreDots: bool, remote: Remote, local: Local, store: Store): Plan {
    match remote.listObjects
    case Err(e) => Halted(Run([], store, Failed(e), false))
    case Ok(keys) =>
      var existing := set k | k in keys;
      match local.dir
      case Unopenable(e) => Halted(Run([], store, Exited(e), false))
      case Dir(_, _) =>
        if IsLocalDirEmpty(local.dir) then
          var d := DownloadFrom(ignoreDots, remote, local, DownloadListing(remote));
          if d.err.Some? then Halted(Run(d.trace, store, Failed(d.err.value), false))
          else Draining(d.trace, store, existing, None)
        else
          var w := WalkFrom(Callback(ignoreDots, remote), local.walk, existing, store);
          Draining(w.trace, w.store, w.existing, w.err)
  }

  /** The run that ends with the delete loop going through the set in `order`. */
  function Outcome(ignoreDots: bool, remote: Remote, local: Local, store: Store, order: seq<Key>): Run {
    Conclude(ignoreDots, remote, Prepare(ignoreDots, remote, local, store), order)
  }

  /** Sync.Do: one reconciliation run against the bucket `store0`. The
      ghost `order` is the order in which the delete loop went through
      the keys left in the set. */
  method Do(ignoreDots: bool, remote: Remote, local: Local, store0: Store) returns (r: Run, ghost order: seq<Key>)
    ensures IsEnumeration(order, Pending(Prepare(ignoreDots, remote, local, store0)))
    ensures r == Outcome(ignoreDots, remote, local, store0, order)
    ensures remote.listObjects.Err? ==> r == Run([], store0, Failed(remote.listObjects.error), false)
    ensures remote.listObjects.Ok? && local.dir.Unopenable? ==> r == Run([], store0, Exited(local.dir.err), false)
    ensures DeletedKeys(r.trace) <= Pending(Prepare(ignoreDots, remote, local, store0))
  {
    order := [];
    if remote.listObjects.Err? {
      r := Run([], store0, Failed(remote.listObjects.error), false);
      return;
    }
    var existing := BuildInventory(remote.listObjects.value);
    assert existing == set k | k in remote.listObjects.value;
    if local.dir.Unopenable? {
      r := Run([], store0, Exited(local.dir.err), false);
      return;
    }
    var trace: seq<Action>;
    var store: Store;
    var walkErr: Option<Error>;
    if IsLocalDirEmpty(local.dir) {
      var d := DownloadFromS3(ignoreDots, remote, local);
      if d.err.Some? {
        r := Run(d.trace, store0, Failed(d.err.value), false);
        return;
      }
      trace, store, walkErr := d.trace, store0, None;
    } else {
      var w := WalkTree(Callback(ignoreDots, remote), local.walk, existing, store0);
      existing, store, trace, walkErr := w.existing, w.store, w.trace, w.err;
    }
    var del;
    del, order := DeleteRemaining(ignoreDots, remote, existing, store);
    match del.stop {
      case HiddenKey(_) =>
        r := Run(trace + del.trace, del.store, Succeeded, false);
      case DeleteFailed(e) =>
        r := Run(trace + del.trace, del.store, Failed(e), false);
      case Running =>
        // every successful DeleteObject overwrites the walk's error
        var err := if del.trace == [] then walkErr else None;
        r := Run(trace + del.trace, del.store, if err.Some? then Failed(err.value) else Succeeded, true);
    }
    DeletesOnlyLeftovers(ignoreDots, remote, local, store0, order);
  }

  // ---------------------------------------------------------------
  // One entry of the walk

  /** An entry is passed over exactly when it is hidden (with ignoreDots)
      or a directory; passing leaves the key set and the bucket alone. */
  lemma {:induction false} PassedEntryChangesNothing(ignoreDots: bool, remote: Remote, e: WalkEntry, rest: seq<WalkEntry>, existing: set<Key>, store: Store)
    ensures Visit(ignoreDots, remote, e, existing) == Pass <==> e.Entry? && (IgnoredPath(ignoreDots, e.path) || e.isDir)
    ensures e.Entry? && (IgnoredPath(ignoreDots, e.path) || e.isDir) ==>
      WalkFrom(Callback(ignoreDots, remote), [e] + rest, existing, store)
        == WalkFrom(Callback(ignoreDots, remote), rest, existing, store)
  {
    assert ([e] + rest)[0] == e && ([e] + rest)[1..] == rest;
  }

  /** The dot test looks at the base name only: a visible file inside a
      hidden directory is processed like any other. */
  lemma FileInHiddenDirectoryIsNotIgnored(remote: Remote, dir: string, name: string, relPath: Key, md5: Option<string>, openFault: Option<Error>, s: set<Key>)
    requires name != [] && '/' !in name && !IsHidden(name)
    ensures !IgnoredPath(true, dir + "/" + name)
    ensures Visit(true, remote, Entry(dir + "/" + name, relPath, false, md5, openFault), s) != Pass
  {
    BaseOfChild(dir, name);
  }

  /** A file is skipped exactly when its key is still in the set and its
      ETag, quotes removed, equals its local hash. */
  lemma VisitSkipsExactly(ignoreDots: bool, remote: Remote, e: WalkEntry, s: set<Key>, k: Key)
    ensures Visit(ignoreDots, remote, e, s) == Skip(k) <==>
      && e.Entry? && !IgnoredPath(ignoreDots, e.path) && !e.isDir
      && e.relPath == k && k in s
      && remote.headETag(k).Ok? && StripQuotes(remote.headETag(k).value) == LocalHash(e.md5)
  {
  }

  /** A file is uploaded exactly when its key is not in the set or its
      hash differs, and opening and putting it succeed; it goes to its
      relative path with the local hash as `md5-hash` metadata. The key
      set is not touched, so a listed key stays in it. */
  lemma VisitUploadsExactly(ignoreDots: bool, remote: Remote, e: WalkEntry, s: set<Key>)
    ensures Visit(ignoreDots, remote, e, s).Upload? <==>
      && e.Entry? && !IgnoredPath(ignoreDots, e.path) && !e.isDir
      && (e.relPath !in s
          || (remote.headETag(e.relPath).Ok? && StripQuotes(remote.headETag(e.relPath).value) != LocalHash(e.md5)))
      && e.openFault == None && remote.putFault(e.relPath) == None
    ensures Visit(ignoreDots, remote, e, s).Upload? ==>
      e.Entry? && Visit(ignoreDots, remote, e, s) == Upload(e.relPath, UploadMeta(LocalHash(e.md5)))
  {
  }

  /** The walk aborts on a walker error, on a failed HeadObject for a
      listed key (there is no fallback to uploading), and on a failed open
      or PutObject of a file that is not skipped, each time with that
      error; a failed open is reported before PutObject is tried. */
  lemma VisitAbortsExactly(ignoreDots: bool, remote: Remote, e: WalkEntry, s: set<Key>)
    ensures e.WalkFault? ==> Visit(ignoreDots, remote, e, s) == Abort(e.err)
    ensures e.Entry? && !IgnoredPath(ignoreDots, e.path) && !e.isDir && e.relPath in s && remote.headETag(e.relPath).Err? ==>
      Visit(ignoreDots, remote, e, s) == Abort(remote.headETag(e.relPath).error)
    ensures Visit(ignoreDots, remote, e, s).Abort? <==>
      || e.WalkFault?
      || (&& !IgnoredPath(ignoreDots, e.path) && !e.isDir
          && ((e.relPath in s && remote.headETag(e.relPath).Err?)
              || (&& !(e.relPath in s && StripQuotes(remote.headETag(e.relPath).value) == LocalHash(e.md5))
                  && (e.openFault.Some? || remote.putFault(e.relPath).Some?))))
    ensures
      && e.Entry? && !IgnoredPath(ignoreDots, e.path) && !e.isDir
      && !(e.relPath in s && remote.headETag(e.relPath).Err?)
      && Visit(ignoreDots, remote, e, s).Abort?
      ==>
      Visit(ignoreDots, remote, e, s)
        == Abort(if e.openFault.Some? then e.openFault.value else remote.putFault(e.relPath).value)
  {
  }

  /** A file that could not be hashed is compared, and uploaded, with the
      empty string as its hash: it is skipped when the stored ETag is
      empty once unquoted, and uploaded with an empty `md5-hash` otherwise. */
  lemma UnhashableFileUsesEmptyHash(ignoreDots: bool, remote: Remote, e: WalkEntry, s: set<Key>, etag: string)
    requires e.Entry? && !IgnoredPath(ignoreDots, e.path) && !e.isDir && e.md5 == None
    requires e.relPath in s && remote.headETag(e.relPath) == Ok(etag)
    requires e.openFault == None && remote.putFault(e.relPath) == None
    ensures Visit(ignoreDots, remote, e, s)
      == if StripQuotes(etag) == "" then Skip(e.relPath) else Upload(e.relPath, map["md5-hash" := ""])
  {
  }

  /** Every walked path can be stat'ed, looked up, opened and put. */
  predicate CleanWalk(remote: Remote, es: seq<WalkEntry>) {
    forall i | 0 <= i < |es| ::
      && es[i].Entry?
      && remote.headETag(es[i].relPath).Ok?
      && es[i].openFault == None
      && remote.putFault(es[i].relPath) == None
  }

  lemma CleanWalkNeverAborts(ignoreDots: bool, remote: Remote, es: seq<WalkEntry>)
    requires CleanWalk(remote, es)
    ensures forall i, s | 0 <= i < |es| :: !Callback(ignoreDots, remote)(es[i], s).Abort?
  {
    forall i, s | 0 <= i < |es| ensures !Callback(ignoreDots, remote)(es[i], s).Abort? {
      assert es[i].Entry?;
    }
  }

  // ---------------------------------------------------------------
  // Whole runs

  /** What the run has done before the delete loop: nothing deleted, no
      stored key lost, and a set of leftovers drawn from the listing with
      no skipped key among them. */
  lemma PrepareFacts(ignoreDots: bool, remote: Remote, local: Local, store: Store)
    ensures var p := Prepare(ignoreDots, remote, local, store);
      && (p.Halted? ==> p.run.store == store && forall a | a in p.run.trace :: !a.Deleted?)
      && (p.Draining? ==>
           && (forall a | a in p.trace :: !a.Deleted?)
           && (forall k | k in store :: k in p.store)
           && remote.listObjects.Ok?
           && (forall k | k in p.pending :: k in remote.listObjects.value)
           && p.pending !! SkippedKeys(p.trace))
  {
    if remote.listObjects.Ok? && local.dir.Dir? && !IsLocalDirEmpty(local.dir) {
      WalkFromSpec(Callback(ignoreDots, remote), local.walk, (set k | k in remote.listObjects.value), store);
    }
  }

  /** Only keys left in the set are deleted: listed keys that no file
      matched. No skipped key is deleted. */
  lemma DeletesOnlyLeftovers(ignoreDots: bool, remote: Remote, local: Local, store: Store, order: seq<Key>)
    requires IsEnumeration(order, Pending(Prepare(ignoreDots, remote, local, store)))
    ensures var p := Prepare(ignoreDots, remote, local, store);
      && DeletedKeys(Outcome(ignoreDots, remote, local, store, order).trace) <= Pending(p)
      && (remote.listObjects.Ok? ==> forall k | k in Pending(p) :: k in remote.listObjects.value)
      && (p.Draining? ==> Pending(p) !! SkippedKeys(p.trace))
  {
    PrepareFacts(ignoreDots, remote, local, store);
    var p := Prepare(ignoreDots, remote, local, store);
    if p.Draining? {
      ConcludeDeletesOnlyPending(ignoreDots, remote, p, order);
    }
  }

  /** With ignoreDots, an object whose base name is hidden is never
      deleted, whatever happens in the run. */
  lemma HiddenObjectsSurvive(remote: Remote, local: Local, store: Store, order: seq<Key>, k: Key)
    requires IsHidden(Base(k)) && k in store
    ensures k in Outcome(true, remote, local, store, order).store
    ensures Deleted(k) !in Outcome(true, remote, local, store, order).trace
  {
    PrepareFacts(true, remote, local, store);
    var p := Prepare(true, remote, local, store);
    if p.Draining? {
      ConcludeKeepsHidden(remote, p, order, k);
    }
  }

  /** An empty root takes the bootstrap branch, and the delete loop still
      runs afterwards over the untouched set: when the two listings agree
      and nothing fails, every listed object is downloaded in listing order
      and then deleted from the bucket. */
  lemma EmptyRootDownloadsThenDeletesListing(ignoreDots: bool, remote: Remote, local: Local, store: Store, order: seq<Key>, keys: seq<Key>)
    requires remote.listObjects == Ok(keys) && remote.listObjectsV2 == Ok(keys)
    requires local.dir == Dir([], None)
    requires forall k | k in keys ::
      && !IgnoredPath(ignoreDots, k) && FetchFault(remote, local, k) == None
      && !IgnoredPath(ignoreDots, k) && remote.deleteFault(k) == None
    requires IsEnumeration(order, Pending(Prepare(ignoreDots, remote, local, store)))
    ensures var r := Outcome(ignoreDots, remote, local, store, order);
      && |keys| <= |r.trace|
      && (forall j | 0 <= j < |keys| :: r.trace[j] == Downloaded(keys[j]))
      && DeletedKeys(r.trace) == (set k | k in keys)
      && r.store == store - (set k | k in keys)
      && r.status == Succeeded && r.progressStopped
  {
    var dl := DownloadFrom(ignoreDots, remote, local, keys);
    DownloadsPrefix(ignoreDots, remote, local, keys);
    DownloadStop(ignoreDots, remote, local, keys);
    var pending := set k | k in keys;
    DrainedLoopDeletesAll(ignoreDots, remote, store, order, pending);
    var d := DeleteAll(ignoreDots, remote, store, order);
    assert Outcome(ignoreDots, remote, local, store, order).trace == dl.trace + d.trace;
    DeletedKeysConcat(dl.trace, d.trace);
  }

  /** A listed file whose hash differs is uploaded, stays in the set, and
      is then deleted by the delete loop: the run ends with the changed
      file missing from the bucket. */
  lemma ChangedFileUploadedThenDeleted(ignoreDots: bool, remote: Remote, local: Local, store: Store, order: seq<Key>, keys: seq<Key>, n: nat, k: Key)
    requires remote.listObjects == Ok(keys)
    requires local.dir.Dir? && !IsLocalDirEmpty(local.dir)
    requires CleanWalk(remote, local.walk)
    requires n < |local.walk| && local.walk[n].Entry? && local.walk[n].relPath == k
    requires !IgnoredPath(ignoreDots, local.walk[n].path) && !local.walk[n].isDir
    requires k in keys && remote.headETag(k).Ok?
    requires StripQuotes(remote.headETag(k).value) != LocalHash(local.walk[n].md5)
    requires forall i | 0 <= i < |local.walk| && local.walk[i].Entry? && local.walk[i].relPath == k :: i == n
    requires forall j | j in keys :: !IgnoredPath(ignoreDots, j) && remote.deleteFault(j) == None
    requires IsEnumeration(order, Pending(Prepare(ignoreDots, remote, local, store)))
    ensures var r := Outcome(ignoreDots, remote, local, store, order);
      && Uploaded(k, UploadMeta(LocalHash(local.walk[n].md5))) in r.trace
      && Deleted(k) in r.trace
      && k !in r.store
      && r.status == Succeeded
  {
    var cb := Callback(ignoreDots, remote);
    var es := local.walk;
    var existing := set j | j in keys;
    var m := UploadMeta(LocalHash(es[n].md5));
    CleanWalkNeverAborts(ignoreDots, remote, es);
    forall s | s <= existing ensures cb(es[n], s) == Upload(k, m) {
      VisitUploadsExactly(ignoreDots, remote, es[n], s);
    }
    CompleteWalkUploads(cb, es, existing, store, n, k, m);
    forall i, s | 0 <= i < |es| ensures cb(es[i], s) != Skip(k) {
      VisitSkipsExactly(ignoreDots, remote, es[i], s, k);
      if i == n {
        VisitUploadsExactly(ignoreDots, remote, es[n], s);
      }
    }
    UnskippableKeyRemains(cb, es, existing, store, k);
    var w := WalkFrom(cb, es, existing, store);
    WalkFromSpec(cb, es, existing, store);
    DrainedLoopDeletesAll(ignoreDots, remote, w.store, order, w.existing);
    var d := DeleteAll(ignoreDots, remote, w.store, order);
    var r := Outcome(ignoreDots, remote, local, store, order);
    assert r.trace == w.trace + d.trace;
    var a :| a in d.trace && a.Deleted? && a.key == k;
  }

  /** A walk that fails at its first entry is followed by the delete loop
      all the same, and a successful delete overwrites the walk's error:
      the run reports the failure only when the set was empty. */
  lemma WalkFailureMaskedByDeletes(ignoreDots: bool, remote: Remote, local: Local, store: Store, order: seq<Key>, keys: seq<Key>, path: string, e: Error)
    requires remote.listObjects == Ok(keys)
    requires local.dir.Dir? && !IsLocalDirEmpty(local.dir)
    requires local.walk != [] && local.walk[0] == WalkFault(path, e)
    requires forall j | j in keys :: !IgnoredPath(ignoreDots, j) && remote.deleteFault(j) == None
    requires IsEnumeration(order, Pending(Prepare(ignoreDots, remote, local, store)))
    ensures var r := Outcome(ignoreDots, remote, local, store, order);
      && r.status == (if keys == [] then Failed(e) else Succeeded)
      && r.progressStopped
      && DeletedKeys(r.trace) == (set j | j in keys)
  {
    var existing := set j | j in keys;
    assert WalkFrom(Callback(ignoreDots, remote), local.walk, existing, store) == WalkResult(existing, store, [], Some(e));
    DrainedLoopDeletesAll(ignoreDots, remote, store, order, existing);
    var d := DeleteAll(ignoreDots, remote, store, order);
    EmptyEnumeration(order, existing);
    if keys != [] {
      assert keys[0] in existing;
    }
    assert Outcome(ignoreDots, remote, local, store, order).trace == [] + d.trace;
  }

  /** After a walk that visits everything, with every delete succeeding,
      the bucket is the walk's bucket less the listed keys that no file
      matched, uploaded ones included; the run succeeds. */
  lemma CleanWalkRunBucket(ignoreDots: bool, remote: Remote, local: Local, store: Store, order: seq<Key>, keys: seq<Key>)
    requires remote.listObjects == Ok(keys)
    requires local.dir.Dir? && !IsLocalDirEmpty(local.dir)
    requires CleanWalk(remote, local.walk)
    requires forall j | j in keys :: !IgnoredPath(ignoreDots, j) && remote.deleteFault(j) == None
    requires IsEnumeration(order, Pending(Prepare(ignoreDots, remote, local, store)))
    ensures var w := WalkFrom(Callback(ignoreDots, remote), local.walk, (set j | j in keys), store);
      var r := Outcome(ignoreDots, remote, local, store, order);
      && r.store == w.store - ((set j | j in keys) - SkippedKeys(w.trace))
      && r.store.Keys == (store.Keys + UploadedKeys(w.trace)) - ((set j | j in keys) - SkippedKeys(w.trace))
      && r.status == Succeeded && r.progressStopped
  {
    var existing := set j | j in keys;
    CleanWalkNeverAborts(ignoreDots, remote, local.walk);
    WalkNeverAborts(Callback(ignoreDots, remote), local.walk, existing, store);
    var w := WalkFrom(Callback(ignoreDots, remote), local.walk, existing, store);
    WalkFromSpec(Callback(ignoreDots, remote), local.walk, existing, store);
    DrainedLoopDeletesAll(ignoreDots, remote, w.store, order, w.existing);
  }
}
