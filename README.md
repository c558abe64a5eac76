# s3-sync reconciliation, modelled in Dafny

s3-sync mirrors a local directory tree into an S3-compatible bucket. This
project models one reconciliation run, `Sync.Do`, in both versions of the
repository:

- `syncer/sync.go`, the version the application calls. It compares each
  file's MD5 with the object's ETag and has an ignore-dotfiles switch.
- `sync/sync.go`, the older version. It decides by existence only.

A run goes through these phases:

1. It lists the bucket (first page only) into a set of keys.
2. It probes the local root.
   - An empty root downloads every listed object (`downloadFromS3`).
   - Otherwise `filepath.Walk` visits the tree. Each file is skipped,
     which removes its key from the set, or uploaded. The first error
     aborts the walk.
3. It deletes every key still in the set. Go leaves the map's iteration
   order unspecified.
4. It reports a status.

Modules:

- `Types`: keys, the bucket as a map from key to user metadata, and the
  trace of actions. It also holds the oracles that stand for the service
  and the file system (`Remote`, `Local`): each remote call and each local
  step either succeeds or fails with an error.
- `Paths`: `filepath.Base` on '/'-separated paths, and the dot test.
- `Walk`: the walk as a right fold over the walked entries, driven by a
  callback. `WalkTree` is the loop that updates the key set and the bucket
  in place, proved equal to the fold.
- `Bootstrap`: `isLocalDirEmpty`, and `downloadFromS3` as a loop proved
  equal to a recursive specification.
- `Deletion`: the delete loop.
  - `DeleteRemaining` picks any unvisited key at each step, the way a Go
    map range does.
  - It returns, as a ghost, the order it used. Its result is the left fold
    `DeleteAll` over that order.
  - `Conclude` turns the state before the loop and that order into the
    run's outcome, including whether the progress indicator is stopped.
- `Syncer`: the callback of `syncer/sync.go` (`Visit`) and its `Do`.
- `LegacySync`: the callback of `sync/sync.go` and its `Do`. The
  emptiness probe, the download loop and the delete loop are identical in
  the two files apart from the dot checks. They are shared, with the
  ignore flag off.

Each `Do` is an imperative method. It is proved equal to
`Outcome(…, order)` for the order its delete loop used, and the run-level
lemmas hold for every such order.

In several places the code departs from what a mirroring tool is
evidently meant to do. The model follows the code:

- The delete loop also runs after the bootstrap download. Every
  downloaded object is therefore deleted from the bucket (see
  `EmptyRootDownloadsThenDeletesListing`).
- A listed file whose hash differs is uploaded, but its key stays in the
  set. The delete loop then removes it (`ChangedFileUploadedThenDeleted`).
  This also means a second run does not become a no-op.
- A failed ETag lookup aborts the walk. It does not fall back to
  uploading.
- A walk error does not stop the deletes. A later successful delete
  overwrites the error, and the run reports success
  (`WalkFailureMaskedByDeletes`).
- An MD5 failure is not an error. The empty string is used as the hash.
- The root counts as empty only when reading its first entry yields EOF.
  Hidden files and directories count as entries. A root that cannot be
  opened ends the process.
- The dot checks in the download and delete loops end the whole loop with
  a nil error. They do not skip just that key.
- Only the first listing page is read.

## Model

| member | source | states |
|---|---|---|
| `Paths.Base` | syncer/sync.go:114 | `filepath.Base` on '/'-separated paths: "." for the empty path, "/" for separators only, else the last element once trailing separators are dropped; its properties are stated by `BaseSpec` and `BaseOfChild` |
| `Paths.IgnoredPath` | syncer/sync.go:114-117 | the one dot test used by the walk (syncer/sync.go:114-117), the delete loop (183-186) and the download loop (276-279): the switch is on and the base name starts with a dot |
| `Paths.BaseSpec` | syncer/sync.go:114 | the base name is never empty, and is either "/" or free of separators |
| `Paths.BaseOfChild` | syncer/sync.go:114-117 | the base name of `dir/name` is `name`, whatever `dir` is |
| `Walk.WalkFrom` | syncer/sync.go:109-180 | the walk performs at most one action per visited entry |
| `Walk.WalkFromSpec` | syncer/sync.go:109-180 | after the walk, the set is the listed set less the skipped keys; the bucket gains exactly the uploaded keys, each holding the metadata sent with one of its PutObject calls, and keeps every other key's metadata; the walk only skips and uploads |
| `Walk.WalkTree` | syncer/sync.go:109-180 | the in-place walk loop (set deletes, puts, first error aborts) yields exactly the walk specification |
| `Walk.AbortedWalkIgnoresRest` | syncer/sync.go:110-112 | once the callback returns an error, later entries change nothing |
| `Walk.UnskippableKeyRemains` | syncer/sync.go:134-144 | a listed key that no entry skips is still in the set after the walk |
| `Walk.CompleteWalkUploads` | syncer/sync.go:147-179 | with no aborting entry, the walk ends without error, and an entry that uploads for every reachable set appears as that upload in the trace |
| `Walk.CompleteWalkSkips` | sync/sync.go:116-121 | with no aborting entry, a listed key that some entry skips whenever it is still present ends up skipped and out of the set |
| `Walk.WalkNeverAborts` | syncer/sync.go:109-180 | a walk none of whose entries can abort ends without error |
| `Bootstrap.IsLocalDirEmpty` | syncer/sync.go:231-245 | the root is empty exactly when reading its first entry succeeds with no entry; sync/sync.go:176-190 is the same test |
| `Bootstrap.FetchFault` | syncer/sync.go:281-314 | downloading one object succeeds exactly when GetObject, MkdirAll, Create and ReadFrom all succeed; a GetObject error is the one reported |
| `Bootstrap.DownloadListing` | syncer/sync.go:266-273 | the keys the download loop goes through: the first ListObjectsV2 page, or none when the listing fails, since `CheckErr` only logs |
| `Bootstrap.DownloadFrom` | syncer/sync.go:273-319 | the loop downloads at most one object per listed key and does nothing but download |
| `Bootstrap.DownloadsPrefix` | syncer/sync.go:273-317 | the downloads are the first listed keys, in listing order, each neither hidden (with ignoreDots) nor failing |
| `Bootstrap.DownloadStop` | syncer/sync.go:276-314 | the loop stops quietly only at a hidden key (with ignoreDots), and with an error only at a key whose download fails, that failure being the error |
| `Bootstrap.DownloadFromS3` | syncer/sync.go:265-320 | the download loop over the ListObjectsV2 page (empty on a listing error, which is only logged) yields the download specification; sync/sync.go:192-243 is the same loop with ignoreDots off |
| `Deletion.DeleteStep` | syncer/sync.go:182-197 | one iteration of the delete loop: a returned loop stays returned; a hidden key (with ignoreDots) returns nil; a failed DeleteObject returns its error; otherwise the key leaves the bucket and is recorded as deleted |
| `Deletion.DeleteAll` | syncer/sync.go:182-197 | the loop deletes at most one key per visited key |
| `Deletion.DeletesPrefix` | syncer/sync.go:182-197 | the deletes are the first visited keys, in order, each neither hidden (with ignoreDots) nor failing |
| `Deletion.LoopEnd` | syncer/sync.go:182-197 | the loop runs to the end exactly when no key stops it; it stops at a hidden key (with ignoreDots) or at the first failing delete, with that error |
| `Deletion.StoreAfterLoop` | syncer/sync.go:187-195 | the bucket loses exactly the deleted keys |
| `Deletion.ReturnedLoopIgnoresRest` | syncer/sync.go:184-186 | once the loop has returned, unvisited keys are left alone |
| `Deletion.DeleteRemaining` | syncer/sync.go:182-197 | ranging over the set deletes only keys of the set, all of them when the loop runs to the end, and is the delete specification over some enumeration of the set |
| `Deletion.LoopDeletesWithinSet` | syncer/sync.go:182-197 | over any enumeration of the set, the loop deletes only keys of the set, and when it runs to the end it has deleted all of them and the bucket has lost exactly them |
| `Deletion.Conclude` | syncer/sync.go:182-208 | an early return ends the run as it stood; otherwise the trace extends the earlier trace, the bucket is the delete loop's, a failed delete ends the run with that error and no progress Stop, and a run that reaches the Stop fails exactly when the walk failed and nothing was deleted, with the walk's error |
| `Deletion.ConcludeEnds` | syncer/sync.go:182-206 | whatever the iteration order, the deletes are the first keys of the order and the bucket loses exactly them; the Stop is reached exactly when every key was gone through, and the walk's error is then returned unless something was deleted; otherwise the run returns nil at a hidden key or the error of the first failing delete |
| `Deletion.HiddenKeysNeverDeleted` | syncer/sync.go:183-186 | with ignoreDots, a hidden key is never deleted and stays in the bucket, whatever the order |
| `Deletion.DrainedLoopDeletesAll` | syncer/sync.go:182-197 | when no key of the set stops the loop, it deletes every key of the set and nothing else, in any order |
| `Deletion.ConcludeDeletesOnlyPending` | syncer/sync.go:182-197 | a run deletes only keys left in the set |
| `Deletion.ConcludeKeepsHidden` | syncer/sync.go:183-186 | with ignoreDots, a stored hidden key survives the end of the run |
| `Deletion.HiddenLeftoverEndsRunEarly` | syncer/sync.go:182-201 | with ignoreDots, a hidden key left in the set makes the loop return early: no progress Stop, that key not deleted, and the status is nil or a delete's error, never the walk's error |
| `Syncer.StripQuotes` | syncer/sync.go:258 | the stripped ETag holds no double quote, is no longer than the ETag, and is the ETag itself when it held none |
| `Syncer.StripQuotesConcat` | syncer/sync.go:258 | removing quotes distributes over concatenation |
| `Syncer.QuotedETagIsDigest` | syncer/sync.go:258 | a quoted digest compares equal to the bare digest |
| `Syncer.ObjectMetadataHash` | syncer/sync.go:247-263 | the lookup fails exactly when HeadObject fails, with its error; on success it is the ETag with every quote removed, so it holds no quote |
| `Syncer.LocalHash` | syncer/sync.go:124-128 | the hash a file is compared and uploaded with: the digest, or "" when hashing failed, because the hashing error is overwritten before it is read; `UnhashableFileUsesEmptyHash` states the consequence |
| `Syncer.Visit` | syncer/sync.go:109-180 | the callback only ever skips or uploads the visited file's own relative path, skips only a key still in the set, and passes over every hidden path (with ignoreDots); the exact conditions are stated by the `Visit…Exactly` lemmas |
| `Syncer.BuildInventory` | syncer/sync.go:96-100 | a key is in the set exactly when it is in the listing page |
| `Syncer.Do` | syncer/sync.go:29-209 | a listing error is returned before any transfer with the bucket unchanged; a root that cannot be opened ends the process; only keys left in the set are deleted; and the run is the listing, bootstrap or walk, delete loop and status logic for the order its delete loop used, which enumerates that set |
| `Syncer.PassedEntryChangesNothing` | syncer/sync.go:114-122 | an entry is passed over exactly when it is hidden (with ignoreDots) or a directory, and passing changes neither the set nor the bucket |
| `Syncer.FileInHiddenDirectoryIsNotIgnored` | syncer/sync.go:114-117 | a visible file inside a hidden directory is not ignored, and the callback does not pass over it |
| `Syncer.VisitSkipsExactly` | syncer/sync.go:133-144 | a file is skipped exactly when its key is in the set and its unquoted ETag equals its local hash |
| `Syncer.VisitUploadsExactly` | syncer/sync.go:147-176 | a file is uploaded exactly when its key is absent or its hash differs and open and put succeed; the upload goes to its relative path with `md5-hash` metadata |
| `Syncer.VisitAbortsExactly` | syncer/sync.go:109-176 | the walk aborts exactly on a walker error, a failed lookup of a listed key, or a failed open or put of a file that is not skipped; the abort carries the walker's or the lookup's error, and otherwise the open error, or the PutObject error when the open succeeded |
| `Syncer.UnhashableFileUsesEmptyHash` | syncer/sync.go:124-131 | a file that could not be hashed is compared and uploaded with "" as its hash |
| `Syncer.CleanWalkNeverAborts` | syncer/sync.go:109-180 | when every path can be stat'ed, looked up, opened and put, no entry aborts |
| `Syncer.Prepare` | syncer/sync.go:88-181 | the run up to the delete loop: a listing error returns, an unopenable root exits, an empty root downloads (a download error returns), and otherwise the walk runs; its facts are stated by `PrepareFacts` |
| `Syncer.PrepareFacts` | syncer/sync.go:92-180 | before the delete loop nothing is deleted, no stored key is lost, and the set left is drawn from the listing and holds no skipped key |
| `Syncer.DeletesOnlyLeftovers` | syncer/sync.go:182-197 | a run deletes only listed keys that were not skipped |
| `Syncer.HiddenObjectsSurvive` | syncer/sync.go:182-186 | with ignoreDots, a stored object whose base name is hidden is neither deleted nor lost |
| `Syncer.EmptyRootDownloadsThenDeletesListing` | syncer/sync.go:101-197 | on an empty root with no failures, every listed object is downloaded in listing order, then deleted from the bucket, and the run succeeds |
| `Syncer.ChangedFileUploadedThenDeleted` | syncer/sync.go:134-197 | a listed file whose hash differs is uploaded, then deleted, and is missing from the bucket at the end of a successful run |
| `Syncer.WalkFailureMaskedByDeletes` | syncer/sync.go:109-205 | after a walk that fails at once, the deletes still run, and the run reports the walk's error only when the set was empty |
| `Syncer.CleanWalkRunBucket` | syncer/sync.go:109-205 | after a fault-free walk and deletes, the bucket is the walk's bucket less the listed keys that no file matched, uploaded ones included |
| `LegacySync.Do` | sync/sync.go:25-174 | a listing error is returned before any transfer with the bucket unchanged; a root that cannot be opened ends the process; and the run is the listing, bootstrap or walk, delete loop and status logic for the order its delete loop used, which enumerates the set left after the walk |
| `LegacySync.Visit` | sync/sync.go:100-149 | the callback only ever skips or uploads the visited file's own relative path, and skips only a key still in the set |
| `LegacySync.Prepare` | sync/sync.go:79-150 | the run up to the delete loop, as in the current version, with the existence-only callback and no dot test |
| `LegacySync.VisitPassesDirectoriesOnly` | sync/sync.go:105-108 | only directories are passed over; there is no dot filter |
| `LegacySync.VisitSkipsExactly` | sync/sync.go:116-121 | a file is skipped exactly when its key is in the set, and its content is never consulted |
| `LegacySync.VisitUploadsExactly` | sync/sync.go:123-148 | a file is uploaded exactly when its key is absent and open and put succeed, with no metadata |
| `LegacySync.VisitAbortsExactly` | sync/sync.go:100-147 | the walk aborts exactly on a walker error or a failed open or put of an unlisted file; the abort carries the walker's error, the open error, or the PutObject error when the open succeeded |
| `LegacySync.EmptyRootDownloadsThenDeletesListing` | sync/sync.go:92-162 | on an empty root with no failures, every listed object is downloaded in listing order and then deleted, because the set was never drained |
| `LegacySync.DeletePhaseEnds` | sync/sync.go:151-170 | a run that reaches the delete loop either deletes every key left in the set and reaches the progress Stop, or returns the error of a failing delete of one of those keys without it; there is no quiet return |
| `LegacySync.CleanRunMirrorsFiles` | sync/sync.go:100-162 | a fault-free run stores every walked file under its relative path, removes every listed key that no file has, and keeps unlisted objects stored (an unlisted stored key that a walked file has is uploaded again, with no metadata) |

## Left out

- Configuration (`godotenv`, `os.Getenv`, the `SYNC_IGNORE_DOTS` overwrite of `IgnoreDots`), the AWS session and credentials, the log file and the GUI: the bucket, the local root and the ignore flag are inputs.
- The working-directory and log-file checks at the start of `Do`, with their `log.Fatal` exits: they do no reconciliation.
- The content of objects and files: the bucket maps each key to its user metadata only. MD5 is an opaque per-entry value (`md5`, None when hashing failed), and the ETag is whatever HeadObject returns.
- Download destinations: a download is recorded by its key. The `filepath.Join` of the local root and the key, and the files written, are not modelled.
- Walk order and path arithmetic: each walked entry carries its path and relative path, in the order `filepath.Walk` visits them. `filepath.Rel` failing is not modelled. Paths are '/'-separated.
- Failures are oracles. Each remote call and each local write step is a fixed function of the key, and the listings do not follow the bucket's contents.
- Pagination: the code reads only the first page, and the model does the same.
- Deferred `Close` calls and the progress `Show`. A Close error on an uploaded file is only logged, and one on the hashed file is ignored. A Close error on the log file calls `log.Fatal` and ends the process after `Do` has returned; the model does not capture that exit. Of the progress indicator, only whether `Stop`/`Hide` is reached is modelled.
- `isLocalDirEmpty` probes `s.LocalPath`, and the walk uses the possibly env-derived `localPath`. The model gives both the same root.
