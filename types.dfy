/** Values shared by both versions of the reconciliation run: object keys,
    the remote store, the behaviour of the object-storage service and of
    the local file system, and the trace of actions a run performs. */
module Types {

  /** An object key; it is also the walked file's path relative to the local root. */
  type Key = string

  /** User metadata attached to a stored object. */
  type Meta = map<string, string>

  /** The bucket's contents: every stored key with its user metadata. */
  type Store = map<Key, Meta>

  datatype Option<T> = None | Some(value: T)

  /** An error value returned by a remote call or a local file operation. */
  datatype Error = Error(message: string)

  datatype Result<T> = Ok(value: T) | Err(error: Error)

  /** What a run does, in the order it does it. */
  datatype Action =
    | Uploaded(key: Key, meta: Meta)
    | Skipped(key: Key)
    | Deleted(key: Key)
    | Downloaded(key: Key)

  /** The local steps that write one downloaded object. */
  datatype WriteStep = MakeParentDirs | CreateFile | CopyBody

  /** The object-storage service as the run sees it. Each call either
      succeeds or fails with an error; the listings are first pages only. */
  datatype Remote = Remote(
    listObjects: Result<seq<Key>>,      // ListObjects, first page
    listObjectsV2: Result<seq<Key>>,    // ListObjectsV2, first page
    headETag: Key -> Result<string>,    // HeadObject: the raw ETag, quotes included
    putFault: Key -> Option<Error>,     // PutObject
    deleteFault: Key -> Option<Error>,  // DeleteObject
    getFault: Key -> Option<Error>)     // GetObject

  /** One call of the walk callback: a visited path, or a path the walker
      could not stat or read. The relative path is precomputed; `md5` is
      None when hashing the file failed, and `openFault` is the outcome of
      opening the file for upload. */
  datatype WalkEntry =
    | Entry(path: string, relPath: Key, isDir: bool, md5: Option<string>, openFault: Option<Error>)
    | WalkFault(path: string, err: Error)

  /** The local root as the emptiness probe sees it. */
  datatype LocalDir =
    | Unopenable(err: Error)
    | Dir(names: seq<string>, readFault: Option<Error>)

  /** The local side of a run: the root directory, the walk over it, and
      the outcome of each step that writes a downloaded object. */
  datatype Local = Local(
    dir: LocalDir,
    walk: seq<WalkEntry>,
    writeFault: (Key, WriteStep) -> Option<Error>)

  /** How a run ends: returned nil, returned an error, or exited the process. */
  datatype Status = Succeeded | Failed(err: Error) | Exited(err: Error)

  /** The observable result of a run: its actions, the bucket afterwards,
      its status, and whether the progress indicator was stopped. */
  datatype Run = Run(trace: seq<Action>, store: Store, status: Status, progressStopped: bool)

  function UploadedKeys(t: seq<Action>): set<Key> {
    set a | a in t && a.Uploaded? :: a.key
  }

  function SkippedKeys(t: seq<Action>): set<Key> {
    set a | a in t && a.Skipped? :: a.key
  }

  function DeletedKeys(t: seq<Action>): set<Key> {
    set a | a in t && a.Deleted? :: a.key
  }

  lemma DeletedKeysConcat(a: seq<Action>, b: seq<Action>)
    ensures DeletedKeys(a + b) == DeletedKeys(a) + DeletedKeys(b)
  {
    assert forall x :: x in a + b <==> x in a || x in b;
  }

  /** `order` lists every key of `s` exactly once. */
  ghost predicate IsEnumeration(order: seq<Key>, s: set<Key>) {
    && (forall i, j | 0 <= i < j < |order| :: order[i] != order[j])
    && (forall k :: k in order <==> k in s)
  }

  /** Some enumeration of a finite set of keys. */
  ghost function EnumerationOf(s: set<Key>): (r: seq<Key>)
    ensures IsEnumeration(r, s)
    decreases s
  {
    if s == {} then []
    else
      var k :| k in s;
      var rest := EnumerationOf(s - {k});
      assert forall i | 0 <= i < |rest| :: rest[i] != k;
      [k] + rest
  }

  /** Only the empty sequence enumerates the empty set. */
  lemma EmptyEnumeration(order: seq<Key>, s: set<Key>)
    requires IsEnumeration(order, s)
    ensures s == {} <==> order == []
  {
    if order != [] {
      assert order[0] in order;
    }
    if s != {} {
      var k :| k in s;
      assert k in order;
    }
  }
}
