/** The bootstrap branch of a run: the emptiness probe of the local root
    (isLocalDirEmpty) and the download of every listed object
    (downloadFromS3). */
module Bootstrap {
  import opened Types
  import opened Paths

  /** What `Readdirnames(1)` yields on the opened root. */
  datatype FirstName = Name(name: string) | Eof | ReadError(err: Error)

  function ReadFirstName(d: LocalDir): FirstName
    requires d.Dir?
  {
    if d.readFault.Some? then ReadError(d.readFault.value)
    else if d.names == [] then Eof
    else Name(d.names[0])
  }

  /** The root is empty when reading its first entry yields EOF. A root
      that cannot be opened ends the process instead, so that case belongs
      to the caller. */
  function IsLocalDirEmpty(d: LocalDir): (r: bool)
    requires d.Dir?
    ensures r <==> d.readFault == None && d.names == []
    ensures r ==> forall n :: n !in d.names
  {
    ReadFirstName(d) == Eof
  }

  /** The downloads performed and the error that ended them, if any. */
  datatype DownloadResult = DownloadResult(trace: seq<Action>, err: Option<Error>)

  /** The keys the download loop goes through: the first ListObjectsV2
      page. A listing error is only logged, and the output then holds no
      contents, so nothing is downloaded. */
  function DownloadListing(remote: Remote): seq<Key> {
    if remote.listObjectsV2.Ok? then remote.listObjectsV2.value else []
  }

  /** The first failing step of downloading one object, in the order
      GetObject, MkdirAll of the parent, Create, ReadFrom. */
  function FetchFault(remote: Remote, local: Local, k: Key): (r: Option<Error>)
    ensures r == None <==>
      && remote.getFault(k) == None
      && local.writeFault(k, MakeParentDirs) == None
      && local.writeFault(k, CreateFile) == None
      && local.writeFault(k, CopyBody) == None
    ensures remote.getFault(k).Some? ==> r == remote.getFault(k)
  {
    if remote.getFault(k).Some? then remote.getFault(k)
    else if local.writeFault(k, MakeParentDirs).Some? then local.writeFault(k, MakeParentDirs)
    else if local.writeFault(k, CreateFile).Some? then local.writeFault(k, CreateFile)
    else local.writeFault(k, CopyBody)
  }

  /** The download loop over `keys`: the keys are downloaded in listing
      order until the first hidden key (with ignoreDots), which ends the
      loop quietly, or the first key that cannot be downloaded, whose
      error ends it. */
  function DownloadFrom(ignoreDots: bool, remote: Remote, local: Local, keys: seq<Key>): (d: DownloadResult)
    ensures |d.trace| <= |keys|
    ensures forall a | a in d.trace :: a.Downloaded?
    decreases |keys|
  {
    if keys == [] then DownloadResult([], None)
    else if IgnoredPath(ignoreDots, keys[0]) then DownloadResult([], None)
    else if FetchFault(remote, local, keys[0]).Some? then DownloadResult([], FetchFault(remote, local, keys[0]))
    else
      var rest := DownloadFrom(ignoreDots, remote, local, keys[1..]);
      DownloadResult([Downloaded(keys[0])] + rest.trace, rest.err)
  }

  /** A key the loop gets past is downloaded, and the loop goes on with the next one. */
  lemma DownloadFromStep(ignoreDots: bool, remote: Remote, local: Local, keys: seq<Key>)
    requires keys != [] && !IgnoredPath(ignoreDots, keys[0]) && FetchFault(remote, local, keys[0]) == None
    ensures DownloadFrom(ignoreDots, remote, local, keys).trace
         == [Downloaded(keys[0])] + DownloadFrom(ignoreDots, remote, local, keys[1..]).trace
    ensures DownloadFrom(ignoreDots, remote, local, keys).err == DownloadFrom(ignoreDots, remote, local, keys[1..]).err
  {
  }

  /** The downloads are a prefix of the listing, in order, each of a key
      that is neither hidden (with ignoreDots) nor failing. */
  lemma {:induction false} DownloadsPrefix(ignoreDots: bool, remote: Remote, local: Local, keys: seq<Key>)
    ensures var d := DownloadFrom(ignoreDots, remote, local, keys);
      forall j | 0 <= j < |d.trace| ::
        && d.trace[j] == Downloaded(keys[j])
        && !IgnoredPath(ignoreDots, keys[j])
        && FetchFault(remote, local, keys[j]) == None
    decreases |keys|
  {
    if keys != [] && !IgnoredPath(ignoreDots, keys[0]) && FetchFault(remote, local, keys[0]) == None {
      var rest := DownloadFrom(ignoreDots, remote, local, keys[1..]);
      var d := DownloadFrom(ignoreDots, remote, local, keys);
      DownloadsPrefix(ignoreDots, remote, local, keys[1..]);
      DownloadFromStep(ignoreDots, remote, local, keys);
      forall j | 0 <= j < |d.trace|
        ensures d.trace[j] == Downloaded(keys[j]) && !IgnoredPath(ignoreDots, keys[j]) && FetchFault(remote, local, keys[j]) == None
      {
        if j > 0 {
          assert d.trace[j] == rest.trace[j - 1] && keys[1..][j - 1] == keys[j];
        }
      }
    }
  }

  /** The loop ends early quietly only at a hidden key (with ignoreDots),
      and with an error only at a key whose download fails, that failure
      being the error. */
  lemma {:induction false} DownloadStop(ignoreDots: bool, remote: Remote, local: Local, keys: seq<Key>)
    ensures var d := DownloadFrom(ignoreDots, remote, local, keys);
      && (d.err == None && |d.trace| < |keys| ==> IgnoredPath(ignoreDots, keys[|d.trace|]))
      && (d.err.Some? ==>
           && |d.trace| < |keys|
           && !IgnoredPath(ignoreDots, keys[|d.trace|])
           && FetchFault(remote, local, keys[|d.trace|]) == d.err)
    decreases |keys|
  {
    if keys != [] && !IgnoredPath(ignoreDots, keys[0]) && FetchFault(remote, local, keys[0]) == None {
      var rest := DownloadFrom(ignoreDots, remote, local, keys[1..]);
      var d := DownloadFrom(ignoreDots, remote, local, keys);
      DownloadStop(ignoreDots, remote, local, keys[1..]);
      DownloadFromStep(ignoreDots, remote, local, keys);
      if |rest.trace| < |keys[1..]| {
        assert keys[|d.trace|] == keys[1..][|rest.trace|];
      }
    }
  }

  /** The download result once `done` has already been performed. */
  function After(done: seq<Action>, d: DownloadResult): DownloadResult {
    d.(trace := done + d.trace)
  }

  lemma AfterStep(done: seq<Action>, k: Key, d: DownloadResult)
    ensures After(done, DownloadResult([Downloaded(k)] + d.trace, d.err)) == After(done + [Downloaded(k)], d)
  {
    assert done + ([Downloaded(k)] + d.trace) == (done + [Downloaded(k)]) + d.trace;
  }

  /** downloadFromS3: go through the listing, downloading each object to
      its mirrored local path. */
  method DownloadFromS3(ignoreDots: bool, remote: Remote, local: Local) returns (d: DownloadResult)
    ensures d == DownloadFrom(ignoreDots, remote, local, DownloadListing(remote))
  {
    var keys := DownloadListing(remote);
    var trace := [];
    var i := 0;
    while i < |keys|
      invariant i <= |keys|
      invariant DownloadFrom(ignoreDots, remote, local, keys)
             == After(trace, DownloadFrom(ignoreDots, remote, local, keys[i..]))
    {
      var k := keys[i];
      assert keys[i..][0] == k && keys[i..][1..] == keys[i + 1..];
      if IgnoredPath(ignoreDots, k) {
        return DownloadResult(trace, None);
      }
      var fault := FetchFault(remote, local, k);
      if fault.Some? {
        return DownloadResult(trace, fault);
      }
      AfterStep(trace, k, DownloadFrom(ignoreDots, remote, local, keys[i + 1..]));
      trace := trace + [Downloaded(k)];
      i := i + 1;
    }
    assert keys[i..] == [];
    return DownloadResult(trace, None);
  }
}
