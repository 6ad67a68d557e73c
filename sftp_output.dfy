/**
 * `SftpOutputPlugin`: after each emit, find the chunks whose hash changed
 * since the last build, keep the files of theirs that were emitted, and
 * upload them one after the other with `scp`, stopping at the first
 * failure. The transfer itself is an oracle `scpOk(local, target)`.
 */
module SftpOutput {
  import opened JsString
  import opened Webpack

  /**
   * The options object; a field left `undefined` is `None`. Only the
   * fields the constructor gives a default are optional here.
   */
  datatype Options = Options(
    host: string,
    username: string,
    password: string,
    port: Option<string>,
    remotePath: string,
    localPath: string,
    enabled: Option<bool>,
    uploadOnFirstBuild: Option<bool>)

  // ---------------------------------------------------------------------
  // Changed chunks
  // ---------------------------------------------------------------------

  /** The stored version of chunk `c` is missing or differs from its hash. */
  predicate IsNew(versions: map<string, string>, c: Chunk) {
    c.name !in versions || versions[c.name] != c.hash
  }

  /** `chunkVersions` after recording each chunk's hash in turn. */
  function VersionsAfter(versions: map<string, string>, chunks: seq<Chunk>): map<string, string> {
    if chunks == [] then versions
    else
      var last := chunks[|chunks| - 1];
      VersionsAfter(versions, chunks[..|chunks| - 1])[last.name := last.hash]
  }

  /**
   * The chunks that the `filter` callback keeps: each is compared with the
   * table as the earlier chunks of the same build have left it.
   */
  function Changed(versions: map<string, string>, chunks: seq<Chunk>): seq<Chunk> {
    if chunks == [] then []
    else
      var front, last := chunks[..|chunks| - 1], chunks[|chunks| - 1];
      Changed(versions, front) + (if IsNew(VersionsAfter(versions, front), last) then [last] else [])
  }

  /** Every chunk's hash is recorded under its name, the last chunk of a name winning. */
  lemma {:induction false} VersionsLastWins(versions: map<string, string>, chunks: seq<Chunk>, i: int)
    requires 0 <= i < |chunks|
    requires forall j :: i < j < |chunks| ==> chunks[j].name != chunks[i].name
    ensures chunks[i].name in VersionsAfter(versions, chunks)
    ensures VersionsAfter(versions, chunks)[chunks[i].name] == chunks[i].hash
  {
    var n := |chunks| - 1;
    if i < n {
      VersionsLastWins(versions, chunks[..n], i);
    }
  }

  /** A name that no chunk of the build has keeps its stored version, or its absence. */
  lemma {:induction false} VersionsKeepOthers(versions: map<string, string>, chunks: seq<Chunk>, name: string)
    requires forall j :: 0 <= j < |chunks| ==> chunks[j].name != name
    ensures name in VersionsAfter(versions, chunks) <==> name in versions
    ensures name in versions ==> VersionsAfter(versions, chunks)[name] == versions[name]
  {
    if chunks != [] {
      VersionsKeepOthers(versions, chunks[..|chunks| - 1], name);
    }
  }

  /** The chunks of the list that are new against the table `versions`. */
  function NewChunks(versions: map<string, string>, chunks: seq<Chunk>): seq<Chunk> {
    if chunks == [] then []
    else (if IsNew(versions, chunks[0]) then [chunks[0]] else []) + NewChunks(versions, chunks[1..])
  }

  predicate DistinctNames(chunks: seq<Chunk>) {
    forall i, j :: 0 <= i < j < |chunks| ==> chunks[i].name != chunks[j].name
  }

  lemma {:induction false} NewChunksSnoc(versions: map<string, string>, chunks: seq<Chunk>)
    requires chunks != []
    ensures NewChunks(versions, chunks)
      == NewChunks(versions, chunks[..|chunks| - 1])
         + (if IsNew(versions, chunks[|chunks| - 1]) then [chunks[|chunks| - 1]] else [])
  {
    var n := |chunks| - 1;
    if n > 0 {
      var head := if IsNew(versions, chunks[0]) then [chunks[0]] else [];
      var tail := if IsNew(versions, chunks[n]) then [chunks[n]] else [];
      NewChunksSnoc(versions, chunks[1..]);
      assert chunks[1..][..n - 1] == chunks[..n][1..];
      assert chunks[1..][n - 1] == chunks[n];
      assert NewChunks(versions, chunks) == head + NewChunks(versions, chunks[1..]);
      var mid := NewChunks(versions, chunks[..n][1..]);
      assert NewChunks(versions, chunks[..n]) == head + mid;
      assert head + (mid + tail) == (head + mid) + tail;
    }
  }

  /**
   * When the names of the build's chunks are distinct, a chunk counts as
   * changed exactly when its hash differs from the version stored before
   * the build; in particular a name seen for the first time counts.
   */
  lemma {:induction false} ChangedIsNewAgainstOldTable(versions: map<string, string>, chunks: seq<Chunk>)
    requires DistinctNames(chunks)
    ensures Changed(versions, chunks) == NewChunks(versions, chunks)
  {
    if chunks != [] {
      var n := |chunks| - 1;
      var front, last := chunks[..n], chunks[n];
      ChangedIsNewAgainstOldTable(versions, front);
      assert forall j :: 0 <= j < |front| ==> front[j].name != last.name;
      VersionsKeepOthers(versions, front, last.name);
      NewChunksSnoc(versions, chunks);
    }
  }

  /** The changed chunks are among the build's chunks, and no more numerous. */
  lemma {:induction false} ChangedAmongChunks(versions: map<string, string>, chunks: seq<Chunk>)
    ensures |Changed(versions, chunks)| <= |chunks|
    ensures forall c :: c in Changed(versions, chunks) ==> c in chunks
  {
    if chunks != [] {
      ChangedAmongChunks(versions, chunks[..|chunks| - 1]);
    }
  }

  /** A build whose chunks all hash as recorded changes nothing. */
  lemma {:induction false} UnchangedBuildHasNoChangedChunks(versions: map<string, string>, chunks: seq<Chunk>)
    requires forall c :: c in chunks ==> c.name in versions && versions[c.name] == c.hash
    ensures Changed(versions, chunks) == []
    ensures VersionsAfter(versions, chunks) == versions
  {
    if chunks != [] {
      var n := |chunks| - 1;
      assert chunks[n] in chunks;
      UnchangedBuildHasNoChangedChunks(versions, chunks[..n]);
    }
  }

  // ---------------------------------------------------------------------
  // Changed assets
  // ---------------------------------------------------------------------

  /** `changedAssets.concat(chunk.files)` over the changed chunks. */
  function FilesOf(chunks: seq<Chunk>): seq<string> {
    if chunks == [] then [] else FilesOf(chunks[..|chunks| - 1]) + chunks[|chunks| - 1].files
  }

  lemma {:induction false} FilesOfMembership(chunks: seq<Chunk>, f: string)
    ensures f in FilesOf(chunks) <==> exists c :: c in chunks && f in c.files
  {
    if chunks != [] {
      var n := |chunks| - 1;
      FilesOfMembership(chunks[..n], f);
      if f in chunks[n].files {
        assert chunks[n] in chunks;
      }
      if exists c :: c in chunks && f in c.files {
        var c :| c in chunks && f in c.files;
        if c != chunks[n] {
          assert c in chunks[..n];
        }
      }
    }
  }

  /** The files that were emitted, in their order. */
  function Emitted(files: seq<string>, emitted: set<string>): (r: seq<string>)
    ensures |r| <= |files|
    ensures forall f :: f in r <==> f in files && f in emitted
  {
    if files == [] then []
    else (if files[0] in emitted then [files[0]] else []) + Emitted(files[1..], emitted)
  }

  /** The absolute local paths of the changed files that were emitted. */
  function UploadList(localPath: string, files: seq<string>, emitted: set<string>): (r: seq<string>)
    ensures |r| == |Emitted(files, emitted)|
    ensures forall k :: 0 <= k < |r| ==> r[k] == Join(localPath, Emitted(files, emitted)[k])
  {
    var kept := Emitted(files, emitted);
    seq(|kept|, k requires 0 <= k < |kept| => Join(localPath, kept[k]))
  }

  /**
   * The files of the changed chunks come chunk by chunk: those of an
   * earlier chunk before those of a later one, each chunk's files in its
   * own order.
   */
  lemma FilesOfSnoc(chunks: seq<Chunk>, c: Chunk)
    ensures FilesOf(chunks + [c]) == FilesOf(chunks) + c.files
  {
    assert (chunks + [c])[..|chunks|] == chunks;
  }

  /** Keeping the emitted files of two lists kept one after the other. */
  lemma {:induction false} EmittedConcat(a: seq<string>, b: seq<string>, emitted: set<string>)
    ensures Emitted(a + b, emitted) == Emitted(a, emitted) + Emitted(b, emitted)
  {
    if a != [] {
      assert (a + b)[0] == a[0];
      assert (a + b)[1..] == a[1..] + b;
      EmittedConcat(a[1..], b, emitted);
      var head := if a[0] in emitted then [a[0]] else [];
      assert Emitted(a + b, emitted) == head + (Emitted(a[1..], emitted) + Emitted(b, emitted));
      assert Emitted(a, emitted) == head + Emitted(a[1..], emitted);
      assert head + (Emitted(a[1..], emitted) + Emitted(b, emitted))
          == (head + Emitted(a[1..], emitted)) + Emitted(b, emitted);
    } else {
      assert a + b == b;
    }
  }

  /** Joining the kept files of two lists, one after the other. */
  lemma UploadListConcat(localPath: string, a: seq<string>, b: seq<string>, emitted: set<string>)
    ensures UploadList(localPath, a + b, emitted) == UploadList(localPath, a, emitted) + UploadList(localPath, b, emitted)
  {
    EmittedConcat(a, b, emitted);
  }

  /**
   * The upload order: the uploads of the files of a list of changed chunks
   * followed by one more chunk are those of the list, then those of the
   * chunk's own emitted files, in its order.
   */
  lemma UploadOrder(localPath: string, chunks: seq<Chunk>, c: Chunk, emitted: set<string>)
    ensures UploadList(localPath, FilesOf(chunks + [c]), emitted)
         == UploadList(localPath, FilesOf(chunks), emitted) + UploadList(localPath, c.files, emitted)
  {
    FilesOfSnoc(chunks, c);
    UploadListConcat(localPath, FilesOf(chunks), c.files, emitted);
  }

  /**
   * A path is uploaded exactly when it is the joined path of a file of a
   * changed chunk that is also an emitted asset; no uploaded path is empty.
   */
  lemma UploadListMembership(localPath: string, versions: map<string, string>, chunks: seq<Chunk>,
                             emitted: set<string>, x: string)
    ensures var uploads := UploadList(localPath, FilesOf(Changed(versions, chunks)), emitted);
      (x in uploads <==>
        (exists f :: f in emitted && x == Join(localPath, f) && (exists c :: c in Changed(versions, chunks) && f in c.files)))
      && "" !in uploads
  {
    var files := FilesOf(Changed(versions, chunks));
    var uploads := UploadList(localPath, files, emitted);
    var kept := Emitted(files, emitted);
    if x in uploads {
      var k :| 0 <= k < |uploads| && uploads[k] == x;
      assert kept[k] in kept;
      FilesOfMembership(Changed(versions, chunks), kept[k]);
    }
    if exists f :: f in emitted && x == Join(localPath, f) && exists c :: c in Changed(versions, chunks) && f in c.files {
      var f :| f in emitted && x == Join(localPath, f) && exists c :: c in Changed(versions, chunks) && f in c.files;
      FilesOfMembership(Changed(versions, chunks), f);
      var k :| 0 <= k < |kept| && kept[k] == f;
      assert uploads[k] == x;
    }
    forall k | 0 <= k < |uploads| ensures uploads[k] != "" {
      assert |uploads[k]| >= 1;
    }
  }

  // ---------------------------------------------------------------------
  // The upload trace, for the `scp` target of each file
  // ---------------------------------------------------------------------

  /**
   * The events of `upload(filenames, index, callback)`: try the file at
   * `index`; on failure print and call back; on success go on while the
   * next entry is a non-empty string, otherwise close and call back.
   */
  function UploadTrace(filenames: seq<string>, index: nat, scpOk: (string, string) -> bool, target: string -> string)
    : seq<Event>
    requires index < |filenames|
    decreases |filenames| - index
  {
    var file := filenames[index];
    var attempt := Scp(file, target(file));
    if !scpOk(file, target(file)) then [attempt, Failed(file), Callback]
    else if index + 1 < |filenames| && filenames[index + 1] != "" then [attempt] + UploadTrace(filenames, index + 1, scpOk, target)
    else [attempt, Close, Callback]
  }

  /** The `scp` attempts of the files `lo` up to `hi`, in order. */
  function Attempts(filenames: seq<string>, lo: nat, hi: nat, target: string -> string): (r: seq<Event>)
    requires lo <= hi <= |filenames|
    ensures |r| == hi - lo
  {
    seq(hi - lo, k requires 0 <= k < hi - lo => Scp(filenames[lo + k], target(filenames[lo + k])))
  }

  lemma AttemptsFirst(filenames: seq<string>, lo: nat, hi: nat, target: string -> string)
    requires lo < hi <= |filenames|
    ensures Attempts(filenames, lo, hi, target) == [Scp(filenames[lo], target(filenames[lo]))] + Attempts(filenames, lo + 1, hi, target)
  {
    var a, b := Attempts(filenames, lo, hi, target), Attempts(filenames, lo + 1, hi, target);
    assert forall k :: 0 < k < |a| ==> a[k] == b[k - 1];
  }

  /** The callback is called exactly once, as the last event. */
  lemma {:induction false} UploadCallsBackOnce(filenames: seq<string>, index: nat, scpOk: (string, string) -> bool, target: string -> string)
    requires index < |filenames|
    ensures var events := UploadTrace(filenames, index, scpOk, target);
      events != [] && events[|events| - 1] == Callback
      && forall k :: 0 <= k < |events| - 1 ==> events[k] != Callback
    decreases |filenames| - index
  {
    if scpOk(filenames[index], target(filenames[index])) && index + 1 < |filenames| && filenames[index + 1] != "" {
      UploadCallsBackOnce(filenames, index + 1, scpOk, target);
    }
  }

  /**
   * When every file uploads, each is tried once in index order, then the
   * client is closed and the callback called.
   */
  lemma {:induction false} UploadAllSucceed(filenames: seq<string>, index: nat, scpOk: (string, string) -> bool, target: string -> string)
    requires index < |filenames| && "" !in filenames
    requires forall k :: index <= k < |filenames| ==> scpOk(filenames[k], target(filenames[k]))
    ensures UploadTrace(filenames, index, scpOk, target) == Attempts(filenames, index, |filenames|, target) + [Close, Callback]
    decreases |filenames| - index
  {
    AttemptsFirst(filenames, index, |filenames|, target);
    if index + 1 < |filenames| {
      assert filenames[index + 1] in filenames;
      UploadAllSucceed(filenames, index + 1, scpOk, target);
    }
  }

  /**
   * When file `fail` is the first that does not upload, the files before
   * it are tried in order, then it, then the error is printed and the
   * callback called: no later file is tried and the client is not closed.
   */
  lemma {:induction false} UploadStopsAtFirstFailure(filenames: seq<string>, index: nat, fail: nat,
                                                     scpOk: (string, string) -> bool, target: string -> string)
    requires index <= fail < |filenames| && "" !in filenames
    requires forall k :: index <= k < fail ==> scpOk(filenames[k], target(filenames[k]))
    requires !scpOk(filenames[fail], target(filenames[fail]))
    ensures UploadTrace(filenames, index, scpOk, target)
      == Attempts(filenames, index, fail + 1, target) + [Failed(filenames[fail]), Callback]
    decreases |filenames| - index
  {
    var attempt := Scp(filenames[index], target(filenames[index]));
    AttemptsFirst(filenames, index, fail + 1, target);
    if index < fail {
      assert filenames[index + 1] in filenames;
      UploadStopsAtFirstFailure(filenames, index + 1, fail, scpOk, target);
      var later := Attempts(filenames, index + 1, fail + 1, target);
      assert UploadTrace(filenames, index, scpOk, target) == [attempt] + (later + [Failed(filenames[fail]), Callback]);
      assert [attempt] + (later + [Failed(filenames[fail]), Callback])
        == ([attempt] + later) + [Failed(filenames[fail]), Callback];
    } else {
      assert Attempts(filenames, index + 1, fail + 1, target) == [];
    }
  }

  /** After a successful attempt followed by a non-empty entry, the trace goes on from it. */
  lemma UploadTraceNext(filenames: seq<string>, i: nat, scpOk: (string, string) -> bool, target: string -> string)
    requires i + 1 < |filenames| && filenames[i + 1] != ""
    requires scpOk(filenames[i], target(filenames[i]))
    ensures forall events: seq<Event> ::
      events + UploadTrace(filenames, i, scpOk, target)
      == (events + [Scp(filenames[i], target(filenames[i]))]) + UploadTrace(filenames, i + 1, scpOk, target)
  {
    var head, rest := [Scp(filenames[i], target(filenames[i]))], UploadTrace(filenames, i + 1, scpOk, target);
    assert UploadTrace(filenames, i, scpOk, target) == head + rest;
    forall events: seq<Event> ensures events + (head + rest) == (events + head) + rest {
    }
  }

  // ---------------------------------------------------------------------
  // The plugin
  // ---------------------------------------------------------------------

  class SftpOutputPlugin {
    const startTime: int
    const host: string
    const username: string
    const password: string
    const port: string
    const remotePath: string
    const localPath: string
    const enabled: bool
    const uploadOnFirstBuild: bool
    /** The last hash seen for each chunk name, across builds. */
    var chunkVersions: map<string, string>

    /**
     * The constructor: an empty version table, the connection settings,
     * and the `||` defaults: a missing or empty port is `'22'`, `enabled`
     * is true whatever was given, and `uploadOnFirstBuild` is true only
     * when given as true. `Date.now()` comes in as `now`.
     */
    constructor (options: Options, now: int)
      ensures startTime == now && chunkVersions == map[]
      ensures host == options.host && username == options.username && password == options.password
      ensures remotePath == options.remotePath && localPath == options.localPath
      ensures port == (if options.port.None? || options.port.value == "" then "22" else options.port.value)
      ensures port != ""
      ensures enabled
      ensures uploadOnFirstBuild <==> options.uploadOnFirstBuild == Some(true)
    {
      startTime := now;
      chunkVersions := map[];
      host, username, password := options.host, options.username, options.password;
      port := if options.port.Some? && options.port.value != "" then options.port.value else "22";
      remotePath, localPath := options.remotePath, options.localPath;
      // `options.enabled || true` is truthy whatever was given.
      enabled := true;
      uploadOnFirstBuild := if options.uploadOnFirstBuild == Some(true) then true else false;
    }

    /** Where a local file goes: the remote root joined to the path without the first `localPath`. */
    function RemoteFilePath(localFilePath: string): string {
      Join(remotePath, ReplaceFirst(localFilePath, localPath, ""))
    }

    /** The `user:password@host:remote` target given to `scp`. */
    function Target(localFilePath: string): string {
      username + ":" + password + "@" + host + ":" + RemoteFilePath(localFilePath)
    }

    /**
     * A file under the local root lands under the remote root with the same
     * relative path (after the separator that plain joining doubles).
     */
    lemma RemotePathOfLocalFile(file: string)
      ensures RemoteFilePath(Join(localPath, file)) == Join(remotePath, "/" + file)
    {
      JoinThenStrip(localPath, file);
    }

    /** `upload`, walking `filenames` by an index it increments. */
    method Upload(filenames: seq<string>, index: nat, scpOk: (string, string) -> bool) returns (events: seq<Event>)
      requires index < |filenames|
      ensures events == UploadTrace(filenames, index, scpOk, Target)
    {
      var i := index;
      events := [];
      while true
        invariant index <= i < |filenames|
        invariant events + UploadTrace(filenames, i, scpOk, Target) == UploadTrace(filenames, index, scpOk, Target)
        decreases |filenames| - i
      {
        var localFilePath := filenames[i];
        var sftpConfig := Target(localFilePath);
        var ok := scpOk(localFilePath, sftpConfig);
        if !ok {
          events := events + [Scp(localFilePath, sftpConfig), Failed(localFilePath), Callback];
          return;
        }
        if i + 1 < |filenames| && filenames[i + 1] != "" {
          UploadTraceNext(filenames, i, scpOk, Target);
          events := events + [Scp(localFilePath, sftpConfig)];
          i := i + 1;
        } else {
          events := events + [Scp(localFilePath, sftpConfig), Close, Callback];
          return;
        }
      }
    }

    /**
     * `handleEmit`: record every chunk's hash, keeping the chunks whose hash
     * changed; collect their files, keep those that were emitted, make them
     * absolute, and upload them, or call back at once when there are none.
     */
    method HandleEmit(compilation: Compilation, scpOk: (string, string) -> bool) returns (events: seq<Event>)
      modifies this`chunkVersions
      ensures chunkVersions == VersionsAfter(old(chunkVersions), compilation.chunks)
      ensures var uploads := UploadList(localPath, FilesOf(Changed(old(chunkVersions), compilation.chunks)),
                                        compilation.assets.Keys);
        events == if uploads == [] then [Callback] else UploadTrace(uploads, 0, scpOk, Target)
    {
      var chunks := compilation.chunks;
      ghost var versions := chunkVersions;
      var changedChunks := [];
      var i := 0;
      while i < |chunks|
        invariant 0 <= i <= |chunks|
        invariant chunkVersions == VersionsAfter(versions, chunks[..i])
        invariant changedChunks == Changed(versions, chunks[..i])
      {
        var chunk := chunks[i];
        var isNew := chunk.name !in chunkVersions || chunkVersions[chunk.name] != chunk.hash;
        chunkVersions := chunkVersions[chunk.name := chunk.hash];
        if isNew {
          changedChunks := changedChunks + [chunk];
        }
        assert chunks[..i + 1][..i] == chunks[..i];
        i := i + 1;
      }
      assert chunks[..i] == chunks;
      var changedAssets := FilesOf(changedChunks);
      var uploads := UploadList(localPath, changedAssets, compilation.assets.Keys);
      if |uploads| > 0 {
        events := Upload(uploads, 0, scpOk);
      } else {
        events := [Callback];
      }
    }
  }
}
