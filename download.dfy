/** The block-verified download pipeline of `State::download`: for each file
    of the peer's manifest, in manifest order, create the destination file,
    then request its blocks in index order, recompute each block's hash,
    and append the block to the file only if the hash matches the manifest.
    The first failure ends the whole download. */
module Download {
  import opened Types
  import opened Errors
  import opened Registry

  /** The wire request for one block. */
  datatype GetBlock = GetBlock(hash: u128, fileNr: u32, blockNr: u32)

  /** A block as the peer returns it. */
  datatype Block = Block(hash: u128, fileNr: u32, blockNr: u32, bytes: seq<byte>)

  /** The peer behind a connection: the answer it gives to each request,
      where a failure stands for a lost connection, a protocol error or the
      per-block deadline expiring. */
  type Peer = GetBlock -> Result<Block, Error>

  /** `filemap::hash_block`. */
  type BlockHasher = seq<byte> -> u128

  /** Whether the destination file can be created exclusively (after the
      best-effort rename of an existing file aside), or the I/O error
      `create_new` fails with. */
  type Creator = Path -> Option<IoError>

  /** Block `blockNo` of file `fileNo` is requested with both indices cast
      to `u32`. */
  function Request(hash: u128, fileNo: nat, blockNo: nat): (r: GetBlock)
    ensures r.hash == hash
    ensures fileNo < U32_MOD && blockNo < U32_MOD ==> r.fileNr == fileNo && r.blockNr == blockNo
  {
    GetBlock(hash, AsU32(fileNo), AsU32(blockNo))
  }

  /** A reply is accepted when it carries a block whose recomputed hash is the
      one the manifest expects. */
  predicate Accepted(reply: Result<Block, Error>, expected: u128, hashBlock: BlockHasher) {
    reply.Success? && hashBlock(reply.value.bytes) == expected
  }

  /** The error a rejected reply ends the download with. */
  function Rejection(reply: Result<Block, Error>, hashBlock: BlockHasher): Error {
    match reply
    case Failure(e) => e
    case Success(b) => InvalidBlockHash(hashBlock(b.bytes))
  }

  /** What fetching one file does: the requests sent, the bytes appended to
      the destination file and the error that ended it, if any. */
  datatype FileRun = FileRun(requests: seq<GetBlock>, bytes: seq<byte>, error: Option<Error>)

  /** Fetching blocks `k..` of file `fileNo`, whose manifest lists `blocks`. */
  function RunBlocks(hash: u128, fileNo: nat, blocks: seq<u128>, k: nat,
                     peer: Peer, hashBlock: BlockHasher): FileRun
    requires k <= |blocks|
    decreases |blocks| - k
  {
    if k == |blocks| then FileRun([], [], None)
    else
      var req := Request(hash, fileNo, k);
      var reply := peer(req);
      if !Accepted(reply, blocks[k], hashBlock) then FileRun([req], [], Some(Rejection(reply, hashBlock)))
      else
        var rest := RunBlocks(hash, fileNo, blocks, k + 1, peer, hashBlock);
        FileRun([req] + rest.requests, reply.value.bytes + rest.bytes, rest.error)
  }

  /** The payloads the peer returns for blocks `from..to` of file `fileNo`,
      concatenated in index order. */
  function Payloads(hash: u128, fileNo: nat, peer: Peer, from: nat, to: nat): seq<byte>
    requires from <= to
    decreases (to as int) - (from as int)
  {
    if from == to then []
    else
      var reply := peer(Request(hash, fileNo, from));
      (if reply.Success? then reply.value.bytes else []) + Payloads(hash, fileNo, peer, from + 1, to)
  }

  /** The number of blocks of a run that were accepted: every requested
      block, or all but the last one when the run ended in an error. */
  function AcceptedCount(run: FileRun): int {
    if run.error.None? then |run.requests| else |run.requests| - 1
  }

  /** Blocks are requested one at a time, in increasing index order, with no
      index skipped; a run that fails has sent at least one request, and a run
      that does not fail has requested every block. */
  lemma {:induction false} RunBlocksRequests(hash: u128, fileNo: nat, blocks: seq<u128>, k: nat,
                                             peer: Peer, hashBlock: BlockHasher)
    requires k <= |blocks|
    ensures var run := RunBlocks(hash, fileNo, blocks, k, peer, hashBlock);
      && k + |run.requests| <= |blocks|
      && (run.error.Some? ==> |run.requests| > 0)
      && (run.error.None? ==> k + |run.requests| == |blocks|)
      && (forall j :: 0 <= j < |run.requests| ==> run.requests[j] == Request(hash, fileNo, k + j))
    decreases |blocks| - k
  {
    if k < |blocks| && Accepted(peer(Request(hash, fileNo, k)), blocks[k], hashBlock) {
      RunBlocksRequests(hash, fileNo, blocks, k + 1, peer, hashBlock);
      var rest := RunBlocks(hash, fileNo, blocks, k + 1, peer, hashBlock);
      var run := RunBlocks(hash, fileNo, blocks, k, peer, hashBlock);
      assert run.requests == [Request(hash, fileNo, k)] + rest.requests;
      forall j | 0 <= j < |run.requests|
        ensures run.requests[j] == Request(hash, fileNo, k + j)
      {
        if j > 0 {
          assert run.requests[j] == rest.requests[j - 1];
        }
      }
    }
  }

  /** Every accepted block passed the hash check; when the run fails, the
      first block after the accepted ones is the one rejected, and its
      rejection (the peer's error, or `InvalidBlockHash` of the calculated
      hash) is the run's error. */
  lemma {:induction false} RunBlocksVerdict(hash: u128, fileNo: nat, blocks: seq<u128>, k: nat,
                                            peer: Peer, hashBlock: BlockHasher)
    requires k <= |blocks|
    ensures var run := RunBlocks(hash, fileNo, blocks, k, peer, hashBlock);
      var m := AcceptedCount(run);
      && 0 <= m && k + m <= |blocks|
      && (forall j :: k <= j < k + m ==> Accepted(peer(Request(hash, fileNo, j)), blocks[j], hashBlock))
      && (run.error.None? ==> k + m == |blocks|)
      && (run.error.Some? ==>
            && k + m < |blocks|
            && !Accepted(peer(Request(hash, fileNo, k + m)), blocks[k + m], hashBlock)
            && run.error.value == Rejection(peer(Request(hash, fileNo, k + m)), hashBlock))
    decreases |blocks| - k
  {
    if k < |blocks| && Accepted(peer(Request(hash, fileNo, k)), blocks[k], hashBlock) {
      RunBlocksVerdict(hash, fileNo, blocks, k + 1, peer, hashBlock);
      var rest := RunBlocks(hash, fileNo, blocks, k + 1, peer, hashBlock);
      var run := RunBlocks(hash, fileNo, blocks, k, peer, hashBlock);
      assert AcceptedCount(run) == AcceptedCount(rest) + 1;
    }
  }

  /** The file holds exactly the payloads of the accepted blocks, in index
      order, and nothing else. */
  lemma {:induction false} RunBlocksBytes(hash: u128, fileNo: nat, blocks: seq<u128>, k: nat,
                                          peer: Peer, hashBlock: BlockHasher)
    requires k <= |blocks|
    ensures var run := RunBlocks(hash, fileNo, blocks, k, peer, hashBlock);
      && 0 <= AcceptedCount(run)
      && run.bytes == Payloads(hash, fileNo, peer, k, k + AcceptedCount(run))
    decreases |blocks| - k
  {
    RunBlocksVerdict(hash, fileNo, blocks, k, peer, hashBlock);
    if k < |blocks| && Accepted(peer(Request(hash, fileNo, k)), blocks[k], hashBlock) {
      RunBlocksBytes(hash, fileNo, blocks, k + 1, peer, hashBlock);
      var rest := RunBlocks(hash, fileNo, blocks, k + 1, peer, hashBlock);
      var run := RunBlocks(hash, fileNo, blocks, k, peer, hashBlock);
      assert AcceptedCount(run) == AcceptedCount(rest) + 1;
    } else {
      assert Payloads(hash, fileNo, peer, k, k) == [];
    }
  }

  /** The integrity invariant of one file: it is complete exactly when every
      block is accepted; its bytes are the in-order concatenation of the
      accepted blocks' payloads; after a rejected block nothing more is
      requested or written. */
  lemma RunBlocksIntegrity(hash: u128, fileNo: nat, blocks: seq<u128>, k: nat,
                           peer: Peer, hashBlock: BlockHasher)
    requires k <= |blocks|
    ensures var run := RunBlocks(hash, fileNo, blocks, k, peer, hashBlock);
      var m := AcceptedCount(run);
      && 0 <= m && k + m <= |blocks|
      && (run.error.None? <==> forall j :: k <= j < |blocks| ==> Accepted(peer(Request(hash, fileNo, j)), blocks[j], hashBlock))
      && (forall j :: 0 <= j < |run.requests| ==> run.requests[j] == Request(hash, fileNo, k + j))
      && |run.requests| == (if run.error.None? then m else m + 1)
      && (run.error.None? ==> k + m == |blocks|)
      && (forall j :: k <= j < k + m ==> Accepted(peer(Request(hash, fileNo, j)), blocks[j], hashBlock))
      && (run.error.Some? ==>
            && k + m < |blocks|
            && !Accepted(peer(Request(hash, fileNo, k + m)), blocks[k + m], hashBlock)
            && run.error.value == Rejection(peer(Request(hash, fileNo, k + m)), hashBlock))
      && run.bytes == Payloads(hash, fileNo, peer, k, k + m)
  {
    RunBlocksRequests(hash, fileNo, blocks, k, peer, hashBlock);
    RunBlocksVerdict(hash, fileNo, blocks, k, peer, hashBlock);
    RunBlocksBytes(hash, fileNo, blocks, k, peer, hashBlock);
  }

  /** A file whose every block the peer answers correctly is written in
      full: its bytes are the payloads of all its blocks, in order. */
  lemma AllAcceptedWritesWholeFile(hash: u128, fileNo: nat, blocks: seq<u128>,
                                   peer: Peer, hashBlock: BlockHasher)
    requires forall j :: 0 <= j < |blocks| ==> Accepted(peer(Request(hash, fileNo, j)), blocks[j], hashBlock)
    ensures var run := RunBlocks(hash, fileNo, blocks, 0, peer, hashBlock);
      && run.error.None?
      && |run.requests| == |blocks|
      && run.bytes == Payloads(hash, fileNo, peer, 0, |blocks|)
  {
    RunBlocksIntegrity(hash, fileNo, blocks, 0, peer, hashBlock);
  }

  /** Scenario of a corrupted block: if the peer's answer to block `c` does
      not hash to the manifest's value, the file is never complete and no
      block from `c` on is written. */
  lemma CorruptBlockStopsFile(hash: u128, fileNo: nat, blocks: seq<u128>, c: nat,
                              peer: Peer, hashBlock: BlockHasher)
    requires c < |blocks|
    requires !Accepted(peer(Request(hash, fileNo, c)), blocks[c], hashBlock)
    ensures var run := RunBlocks(hash, fileNo, blocks, 0, peer, hashBlock);
      && run.error.Some?
      && 0 < |run.requests| <= c + 1
      && run.bytes == Payloads(hash, fileNo, peer, 0, |run.requests| - 1)
  {
    RunBlocksIntegrity(hash, fileNo, blocks, 0, peer, hashBlock);
  }

  /** What the whole download does: the requests sent, the files created
      with their contents, and the result. */
  datatype DownloadRun = DownloadRun(requests: seq<GetBlock>, files: seq<(Path, seq<byte>)>,
                                     result: Result<seq<Path>, Error>)

  /** The destination of a file of the manifest. */
  function OutPath(dest: Path, fm: FileMap): Path {
    Join(dest, fm.fileName)
  }

  /** Downloading files `i..` of the manifest. */
  function RunFiles(hash: u128, dest: Path, manifest: seq<FileMap>, i: nat,
                    peer: Peer, hashBlock: BlockHasher, create: Creator): DownloadRun
    requires i <= |manifest|
    decreases |manifest| - i
  {
    if i == |manifest| then DownloadRun([], [], Success([]))
    else
      var path := OutPath(dest, manifest[i]);
      match create(path)
      case Some(e) => DownloadRun([], [], Failure(FromIo(e)))
      case None =>
        var run := RunBlocks(hash, i, manifest[i].blocks, 0, peer, hashBlock);
        if run.error.Some? then DownloadRun(run.requests, [(path, run.bytes)], Failure(run.error.value))
        else
          var rest := RunFiles(hash, dest, manifest, i + 1, peer, hashBlock, create);
          DownloadRun(run.requests + rest.requests, [(path, run.bytes)] + rest.files,
                      PrefixPaths([path], rest.result))
  }

  /** A successful result with `paths` put in front of its paths. */
  function PrefixPaths(paths: seq<Path>, r: Result<seq<Path>, Error>): Result<seq<Path>, Error> {
    match r
    case Success(ps) => Success(paths + ps)
    case Failure(e) => Failure(e)
  }

  /** File `j` of the manifest is created and all its blocks are accepted. */
  predicate Completes(hash: u128, dest: Path, manifest: seq<FileMap>, j: nat,
                      peer: Peer, hashBlock: BlockHasher, create: Creator)
    requires j < |manifest|
  {
    create(OutPath(dest, manifest[j])).None? &&
    RunBlocks(hash, j, manifest[j].blocks, 0, peer, hashBlock).error.None?
  }

  /** The requests of files `from..to`, file after file. */
  function RequestsOf(hash: u128, manifest: seq<FileMap>, from: nat, to: nat,
                      peer: Peer, hashBlock: BlockHasher): seq<GetBlock>
    requires from <= to <= |manifest|
    decreases (to as int) - (from as int)
  {
    if from == to then []
    else RunBlocks(hash, from, manifest[from].blocks, 0, peer, hashBlock).requests
         + RequestsOf(hash, manifest, from + 1, to, peer, hashBlock)
  }

  /** `files` are the files created for manifest entries `i..`: each at its
      destination, accepted by the creator, holding what its block run wrote. */
  ghost predicate CreatedFrom(files: seq<(Path, seq<byte>)>, hash: u128, dest: Path, manifest: seq<FileMap>,
                              i: nat, peer: Peer, hashBlock: BlockHasher, create: Creator)
  {
    && i + |files| <= |manifest|
    && forall j :: 0 <= j < |files| ==>
         && files[j].0 == OutPath(dest, manifest[i + j])
         && create(files[j].0).None?
         && files[j].1 == RunBlocks(hash, i + j, manifest[i + j].blocks, 0, peer, hashBlock).bytes
  }

  /** Putting the file of entry `i` in front of the files created from `i + 1`. */
  lemma CreatedFromCons(files: seq<(Path, seq<byte>)>, rest: seq<(Path, seq<byte>)>, hash: u128, dest: Path,
                        manifest: seq<FileMap>, i: nat, peer: Peer, hashBlock: BlockHasher, create: Creator)
    requires i < |manifest|
    requires CreatedFrom(rest, hash, dest, manifest, i + 1, peer, hashBlock, create)
    requires create(OutPath(dest, manifest[i])).None?
    requires files == [(OutPath(dest, manifest[i]), RunBlocks(hash, i, manifest[i].blocks, 0, peer, hashBlock).bytes)] + rest
    ensures CreatedFrom(files, hash, dest, manifest, i, peer, hashBlock, create)
  {
    forall j | 0 < j < |files|
      ensures files[j].0 == OutPath(dest, manifest[i + j])
      ensures create(files[j].0).None?
      ensures files[j].1 == RunBlocks(hash, i + j, manifest[i + j].blocks, 0, peer, hashBlock).bytes
    {
      assert files[j] == rest[j - 1];
      assert i + 1 + (j - 1) == i + j;
    }
  }

  lemma {:induction false} RunFilesCreatedFrom(hash: u128, dest: Path, manifest: seq<FileMap>, i: nat,
                                               peer: Peer, hashBlock: BlockHasher, create: Creator)
    requires i <= |manifest|
    ensures CreatedFrom(RunFiles(hash, dest, manifest, i, peer, hashBlock, create).files,
                        hash, dest, manifest, i, peer, hashBlock, create)
    decreases |manifest| - i
  {
    if i < |manifest| {
      var path := OutPath(dest, manifest[i]);
      var fr := RunBlocks(hash, i, manifest[i].blocks, 0, peer, hashBlock);
      if create(path).None? && fr.error.None? {
        RunFilesCreatedFrom(hash, dest, manifest, i + 1, peer, hashBlock, create);
        var rest := RunFiles(hash, dest, manifest, i + 1, peer, hashBlock, create);
        var run := RunFiles(hash, dest, manifest, i, peer, hashBlock, create);
        CreatedFromCons(run.files, rest.files, hash, dest, manifest, i, peer, hashBlock, create);
      }
    }
  }

  /** Files are created in manifest order at `dest.join(file_name)`, each
      accepted by the creator and holding what its block run wrote. */
  lemma RunFilesCreated(hash: u128, dest: Path, manifest: seq<FileMap>, i: nat,
                        peer: Peer, hashBlock: BlockHasher, create: Creator)
    requires i <= |manifest|
    ensures var run := RunFiles(hash, dest, manifest, i, peer, hashBlock, create);
      && i + |run.files| <= |manifest|
      && (forall j :: 0 <= j < |run.files| ==>
            && run.files[j].0 == OutPath(dest, manifest[i + j])
            && create(run.files[j].0).None?
            && run.files[j].1 == RunBlocks(hash, i + j, manifest[i + j].blocks, 0, peer, hashBlock).bytes)
  {
    RunFilesCreatedFrom(hash, dest, manifest, i, peer, hashBlock, create);
  }

  /** A manifest entry whose `file_name` is absolute is written at that name,
      whatever the destination directory is: the peer chooses where it lands. */
  lemma AbsoluteNameIgnoresDest(hash: u128, dest: Path, manifest: seq<FileMap>, i: nat,
                                peer: Peer, hashBlock: BlockHasher, create: Creator)
    requires i < |manifest|
    requires |manifest[i].fileName| > 0 && manifest[i].fileName[0] == '/'
    requires create(manifest[i].fileName).None?
    ensures var run := RunFiles(hash, dest, manifest, i, peer, hashBlock, create);
      |run.files| > 0 && run.files[0].0 == manifest[i].fileName
  {
    JoinShape(dest, manifest[i].fileName);
  }

  /** The requests of entry `i` followed by those of entries `i + 1 .. i + 1 + n`. */
  lemma RequestsOfCons(hash: u128, manifest: seq<FileMap>, i: nat, n: nat, peer: Peer, hashBlock: BlockHasher,
                       rest: seq<GetBlock>, requests: seq<GetBlock>)
    requires i + 1 + n <= |manifest|
    requires rest == RequestsOf(hash, manifest, i + 1, i + 1 + n, peer, hashBlock)
    requires requests == RunBlocks(hash, i, manifest[i].blocks, 0, peer, hashBlock).requests + rest
    ensures requests == RequestsOf(hash, manifest, i, i + 1 + n, peer, hashBlock)
  {
  }

  lemma {:induction false} RunFilesRequests(hash: u128, dest: Path, manifest: seq<FileMap>, i: nat,
                                            peer: Peer, hashBlock: BlockHasher, create: Creator)
    requires i <= |manifest|
    ensures var run := RunFiles(hash, dest, manifest, i, peer, hashBlock, create);
      && i + |run.files| <= |manifest|
      && run.requests == RequestsOf(hash, manifest, i, i + |run.files|, peer, hashBlock)
    decreases |manifest| - i
  {
    if i < |manifest| {
      var path := OutPath(dest, manifest[i]);
      var fr := RunBlocks(hash, i, manifest[i].blocks, 0, peer, hashBlock);
      if create(path).None? && fr.error.None? {
        RunFilesRequests(hash, dest, manifest, i + 1, peer, hashBlock, create);
        var rest := RunFiles(hash, dest, manifest, i + 1, peer, hashBlock, create);
        var run := RunFiles(hash, dest, manifest, i, peer, hashBlock, create);
        assert |run.files| == 1 + |rest.files|;
        RequestsOfCons(hash, manifest, i, |rest.files|, peer, hashBlock, rest.requests, run.requests);
      } else if create(path).None? {
        RequestsOfCons(hash, manifest, i, 0, peer, hashBlock, [], fr.requests + []);
        assert fr.requests + [] == fr.requests;
      }
    }
  }


  /** The download succeeds exactly when every file completes. */
  lemma {:induction false} RunFilesSucceeds(hash: u128, dest: Path, manifest: seq<FileMap>, i: nat,
                                            peer: Peer, hashBlock: BlockHasher, create: Creator)
    requires i <= |manifest|
    ensures RunFiles(hash, dest, manifest, i, peer, hashBlock, create).result.Success? <==>
              forall j :: i <= j < |manifest| ==> Completes(hash, dest, manifest, j, peer, hashBlock, create)
    decreases |manifest| - i
  {
    if i < |manifest| && Completes(hash, dest, manifest, i, peer, hashBlock, create) {
      RunFilesSucceeds(hash, dest, manifest, i + 1, peer, hashBlock, create);
      var rest := RunFiles(hash, dest, manifest, i + 1, peer, hashBlock, create);
      var run := RunFiles(hash, dest, manifest, i, peer, hashBlock, create);
      assert run.result == PrefixPaths([OutPath(dest, manifest[i])], rest.result);
    }
  }

  /** `paths` are the destinations of manifest entries `i..`, in order. */
  ghost predicate PathsFrom(paths: seq<Path>, dest: Path, manifest: seq<FileMap>, i: nat) {
    && i + |paths| == |manifest|
    && forall j :: 0 <= j < |paths| ==> paths[j] == OutPath(dest, manifest[i + j])
  }

  lemma PathsFromCons(paths: seq<Path>, rest: seq<Path>, dest: Path, manifest: seq<FileMap>, i: nat)
    requires i < |manifest|
    requires PathsFrom(rest, dest, manifest, i + 1)
    requires paths == [OutPath(dest, manifest[i])] + rest
    ensures PathsFrom(paths, dest, manifest, i)
  {
    forall j | 0 < j < |paths|
      ensures paths[j] == OutPath(dest, manifest[i + j])
    {
      assert paths[j] == rest[j - 1];
      assert i + 1 + (j - 1) == i + j;
    }
  }

  /** A successful download lists one destination path per file, in
      manifest order. */
  lemma {:induction false} RunFilesPaths(hash: u128, dest: Path, manifest: seq<FileMap>, i: nat,
                                         peer: Peer, hashBlock: BlockHasher, create: Creator)
    requires i <= |manifest|
    ensures var run := RunFiles(hash, dest, manifest, i, peer, hashBlock, create);
      run.result.Success? ==> |run.result.value| == |run.files| && PathsFrom(run.result.value, dest, manifest, i)
    decreases |manifest| - i
  {
    if i < |manifest| && Completes(hash, dest, manifest, i, peer, hashBlock, create) {
      RunFilesPaths(hash, dest, manifest, i + 1, peer, hashBlock, create);
      var rest := RunFiles(hash, dest, manifest, i + 1, peer, hashBlock, create);
      var run := RunFiles(hash, dest, manifest, i, peer, hashBlock, create);
      assert run.result == PrefixPaths([OutPath(dest, manifest[i])], rest.result);
      assert |run.files| == 1 + |rest.files|;
      if rest.result.Success? {
        PathsFromCons(run.result.value, rest.result.value, dest, manifest, i);
      }
    }
  }

  /** The download succeeds exactly when every file completes, and then its
      result lists every destination path in manifest order. */
  lemma RunFilesSuccess(hash: u128, dest: Path, manifest: seq<FileMap>, i: nat,
                        peer: Peer, hashBlock: BlockHasher, create: Creator)
    requires i <= |manifest|
    ensures var run := RunFiles(hash, dest, manifest, i, peer, hashBlock, create);
      && (run.result.Success? <==> forall j :: i <= j < |manifest| ==> Completes(hash, dest, manifest, j, peer, hashBlock, create))
      && (run.result.Success? ==>
            && i + |run.result.value| == |manifest|
            && |run.result.value| == |run.files|
            && forall j :: 0 <= j < |run.result.value| ==> run.result.value[j] == OutPath(dest, manifest[i + j]))
  {
    RunFilesSucceeds(hash, dest, manifest, i, peer, hashBlock, create);
    RunFilesPaths(hash, dest, manifest, i, peer, hashBlock, create);
  }

  /** A download that fails stops at its first failure: the files before
      the last one created are complete, and the error is the rejection that
      ended the last created file, or the creation error of the file after
      it. */
  lemma {:induction false} RunFilesPrefixCompletes(hash: u128, dest: Path, manifest: seq<FileMap>, i: nat,
                                                   peer: Peer, hashBlock: BlockHasher, create: Creator)
    requires i <= |manifest|
    ensures var n := |RunFiles(hash, dest, manifest, i, peer, hashBlock, create).files|;
      && i + n <= |manifest|
      && (forall j :: i <= j < i + n - 1 ==> Completes(hash, dest, manifest, j, peer, hashBlock, create))
    decreases |manifest| - i
  {
    if i < |manifest| && Completes(hash, dest, manifest, i, peer, hashBlock, create) {
      RunFilesPrefixCompletes(hash, dest, manifest, i + 1, peer, hashBlock, create);
      var rest := RunFiles(hash, dest, manifest, i + 1, peer, hashBlock, create);
      var run := RunFiles(hash, dest, manifest, i, peer, hashBlock, create);
      assert |run.files| == 1 + |rest.files|;
    }
  }

  /** How a download started at entry `i` ends with `err` after creating
      the files of entries `i..m`: the last created file was rejected, or
      the files up to `m` completed and entry `m` could not be created. */
  ghost predicate FailureCause(err: Error, i: nat, m: nat, hash: u128, dest: Path, manifest: seq<FileMap>,
                               peer: Peer, hashBlock: BlockHasher, create: Creator)
    requires i <= m <= |manifest|
  {
    || (&& m > i
        && create(OutPath(dest, manifest[m - 1])).None?
        && RunBlocks(hash, m - 1, manifest[m - 1].blocks, 0, peer, hashBlock).error.Some?
        && err == RunBlocks(hash, m - 1, manifest[m - 1].blocks, 0, peer, hashBlock).error.value)
    || (&& (m > i ==> Completes(hash, dest, manifest, m - 1, peer, hashBlock, create))
        && m < |manifest|
        && create(OutPath(dest, manifest[m])).Some?
        && err == FromIo(create(OutPath(dest, manifest[m])).value))
  }

  lemma FailureCauseCons(err: Error, i: nat, m: nat, hash: u128, dest: Path, manifest: seq<FileMap>,
                         peer: Peer, hashBlock: BlockHasher, create: Creator)
    requires i + 1 <= m <= |manifest|
    requires Completes(hash, dest, manifest, i, peer, hashBlock, create)
    requires FailureCause(err, i + 1, m, hash, dest, manifest, peer, hashBlock, create)
    ensures FailureCause(err, i, m, hash, dest, manifest, peer, hashBlock, create)
  {
  }

  /** A download whose first file does not complete ends with that file. */
  lemma FirstFileCause(hash: u128, dest: Path, manifest: seq<FileMap>, i: nat,
                       peer: Peer, hashBlock: BlockHasher, create: Creator)
    requires i < |manifest| && !Completes(hash, dest, manifest, i, peer, hashBlock, create)
    ensures var run := RunFiles(hash, dest, manifest, i, peer, hashBlock, create);
      && i + |run.files| <= |manifest|
      && run.result.Failure?
      && FailureCause(run.result.error, i, i + |run.files|, hash, dest, manifest, peer, hashBlock, create)
  {
    if create(OutPath(dest, manifest[i])).None? {
      assert i + 1 - 1 == i;
    }
  }

  /** A download whose first file completes ends as the rest of it does. */
  lemma LaterFileCause(hash: u128, dest: Path, manifest: seq<FileMap>, i: nat,
                       peer: Peer, hashBlock: BlockHasher, create: Creator)
    requires i < |manifest| && Completes(hash, dest, manifest, i, peer, hashBlock, create)
    requires var rest := RunFiles(hash, dest, manifest, i + 1, peer, hashBlock, create);
      && i + 1 + |rest.files| <= |manifest|
      && (rest.result.Failure? ==>
            FailureCause(rest.result.error, i + 1, i + 1 + |rest.files|, hash, dest, manifest, peer, hashBlock, create))
    ensures var run := RunFiles(hash, dest, manifest, i, peer, hashBlock, create);
      && i + |run.files| <= |manifest|
      && (run.result.Failure? ==>
            FailureCause(run.result.error, i, i + |run.files|, hash, dest, manifest, peer, hashBlock, create))
  {
    var rest := RunFiles(hash, dest, manifest, i + 1, peer, hashBlock, create);
    var run := RunFiles(hash, dest, manifest, i, peer, hashBlock, create);
    assert |run.files| == 1 + |rest.files|;
    if rest.result.Failure? {
      assert run.result.error == rest.result.error;
      FailureCauseCons(rest.result.error, i, i + 1 + |rest.files|, hash, dest, manifest, peer, hashBlock, create);
    }
  }

  lemma {:induction false} RunFilesFailureCause(hash: u128, dest: Path, manifest: seq<FileMap>, i: nat,
                                                peer: Peer, hashBlock: BlockHasher, create: Creator)
    requires i <= |manifest|
    ensures var run := RunFiles(hash, dest, manifest, i, peer, hashBlock, create);
      && i + |run.files| <= |manifest|
      && (run.result.Failure? ==>
            FailureCause(run.result.error, i, i + |run.files|, hash, dest, manifest, peer, hashBlock, create))
    decreases |manifest| - i
  {
    if i < |manifest| {
      if Completes(hash, dest, manifest, i, peer, hashBlock, create) {
        RunFilesFailureCause(hash, dest, manifest, i + 1, peer, hashBlock, create);
        LaterFileCause(hash, dest, manifest, i, peer, hashBlock, create);
      } else {
        FirstFileCause(hash, dest, manifest, i, peer, hashBlock, create);
      }
    }
  }



  lemma RunFilesFailure(hash: u128, dest: Path, manifest: seq<FileMap>, i: nat,
                        peer: Peer, hashBlock: BlockHasher, create: Creator)
    requires i <= |manifest|
    ensures var run := RunFiles(hash, dest, manifest, i, peer, hashBlock, create);
      var n := |run.files|;
      && i + n <= |manifest|
      && (forall j :: i <= j < i + n - 1 ==> Completes(hash, dest, manifest, j, peer, hashBlock, create))
      && (run.result.Failure? ==>
            || (&& n > 0
                && create(OutPath(dest, manifest[i + n - 1])).None?
                && RunBlocks(hash, i + n - 1, manifest[i + n - 1].blocks, 0, peer, hashBlock).error.Some?
                && run.result.error == RunBlocks(hash, i + n - 1, manifest[i + n - 1].blocks, 0, peer, hashBlock).error.value)
            || (&& (n > 0 ==> Completes(hash, dest, manifest, i + n - 1, peer, hashBlock, create))
                && i + n < |manifest|
                && create(OutPath(dest, manifest[i + n])).Some?
                && run.result.error == FromIo(create(OutPath(dest, manifest[i + n])).value)))
  {
    RunFilesPrefixCompletes(hash, dest, manifest, i, peer, hashBlock, create);
    RunFilesFailureCause(hash, dest, manifest, i, peer, hashBlock, create);
  }


  lemma AllPaths(dest: Path, manifest: seq<FileMap>, paths: seq<Path>)
    requires |paths| == |manifest|
    requires forall j :: 0 <= j < |paths| ==> paths[j] == OutPath(dest, manifest[0 + j])
    ensures paths == seq(|manifest|, j requires 0 <= j < |manifest| => OutPath(dest, manifest[j]))
  {
    var all := seq(|manifest|, j requires 0 <= j < |manifest| => OutPath(dest, manifest[j]));
    forall j | 0 <= j < |all|
      ensures paths[j] == all[j]
    {
      assert 0 + j == j;
    }
  }

  /** The download as a whole: what is written and requested, and when and
      how it ends. */
  lemma RunFilesIntegrity(hash: u128, dest: Path, manifest: seq<FileMap>,
                          peer: Peer, hashBlock: BlockHasher, create: Creator)
    ensures var run := RunFiles(hash, dest, manifest, 0, peer, hashBlock, create);
      && |run.files| <= |manifest|
      && (forall j :: 0 <= j < |run.files| ==>
            run.files[j] == (OutPath(dest, manifest[j]), RunBlocks(hash, j, manifest[j].blocks, 0, peer, hashBlock).bytes))
      && run.requests == RequestsOf(hash, manifest, 0, |run.files|, peer, hashBlock)
      && (run.result.Success? <==> forall j :: 0 <= j < |manifest| ==> Completes(hash, dest, manifest, j, peer, hashBlock, create))
      && (run.result.Success? ==> run.result.value == seq(|manifest|, j requires 0 <= j < |manifest| => OutPath(dest, manifest[j])))
  {
    var run := RunFiles(hash, dest, manifest, 0, peer, hashBlock, create);
    RunFilesCreated(hash, dest, manifest, 0, peer, hashBlock, create);
    forall j | 0 <= j < |run.files|
      ensures run.files[j] == (OutPath(dest, manifest[j]), RunBlocks(hash, j, manifest[j].blocks, 0, peer, hashBlock).bytes)
    {
      assert 0 + j == j;
    }
    RunFilesRequests(hash, dest, manifest, 0, peer, hashBlock, create);
    RunFilesSuccess(hash, dest, manifest, 0, peer, hashBlock, create);
    if run.result.Success? {
      AllPaths(dest, manifest, run.result.value);
    }
  }

  /** A download preceded by requests already sent, files already created
      and paths already collected. */
  function ThenFiles(requests: seq<GetBlock>, files: seq<(Path, seq<byte>)>, paths: seq<Path>,
                     run: DownloadRun): DownloadRun {
    DownloadRun(requests + run.requests, files + run.files, PrefixPaths(paths, run.result))
  }

  lemma ThenFilesNothing(run: DownloadRun)
    ensures run == ThenFiles([], [], [], run)
  {
    if run.result.Success? {
      assert [] + run.result.value == run.result.value;
    }
  }

  /** What handling file `i` alone does: the creation error, or the file's
      block run, its one created file and, if it completed, its path. */
  function FileStep(hash: u128, dest: Path, manifest: seq<FileMap>, i: nat,
                    peer: Peer, hashBlock: BlockHasher, create: Creator): DownloadRun
    requires i < |manifest|
  {
    var path := OutPath(dest, manifest[i]);
    match create(path)
    case Some(e) => DownloadRun([], [], Failure(FromIo(e)))
    case None =>
      var run := RunBlocks(hash, i, manifest[i].blocks, 0, peer, hashBlock);
      DownloadRun(run.requests, [(path, run.bytes)],
                  if run.error.Some? then Failure(run.error.value) else Success([path]))
  }

  /** A download is its first file's step followed by the rest of the
      download, which is empty when that step failed. */
  lemma RunFilesStep(hash: u128, dest: Path, manifest: seq<FileMap>, i: nat,
                     peer: Peer, hashBlock: BlockHasher, create: Creator)
    requires i < |manifest|
    ensures var st := FileStep(hash, dest, manifest, i, peer, hashBlock, create);
      && (st.result.Failure? ==> RunFiles(hash, dest, manifest, i, peer, hashBlock, create) == st)
      && (st.result.Success? ==>
            && st.result.value == [OutPath(dest, manifest[i])]
            && RunFiles(hash, dest, manifest, i, peer, hashBlock, create)
               == ThenFiles(st.requests, st.files, st.result.value,
                            RunFiles(hash, dest, manifest, i + 1, peer, hashBlock, create)))
  {
  }

  /** Bookkeeping of one loop step of the download. */
  lemma DownloadStep(sent0: seq<GetBlock>, sentHere: seq<GetBlock>, sentNow: seq<GetBlock>,
                     files0: seq<(Path, seq<byte>)>, created: seq<(Path, seq<byte>)>,
                     createdNow: seq<(Path, seq<byte>)>,
                     paths: seq<Path>, pathsNow: seq<Path>, full: DownloadRun, rest: DownloadRun)
    requires full == ThenFiles(sentHere, created, paths, ThenFiles(sentNow, createdNow, pathsNow, rest))
    ensures (sent0 + sentHere) + sentNow == sent0 + (sentHere + sentNow)
    ensures (files0 + created) + createdNow == files0 + (created + createdNow)
    ensures full == ThenFiles(sentHere + sentNow, created + createdNow, paths + pathsNow, rest)
  {
    assert sentHere + (sentNow + rest.requests) == (sentHere + sentNow) + rest.requests;
    assert created + (createdNow + rest.files) == (created + createdNow) + rest.files;
    if rest.result.Success? {
      assert paths + (pathsNow + rest.result.value) == (paths + pathsNow) + rest.result.value;
    }
  }

  /** A block run preceded by requests already sent and bytes already written. */
  function After(requests: seq<GetBlock>, bytes: seq<byte>, run: FileRun): FileRun {
    FileRun(requests + run.requests, bytes + run.bytes, run.error)
  }

  lemma AfterAfter(r1: seq<GetBlock>, b1: seq<byte>, r2: seq<GetBlock>, b2: seq<byte>, run: FileRun)
    ensures After(r1, b1, After(r2, b2, run)) == After(r1 + r2, b1 + b2, run)
  {
    assert r1 + (r2 + run.requests) == (r1 + r2) + run.requests;
    assert b1 + (b2 + run.bytes) == (b1 + b2) + run.bytes;
  }

  /** What handling block `k` alone does: one request, then either the
      block's bytes or the rejection. */
  function BlockStep(hash: u128, fileNo: nat, blocks: seq<u128>, k: nat,
                     peer: Peer, hashBlock: BlockHasher): FileRun
    requires k < |blocks|
  {
    var req := Request(hash, fileNo, k);
    var reply := peer(req);
    if !Accepted(reply, blocks[k], hashBlock) then FileRun([req], [], Some(Rejection(reply, hashBlock)))
    else FileRun([req], reply.value.bytes, None)
  }

  /** A block run is its first step followed by the rest of the run, which
      is empty when that step failed. */
  lemma RunBlocksStep(hash: u128, fileNo: nat, blocks: seq<u128>, k: nat,
                      peer: Peer, hashBlock: BlockHasher)
    requires k < |blocks|
    ensures var st := BlockStep(hash, fileNo, blocks, k, peer, hashBlock);
      RunBlocks(hash, fileNo, blocks, k, peer, hashBlock)
        == After(st.requests, st.bytes,
                 if st.error.Some? then FileRun([], [], st.error)
                 else RunBlocks(hash, fileNo, blocks, k + 1, peer, hashBlock))
  {
  }

  /** A connection to the chosen peer.  Requests go out one at a time, in the
      order they are sent. */
  class Connection {
    const peer: Peer
    var sent: seq<GetBlock>

    constructor (peer: Peer)
      ensures this.peer == peer && sent == []
    {
      this.peer := peer;
      sent := [];
    }

    /** `connection.send(GetBlock { .. })` with its deadline. */
    method Send(req: GetBlock) returns (reply: Result<Block, Error>)
      modifies this
      ensures sent == old(sent) + [req]
      ensures reply == peer(req)
    {
      sent := sent + [req];
      reply := peer(req);
    }
  }

  /** A destination file opened for writing. */
  class OutFile {
    const path: Path
    var contents: seq<byte>

    constructor (path: Path)
      ensures this.path == path && contents == []
    {
      this.path := path;
      contents := [];
    }

    /** `out_file.write_all(bytes)`. */
    method WriteAll(bytes: seq<byte>)
      modifies this
      ensures contents == old(contents) + bytes
    {
      contents := contents + bytes;
    }
  }

  /** The destination directory: the files the download created, in
      creation order, with the bytes each held when it was closed. */
  class Destination {
    const create: Creator
    var files: seq<(Path, seq<byte>)>

    constructor (create: Creator)
      ensures this.create == create && files == []
    {
      this.create := create;
      files := [];
    }

    /** Rename an existing file aside, then `create_new` the destination. */
    method CreateNew(path: Path) returns (r: Result<OutFile, IoError>)
      ensures create(path).Some? <==> r.Failure?
      ensures r.Failure? ==> r.error == create(path).value
      ensures r.Success? ==> fresh(r.value) && r.value.path == path && r.value.contents == []
    {
      match create(path)
      case Some(e) =>
        r := Failure(e);
      case None =>
        var f := new OutFile(path);
        r := Success(f);
    }

    /** The open file is dropped: it stays in the directory with what was
        written to it. */
    method Close(f: OutFile)
      modifies this
      ensures files == old(files) + [(f.path, f.contents)]
    {
      files := files + [(f.path, f.contents)];
    }
  }

  /** Bookkeeping of one loop step: what was sent and written so far,
      followed by one more step, is the run from the start. */
  lemma FetchStep(sent0: seq<GetBlock>, sentHere: seq<GetBlock>, sentNow: seq<GetBlock>,
                  contents0: seq<byte>, written: seq<byte>, writtenNow: seq<byte>,
                  full: FileRun, rest: FileRun)
    requires full == After(sentHere, written, After(sentNow, writtenNow, rest))
    ensures (sent0 + sentHere) + sentNow == sent0 + (sentHere + sentNow)
    ensures (contents0 + written) + writtenNow == contents0 + (written + writtenNow)
    ensures full == After(sentHere + sentNow, written + writtenNow, rest)
  {
    AfterAfter(sentHere, written, sentNow, writtenNow, rest);
  }

  /** One block of the verify-and-append loop: request block `k`, check
      the recomputed hash of the reply and append it to the file if it
      matches. */
  method FetchBlock(conn: Connection, out: OutFile, hash: u128, fileNo: nat,
                    blocks: seq<u128>, k: nat, hashBlock: BlockHasher) returns (error: Option<Error>)
    requires k < |blocks|
    modifies conn, out
    ensures var st := BlockStep(hash, fileNo, blocks, k, conn.peer, hashBlock);
      && conn.sent == old(conn.sent) + st.requests
      && out.contents == old(out.contents) + st.bytes
      && error == st.error
  {
    var reply := conn.Send(Request(hash, fileNo, k));
    if reply.Failure? {
      return Some(reply.error);
    }
    var calculated := hashBlock(reply.value.bytes);
    if calculated != blocks[k] {
      return Some(InvalidBlockHash(calculated));
    }
    out.WriteAll(reply.value.bytes);
    return None;
  }

  /** The verify-and-append loop over the blocks of file `fileNo`. */
  method FetchFile(conn: Connection, out: OutFile, hash: u128, fileNo: nat,
                   blocks: seq<u128>, hashBlock: BlockHasher) returns (error: Option<Error>)
    modifies conn, out
    ensures var run := RunBlocks(hash, fileNo, blocks, 0, conn.peer, hashBlock);
      && conn.sent == old(conn.sent) + run.requests
      && out.contents == old(out.contents) + run.bytes
      && error == run.error
  {
    var peer := conn.peer;
    ghost var full := RunBlocks(hash, fileNo, blocks, 0, peer, hashBlock);
    ghost var sent0, contents0 := conn.sent, out.contents;
    ghost var sentHere: seq<GetBlock> := [];
    ghost var written: seq<byte> := [];
    assert full == After(sentHere, written, full);
    var k := 0;
    while k < |blocks|
      invariant 0 <= k <= |blocks|
      invariant conn.peer == peer
      invariant conn.sent == sent0 + sentHere
      invariant out.contents == contents0 + written
      invariant full == After(sentHere, written, RunBlocks(hash, fileNo, blocks, k, peer, hashBlock))
      decreases |blocks| - k
    {
      ghost var st := BlockStep(hash, fileNo, blocks, k, peer, hashBlock);
      error := FetchBlock(conn, out, hash, fileNo, blocks, k, hashBlock);
      ghost var rest := if error.Some? then FileRun([], [], error)
                        else RunBlocks(hash, fileNo, blocks, k + 1, peer, hashBlock);
      RunBlocksStep(hash, fileNo, blocks, k, peer, hashBlock);
      FetchStep(sent0, sentHere, st.requests, contents0, written, st.bytes, full, rest);
      sentHere := sentHere + st.requests;
      written := written + st.bytes;
      if error.Some? {
        assert full.requests == sentHere && full.bytes == written;
        return;
      }
      k := k + 1;
    }
    assert full.requests == sentHere && full.bytes == written;
    return None;
  }

  /** One file of the manifest: create it at its destination, fetch its
      blocks into it and keep it, as `FileStep` describes. */
  method DownloadFile(conn: Connection, dir: Destination, hash: u128, dest: Path,
                      manifest: seq<FileMap>, i: nat, hashBlock: BlockHasher)
    returns (error: Option<Error>)
    requires i < |manifest|
    modifies conn, dir
    ensures var st := FileStep(hash, dest, manifest, i, conn.peer, hashBlock, dir.create);
      && conn.sent == old(conn.sent) + st.requests
      && dir.files == old(dir.files) + st.files
      && (error.None? <==> st.result.Success?)
      && (error.Some? ==> st.result == Failure(error.value))
  {
    var path := OutPath(dest, manifest[i]);
    var open := dir.CreateNew(path);
    if open.Failure? {
      assert conn.sent == old(conn.sent) + [] && dir.files == old(dir.files) + [];
      return Some(FromIo(open.error));
    }
    var out := open.value;
    error := FetchFile(conn, out, hash, i, manifest[i].blocks, hashBlock);
    assert out.contents == RunBlocks(hash, i, manifest[i].blocks, 0, conn.peer, hashBlock).bytes;
    dir.Close(out);
  }

  /** The per-file loop of `State::download` over the peer's manifest: the
      requests it sends, the files it creates and its result are those of
      `RunFiles`. */
  method DownloadFiles(conn: Connection, dir: Destination, hash: u128, dest: Path,
                       manifest: seq<FileMap>, hashBlock: BlockHasher)
    returns (result: Result<seq<Path>, Error>)
    modifies conn, dir
    ensures var run := RunFiles(hash, dest, manifest, 0, conn.peer, hashBlock, dir.create);
      && conn.sent == old(conn.sent) + run.requests
      && dir.files == old(dir.files) + run.files
      && result == run.result
  {
    var peer, create := conn.peer, dir.create;
    ghost var full := RunFiles(hash, dest, manifest, 0, peer, hashBlock, create);
    ghost var sent0, files0 := conn.sent, dir.files;
    ghost var sentHere: seq<GetBlock> := [];
    ghost var created: seq<(Path, seq<byte>)> := [];
    var paths: seq<Path> := [];
    ThenFilesNothing(full);
    var i := 0;
    while i < |manifest|
      invariant 0 <= i <= |manifest|
      invariant conn.sent == sent0 + sentHere
      invariant dir.files == files0 + created
      invariant full == ThenFiles(sentHere, created, paths, RunFiles(hash, dest, manifest, i, peer, hashBlock, create))
      decreases |manifest| - i
    {
      ghost var st := FileStep(hash, dest, manifest, i, peer, hashBlock, create);
      RunFilesStep(hash, dest, manifest, i, peer, hashBlock, create);
      var error := DownloadFile(conn, dir, hash, dest, manifest, i, hashBlock);
      ghost var rest := if error.Some? then DownloadRun([], [], st.result)
                        else RunFiles(hash, dest, manifest, i + 1, peer, hashBlock, create);
      ghost var stPaths: seq<Path> := if error.Some? then [] else [OutPath(dest, manifest[i])];
      DownloadStep(sent0, sentHere, st.requests, files0, created, st.files, paths, stPaths, full, rest);
      sentHere := sentHere + st.requests;
      created := created + st.files;
      if error.Some? {
        assert full.requests == sentHere && full.files == created;
        return Failure(error.value);
      }
      paths := paths + [OutPath(dest, manifest[i])];
      i := i + 1;
    }
    assert paths + [] == paths;
    assert full.requests == sentHere && full.files == created && full.result == Success(paths);
    return Success(paths);
  }

}
