/** The control plane: the `POST /api` command dispatch, the handlers it
    routes to, and the `/resources` endpoints.  A response is a status and
    a body; the registry, the file hasher, the reader, the copier, peer
    discovery and address parsing are parameters. */
module Api {
  import opened Types
  import opened Errors
  import opened Registry
  import opened Download
  import opened Hex

  // ---------------------------------------------------------------- responses

  datatype Status = Ok200 | NoContent204 | BadRequest400 | NotFound404 | InternalServerError500

  /** One resource of `GET /resources`. */
  datatype Summary = Summary(hash: string, files: nat, totalSize: u64)

  /** The answer of `GET /resources/{hash}`: the source path and the file
      name of every file, and their total size. */
  datatype Detail = Detail(hash: string, files: seq<(Path, string)>, totalSize: u64)

  datatype Body =
    | Text(text: string)
    | NoBody
    | UploadBody(hash: string)
    | DownloadBody(files: seq<Path>)
    | ResourceList(items: seq<Summary>)
    | ResourceDetail(detail: Detail)

  datatype Response = Response(status: Status, body: Body)

  /** `ErrorBadRequest(e)`: status 400 with the text of `e`. */
  function BadRequest(message: string): Response {
    Response(BadRequest400, Text(message))
  }

  /** `ErrorInternalServerError(e)`: status 500 with the text of `e`. */
  function ServerError(message: string): Response {
    Response(InternalServerError500, Text(message))
  }

  // ---------------------------------------------------------------- dispatch

  /** A peer as a download command names it. */
  datatype PeerInfo = TCP(address: string, port: u16)

  /** The commands of `POST /api`; `timeout` is seconds as a float, and
      `resource` is the `hash` field of a download. */
  datatype Command =
    | Id
    | Addresses
    | Upload(files: Option<seq<(Path, string)>>, timeout: Option<real>, hash: Option<string>)
    | Download(resource: string, dest: Path, peers: seq<PeerInfo>, timeout: Option<real>)

  /** The handler a command is routed to, with the fields it is given. */
  datatype Endpoint =
    | IdEndpoint
    | AddressesEndpoint
    | UploadEndpoint(files: seq<(Path, string)>, timeout: Option<real>)
    | CheckEndpoint(hash: string)
    | MimicDownloadEndpoint(hash: string, dest: Path)
    | DownloadEndpoint(hash: string, dest: Path, peers: seq<PeerInfo>, timeout: Option<real>)

  /** `api`: route a command to its handler, or reject it with 400
      "invalid command" (an upload naming both files and a hash, or
      neither). */
  function Route(c: Command): (r: Result<Endpoint, Response>)
    ensures r.Success? && r.value.IdEndpoint? <==> c.Id?
    ensures r.Success? && r.value.AddressesEndpoint? <==> c.Addresses?
    ensures r.Success? && r.value.UploadEndpoint? <==> c.Upload? && c.files.Some? && c.hash.None?
    ensures r.Success? && r.value.CheckEndpoint? <==> c.Upload? && c.files.None? && c.hash.Some?
    ensures r.Success? && r.value.MimicDownloadEndpoint? <==> c.Download? && |c.peers| == 0
    ensures r.Success? && r.value.DownloadEndpoint? <==> c.Download? && |c.peers| > 0
    ensures r.Failure? <==> c.Upload? && c.files.Some? == c.hash.Some?
    ensures r.Failure? ==> r.error == BadRequest("invalid command")
    ensures r.Success? && r.value.UploadEndpoint? ==> r.value.files == c.files.value && r.value.timeout == c.timeout
    ensures r.Success? && r.value.CheckEndpoint? ==> r.value.hash == c.hash.value
    ensures r.Success? && r.value.MimicDownloadEndpoint? ==> r.value.hash == c.resource && r.value.dest == c.dest
    ensures r.Success? && r.value.DownloadEndpoint? ==>
              r.value == DownloadEndpoint(c.resource, c.dest, c.peers, c.timeout)
  {
    match c
    case Id => Success(IdEndpoint)
    case Addresses => Success(AddressesEndpoint)
    case Upload(Some(files), timeout, None) => Success(UploadEndpoint(files, timeout))
    case Upload(None, _, Some(hash)) => Success(CheckEndpoint(hash))
    case Download(hash, dest, peers, timeout) =>
      if |peers| == 0 then Success(MimicDownloadEndpoint(hash, dest))
      else Success(DownloadEndpoint(hash, dest, peers, timeout))
    case _ => Failure(BadRequest("invalid command"))
  }

  // ---------------------------------------------------------------- addresses

  datatype IpAddr = V4(a: byte, b: byte, c: byte, d: byte) | V6(bits: u128)

  datatype SocketAddr = SocketAddr(ip: IpAddr, port: u16)

  /** `IpAddr::from_str`: the address, or `None` for an `AddrParseError`. */
  type IpParser = string -> Option<IpAddr>

  /** The text of `std::net::AddrParseError`. */
  const AddrParseMessage: string := "invalid IP address syntax"

  /** `Ipv4Addr::LOCALHOST`. */
  const Localhost: IpAddr := V4(127, 0, 0, 1)

  /** `resolve_host`: "localhost" is the IPv4 loopback; anything else is
      parsed as an IP address literal. */
  function ResolveHost(src: string, parse: IpParser): (r: Result<IpAddr, string>)
    ensures src == "localhost" ==> r == Success(Localhost)
    ensures src != "localhost" ==> (r.Success? <==> parse(src).Some?)
    ensures src != "localhost" && r.Success? ==> r.value == parse(src).value
    ensures r.Failure? ==> r.error == AddrParseMessage
  {
    if src == "localhost" then Success(Localhost)
    else match parse(src)
      case None => Failure(AddrParseMessage)
      case Some(ip) => Success(ip)
  }

  /** "localhost" resolves whatever the address parser makes of it, and no
      other name is treated specially. */
  lemma ResolveHostOnlyLocalhost(src: string, p1: IpParser, p2: IpParser)
    requires ResolveHost(src, p1) != ResolveHost(src, p2)
    ensures src != "localhost"
    ensures p1(src) != p2(src)
  {
  }

  /** The socket address of a peer, or `None` if its address is not an IP
      literal (`resolve_host` is not used here, so "localhost" depends on
      the parser). */
  function PeerAddr(p: PeerInfo, parse: IpParser): Option<SocketAddr> {
    match parse(p.address)
    case None => None
    case Some(ip) => Some(SocketAddr(ip, p.port))
  }

  /** The peer set of `State::download`: every peer's socket address, with
      duplicates collapsed; any unparsable address fails the collection. */
  function CollectPeers(peers: seq<PeerInfo>, parse: IpParser): (r: Result<set<SocketAddr>, string>)
    ensures r.Failure? <==> exists j :: 0 <= j < |peers| && PeerAddr(peers[j], parse).None?
    ensures r.Failure? ==> r.error == AddrParseMessage
    ensures r.Success? ==> r.value == set j | 0 <= j < |peers| :: PeerAddr(peers[j], parse).value
    ensures r.Success? ==> |r.value| <= |peers|
  {
    if peers == [] then Success({})
    else
      var rest := CollectPeers(peers[1..], parse);
      match PeerAddr(peers[0], parse)
      case None => Failure(AddrParseMessage)
      case Some(a) =>
        if rest.Failure? then
          CollectPeersFailure(peers, parse);
          rest
        else
          CollectPeersSet(peers, parse, rest.value);
          Success({a} + rest.value)
  }

  lemma CollectPeersFailure(peers: seq<PeerInfo>, parse: IpParser)
    requires |peers| > 0
    requires exists j :: 0 <= j < |peers[1..]| && PeerAddr(peers[1..][j], parse).None?
    ensures exists j :: 0 <= j < |peers| && PeerAddr(peers[j], parse).None?
  {
    var j :| 0 <= j < |peers[1..]| && PeerAddr(peers[1..][j], parse).None?;
    assert peers[1..][j] == peers[j + 1];
  }

  lemma CollectPeersSet(peers: seq<PeerInfo>, parse: IpParser, rest: set<SocketAddr>)
    requires |peers| > 0 && PeerAddr(peers[0], parse).Some?
    requires forall j :: 0 <= j < |peers[1..]| ==> PeerAddr(peers[1..][j], parse).Some?
    requires rest == set j | 0 <= j < |peers[1..]| :: PeerAddr(peers[1..][j], parse).value
    requires |rest| <= |peers[1..]|
    ensures forall j :: 0 <= j < |peers| ==> PeerAddr(peers[j], parse).Some?
    ensures {PeerAddr(peers[0], parse).value} + rest == set j | 0 <= j < |peers| :: PeerAddr(peers[j], parse).value
    ensures |{PeerAddr(peers[0], parse).value} + rest| <= |peers|
  {
    forall j | 0 < j < |peers|
      ensures PeerAddr(peers[j], parse).Some?
    {
      assert peers[1..][j - 1] == peers[j];
    }
    var all := set j | 0 <= j < |peers| :: PeerAddr(peers[j], parse).value;
    forall x | x in all
      ensures x in {PeerAddr(peers[0], parse).value} + rest
    {
      var j :| 0 <= j < |peers| && PeerAddr(peers[j], parse).value == x;
      if j > 0 {
        assert peers[1..][j - 1] == peers[j];
      }
    }
    forall x | x in rest
      ensures x in all
    {
      var j :| 0 <= j < |peers[1..]| && PeerAddr(peers[1..][j], parse).value == x;
      assert peers[1..][j] == peers[j + 1];
    }
  }

  /** The peer set depends only on which peers are named: not on their
      order, nor on how often each is named. */
  lemma CollectPeersSameElements(p: seq<PeerInfo>, q: seq<PeerInfo>, parse: IpParser)
    requires forall x :: x in p <==> x in q
    ensures CollectPeers(p, parse) == CollectPeers(q, parse)
  {
    var rp, rq := CollectPeers(p, parse), CollectPeers(q, parse);
    CollectPeersFailureShared(p, q, parse);
    CollectPeersFailureShared(q, p, parse);
    if rp.Success? {
      forall x | x in rp.value
        ensures x in rq.value
      {
        var j :| 0 <= j < |p| && PeerAddr(p[j], parse).value == x;
        assert p[j] in q;
        var i :| 0 <= i < |q| && q[i] == p[j];
        assert PeerAddr(q[i], parse).value == x;
      }
      forall x | x in rq.value
        ensures x in rp.value
      {
        var i :| 0 <= i < |q| && PeerAddr(q[i], parse).value == x;
        assert q[i] in p;
        var j :| 0 <= j < |p| && p[j] == q[i];
        assert PeerAddr(p[j], parse).value == x;
      }
      assert rp.value == rq.value;
    }
  }

  /** A peer that fails to parse fails every list that names it. */
  lemma CollectPeersFailureShared(p: seq<PeerInfo>, q: seq<PeerInfo>, parse: IpParser)
    requires forall x :: x in p ==> x in q
    ensures CollectPeers(p, parse).Failure? ==> CollectPeers(q, parse).Failure?
  {
    if CollectPeers(p, parse).Failure? {
      var j :| 0 <= j < |p| && PeerAddr(p[j], parse).None?;
      assert p[j] in q;
      var i :| 0 <= i < |q| && q[i] == p[j];
      assert PeerAddr(q[i], parse).None?;
    }
  }

  /** Naming the same peer twice does not change the peer set. */
  lemma CollectPeersDuplicate(peers: seq<PeerInfo>, parse: IpParser, k: nat)
    requires k < |peers|
    ensures CollectPeers(peers + [peers[k]], parse) == CollectPeers(peers, parse)
  {
    var more := peers + [peers[k]];
    forall x
      ensures x in peers <==> x in more
    {
      if x in more {
        var j :| 0 <= j < |more| && more[j] == x;
        assert j < |peers| ==> more[j] == peers[j];
      }
      if x in peers {
        var j :| 0 <= j < |peers| && peers[j] == x;
        assert more[j] == x;
      }
    }
    CollectPeersSameElements(peers, more, parse);
  }

  // ---------------------------------------------------------------- upload

  /** `filemap::hash_file(path, file_name)`. */
  type FileHasher = (Path, string) -> Result<FileMap, IoError>

  /** `std::fs::read`. */
  type Reader = Path -> Result<seq<byte>, IoError>

  /** The `RegisterHash` message sent to the registry. */
  datatype RegisterHash = RegisterHash(files: seq<(FileMap, Path)>, inlineData: seq<byte>)

  /** The registry's answer to `RegisterHash`: a lost mailbox, or its own
      result (the resource hash or an error). */
  type Registrar = RegisterHash -> Result<Result<u128, Error>, MailboxError>

  /** An I/O error of an upload, converted into a response by the web
      framework's `From<io::Error>`: a server error carrying its text. */
  function IoResponse(e: IoError): Response {
    ServerError(e.message)
  }

  /** Hash every file of an upload in order; the first failure wins. */
  function HashAll(files: seq<(Path, string)>, hashFile: FileHasher): Result<seq<(FileMap, Path)>, IoError> {
    if files == [] then Success([])
    else match hashFile(files[0].0, files[0].1)
      case Failure(e) => Failure(e)
      case Success(fm) =>
        match HashAll(files[1..], hashFile)
        case Failure(e) => Failure(e)
        case Success(rest) => Success([(fm, files[0].0)] + rest)
  }

  /** Hashing succeeds exactly when every file hashes; it then pairs each
      file map with its source path in upload order, and otherwise fails
      with the error of the first file that does not hash. */
  lemma {:induction false} HashAllSpec(files: seq<(Path, string)>, hashFile: FileHasher)
    ensures var r := HashAll(files, hashFile);
      && (r.Success? <==> forall j :: 0 <= j < |files| ==> hashFile(files[j].0, files[j].1).Success?)
      && (r.Success? ==>
            && |r.value| == |files|
            && (forall j :: 0 <= j < |files| ==> r.value[j] == (hashFile(files[j].0, files[j].1).value, files[j].0)))
      && (r.Failure? ==>
            exists j :: 0 <= j < |files|
              && (forall i :: 0 <= i < j ==> hashFile(files[i].0, files[i].1).Success?)
              && hashFile(files[j].0, files[j].1) == Failure(r.error))
  {
    if files != [] {
      var rest := files[1..];
      HashAllSpec(rest, hashFile);
      var r := HashAll(files, hashFile);
      var rr := HashAll(rest, hashFile);
      if hashFile(files[0].0, files[0].1).Success? {
        if rr.Success? {
          forall j | 0 <= j < |files|
            ensures r.value[j] == (hashFile(files[j].0, files[j].1).value, files[j].0)
          {
            if j > 0 {
              assert files[j] == rest[j - 1];
            }
          }
        } else {
          var k :| 0 <= k < |rest| &&
            (forall i :: 0 <= i < k ==> hashFile(rest[i].0, rest[i].1).Success?) &&
            hashFile(rest[k].0, rest[k].1) == Failure(rr.error);
          assert files[k + 1] == rest[k];
          forall i | 0 <= i < k + 1
            ensures hashFile(files[i].0, files[i].1).Success?
          {
            if i > 0 {
              assert files[i] == rest[i - 1];
            }
          }
        }
        assert r.Success? <==> rr.Success?;
        assert (forall j :: 0 <= j < |files| ==> hashFile(files[j].0, files[j].1).Success?) <==>
               (forall j :: 0 <= j < |rest| ==> hashFile(rest[j].0, rest[j].1).Success?) by {
          forall j | 0 <= j < |rest|
            ensures files[j + 1] == rest[j]
          {
          }
        }
      }
    }
  }

  /** The inline-data rule of `State::upload`: a lone file smaller than 200
      bytes travels with its registration and is read for that; in every
      other case the inline data is empty and nothing is read. */
  function InlineData(fileMaps: seq<(FileMap, Path)>, read: Reader): (r: Result<seq<byte>, IoError>)
    ensures |fileMaps| == 1 && fileMaps[0].0.fileSize < 200 ==> r == read(fileMaps[0].1)
    ensures !(|fileMaps| == 1 && fileMaps[0].0.fileSize < 200) ==> r == Success([])
  {
    if |fileMaps| == 1 then
      if fileMaps[0].0.fileSize < 200 then read(fileMaps[0].1) else Success([])
    else Success([])
  }

  /** Outside the one-small-file case the reader is never consulted. */
  lemma InlineDataNeedsNoRead(fileMaps: seq<(FileMap, Path)>, r1: Reader, r2: Reader)
    requires InlineData(fileMaps, r1) != InlineData(fileMaps, r2)
    ensures |fileMaps| == 1 && fileMaps[0].0.fileSize < 200
    ensures r1(fileMaps[0].1) != r2(fileMaps[0].1)
  {
  }

  /** `State::upload`: hash the files, read the inline data, register the
      resource and answer with its hash in hex. */
  function HandleUpload(files: seq<(Path, string)>, hashFile: FileHasher, read: Reader,
                        register: Registrar): (r: Response)
    ensures var hashed := HashAll(files, hashFile);
      && (hashed.Failure? ==> r == IoResponse(hashed.error))
      && (hashed.Success? && InlineData(hashed.value, read).Failure? ==>
            r == IoResponse(InlineData(hashed.value, read).error))
      && (hashed.Success? && InlineData(hashed.value, read).Success? ==>
            var reply := register(RegisterHash(hashed.value, InlineData(hashed.value, read).value));
            && (reply.Failure? ==> r == ServerError("database lost"))
            && (reply.Success? && reply.value.Failure? ==> r == ServerError(Display(reply.value.error)))
            && (reply.Success? && reply.value.Success? ==>
                  r.status == Ok200 && r.body.UploadBody? && ParseU128Hex(r.body.hash) == Success(reply.value.value)))
  {
    match HashAll(files, hashFile)
    case Failure(e) => IoResponse(e)
    case Success(fileMaps) =>
      match InlineData(fileMaps, read)
      case Failure(e) => IoResponse(e)
      case Success(data) =>
        match register(RegisterHash(fileMaps, data))
        case Failure(_) => ServerError("database lost")
        case Success(Failure(e)) => ServerError(Display(e))
        case Success(Success(h)) =>
          HexRoundTrip(h);
          Response(Ok200, UploadBody(Hex32(h)))
  }

  /** An upload answers 200 exactly when every file hashes, the inline data
      is read, and the registry accepts the files in upload order. */
  lemma UploadOk(files: seq<(Path, string)>, hashFile: FileHasher, read: Reader, register: Registrar)
    ensures var r := HandleUpload(files, hashFile, read, register);
      var hashed := HashAll(files, hashFile);
      && (hashed.Success? <==> forall j :: 0 <= j < |files| ==> hashFile(files[j].0, files[j].1).Success?)
      && (hashed.Success? ==>
            && |hashed.value| == |files|
            && (forall j :: 0 <= j < |files| ==> hashed.value[j] == (hashFile(files[j].0, files[j].1).value, files[j].0)))
      && (r.status == Ok200 <==>
            && hashed.Success?
            && InlineData(hashed.value, read).Success?
            && register(RegisterHash(hashed.value, InlineData(hashed.value, read).value)).Success?
            && register(RegisterHash(hashed.value, InlineData(hashed.value, read).value)).value.Success?)
  {
    HashAllSpec(files, hashFile);
  }

  // ---------------------------------------------------------------- check

  /** `State::check`: an upload by hash answers with the registered hash,
      or 400 "hash not found" when the text is not a hash or nothing is
      registered under it. */
  function HandleCheck(hashText: string, db: Db): (r: Response)
    ensures ParseU128Hex(hashText).Failure? ==> r == BadRequest("hash not found")
    ensures ParseU128Hex(hashText).Success? ==>
      var h := ParseU128Hex(hashText).value;
      && (db.fault.Some? ==> r == ServerError(Display(db.fault.value)))
      && (db.fault.None? && h !in db.entries ==> r == BadRequest("hash not found"))
      && (db.fault.None? && h in db.entries ==> r == Response(Ok200, UploadBody(Hex32(db.entries[h].mapHash))))
  {
    match ParseU128Hex(hashText)
    case Failure(_) => BadRequest("hash not found")
    case Success(h) =>
      match GetHash(db, h)
      case Failure(e) => ServerError(Display(e))
      case Success(None) => BadRequest("hash not found")
      case Success(Some(desc)) => Response(Ok200, UploadBody(Hex32(desc.mapHash)))
  }

  /** Checking a hash the daemon printed: found exactly when registered,
      and then the answer is that same text. */
  lemma CheckRegistered(db: Db, h: u128)
    requires db.Valid() && db.fault.None?
    ensures HandleCheck(Hex32(h), db).status == Ok200 <==> h in db.entries
    ensures h in db.entries ==> HandleCheck(Hex32(h), db).body == UploadBody(Hex32(h))
  {
    HexRoundTrip(h);
  }

  /** A 200 answer names the hash that was asked about, in canonical form. */
  lemma CheckAnswersTheQuery(hashText: string, db: Db)
    requires db.Valid()
    requires HandleCheck(hashText, db).status == Ok200
    ensures ParseU128Hex(hashText).Success?
    ensures HandleCheck(hashText, db).body == UploadBody(Hex32(ParseU128Hex(hashText).value))
  {
  }

  // ---------------------------------------------------------------- mimic download

  /** `fs::copy(from, to)`: `None` when it succeeds. */
  type Copier = (Path, Path) -> Option<IoError>

  /** Copy the registered files to `dest.join(file_name)` in order; the
      first failed copy ends the copying. */
  function CopyAll(files: seq<(FileMap, Path)>, dest: Path, copy: Copier): Result<seq<Path>, IoError> {
    if files == [] then Success([])
    else
      var out := OutPath(dest, files[0].0);
      match copy(files[0].1, out)
      case Some(e) => Failure(e)
      case None =>
        match CopyAll(files[1..], dest, copy)
        case Failure(e) => Failure(e)
        case Success(rest) => Success([out] + rest)
  }

  /** Copying succeeds exactly when every copy does, and then lists each
      destination path in order. */
  lemma {:induction false} CopyAllPaths(files: seq<(FileMap, Path)>, dest: Path, copy: Copier)
    ensures var r := CopyAll(files, dest, copy);
      && (r.Success? <==> forall j :: 0 <= j < |files| ==> copy(files[j].1, OutPath(dest, files[j].0)).None?)
      && (r.Success? ==>
            && |r.value| == |files|
            && (forall j :: 0 <= j < |files| ==> r.value[j] == OutPath(dest, files[j].0)))
  {
    if files != [] {
      var rest := files[1..];
      CopyAllPaths(rest, dest, copy);
      var r := CopyAll(files, dest, copy);
      var rr := CopyAll(rest, dest, copy);
      if copy(files[0].1, OutPath(dest, files[0].0)).None? {
        assert r.Success? <==> rr.Success?;
        assert forall j :: 0 <= j < |rest| ==> files[j + 1] == rest[j];
        if rr.Success? {
          forall j | 0 <= j < |files|
            ensures r.value[j] == OutPath(dest, files[j].0)
          {
            if j > 0 {
              assert files[j] == rest[j - 1];
            }
          }
        }
      }
    }
  }

  /** A failed copying reports the error of the first failed copy; the
      copies before it succeeded. */
  lemma {:induction false} CopyAllFailure(files: seq<(FileMap, Path)>, dest: Path, copy: Copier)
    ensures var r := CopyAll(files, dest, copy);
      r.Failure? ==>
        exists j :: 0 <= j < |files|
          && (forall i :: 0 <= i < j ==> copy(files[i].1, OutPath(dest, files[i].0)).None?)
          && copy(files[j].1, OutPath(dest, files[j].0)) == Some(r.error)
  {
    if files != [] && copy(files[0].1, OutPath(dest, files[0].0)).None? {
      var rest := files[1..];
      var rr := CopyAll(rest, dest, copy);
      CopyAllFailure(rest, dest, copy);
      if rr.Failure? {
        var k :| 0 <= k < |rest|
          && (forall i :: 0 <= i < k ==> copy(rest[i].1, OutPath(dest, rest[i].0)).None?)
          && copy(rest[k].1, OutPath(dest, rest[k].0)) == Some(rr.error);
        assert files[k + 1] == rest[k];
        forall i | 0 <= i < k + 1
          ensures copy(files[i].1, OutPath(dest, files[i].0)).None?
        {
          if i > 0 {
            assert files[i] == rest[i - 1];
          }
        }
      }
    }
  }

  /** The download without peers: copy the locally registered files.
      `notFound` is the answer when nothing is registered under the hash. */
  function MimicWith(notFound: Response, hashText: string, dest: Path, db: Db, copy: Copier): (r: Response)
    ensures ParseU128Hex(hashText).Failure? ==> r == BadRequest(ParseU128Hex(hashText).error.Message())
    ensures ParseU128Hex(hashText).Success? ==>
      var h := ParseU128Hex(hashText).value;
      && (db.fault.Some? ==> r == ServerError(Display(db.fault.value)))
      && (db.fault.None? && h !in db.entries ==> r == notFound)
      && (db.fault.None? && h in db.entries ==>
            var copied := CopyAll(db.entries[h].files, dest, copy);
            && (copied.Failure? ==> r == ServerError(copied.error.message))
            && (copied.Success? ==> r == Response(Ok200, DownloadBody(copied.value))))
  {
    match ParseU128Hex(hashText)
    case Failure(e) => BadRequest(e.Message())
    case Success(h) =>
      match GetHash(db, h)
      case Failure(e) => ServerError(Display(e))
      case Success(None) => notFound
      case Success(Some(desc)) =>
        match CopyAll(desc.files, dest, copy)
        case Failure(e) => ServerError(e.message)
        case Success(paths) => Response(Ok200, DownloadBody(paths))
  }

  /** `State::mimic_download` as written: the 400 "hash not found" it
      builds for a missing hash passes through the final
      `map_err(ErrorInternalServerError)` and goes out as a 500. */
  function MimicDownloadAsWritten(hashText: string, dest: Path, db: Db, copy: Copier): (r: Response)
    ensures ParseU128Hex(hashText).Success? && db.fault.None? && ParseU128Hex(hashText).value !in db.entries ==>
              r == ServerError("hash not found")
    ensures r.status == BadRequest400 <==> ParseU128Hex(hashText).Failure?
  {
    MimicWith(ServerError("hash not found"), hashText, dest, db, copy)
  }

  /** `State::mimic_download` as evidently intended: a missing hash is a
      client error, as it is for `State::check`. */
  function MimicDownload(hashText: string, dest: Path, db: Db, copy: Copier): (r: Response)
    ensures ParseU128Hex(hashText).Success? && db.fault.None? && ParseU128Hex(hashText).value !in db.entries ==>
              r == BadRequest("hash not found")
    ensures r.status == BadRequest400 <==>
              ParseU128Hex(hashText).Failure? || (db.fault.None? && ParseU128Hex(hashText).value !in db.entries)
  {
    MimicWith(BadRequest("hash not found"), hashText, dest, db, copy)
  }

  /** As written, asking for an unregistered hash is answered 500, while
      `check` answers the same question 400. */
  lemma MimicMissingHashIsServerError(h: u128, dest: Path, copy: Copier)
    ensures var db := Db(map[], None);
      && MimicDownloadAsWritten(Hex32(h), dest, db, copy).status == InternalServerError500
      && HandleCheck(Hex32(h), db).status == BadRequest400
  {
    HexRoundTrip(h);
  }

  /** Corrected, a missing hash is a client error, as for `check`; every
      other answer is what the code gives. */
  lemma MimicMissingHashIsClientError(hashText: string, dest: Path, db: Db, copy: Copier)
    ensures var r := MimicDownload(hashText, dest, db, copy);
      && (ParseU128Hex(hashText).Success? && db.fault.None? && ParseU128Hex(hashText).value !in db.entries ==>
            r == HandleCheck(hashText, db))
      && (r != MimicDownloadAsWritten(hashText, dest, db, copy) ==>
            ParseU128Hex(hashText).Success? && db.fault.None? && ParseU128Hex(hashText).value !in db.entries)
  {
  }

  /** A mimic download of a registered resource, named by any text that
      reads as its hash, succeeds exactly when every copy does and lists
      `dest.join(file_name)` for each file in order. */
  lemma MimicDownloadCopies(hashText: string, h: u128, dest: Path, db: Db, copy: Copier)
    requires ParseU128Hex(hashText) == Success(h)
    requires db.fault.None? && h in db.entries
    ensures var files := db.entries[h].files;
      var r := MimicDownload(hashText, dest, db, copy);
      && (r.status == Ok200 <==> forall j :: 0 <= j < |files| ==> copy(files[j].1, OutPath(dest, files[j].0)).None?)
      && (r.status == Ok200 ==>
            && r.body.DownloadBody? && |r.body.files| == |files|
            && (forall j :: 0 <= j < |files| ==> r.body.files[j] == OutPath(dest, files[j].0)))
  {
    CopyAllPaths(db.entries[h].files, dest, copy);
  }

  // ---------------------------------------------------------------- download

  /** `download::find_peer`: the manifest of the resource from the first
      peer of the set that serves it, over the connection it opened. */
  type PeerFinder = (u128, set<SocketAddr>) -> Result<seq<FileMap>, Error>

  /** What a download request does: its response, the block requests it
      sends and the files it creates. */
  datatype Outcome = Outcome(response: Response, requests: seq<GetBlock>, files: seq<(Path, seq<byte>)>)

  /** `State::download`, from the command's fields to its outcome. */
  function DownloadOutcome(hashText: string, dest: Path, peers: seq<PeerInfo>, parse: IpParser,
                           findPeer: PeerFinder, peer: Peer, hashBlock: BlockHasher, create: Creator): Outcome
  {
    match ParseU128Hex(hashText)
    case Failure(e) => Outcome(BadRequest(e.Message()), [], [])
    case Success(h) =>
      match CollectPeers(peers, parse)
      case Failure(e) => Outcome(BadRequest(e), [], [])
      case Success(addrs) =>
        match findPeer(h, addrs)
        case Failure(e) => Outcome(ServerError(Display(e)), [], [])
        case Success(manifest) =>
          var run := RunFiles(h, dest, manifest, 0, peer, hashBlock, create);
          Outcome(match run.result
                  case Success(paths) => Response(Ok200, DownloadBody(paths))
                  case Failure(e) => ServerError(Display(e)),
                  run.requests, run.files)
  }

  /** Bad input is rejected with 400 before any peer is contacted. */
  lemma DownloadRejectsBadInput(hashText: string, dest: Path, peers: seq<PeerInfo>, parse: IpParser,
                                findPeer: PeerFinder, peer: Peer, hashBlock: BlockHasher, create: Creator)
    requires ParseU128Hex(hashText).Failure? || exists j :: 0 <= j < |peers| && PeerAddr(peers[j], parse).None?
    ensures var o := DownloadOutcome(hashText, dest, peers, parse, findPeer, peer, hashBlock, create);
      && o.response.status == BadRequest400
      && o.requests == [] && o.files == []
      && (ParseU128Hex(hashText).Success? ==> o.response == BadRequest(AddrParseMessage))
  {
  }

  /** A download, named by any text that reads as the hash `h`, with a found
      peer answers 200 exactly when every file of the manifest completes, and
      then lists `dest.join(file_name)` for each file in manifest order; each
      created file holds exactly its accepted blocks. */
  lemma DownloadOk(hashText: string, h: u128, dest: Path, peers: seq<PeerInfo>, parse: IpParser,
                   addrs: set<SocketAddr>, findPeer: PeerFinder, manifest: seq<FileMap>, peer: Peer,
                   hashBlock: BlockHasher, create: Creator)
    requires ParseU128Hex(hashText) == Success(h)
    requires CollectPeers(peers, parse) == Success(addrs)
    requires findPeer(h, addrs) == Success(manifest)
    ensures var o := DownloadOutcome(hashText, dest, peers, parse, findPeer, peer, hashBlock, create);
      && |o.files| <= |manifest|
      && (o.response.status == Ok200 <==>
            forall j :: 0 <= j < |manifest| ==> Completes(h, dest, manifest, j, peer, hashBlock, create))
      && (o.response.status == Ok200 ==>
            o.response.body == DownloadBody(seq(|manifest|, j requires 0 <= j < |manifest| => OutPath(dest, manifest[j]))))
      && (forall j :: 0 <= j < |o.files| ==>
            o.files[j] == (OutPath(dest, manifest[j]), RunBlocks(h, j, manifest[j].blocks, 0, peer, hashBlock).bytes))
  {
    RunFilesIntegrity(h, dest, manifest, peer, hashBlock, create);
  }

  /** The download handler: validate the hash and the peers, find a peer,
      then run the per-file loop over its manifest. */
  method HandleDownload(conn: Connection, dir: Destination, hashText: string, dest: Path,
                        peers: seq<PeerInfo>, parse: IpParser, findPeer: PeerFinder,
                        hashBlock: BlockHasher) returns (response: Response)
    modifies conn, dir
    ensures var o := DownloadOutcome(hashText, dest, peers, parse, findPeer, conn.peer, hashBlock, dir.create);
      && response == o.response
      && conn.sent == old(conn.sent) + o.requests
      && dir.files == old(dir.files) + o.files
  {
    var hash := ParseU128Hex(hashText);
    if hash.Failure? {
      return BadRequest(hash.error.Message());
    }
    var addrs := CollectPeers(peers, parse);
    if addrs.Failure? {
      return BadRequest(addrs.error);
    }
    var found := findPeer(hash.value, addrs.value);
    if found.Failure? {
      return ServerError(Display(found.error));
    }
    var result := DownloadFiles(conn, dir, hash.value, dest, found.value, hashBlock);
    match result
    case Success(paths) =>
      response := Response(Ok200, DownloadBody(paths));
    case Failure(e) =>
      response := ServerError(Display(e));
  }

  // ---------------------------------------------------------------- resources

  /** The total of the file sizes of a resource, accumulated in a `u64`
      that wraps around. */
  function TotalSize(files: seq<(FileMap, Path)>): u64 {
    if files == [] then 0
    else (TotalSize(files[..|files| - 1]) + files[|files| - 1].0.fileSize) % U64_MOD
  }

  /** The exact total of the file sizes. */
  function SizeSum(files: seq<(FileMap, Path)>): nat {
    if files == [] then 0
    else SizeSum(files[..|files| - 1]) + files[|files| - 1].0.fileSize
  }

  /** The reported total is the exact total modulo 2^64, and is the exact
      total whenever that fits in a `u64`. */
  lemma {:induction false} TotalSizeIsSum(files: seq<(FileMap, Path)>)
    ensures TotalSize(files) == SizeSum(files) % U64_MOD
    ensures SizeSum(files) < U64_MOD ==> TotalSize(files) == SizeSum(files)
  {
    if files != [] {
      var init := files[..|files| - 1];
      var s := files[|files| - 1].0.fileSize;
      TotalSizeIsSum(init);
      ModAdd(SizeSum(init), s);
    }
  }

  lemma ModAdd(a: nat, b: nat)
    ensures (a % U64_MOD + b) % U64_MOD == (a + b) % U64_MOD
  {
    var q := a / U64_MOD;
    assert a == q * U64_MOD + a % U64_MOD;
    assert a + b == q * U64_MOD + (a % U64_MOD + b);
    ModMultiple(q, a % U64_MOD + b);
  }

  lemma ModMultiple(q: nat, x: nat)
    ensures (q * U64_MOD + x) % U64_MOD == x % U64_MOD
  {
  }

  /** `GET /resources`: one summary per resource of the registry's list,
      with its hash in hex, its number of files and their total size; a lost
      mailbox is a 500. */
  function ListResources(list: Result<seq<FileDesc>, MailboxError>): (r: Response)
    ensures list.Failure? ==> r == ServerError(list.error.message)
    ensures list.Success? ==> r.status == Ok200 && r.body.ResourceList? && |r.body.items| == |list.value|
    ensures list.Success? ==> forall j :: 0 <= j < |list.value| ==>
      && ParseU128Hex(r.body.items[j].hash) == Success(list.value[j].mapHash)
      && r.body.items[j].files == |list.value[j].files|
      && r.body.items[j].totalSize == TotalSize(list.value[j].files)
  {
    match list
    case Failure(e) => ServerError(e.message)
    case Success(resources) =>
      var items := seq(|resources|, j requires 0 <= j < |resources| =>
        Summary(Hex32(resources[j].mapHash), |resources[j].files|, TotalSize(resources[j].files)));
      assert forall j :: 0 <= j < |resources| ==> ParseU128Hex(items[j].hash) == Success(resources[j].mapHash) by {
        forall j | 0 <= j < |resources|
          ensures ParseU128Hex(items[j].hash) == Success(resources[j].mapHash)
        {
          HexRoundTrip(resources[j].mapHash);
        }
      }
      Response(Ok200, ResourceList(items))
  }

  /** The detail of one resource: the loop of `get_resource_info` that
      collects (source path, file name) pairs and adds up the sizes. */
  method ResourceInfo(desc: FileDesc) returns (detail: Detail)
    ensures detail.hash == Hex32(desc.mapHash)
    ensures |detail.files| == |desc.files|
    ensures forall j :: 0 <= j < |desc.files| ==> detail.files[j] == (desc.files[j].1, desc.files[j].0.fileName)
    ensures detail.totalSize == TotalSize(desc.files)
  {
    var size: u64 := 0;
    var files: seq<(Path, string)> := [];
    for j := 0 to |desc.files|
      invariant |files| == j
      invariant forall i :: 0 <= i < j ==> files[i] == (desc.files[i].1, desc.files[i].0.fileName)
      invariant size == TotalSize(desc.files[..j])
    {
      assert desc.files[..j + 1][..j] == desc.files[..j];
      size := (size + desc.files[j].0.fileSize) % U64_MOD;
      files := files + [(desc.files[j].1, desc.files[j].0.fileName)];
    }
    assert desc.files[..|desc.files|] == desc.files;
    detail := Detail(Hex32(desc.mapHash), files, size);
  }

  /** `GET /resources/{hash}`: 400 for a text that is not a hash, 404 for
      a hash not registered, otherwise the resource's detail. */
  method GetResourceInfo(hashText: string, db: Db) returns (r: Response)
    ensures ParseU128Hex(hashText).Failure? ==> r == BadRequest(ParseU128Hex(hashText).error.Message())
    ensures ParseU128Hex(hashText).Success? ==>
      var h := ParseU128Hex(hashText).value;
      && (db.fault.Some? ==> r == ServerError(Display(db.fault.value)))
      && (db.fault.None? && h !in db.entries ==> r == Response(NotFound404, Text("resource not found")))
      && (db.fault.None? && h in db.entries ==>
            && r.status == Ok200 && r.body.ResourceDetail?
            && r.body.detail.hash == Hex32(db.entries[h].mapHash)
            && |r.body.detail.files| == |db.entries[h].files|
            && (forall j :: 0 <= j < |db.entries[h].files| ==>
                  r.body.detail.files[j] == (db.entries[h].files[j].1, db.entries[h].files[j].0.fileName))
            && r.body.detail.totalSize == TotalSize(db.entries[h].files))
  {
    var hash := ParseU128Hex(hashText);
    if hash.Failure? {
      return BadRequest(hash.error.Message());
    }
    var found := GetHash(db, hash.value);
    match found
    case Failure(e) =>
      r := ServerError(Display(e));
    case Success(None) =>
      r := Response(NotFound404, Text("resource not found"));
    case Success(Some(desc)) =>
      var detail := ResourceInfo(desc);
      r := Response(Ok200, ResourceDetail(detail));
  }

  /** The total of a resource's summary is the one its detail reports. */
  lemma ListAgreesWithInfo(resources: seq<FileDesc>, j: nat)
    requires j < |resources|
    ensures var r := ListResources(Success(resources));
      && r.body.items[j].totalSize == TotalSize(resources[j].files)
      && r.body.items[j].totalSize == SizeSum(resources[j].files) % U64_MOD
  {
    TotalSizeIsSum(resources[j].files);
  }

  /** `DELETE /resources/{hash}`: 204 when a resource was removed, 404
      when none was registered; a text that is not a hash is rejected and
      leaves the registry alone. */
  function RemoveResource(hashText: string, db: Db): (r: (Response, Db))
    ensures ParseU128Hex(hashText).Failure? ==>
              r == (BadRequest(ParseU128Hex(hashText).error.Message()), db)
    ensures ParseU128Hex(hashText).Success? ==>
      var h := ParseU128Hex(hashText).value;
      && (db.fault.Some? ==> r == (ServerError(Display(db.fault.value)), db))
      && (db.fault.None? ==> r.1 == db.(entries := db.entries - {h}))
      && (db.fault.None? && h in db.entries ==> r.0 == Response(NoContent204, NoBody))
      && (db.fault.None? && h !in db.entries ==> r.0 == Response(NotFound404, Text("resource not found")))
  {
    match ParseU128Hex(hashText)
    case Failure(e) => (BadRequest(e.Message()), db)
    case Success(h) =>
      var (found, db') := RemoveHash(db, h);
      match found
      case Failure(e) => (ServerError(Display(e)), db')
      case Success(None) => (Response(NotFound404, Text("resource not found")), db')
      case Success(Some(_)) => (Response(NoContent204, NoBody), db')
  }

  /** Removing a registered resource twice: 204, then 404; afterwards a
      check of its hash is a 400. */
  lemma RemoveTwice(h: u128, db: Db)
    requires db.Valid() && db.fault.None? && h in db.entries
    ensures var (first, db1) := RemoveResource(Hex32(h), db);
      var (second, db2) := RemoveResource(Hex32(h), db1);
      && first.status == NoContent204
      && second.status == NotFound404
      && db2 == db1 && db1.Valid()
      && HandleCheck(Hex32(h), db1) == BadRequest("hash not found")
  {
    HexRoundTrip(h);
    RemoveKeepsValid(db, h);
  }
}
