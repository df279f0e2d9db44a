# simple-transfer: a verified model of the daemon's core

simple-transfer is a peer-to-peer file-transfer daemon. Its control plane is an
HTTP API. `POST /api` takes a tagged command: identity, addresses,
upload-by-files, upload-by-hash (an existence check) and download. The
`/resources` endpoints list, describe and remove registered resources. A
download fetches a resource's manifest from a peer. It then requests every
block of every file, recomputes each block's hash and appends the block to
the destination file only when the hash matches the manifest.

This project models, in Dafny:

- `types.dfy` (`Types`): the fixed-width integers, `Option`/`Result`, the
  truncating `as u32` cast and `PathBuf::join` on Unix paths.
- `hex.dfy` (`Hex`): the `{:032x}` rendering of 128-bit hashes, the `{}`
  rendering of a `u32`, and `u128::from_str_radix(s, 16)`, which every handler
  uses to read a hash.
- `errors.dfy` (`Errors`): the `ProtocolError` and `Error` enums,
  `into_err`, the `From` conversions and every `Display` format.
- `registry.dfy` (`Registry`): the registry as the handlers see it, an
  abstract map from a 128-bit hash to a descriptor behind a mailbox that may
  fail.
- `download.dfy` (`Download`): the verify-and-append loop of
  `State::download`. It is written as imperative code over a `Connection`
  (the requests sent), an `OutFile` (the bytes written) and a `Destination`
  (the files created). It is proved against two specification functions,
  `RunBlocks` for one file and `RunFiles` for the manifest.
- `api.dfy` (`Api`): the command dispatch, `resolve_host`, the peer set,
  upload with its inline-data rule, `check`, `mimic_download`, the download
  handler, and the three `/resources` endpoints. `get_resource_info` has a
  loop and is a method.

Code outside src/main.rs and src/error.rs becomes a parameter: the peer behind a
connection, `hash_block`, `hash_file`, `find_peer`, `fs::read`, `fs::copy`,
`create_new`, IP-address parsing and the registry's replies.

## Model

| member | source | states |
|---|---|---|
| Types.AsU32 | src/main.rs:260-261 | `file_no as u32` and `block_no as u32` keep every index below 2^32 |
| Types.AsU32IsMod | src/main.rs:260-261 | the cast keeps exactly the residue of the index modulo 2^32 |
| Types.Join | src/main.rs:231 | computes `dest.join(name)` on Unix paths: an absolute name is the result; otherwise the name follows the directory, after a `/` unless the directory is empty or already ends in one |
| Types.JoinShape | src/main.rs:231 | `dest.join(name)`: an absolute name replaces the directory; otherwise the result starts with the directory, ends with the name and adds at most one separator |
| Hex.Hex32 | src/error.rs:46 | `{:032x}` gives exactly 32 characters, all lower-case hex digits |
| Hex.HexRoundTrip | src/error.rs:46-49 | parsing the 32-digit rendering of `h` with `from_str_radix(_, 16)` gives back `h` |
| Hex.Hex32Injective | src/error.rs:46-49 | two hashes render to the same text exactly when they are equal |
| Hex.ParseIntError.Message | src/main.rs:200 | the `Display` text of each `ParseIntError` kind, which a 400 answer carries; never empty |
| Hex.ParseMessagesDistinct | src/main.rs:200 | the three kinds display three different texts |
| Hex.ParseU128Hex | src/main.rs:172 | a hash text is accepted only if non-empty; "" and a lone "+" fail with the empty-string error, as the standard library of the source's time answers |
| Hex.ParseU128HexAccepts | src/main.rs:172 | a hash text is accepted if and only if it is an optional '+' followed by one or more hex digits, of either case, whose value is below 2^128; the hash is that value |
| Hex.ParseDigits | src/main.rs:199 | an accepted digit string holds only hex digits and its value is its base-16 reading |
| Hex.ParseAcceptsAllHexDigits | src/main.rs:439 | every string of 1 to 32 hex digits, in either case, is a valid hash |
| Hex.Decimal | src/error.rs:36 | `{}` of a number is a non-empty string of decimal digits |
| Hex.DecimalRoundTrip | src/error.rs:36 | the decimal rendering reads back as the number and has no leading zero |
| Errors.Display | src/error.rs:28-52 | the `#[fail(display)]` text of every variant: the wrapped error's own text for `IO`, `Mailbox` and `ProtocolError`; "invalid format: ", "request canceled " and "resource " / "invalid block hash " with the payload; "invalid matadata version: " with the decimal version; "matadata not found"; the service name before " not working". Only `IO` and `Mailbox` can display nothing |
| Errors.DecodeFailuresLookAlike | src/error.rs:32-35 | a JSON and a bincode failure display the same text exactly when their messages are equal, so the text does not tell the decoders apart |
| Errors.ProtocolError.Message | src/error.rs:5-20 | every protocol signal displays a non-empty fixed text |
| Errors.ProtocolMessagesDistinct | src/error.rs:5-20 | two signals display the same text exactly when they are the same signal |
| Errors.ProtocolError.IntoErr | src/error.rs:22-26 | `into_err` wraps an equal copy of the signal, the same value the `From` conversion gives |
| Errors.IntoErrDisplay | src/error.rs:50-51 | a wrapped signal displays the signal's own text |
| Errors.FromIo | src/error.rs:67 | an I/O error converts to `IO` carrying it |
| Errors.FromBincode | src/error.rs:68 | a bincode error converts to `InvalidBinFormat` carrying it |
| Errors.FromJson | src/error.rs:69 | a JSON error converts to `InvalidJsonFormat` carrying it |
| Errors.FromMailbox | src/error.rs:70 | a mailbox error converts to `Mailbox` carrying it |
| Errors.FromCanceled | src/error.rs:71 | a cancellation converts to `RequestCanceled` carrying it |
| Errors.FromProtocolError | src/error.rs:72 | a protocol signal converts to `ProtocolError` carrying it |
| Errors.FromConversionsSeparate | src/error.rs:66-73 | the six conversions land in six different variants |
| Errors.ResourceNotFoundDisplay | src/error.rs:46-47 | "resource " + 32 hex digits + " not found", 51 characters, and the digits parse back to the hash |
| Errors.InvalidBlockHashDisplay | src/error.rs:48-49 | "invalid block hash " + 32 hex digits, 51 characters, and the digits parse back to the hash |
| Errors.InvalidMetaVersionDisplay | src/error.rs:36-37 | "invalid matadata version: " (sic) followed by decimal digits that read back as the version |
| Registry.GetHash | src/main.rs:176-177 | the lookup fails exactly when the registry is faulty, and otherwise finds a descriptor exactly when one is registered under the hash |
| Registry.RemoveHash | src/main.rs:489-490 | removal answers as a lookup does, and on success the hash is no longer registered while every other entry stays |
| Registry.RemoveKeepsValid | src/main.rs:489-490 | removal keeps every entry stored under its own hash |
| Download.Accepted | src/main.rs:266-276 | a reply is accepted when the peer returned a block and `hash_block` of its bytes equals the manifest's hash |
| Download.Rejection | src/main.rs:266-276 | a rejected reply ends the file with the peer's error, or with `InvalidBlockHash` of the calculated hash |
| Download.RunBlocks | src/main.rs:249-285 | the block loop of one file as a value: the requests sent, the bytes appended and the error that ended it; its properties are the `RunBlocks…` lemmas |
| Download.RunFiles | src/main.rs:227-291 | the file loop as a value: the requests sent, the files created with their contents, and the list of paths or the first error; its properties are the `RunFiles…` lemmas |
| Download.Request | src/main.rs:258-262 | the request carries the resource hash and, below 2^32, the file and block indices unchanged |
| Download.RunBlocksRequests | src/main.rs:249-262 | blocks are requested one at a time, in increasing index order, none skipped; a file without failure has requested every block |
| Download.RunBlocksVerdict | src/main.rs:266-276 | every accepted block's recomputed hash equals the manifest's; a failed file stops at the first rejected block, with `InvalidBlockHash(calculated)` or the peer's error |
| Download.RunBlocksBytes | src/main.rs:278-284 | the file holds exactly the accepted blocks' payloads, concatenated in index order |
| Download.RunBlocksIntegrity | src/main.rs:249-285 | the three statements above for a whole file |
| Download.AllAcceptedWritesWholeFile | src/main.rs:249-285 | when the peer answers every block correctly, the file is complete and holds every payload in order |
| Download.CorruptBlockStopsFile | src/main.rs:269-275 | a bad block `c` ends the file with an error after at most `c + 1` requests, and nothing after the accepted prefix is written |
| Download.RunBlocksStep | src/main.rs:250-284 | a file's run is its first block's step followed by the rest, which is empty after a failed step |
| Download.RunFilesCreated | src/main.rs:227-247 | files are created in manifest order at `dest.join(file_name)`, each holding what its block run wrote |
| Download.AbsoluteNameIgnoresDest | src/main.rs:231-239 | a manifest entry whose `file_name` is absolute is created at that name whatever `dest` is, so a peer's manifest decides where the file is written |
| Download.RunFilesRequests | src/main.rs:227-262 | the requests sent are those of the created files, file after file |
| Download.RunFilesSuccess | src/main.rs:227-289 | the download succeeds exactly when every file completes, and then lists every destination path in manifest order |
| Download.RunFilesFailure | src/main.rs:227-291 | a failed download stops at its first failure: the earlier files are complete and the error is that of the first file that failed |
| Download.RunFilesIntegrity | src/main.rs:227-291 | the whole download: files and contents, requests, and result |
| Download.RunFilesStep | src/main.rs:228-287 | a download is its first file's step followed by the rest, which is empty after a failed step |
| Download.Connection.Send | src/main.rs:257-265 | sending records the request and returns the peer's answer |
| Download.OutFile.WriteAll | src/main.rs:282 | `write_all` appends the bytes to the file |
| Download.Destination.CreateNew | src/main.rs:234-246 | creation fails exactly when the creator refuses the path; otherwise a fresh empty file at that path |
| Download.Destination.Close | src/main.rs:285-286 | the closed file stays in the directory with its contents |
| Download.FetchBlock | src/main.rs:250-283 | one block: one request, then the block's bytes appended, or the rejection returned and nothing written |
| Download.FetchFile | src/main.rs:249-285 | the block loop sends exactly the requests and writes exactly the bytes of `RunBlocks`, and returns its error |
| Download.DownloadFile | src/main.rs:228-286 | one manifest entry: the file is created, its blocks fetched into it and the file kept, exactly as one step of `RunFiles` describes |
| Download.DownloadFiles | src/main.rs:227-289 | the file loop sends the requests, creates the files and returns the result of `RunFiles` |
| Api.Route | src/main.rs:344-394 | `Id` and `Addresses` go to their handlers; an upload goes to `upload` iff only files are given and to `check` iff only a hash is; a download goes to `mimic_download` iff it names no peer; every other shape is 400 "invalid command" |
| Api.PeerAddr | src/main.rs:207 | a peer's socket address is its address text parsed as an IP literal (no "localhost" rule here) with its port, or nothing when the text does not parse |
| Api.ResolveHost | src/main.rs:86-91 | "localhost" is 127.0.0.1; any other text resolves exactly when it parses as an IP address |
| Api.ResolveHostOnlyLocalhost | src/main.rs:86-91 | only "localhost" resolves independently of the address parser |
| Api.CollectPeers | src/main.rs:204-213 | the peer set fails exactly when some address does not parse; otherwise it is the set of all peers' socket addresses, no larger than the list |
| Api.CollectPeersSameElements | src/main.rs:204-209 | the peer set depends only on which peers are named, not on order or repetition |
| Api.CollectPeersDuplicate | src/main.rs:204-209 | naming a peer twice does not change the peer set |
| Api.HashAll | src/main.rs:119-122 | hashes the upload's files in order, pairing each file map with its source path, and stops at the first failure; its properties are in `Api.HashAllSpec` |
| Api.IoResponse | src/main.rs:121-131 | an upload's I/O error becomes a 500 answer carrying the error's text |
| Api.HashAllSpec | src/main.rs:119-122 | hashing succeeds iff every file hashes; it pairs each map with its path in order, and otherwise fails with the first file's error |
| Api.InlineData | src/main.rs:127-138 | the inline data is the file's contents as read when there is one file smaller than 200 bytes, and empty otherwise |
| Api.InlineDataNeedsNoRead | src/main.rs:127-138 | outside the one-small-file case the reader is never consulted |
| Api.HandleUpload | src/main.rs:119-162 | hashing and reading errors are answered with their text; a lost registry is 500 "database lost"; a registry error is 500 with its text; success returns a hex hash that parses back to the registered hash |
| Api.UploadOk | src/main.rs:119-162 | an upload answers 200 exactly when every file hashes, the inline data is read and the registry accepts the files in upload order |
| Api.HandleCheck | src/main.rs:167-189 | a bad hash text or an unregistered hash is 400 "hash not found"; a registry fault is 500; a registered hash answers with the descriptor's hash in hex |
| Api.CheckRegistered | src/main.rs:167-189 | checking a printed hash finds it exactly when it is registered, and answers with the same text |
| Api.CheckAnswersTheQuery | src/main.rs:180-184 | a 200 check answers with the canonical form of the hash asked about |
| Api.CopyAll | src/main.rs:315-329 | copies the registered files to `dest.join(file_name)` in order and stops at the first failed copy; its properties are in `Api.CopyAllPaths` and `Api.CopyAllFailure` |
| Api.CopyAllPaths | src/main.rs:315-329 | copying succeeds exactly when every copy does, and lists `dest.join(file_name)` for each file in order |
| Api.CopyAllFailure | src/main.rs:315-329 | a failed copying reports the first failed copy; the ones before it succeeded |
| Api.MimicWith | src/main.rs:295-335 | a bad hash text is 400 with the parse error's text; a registry fault is 500; a registered resource is copied and its paths returned, or the copy error is 500 |
| Api.MimicDownloadAsWritten | src/main.rs:305-334 | as written, an unregistered hash is 500 "hash not found", and a 400 arises only from a bad hash text |
| Api.MimicDownload | src/main.rs:310-311 | corrected, an unregistered hash is 400 "hash not found" |
| Api.MimicMissingHashIsServerError | src/main.rs:311 | for an unregistered hash, the code as written answers 500 where `check` answers 400 |
| Api.MimicMissingHashIsClientError | src/main.rs:310-311 | corrected, the missing-hash answer equals `check`'s, and it is the only answer that differs from the code as written |
| Api.MimicDownloadCopies | src/main.rs:314-331 | for any hash text that reads as a registered resource's hash, the answer is 200 exactly when every copy succeeds, with `dest.join(file_name)` per file in order |
| Api.DownloadOutcome | src/main.rs:191-293 | the download handler as a value: 400 for a bad hash or peer address, 500 when no peer is found, otherwise the response, requests and files of `RunFiles` on the peer's manifest |
| Api.DownloadRejectsBadInput | src/main.rs:199-213 | a bad hash text or an unparsable peer address is a 400, and no block is requested and no file is created |
| Api.DownloadOk | src/main.rs:215-291 | for any hash text that reads as the hash, with a peer found, the download answers 200 exactly when every file completes, listing the destination paths in manifest order; each created file holds exactly its accepted blocks |
| Api.HandleDownload | src/main.rs:191-293 | the handler's response, requests sent and files created are those of the download's outcome |
| Api.TotalSize | src/main.rs:412-416 | the `u64` sum of a resource's file sizes, each addition wrapping modulo 2^64; its properties are in `Api.TotalSizeIsSum` |
| Api.TotalSizeIsSum | src/main.rs:412-416 | the reported total size is the exact sum modulo 2^64, and the exact sum whenever it fits in a `u64` |
| Api.ListResources | src/main.rs:402-431 | one summary per resource: a hex hash that parses back to the resource hash, the number of files and the total size; a lost mailbox is 500 |
| Api.ResourceInfo | src/main.rs:453-471 | the detail lists (source path, file name) for every file in order, and the total size of the files |
| Api.GetResourceInfo | src/main.rs:439-475 | a bad hash text is 400 with the parse error's text; a registry fault is 500; an unregistered hash is 404 "resource not found"; otherwise 200 with the resource's hash, files and total size |
| Api.ListAgreesWithInfo | src/main.rs:453-458 | the summary's total size is the one the resource's detail reports |
| Api.RemoveResource | src/main.rs:482-495 | a bad hash text is 400 and a registry fault 500, both leaving the registry alone; a removed resource is 204 and an unregistered hash 404, and afterwards the hash is not registered |
| Api.RemoveTwice | src/main.rs:482-495 | removing a registered resource twice answers 204 then 404; afterwards a check of its hash is 400 |

## Left out

- The actix servers, the routing attributes, JSON bodies and `HttpResponse` building are framework plumbing. A response is a status and a body here.
- The `id` and `addresses` handlers are modelled only as routes. Their bodies depend on the registry's node id and on the host address's `to_string`, which are outside these files.
- The futures combinators and the 300-second deadline on `GetBlock` are not modelled. A timeout is one more failure answer of the peer.
- `valid_to` (`SystemTime::now()`, the `f64` `ceil`, `UNIX_EPOCH`) is floating point and wall-clock time. `RegisterHash` carries no expiry, and summaries and details have no `validTo`.
- The filesystem calls are oracles. The `exists` test and the best-effort rename aside (its failure is ignored) are folded into the creation oracle. `create_dir_all` is ignored, as the source ignores its result. `fs::copy` and `fs::read` are given as parameters. Because the creation oracle depends on the path alone, a manifest with two files of the same `file_name` shows both files at one path. In the source, the existing file is moved to the same path with its extension replaced by `bak` (`a.txt` becomes `a.bak`, `a` becomes `a.bak`) before the second is created.
- Download.OutFile.WriteAll: a failing `write_all` (the `?` in the block loop) is not modelled; writes always succeed.
- `hash_file`, `hash_block`, `find_peer`, the connection actor and the registry's `GetHash`, `RemoveHash`, `RegisterHash` and `List` messages are outside these files. They are function parameters or the abstract `Db` map. The connection that `find_peer` opens is the `Connection` object passed to the handler.
- The block the peer returns carries its own hash and indices. Neither the source nor the model checks them.
- `codec::hash_to_hex` is not part of this model. It is taken to be the same 32-digit lower-case rendering as `{:032x}`.
- `ListResources` takes the registry's `List` reply as given, in the order the registry returns it.
- Api.IoResponse: an upload's I/O error (the `?` after `hash_file` and the `e.into()` of the failed read) goes through the web framework's conversion, which answers 404 for a not-found error, 403 for a permission error and 500 otherwise. The model answers 500 with the error's text for every upload I/O error. The local copy of a mimic download wraps its error in a 500 explicitly, and that is modelled exactly.
- Hex.ParseU128Hex: the behaviour modelled for a lone "+" is that of the standard library of the source's time, which answers the empty-string error. Later releases answer the invalid-digit error for it. Every other input is answered the same by both.
- The `u64` size totals wrap around, as in a release build. The overflow panic of a debug build is not modelled.
- Paths are Unix path strings and `Path::display` is the identity. Other platforms' join rules are not modelled.
- `user_report` annotations, `log` macros, the StructOpt command line, `main` and version printing are telemetry and bootstrap.
- The `#[cause]` chaining of the wrapped foreign errors is not modelled. Their payloads are opaque and only their text is kept.
- The `user` field of the commands is only used for reporting and is not modelled. The `hash` field of a download command is named `resource` in the model.

## Findings

| source | as written | input that shows it | evidently intended | confidence | as-written member | corrected member |
|---|---|---|---|---|---|---|
| src/main.rs:311 | the 400 `ErrorBadRequest("hash not found")` for a missing hash is wrapped again by the final `map_err(ErrorInternalServerError)` (src/main.rs:333), so it goes out as 500 | a download command with no peers and a well-formed hash that is not registered | a 400 client error, as `check` answers the same question (src/main.rs:186) | medium, not executed | Api.MimicDownloadAsWritten | Api.MimicDownload |
