/** The resource registry as the HTTP handlers see it: an abstract map from
    a 128-bit resource hash to its descriptor, reached through a mailbox
    that may fail. */
module Registry {
  import opened Types
  import opened Errors

  /** One file's manifest: its name, its size and its block hashes in order. */
  datatype FileMap = FileMap(fileName: string, fileSize: u64, blocks: seq<u128>)

  /** A registry entry: the resource hash and its files with their source paths. */
  datatype FileDesc = FileDesc(mapHash: u128, files: seq<(FileMap, Path)>)

  /** The registry behind its mailbox: the entries, or the error every
      request to it fails with (a lost mailbox or a storage failure). */
  datatype Db = Db(entries: map<u128, FileDesc>, fault: Option<Error>) {
    /** Every entry is stored under its own resource hash. */
    ghost predicate Valid() {
      forall h :: h in entries ==> entries[h].mapHash == h
    }
  }

  /** `GetHash(hash)`: the descriptor registered under `h`, if any. */
  function GetHash(db: Db, h: u128): (r: Result<Option<FileDesc>, Error>)
    ensures db.fault.Some? <==> r.Failure?
    ensures db.fault.Some? ==> r.error == db.fault.value
    ensures r.Success? ==> (r.value.Some? <==> h in db.entries)
    ensures r.Success? && r.value.Some? ==> r.value.value == db.entries[h]
  {
    if db.fault.Some? then Failure(db.fault.value)
    else if h in db.entries then Success(Some(db.entries[h]))
    else Success(None)
  }

  /** `RemoveHash(hash)`: take the entry under `h` out of the registry and
      return it.  A failed request leaves the registry as it was. */
  function RemoveHash(db: Db, h: u128): (r: (Result<Option<FileDesc>, Error>, Db))
    ensures r.0 == GetHash(db, h)
    ensures r.1.fault == db.fault
    ensures r.0.Success? ==> r.1.entries == db.entries - {h}
    ensures r.0.Failure? ==> r.1 == db
  {
    if db.fault.Some? then (Failure(db.fault.value), db)
    else (GetHash(db, h), db.(entries := db.entries - {h}))
  }

  lemma RemoveKeepsValid(db: Db, h: u128)
    requires db.Valid()
    ensures RemoveHash(db, h).1.Valid()
  {
  }
}
