/** Authorized access to the chunk store. */
module AccessStore {
  import opened Bytes
  import opened Access
  import opened Capability
  import opened ChunkStore

  datatype AccessResult =
    | AccessOk
    | AccessInvalidArg
    | AccessInvalidAccess
    | AccessExpired
    | AccessResourceExhausted
    | AccessNotFound
    | AccessCorrupt
    | AccessDigestMismatch
    | AccessIo
    | AccessCsprngFailed

  function MapChunkResult(r: ChunkResult): AccessResult {
    match r
    case ChunkOk => AccessOk
    case ChunkInvalidArg => AccessInvalidArg
    case ChunkNotFound => AccessNotFound
    case ChunkCorrupt => AccessCorrupt
    case ChunkDigestMismatch => AccessDigestMismatch
    case ChunkResourceExhausted => AccessResourceExhausted
    case ChunkCsprngFailed => AccessCsprngFailed
    case ChunkIo => AccessIo
  }

  datatype AccessReadOut = AccessReadOut(result: AccessResult, bytes: seq<u8>)

  /** `m3_chunk_access_store_read_v1`. */
  function AccessRead(h: Hash, fs: Files, maxBytes: u64, a: AuthorizedAccess, now: u64, bufferSize: nat, env: ReadEnv)
    : AccessReadOut
  {
    if !AccessValid(a) || a.operation != READ then AccessReadOut(AccessInvalidAccess, [])
    else if now >= a.expiresAt then AccessReadOut(AccessExpired, [])
    else if bufferSize < a.length then AccessReadOut(AccessResourceExhausted, [])
    else
      var r := Read(h, fs, maxBytes, a.cid, a.offset, a.length, env);
      AccessReadOut(MapChunkResult(r.result), r.bytes)
  }

  datatype AccessPutOut = AccessPutOut(result: AccessResult, created: bool, fs: Files)

  /** `m3_chunk_access_store_put_v1`. */
  function AccessPut(h: Hash, fs: Files, maxBytes: u64, a: AuthorizedAccess, now: u64, bytes: seq<u8>, env: PutEnv)
    : AccessPutOut
  {
    if !AccessValid(a) || a.operation != PUT then AccessPutOut(AccessInvalidAccess, false, fs)
    else if now >= a.expiresAt then AccessPutOut(AccessExpired, false, fs)
    else if a.length != |bytes| then AccessPutOut(AccessResourceExhausted, false, fs)
    else
      var r := Put(h, fs, maxBytes, a.cid, bytes, env);
      AccessPutOut(MapChunkResult(r.result), r.created, r.fs)
  }

  /** An access that authorization granted at `now` is refused by the access
      store neither as invalid nor as expired, and a granted PUT of the right
      number of bytes fits the CID. */
  lemma GrantedPassesAccessStore(c: Claims, r: Request, p: Policy, h: Hash, fs: Files, maxBytes: u64,
                                 bufferSize: nat, env: ReadEnv, bytes: seq<u8>, putEnv: PutEnv)
    requires Decide(c, r, p) == CapabilityOk
    ensures r.operation == READ ==>
      AccessRead(h, fs, maxBytes, Granted(c, r), r.now, bufferSize, env).result !in {AccessInvalidAccess, AccessExpired}
    ensures r.operation == PUT ==>
      AccessPut(h, fs, maxBytes, Granted(c, r), r.now, bytes, putEnv).result
        !in {AccessInvalidAccess, AccessExpired, AccessInvalidArg}
  {
    GrantedIsValid(c, r, p);
  }

  /** A read of a valid, live READ succeeds exactly when the buffer suffices, the
      object is within the store's limit, nothing fails, and the chunk is there
      and intact; it then returns the range. */
  lemma AccessReadIff(h: Hash, fs: Files, maxBytes: u64, a: AuthorizedAccess, now: u64, bufferSize: nat, env: ReadEnv)
    requires AccessValid(a) && a.operation == READ && now < a.expiresAt
    requires ReadsSlot(env, Lookup(fs, NameOf(a.cid.digest)))
    ensures var file := Lookup(fs, NameOf(a.cid.digest));
      AccessRead(h, fs, maxBytes, a, now, bufferSize, env).result == AccessOk <==>
        && a.length <= bufferSize && a.cid.size <= maxBytes && Smooth(env)
        && file.Some? && |file.value| == a.cid.size && h(file.value) == a.cid.digest
    ensures AccessRead(h, fs, maxBytes, a, now, bufferSize, env).result == AccessOk ==>
      AccessRead(h, fs, maxBytes, a, now, bufferSize, env).bytes
        == Lookup(fs, NameOf(a.cid.digest)).value[a.offset..a.offset + a.length]
  {
    VerifiedReadIff(h, Lookup(fs, NameOf(a.cid.digest)), a.cid, a.offset, a.length, env);
  }
}
