/** Content identities, capability claims, requests and authorized accesses. */
module Access {
  import opened Bytes

  const SHA256_ALGORITHM: u8 := 1
  const READ: u32 := 1
  const PUT: u32 := 2

  /** `size_t` is 64 bits wide. */
  const SIZE_MAX: u64 := U64_MAX

  /** A digest function. SHA-256 is any function of this type; what is assumed
      of it is said where it is needed. */
  type Hash = seq<u8> -> Bytes32

  /** Two different inputs with one digest. */
  ghost predicate Collision(h: Hash, x: seq<u8>, y: seq<u8>) {
    x != y && h(x) == h(y)
  }

  datatype Cid = Cid(algorithm: u8, size: u64, digest: Bytes32)

  datatype Claims = Claims(
    tenant: Bytes32, cid: Cid, operation: u32, offset: u64, length: u64,
    audience: Bytes32, requestId: Bytes16, issuedAt: u64, expiresAt: u64)

  datatype Request = Request(
    tenant: Bytes32, cid: Cid, operation: u32, offset: u64, length: u64,
    localNode: Bytes32, requestId: Bytes16, now: u64)

  datatype Policy = Policy(maxTtl: u64, maxReadBytes: u64, maxPutBytes: u64)

  datatype AuthorizedAccess = AuthorizedAccess(
    tenant: Bytes32, cid: Cid, operation: u32, offset: u64, length: u64,
    audience: Bytes32, requestId: Bytes16, expiresAt: u64)

  predicate CidValid(cid: Cid) {
    cid.algorithm == SHA256_ALGORITHM && Nonzero(cid.digest)
  }

  /** `access_is_valid`; the journal and the access store carry one copy each. */
  predicate AccessValid(a: AuthorizedAccess) {
    && CidValid(a.cid)
    && Nonzero(a.tenant)
    && Nonzero(a.audience)
    && Nonzero(a.requestId)
    && a.expiresAt != 0
    && a.offset <= a.cid.size
    && a.length <= a.cid.size - a.offset
    && (a.operation == READ || a.operation == PUT)
    && (a.operation == PUT ==> a.offset == 0 && a.length == a.cid.size)
  }

  ghost predicate AllZero(s: seq<u8>) {
    forall i :: 0 <= i < |s| ==> s[i] == 0
  }

  /** A SHA-256 identity (algorithm 1) with a digest. */
  ghost predicate Identifies(cid: Cid) { cid.algorithm == 1 && !AllZero(cid.digest) }

  /** What the journal and the access store let through: parties, an object and a
      request that are named, a range inside the object, and either a read (1) or a
      put (2) of all of it. */
  lemma AccessValidIff(a: AuthorizedAccess)
    ensures AccessValid(a) <==>
      && Identifies(a.cid) && !AllZero(a.tenant) && !AllZero(a.audience) && !AllZero(a.requestId)
      && 0 < a.expiresAt && a.offset + a.length <= a.cid.size
      && (a.operation == 1 || (a.operation == 2 && a.offset == 0 && a.length == a.cid.size))
  {
  }
}
