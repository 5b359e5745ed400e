/** The canonical pre-image that binds a request id to one authorized access. */
module AccessDigest {
  import opened Bytes
  import opened Access

  const DOMAIN: seq<u8> := Ascii("TurboNet-M3-Chunk-Authorized-Access-v1")

  function Tail(a: AuthorizedAccess): seq<u8> {
    BE(a.offset, 8) + (BE(a.length, 8) + (a.audience + (a.requestId + BE(a.expiresAt, 8))))
  }

  function PreImage(a: AuthorizedAccess): seq<u8> {
    DOMAIN + (a.tenant + ([a.cid.algorithm] + (BE(a.cid.size, 8) +
      (a.cid.digest + (BE(a.operation, 4) + Tail(a))))))
  }

  function AccessHash(h: Hash, a: AuthorizedAccess): Bytes32 { h(PreImage(a)) }

  lemma TailInjective(a: AuthorizedAccess, b: AuthorizedAccess)
    requires Tail(a) == Tail(b)
    ensures a.offset == b.offset && a.length == b.length && a.audience == b.audience
    ensures a.requestId == b.requestId && a.expiresAt == b.expiresAt
  {
    PowersOf256();
    var a4, b4 := a.requestId + BE(a.expiresAt, 8), b.requestId + BE(b.expiresAt, 8);
    var a3, b3 := a.audience + a4, b.audience + b4;
    var a2, b2 := BE(a.length, 8) + a3, BE(b.length, 8) + b3;
    SplitEqual(BE(a.offset, 8), BE(b.offset, 8), a2, b2);
    SplitEqual(BE(a.length, 8), BE(b.length, 8), a3, b3);
    SplitEqual(a.audience, b.audience, a4, b4);
    SplitEqual(a.requestId, b.requestId, BE(a.expiresAt, 8), BE(b.expiresAt, 8));
    BEInjective(a.offset, b.offset, 8);
    BEInjective(a.length, b.length, 8);
    BEInjective(a.expiresAt, b.expiresAt, 8);
  }

  /** Accesses with one pre-image agree in every field. */
  lemma PreImageInjective(a: AuthorizedAccess, b: AuthorizedAccess)
    requires PreImage(a) == PreImage(b)
    ensures a == b
  {
    PowersOf256();
    var a5, b5 := BE(a.operation, 4) + Tail(a), BE(b.operation, 4) + Tail(b);
    var a4, b4 := a.cid.digest + a5, b.cid.digest + b5;
    var a3, b3 := BE(a.cid.size, 8) + a4, BE(b.cid.size, 8) + b4;
    var a2, b2 := [a.cid.algorithm] + a3, [b.cid.algorithm] + b3;
    SplitEqual(DOMAIN, DOMAIN, a.tenant + a2, b.tenant + b2);
    SplitEqual(a.tenant, b.tenant, a2, b2);
    SplitEqual([a.cid.algorithm], [b.cid.algorithm], a3, b3);
    SplitEqual(BE(a.cid.size, 8), BE(b.cid.size, 8), a4, b4);
    SplitEqual(a.cid.digest, b.cid.digest, a5, b5);
    SplitEqual(BE(a.operation, 4), BE(b.operation, 4), Tail(a), Tail(b));
    BEInjective(a.cid.size, b.cid.size, 8);
    BEInjective(a.operation, b.operation, 4);
    TailInjective(a, b);
  }

  /** Digests tell accesses apart, unless a collision is at hand. */
  lemma DigestSeparates(h: Hash, a: AuthorizedAccess, b: AuthorizedAccess)
    requires a != b && AccessHash(h, a) == AccessHash(h, b)
    ensures Collision(h, PreImage(a), PreImage(b))
  {
    if PreImage(a) == PreImage(b) {
      PreImageInjective(a, b);
    }
  }

  datatype HashCall = HashWorks | HashFails(outOfMemory: bool)

  datatype HashResult = HashOk | HashInvalidAccess | HashOutOfMemory | HashCryptoFailed

  /** `hash_access`: feed the fields to a digest context one update at a time.
      The context is its absorbed input; any update may be refused. `before` is
      what the output holds already; only a refused update clears it. */
  method HashAccess(h: Hash, call: HashCall, a: AuthorizedAccess, before: Bytes32)
    returns (result: HashResult, digest: Bytes32)
    ensures result ==
      if !AccessValid(a) then HashInvalidAccess
      else if call.HashWorks? then HashOk
      else if call.outOfMemory then HashOutOfMemory
      else HashCryptoFailed
    ensures result == HashOk ==> digest == AccessHash(h, a)
    ensures result == HashCryptoFailed ==> digest == ZERO32
    ensures result == HashInvalidAccess || result == HashOutOfMemory ==> digest == before
  {
    if !AccessValid(a) {
      return HashInvalidAccess, before;
    }
    if call.HashFails? {
      if call.outOfMemory {
        return HashOutOfMemory, before;
      }
      return HashCryptoFailed, ZERO32;
    }
    var absorbed := DOMAIN;
    absorbed := absorbed + a.tenant;
    absorbed := absorbed + [a.cid.algorithm];
    absorbed := absorbed + BE(a.cid.size, 8);
    absorbed := absorbed + a.cid.digest;
    absorbed := absorbed + BE(a.operation, 4);
    absorbed := absorbed + BE(a.offset, 8);
    absorbed := absorbed + BE(a.length, 8);
    absorbed := absorbed + a.audience;
    absorbed := absorbed + a.requestId;
    absorbed := absorbed + BE(a.expiresAt, 8);
    assert absorbed == PreImage(a);
    return HashOk, h(absorbed);
  }
}
