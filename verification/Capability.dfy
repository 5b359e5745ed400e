/** Evaluation of signature-verified claims against one request. */
module Capability {
  import opened Bytes
  import opened Access

  datatype CapabilityResult =
    | CapabilityOk
    | InvalidArg
    | InvalidClaims
    | NotYetValid
    | Expired
    | TenantMismatch
    | AudienceMismatch
    | RequestMismatch
    | OperationMismatch
    | CidMismatch
    | RangeDenied
    | ResourceExhausted

  predicate OperationValid(op: u32) { op == READ || op == PUT }

  predicate RangeValid(offset: u64, length: u64, size: u64) {
    offset <= size && (var room: u64 := size - offset; length <= room)
  }

  /** Containment of half-open ranges; both ends are computed in 64 bits, so
      the guards come first. */
  predicate RangeContains(outerOffset: u64, outerLength: u64, innerOffset: u64, innerLength: u64) {
    if outerLength > U64_MAX - outerOffset || innerLength > U64_MAX - innerOffset then
      false
    else
      var outerEnd: u64 := outerOffset + outerLength;
      var innerEnd: u64 := innerOffset + innerLength;
      innerOffset >= outerOffset && innerEnd <= outerEnd
  }

  predicate ClaimsValid(c: Claims, p: Policy) {
    && p.maxTtl != 0 && p.maxReadBytes != 0 && p.maxPutBytes != 0
    && Nonzero(c.tenant) && Nonzero(c.audience) && Nonzero(c.requestId)
    && OperationValid(c.operation)
    && CidValid(c.cid)
    && c.issuedAt < c.expiresAt
    && RangeValid(c.offset, c.length, c.cid.size)
    && (var ttl: u64 := c.expiresAt - c.issuedAt; ttl <= p.maxTtl)
    && (c.operation == PUT ==> c.offset == 0 && c.length == c.cid.size)
  }

  predicate RequestValid(r: Request) {
    && OperationValid(r.operation)
    && CidValid(r.cid)
    && Nonzero(r.tenant) && Nonzero(r.localNode) && Nonzero(r.requestId)
    && RangeValid(r.offset, r.length, r.cid.size)
  }

  predicate CidEqual(x: Cid, y: Cid) {
    && CidValid(x) && CidValid(y)
    && x.algorithm == y.algorithm && x.size == y.size && x.digest == y.digest
  }

  function OperationLimit(op: u32, p: Policy): u64 {
    if op == READ then p.maxReadBytes else p.maxPutBytes
  }

  function Granted(c: Claims, r: Request): AuthorizedAccess {
    AuthorizedAccess(r.tenant, r.cid, r.operation, r.offset, r.length,
                     r.localNode, r.requestId, c.expiresAt)
  }

  /** `m3_chunk_capability_authorize_v1`: the checks in the source's order. */
  function Decide(c: Claims, r: Request, p: Policy): CapabilityResult {
    if !ClaimsValid(c, p) then InvalidClaims
    else if !RequestValid(r) then InvalidArg
    else if r.now < c.issuedAt then NotYetValid
    else if r.now >= c.expiresAt then Expired
    else if r.tenant != c.tenant then TenantMismatch
    else if r.localNode != c.audience then AudienceMismatch
    else if r.requestId != c.requestId then RequestMismatch
    else if r.operation != c.operation then OperationMismatch
    else if !CidEqual(r.cid, c.cid) then CidMismatch
    else if !RangeContains(c.offset, c.length, r.offset, r.length) then RangeDenied
    else if r.length > OperationLimit(r.operation, p) || r.length > SIZE_MAX then ResourceExhausted
    else if r.operation == PUT && (r.offset != 0 || r.length != r.cid.size) then RangeDenied
    else CapabilityOk
  }

  // ---- what a capability promises, without reference to the checks ----

  /** A claim that names its parties and one object, for reading (1) part of it or
      putting (2) all of it, for no longer than the policy allows. */
  ghost predicate WellFormedClaim(c: Claims, p: Policy) {
    && p.maxTtl > 0 && p.maxReadBytes > 0 && p.maxPutBytes > 0
    && !AllZero(c.tenant) && !AllZero(c.audience) && !AllZero(c.requestId) && Identifies(c.cid)
    && c.issuedAt < c.expiresAt <= c.issuedAt + p.maxTtl
    && c.offset + c.length <= c.cid.size
    && (c.operation == 1 || (c.operation == 2 && c.offset == 0 && c.length == c.cid.size))
  }

  ghost predicate WellFormedRequest(r: Request) {
    && !AllZero(r.tenant) && !AllZero(r.localNode) && !AllZero(r.requestId) && Identifies(r.cid)
    && (r.operation == 1 || r.operation == 2)
    && r.offset + r.length <= r.cid.size
  }

  /** The claim is for this tenant, node, request, operation and object. */
  ghost predicate Matches(c: Claims, r: Request) {
    && r.tenant == c.tenant && r.localNode == c.audience && r.requestId == c.requestId
    && r.operation == c.operation && r.cid == c.cid
  }

  ghost predicate Inside(c: Claims, r: Request) {
    c.offset <= r.offset && r.offset + r.length <= c.offset + c.length
  }

  ghost predicate WithinLimit(r: Request, p: Policy) {
    (r.operation == 1 ==> r.length <= p.maxReadBytes) && (r.operation == 2 ==> r.length <= p.maxPutBytes)
  }

  /** A live claim for exactly this request, whose range holds the requested one,
      within the limit for its operation; a PUT names the whole object. */
  ghost predicate Entitled(c: Claims, r: Request, p: Policy) {
    && WellFormedClaim(c, p) && WellFormedRequest(r)
    && c.issuedAt <= r.now < c.expiresAt
    && Matches(c, r) && Inside(c, r) && WithinLimit(r, p)
    && (r.operation == 2 ==> r.offset == 0 && r.length == r.cid.size)
  }

  lemma WellFormedIff(c: Claims, r: Request, p: Policy)
    ensures WellFormedClaim(c, p) <==> ClaimsValid(c, p)
    ensures WellFormedRequest(r) <==> RequestValid(r)
  {
  }

  /** The guarded 64-bit comparison is containment over the integers: no sum
      in it wraps, for any four words whose outer range fits an object. */
  lemma RangeContainsIsContainment(oo: u64, ol: u64, io: u64, il: u64, size: u64)
    requires RangeValid(oo, ol, size)
    ensures RangeContains(oo, ol, io, il) <==> oo <= io && io + il <= oo + ol
  {
  }

  /** Authorization succeeds exactly for the entitled requests. */
  lemma AuthorizeIffEntitled(c: Claims, r: Request, p: Policy)
    ensures Decide(c, r, p) == CapabilityOk <==> Entitled(c, r, p)
  {
    WellFormedIff(c, r, p);
    if ClaimsValid(c, p) {
      RangeContainsIsContainment(c.offset, c.length, r.offset, r.length, c.cid.size);
    }
  }

  /** A well-formed claim that is live for a well-formed request. */
  ghost predicate Live(c: Claims, r: Request, p: Policy) {
    WellFormedClaim(c, p) && WellFormedRequest(r) && c.issuedAt <= r.now < c.expiresAt
  }

  /** Exactly when each of the answers that a caller can tell apart is given: what
      is malformed comes first, then the time, then who and what, then the range,
      and the limit last. */
  lemma AuthorizeAnswers(c: Claims, r: Request, p: Policy)
    ensures Decide(c, r, p) == InvalidClaims <==> !WellFormedClaim(c, p)
    ensures Decide(c, r, p) == InvalidArg <==> WellFormedClaim(c, p) && !WellFormedRequest(r)
    ensures Decide(c, r, p) == NotYetValid <==> WellFormedClaim(c, p) && WellFormedRequest(r) && r.now < c.issuedAt
    ensures Decide(c, r, p) == Expired <==> WellFormedClaim(c, p) && WellFormedRequest(r) && r.now >= c.expiresAt
    ensures Decide(c, r, p) == TenantMismatch <==> Live(c, r, p) && r.tenant != c.tenant
    ensures Decide(c, r, p) == AudienceMismatch <==> Live(c, r, p) && r.tenant == c.tenant && r.localNode != c.audience
    ensures Decide(c, r, p) == RequestMismatch <==>
      Live(c, r, p) && r.tenant == c.tenant && r.localNode == c.audience && r.requestId != c.requestId
    ensures Decide(c, r, p) == OperationMismatch <==>
      && Live(c, r, p) && r.tenant == c.tenant && r.localNode == c.audience && r.requestId == c.requestId
      && r.operation != c.operation
    ensures Decide(c, r, p) == CidMismatch <==> Live(c, r, p) && Matches(c, r.(cid := c.cid)) && r.cid != c.cid
    ensures Decide(c, r, p) == RangeDenied <==>
      && Live(c, r, p) && Matches(c, r)
      && (!Inside(c, r) || (WithinLimit(r, p) && r.operation == 2 && r.length < r.cid.size))
    ensures Decide(c, r, p) == ResourceExhausted <==>
      Live(c, r, p) && Matches(c, r) && Inside(c, r) && !WithinLimit(r, p)
  {
    WellFormedIff(c, r, p);
    if ClaimsValid(c, p) {
      RangeContainsIsContainment(c.offset, c.length, r.offset, r.length, c.cid.size);
    }
  }

  /** The granted access is that of the claim, narrowed to the requested range; it
      lies inside the claimed range and the object, and is valid for both downstream
      modules. */
  lemma GrantedIsValid(c: Claims, r: Request, p: Policy)
    requires Decide(c, r, p) == CapabilityOk
    ensures AccessValid(Granted(c, r))
    ensures Granted(c, r) ==
      AuthorizedAccess(c.tenant, c.cid, c.operation, r.offset, r.length, c.audience, c.requestId, c.expiresAt)
    ensures var g := Granted(c, r);
      && c.offset <= g.offset && g.offset + g.length <= c.offset + c.length <= g.cid.size
      && r.now < g.expiresAt && g.expiresAt - r.now <= p.maxTtl
  {
    AuthorizeIffEntitled(c, r, p);
  }
}
