/** The read service: authorize, bind the request id, read, record. */
module ReadService {
  import opened Bytes
  import opened Access
  import opened AccessDigest
  import opened Capability
  import opened Journal
  import opened ChunkStore
  import opened AccessStore

  datatype ServiceResult =
    | ServiceOk
    | ServiceInvalidArg
    | ServiceMutationDisabled
    | ServiceAuthDenied
    | ServiceNotYetValid
    | ServiceExpired
    | ServiceConflict
    | ServiceInProgress
    | ServiceResourceExhausted
    | ServiceNotFound
    | ServiceCorrupt
    | ServiceDigestMismatch
    | ServiceIo
    | ServiceInternal

  /** The enumeration value that the journal stores. */
  function CodeOf(r: ServiceResult): i32 {
    match r
    case ServiceOk => 0
    case ServiceInvalidArg => -1
    case ServiceMutationDisabled => -2
    case ServiceAuthDenied => -3
    case ServiceNotYetValid => -4
    case ServiceExpired => -5
    case ServiceConflict => -6
    case ServiceInProgress => -7
    case ServiceResourceExhausted => -8
    case ServiceNotFound => -9
    case ServiceCorrupt => -10
    case ServiceDigestMismatch => -11
    case ServiceIo => -12
    case ServiceInternal => -13
  }

  const IN_CODE_ORDER: seq<ServiceResult> := [
    ServiceOk, ServiceInvalidArg, ServiceMutationDisabled, ServiceAuthDenied, ServiceNotYetValid, ServiceExpired,
    ServiceConflict, ServiceInProgress, ServiceResourceExhausted, ServiceNotFound, ServiceCorrupt,
    ServiceDigestMismatch, ServiceIo, ServiceInternal]

  /** `stored_result_is_valid` and the cast back: `None` is an invalid code. */
  function ResultOf(code: i32): Option<ServiceResult> {
    if -13 <= code <= 0 then Some(IN_CODE_ORDER[-code]) else None
  }

  lemma CodeRoundTrip(r: ServiceResult)
    ensures ResultOf(CodeOf(r)) == Some(r)
  {
  }

  function MapCapabilityResult(r: CapabilityResult): ServiceResult {
    match r
    case CapabilityOk => ServiceOk
    case NotYetValid => ServiceNotYetValid
    case Expired => ServiceExpired
    case ResourceExhausted => ServiceResourceExhausted
    case InvalidArg => ServiceInvalidArg
    case _ => ServiceAuthDenied
  }

  function MapAccessResult(r: AccessResult): ServiceResult {
    match r
    case AccessOk => ServiceOk
    case AccessExpired => ServiceExpired
    case AccessResourceExhausted => ServiceResourceExhausted
    case AccessNotFound => ServiceNotFound
    case AccessCorrupt => ServiceCorrupt
    case AccessDigestMismatch => ServiceDigestMismatch
    case AccessInvalidArg => ServiceInvalidArg
    case AccessInvalidAccess => ServiceAuthDenied
    case AccessIo => ServiceIo
    case AccessCsprngFailed => ServiceIo
  }

  function MapBeginFailure(r: ReplayResult): ServiceResult
    requires r != ReplayOk
  {
    match r
    case ReplayConflict => ServiceConflict
    case ReplayExpired => ServiceExpired
    case ReplayResourceExhausted => ServiceResourceExhausted
    case _ => ServiceInternal
  }

  datatype Config = Config(policy: Policy, localNode: Bytes32, maxBytes: u64, journalTtl: u64)

  /** One call: its arguments, the files as they are then, and what the digest
      and the platform do. */
  datatype Call = Call(
    claims: Claims, request: Request, bufferSize: nat, files: Files, env: ReadEnv,
    beginHash: HashCall, completeHash: HashCall)

  datatype ExecuteOut = ExecuteOut(result: ServiceResult, bytes: seq<u8>, replayed: bool, slots: Slots)

  function Bound(cfg: Config, r: Request): Request {
    Request(r.tenant, r.cid, r.operation, r.offset, r.length, cfg.localNode, r.requestId, r.now)
  }

  function AccessOf(cfg: Config, c: Call): AuthorizedAccess { Granted(c.claims, Bound(cfg, c.request)) }

  function Authorized(cfg: Config, c: Call): CapabilityResult { Decide(c.claims, Bound(cfg, c.request), cfg.policy) }

  function StoreAnswer(h: Hash, cfg: Config, c: Call): AccessReadOut {
    AccessRead(h, c.files, cfg.maxBytes, AccessOf(cfg, c), c.request.now, c.bufferSize, c.env)
  }

  function Refuse(r: ServiceResult, replayed: bool, s: Slots): ExecuteOut { ExecuteOut(r, [], replayed, s) }

  /** `m3_chunk_read_service_execute_v1`. */
  function Execute(h: Hash, cfg: Config, s: Slots, c: Call): ExecuteOut {
    if c.request.operation == PUT then Refuse(ServiceMutationDisabled, false, s)
    else if c.request.operation != READ then Refuse(ServiceInvalidArg, false, s)
    else
      var authorized := MapCapabilityResult(Authorized(cfg, c));
      if authorized != ServiceOk then Refuse(authorized, false, s)
      else AfterAuthorize(h, cfg, s, c)
  }

  function AfterAuthorize(h: Hash, cfg: Config, s: Slots, c: Call): ExecuteOut {
    var b := Begin(s, cfg.journalTtl, h, c.beginHash, AccessOf(cfg, c), c.request.now);
    if b.result != ReplayOk then Refuse(MapBeginFailure(b.result), false, b.slots)
    else
      match b.out.kind
      case BeginInProgress => Refuse(ServiceInProgress, true, b.slots)
      case BeginCompleted =>
        var stored := ResultOf(b.out.code);
        if stored.None? then Refuse(ServiceInternal, true, b.slots)
        else if stored.value != ServiceOk then Refuse(stored.value, true, b.slots)
        else
          var r := StoreAnswer(h, cfg, c);
          ExecuteOut(MapAccessResult(r.result), r.bytes, true, b.slots)
      case NoKind => Refuse(ServiceInternal, false, b.slots)
      case BeginNew =>
        var r := StoreAnswer(h, cfg, c);
        var result := MapAccessResult(r.result);
        var done := Complete(b.slots, h, c.completeHash, AccessOf(cfg, c), CodeOf(result));
        if done.result != ReplayOk then Refuse(ServiceInternal, false, done.slots)
        else ExecuteOut(result, r.bytes, false, done.slots)
  }

  // ---- the run invariant ----

  /** No request is left in progress, and every recorded code is one that a
      read can end with. */
  ghost predicate ServiceInv(s: Slots) {
    && WellFormed(s)
    && forall i :: 0 <= i < |s| && !s[i].state.Free? ==>
         s[i].state.Completed? && GoodCode(s[i].code)
  }

  lemma FreshJournal(capacity: nat)
    ensures ServiceInv(seq(capacity, _ => ZERO_ENTRY))
  {
  }

  /** The rest of the access's life is within the journal's TTL. */
  predicate FitsJournal(cfg: Config, c: Call) {
    AccessOf(cfg, c).expiresAt - c.request.now <= cfg.journalTtl
  }

  lemma PolicyFitsJournal(cfg: Config, c: Call)
    requires Authorized(cfg, c) == CapabilityOk && cfg.policy.maxTtl <= cfg.journalTtl
    ensures FitsJournal(cfg, c)
  {
    GrantedIsValid(c.claims, Bound(cfg, c.request), cfg.policy);
  }

  /** Authorization and the journal agree: at the same time, with a policy TTL
      within the journal's, begin can refuse a granted access only because the
      id is taken by another one or the journal is full. */
  lemma GrantedPassesBegin(h: Hash, cfg: Config, s: Slots, c: Call)
    requires Authorized(cfg, c) == CapabilityOk && FitsJournal(cfg, c) && c.beginHash.HashWorks?
    ensures var a := AccessOf(cfg, c);
      && AccessValid(a) && c.request.now < a.expiresAt
      && Begin(s, cfg.journalTtl, h, HashWorks, a, c.request.now) == BeginSwept(Sweep(s, c.request.now), h, a)
      && Begin(s, cfg.journalTtl, h, HashWorks, a, c.request.now).result
           in {ReplayOk, ReplayConflict, ReplayResourceExhausted}
  {
    GrantedIsValid(c.claims, Bound(cfg, c.request), cfg.policy);
  }

  lemma SweepKeepsInv(s: Slots, now: u64)
    requires ServiceInv(s)
    ensures ServiceInv(Sweep(s, now))
  {
    SweepKeeps(s, now);
  }

  /** The slot that begin opened, and what completing it leaves. */
  lemma CompleteAfterNew(h: Hash, t: Slots, a: AuthorizedAccess, code: i32)
    requires WellFormed(t) && AccessValid(a) && BeginSwept(t, h, a).out.kind == BeginNew
    ensures var f := FirstFree(t);
      && f < |t|
      && Complete(BeginSwept(t, h, a).slots, h, HashWorks, a, code)
           == CompleteStep(ReplayOk, t[f := Closed(Opened(t[f], h, a), code)])
      && WellFormed(t[f := Closed(Opened(t[f], h, a), code)])
  {
    var f := FirstFree(t);
    var s := t[f := Opened(t[f], h, a)];
    assert forall i :: 0 <= i < |t| ==> !Taken(t[i], a.requestId);
    assert UniqueIds(s);
    FindIs(s, a.requestId, f);
    assert s[f := Closed(s[f], code)] == t[f := Closed(Opened(t[f], h, a), code)];
  }

  ghost predicate Admitted(cfg: Config, c: Call) {
    && c.request.operation == READ && Authorized(cfg, c) == CapabilityOk && FitsJournal(cfg, c)
    && c.beginHash.HashWorks? && c.completeHash.HashWorks?
  }

  /** The entry that a first execution leaves behind. */
  function RecordFor(h: Hash, cfg: Config, c: Call): Entry {
    var a := AccessOf(cfg, c);
    Entry(a.requestId, AccessHash(h, a), a.expiresAt, Completed, CodeOf(MapAccessResult(StoreAnswer(h, cfg, c).result)))
  }

  /** A call with an unknown id reads and records in one go, or finds no slot. */
  lemma ExecuteNew(h: Hash, cfg: Config, s: Slots, c: Call)
    requires WellFormed(s) && Admitted(cfg, c)
    requires Find(Sweep(s, c.request.now), c.request.requestId) == |s|
    ensures var t := Sweep(s, c.request.now);
      var f := FirstFree(t);
      if f == |t| then Execute(h, cfg, s, c) == Refuse(ServiceResourceExhausted, false, t)
      else
        var r := StoreAnswer(h, cfg, c);
        && Execute(h, cfg, s, c) == ExecuteOut(MapAccessResult(r.result), r.bytes, false, t[f := RecordFor(h, cfg, c)])
        && WellFormed(t[f := RecordFor(h, cfg, c)])
  {
    var a, t := AccessOf(cfg, c), Sweep(s, c.request.now);
    GrantedPassesBegin(h, cfg, s, c);
    SweepKeeps(s, c.request.now);
    if FirstFree(t) < |t| {
      CompleteAfterNew(h, t, a, CodeOf(MapAccessResult(StoreAnswer(h, cfg, c).result)));
    }
  }

  /** What a recorded code answers. */
  function Replay(h: Hash, cfg: Config, c: Call, code: i32, t: Slots): ExecuteOut {
    var stored := ResultOf(code);
    if stored.None? then Refuse(ServiceInternal, true, t)
    else if stored.value != ServiceOk then Refuse(stored.value, true, t)
    else
      var r := StoreAnswer(h, cfg, c);
      ExecuteOut(MapAccessResult(r.result), r.bytes, true, t)
  }

  /** A call with a known live id never changes the journal beyond the sweep. */
  lemma ExecuteKnown(h: Hash, cfg: Config, s: Slots, c: Call)
    requires Admitted(cfg, c)
    requires Find(Sweep(s, c.request.now), c.request.requestId) < |s|
    ensures var t := Sweep(s, c.request.now);
      var e := t[Find(t, c.request.requestId)];
      Execute(h, cfg, s, c) ==
        if e.digest != AccessHash(h, AccessOf(cfg, c)) then Refuse(ServiceConflict, false, t)
        else if e.state.Completed? then Replay(h, cfg, c, e.code, t)
        else Refuse(ServiceInProgress, true, t)
  {
    GrantedPassesBegin(h, cfg, s, c);
  }

  predicate GoodCode(code: i32) {
    ResultOf(code).Some? && ResultOf(code).value !in {ServiceInProgress, ServiceInternal}
  }

  lemma AccessCodesAreGood(r: AccessResult)
    ensures GoodCode(CodeOf(MapAccessResult(r)))
    ensures MapAccessResult(r) !in {ServiceInProgress, ServiceInternal}
  {
  }

  lemma RecordingKeepsInv(t: Slots, f: nat, e: Entry)
    requires ServiceInv(t) && f < |t| && WellFormed(t[f := e]) && e.state.Completed? && GoodCode(e.code)
    ensures ServiceInv(t[f := e])
  {
  }

  lemma NewKeepsInv(h: Hash, cfg: Config, s: Slots, c: Call)
    requires ServiceInv(s) && Admitted(cfg, c)
    requires Find(Sweep(s, c.request.now), c.request.requestId) == |s|
    ensures ServiceInv(Execute(h, cfg, s, c).slots) && |Execute(h, cfg, s, c).slots| == |s|
    ensures Execute(h, cfg, s, c).result !in {ServiceInProgress, ServiceInternal}
  {
    var t := Sweep(s, c.request.now);
    SweepKeepsInv(s, c.request.now);
    ExecuteNew(h, cfg, s, c);
    AccessCodesAreGood(StoreAnswer(h, cfg, c).result);
    if FirstFree(t) < |t| {
      RecordingKeepsInv(t, FirstFree(t), RecordFor(h, cfg, c));
    }
  }

  lemma KnownKeepsInv(h: Hash, cfg: Config, s: Slots, c: Call)
    requires ServiceInv(s) && Admitted(cfg, c)
    requires Find(Sweep(s, c.request.now), c.request.requestId) < |s|
    ensures ServiceInv(Execute(h, cfg, s, c).slots) && |Execute(h, cfg, s, c).slots| == |s|
    ensures Execute(h, cfg, s, c).result !in {ServiceInProgress, ServiceInternal}
  {
    SweepKeepsInv(s, c.request.now);
    ExecuteKnown(h, cfg, s, c);
    AccessCodesAreGood(StoreAnswer(h, cfg, c).result);
  }

  /** Every call keeps the invariant and never answers IN_PROGRESS or INTERNAL. */
  lemma ExecuteKeepsInv(h: Hash, cfg: Config, s: Slots, c: Call)
    requires ServiceInv(s) && cfg.policy.maxTtl <= cfg.journalTtl && c.beginHash.HashWorks? && c.completeHash.HashWorks?
    ensures ServiceInv(Execute(h, cfg, s, c).slots) && |Execute(h, cfg, s, c).slots| == |s|
    ensures Execute(h, cfg, s, c).result !in {ServiceInProgress, ServiceInternal}
  {
    if c.request.operation == READ && Authorized(cfg, c) == CapabilityOk {
      PolicyFitsJournal(cfg, c);
      if Find(Sweep(s, c.request.now), c.request.requestId) == |s| {
        NewKeepsInv(h, cfg, s, c);
      } else {
        KnownKeepsInv(h, cfg, s, c);
      }
    }
  }

  /** Without the relation between the TTLs: an authorized READ is answered
      INTERNAL exactly when the access outlives the journal's TTL. */
  lemma InternalIff(h: Hash, cfg: Config, s: Slots, c: Call)
    requires ServiceInv(s) && c.beginHash.HashWorks? && c.completeHash.HashWorks?
    requires c.request.operation == READ && Authorized(cfg, c) == CapabilityOk
    ensures Execute(h, cfg, s, c).result == ServiceInternal <==> !FitsJournal(cfg, c)
  {
    if FitsJournal(cfg, c) {
      if Find(Sweep(s, c.request.now), c.request.requestId) == |s| {
        NewKeepsInv(h, cfg, s, c);
      } else {
        KnownKeepsInv(h, cfg, s, c);
      }
    } else {
      GrantedIsValid(c.claims, Bound(cfg, c.request), cfg.policy);
    }
  }

  /** A read of nothing, claimed for as long as `lifetime`. */
  function LongRead(cfg: Config, lifetime: u64, files: Files, env: ReadEnv): Call {
    var cid := Cid(SHA256_ALGORITHM, 0, ONES32);
    Call(Claims(ONES32, cid, READ, 0, 0, cfg.localNode, ONES16, 0, lifetime),
         Request(ONES32, cid, READ, 0, 0, cfg.localNode, ONES16, 0), 0, files, env, HashWorks, HashWorks)
  }

  lemma LongReadIsAuthorized(cfg: Config, lifetime: u64, files: Files, env: ReadEnv)
    requires Configured(cfg) && 0 < lifetime <= cfg.policy.maxTtl
    ensures Authorized(cfg, LongRead(cfg, lifetime, files, env)) == CapabilityOk
    ensures FitsJournal(cfg, LongRead(cfg, lifetime, files, env)) <==> lifetime <= cfg.journalTtl
  {
    assert ONES32[0] == 1 && ONES16[0] == 1;
  }

  /** What `m3_chunk_read_service_init_v1` demands of its configuration. */
  predicate Configured(cfg: Config) {
    && cfg.policy.maxTtl != 0 && cfg.policy.maxReadBytes != 0 && cfg.policy.maxPutBytes != 0
    && Nonzero(cfg.localNode)
  }

  ghost predicate AnswersInternal(h: Hash, cfg: Config, s: Slots, c: Call) {
    && c.beginHash.HashWorks? && c.completeHash.HashWorks?
    && Execute(h, cfg, s, c).result == ServiceInternal
  }

  /** A configured service can answer INTERNAL, with digests computed, exactly if
      its policy grants longer lives than its journal keeps. */
  lemma InternalPossibleIff(h: Hash, cfg: Config, s: Slots, files: Files, env: ReadEnv)
    requires ServiceInv(s) && Configured(cfg)
    ensures (exists c: Call :: AnswersInternal(h, cfg, s, c)) <==> cfg.policy.maxTtl > cfg.journalTtl
  {
    if cfg.policy.maxTtl > cfg.journalTtl {
      var c := LongRead(cfg, cfg.policy.maxTtl, files, env);
      LongReadIsAuthorized(cfg, cfg.policy.maxTtl, files, env);
      InternalIff(h, cfg, s, c);
      assert AnswersInternal(h, cfg, s, c);
    } else {
      forall c: Call | c.beginHash.HashWorks? && c.completeHash.HashWorks?
        ensures !AnswersInternal(h, cfg, s, c)
      {
        ExecuteKeepsInv(h, cfg, s, c);
      }
    }
  }

  function Run(h: Hash, cfg: Config, s: Slots, calls: seq<Call>): Slots {
    if calls == [] then s else Execute(h, cfg, Run(h, cfg, s, calls[..|calls| - 1]), calls[|calls| - 1]).slots
  }

  /** Digests are computed. */
  ghost predicate HashingWorks(calls: seq<Call>) {
    forall i :: 0 <= i < |calls| ==> calls[i].beginHash.HashWorks? && calls[i].completeHash.HashWorks?
  }

  lemma {:induction false} RunKeepsInv(h: Hash, cfg: Config, s: Slots, calls: seq<Call>)
    requires ServiceInv(s) && cfg.policy.maxTtl <= cfg.journalTtl && HashingWorks(calls)
    ensures ServiceInv(Run(h, cfg, s, calls))
  {
    if calls == [] {
    } else {
      var n := |calls| - 1;
      RunKeepsInv(h, cfg, s, calls[..n]);
      ExecuteKeepsInv(h, cfg, Run(h, cfg, s, calls[..n]), calls[n]);
    }
  }

  /** On every run from a journal with nothing in progress and readable codes, such
      as a fresh one, whatever happens to the files: no call answers IN_PROGRESS or
      INTERNAL and none leaves an entry in progress. */
  lemma NeverInProgressNeverInternal(h: Hash, cfg: Config, s: Slots, calls: seq<Call>, j: nat)
    requires ServiceInv(s) && cfg.policy.maxTtl <= cfg.journalTtl && HashingWorks(calls) && j < |calls|
    ensures var t := Run(h, cfg, s, calls[..j]);
      && ServiceInv(t)
      && Execute(h, cfg, t, calls[j]).result !in {ServiceInProgress, ServiceInternal}
      && ServiceInv(Execute(h, cfg, t, calls[j]).slots)
  {
    RunKeepsInv(h, cfg, s, calls[..j]);
    ExecuteKeepsInv(h, cfg, Run(h, cfg, s, calls[..j]), calls[j]);
  }
}
