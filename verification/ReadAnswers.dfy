/** Exactly when the read service gives each answer, in terms of the claim, the
    request, the journal and the files. */
module ReadAnswers {
  import opened Bytes
  import opened Access
  import opened AccessDigest
  import opened Capability
  import opened Journal
  import opened ChunkStore
  import opened ChunkAnswers
  import opened AccessStore
  import opened ReadService
  import opened ReadRetries

  // ---- before the journal ----

  /** The request as the service judges it: made at its own node. */
  ghost predicate JudgedAs(cfg: Config, r: Request, b: Request) {
    b == r.(localNode := cfg.localNode)
  }

  /** What is refused without a look at the journal: writes (2) and unknown
      operations, and reads (1) that the claim does not entitle to. */
  lemma Refusals(h: Hash, cfg: Config, s: Slots, c: Call, b: Request)
    requires JudgedAs(cfg, c.request, b) && !(b.operation == 1 && Entitled(c.claims, b, cfg.policy))
    ensures var o := Execute(h, cfg, s, c);
      var claim, p := c.claims, cfg.policy;
      && o.bytes == [] && !o.replayed && o.slots == s
      && (o.result == ServiceMutationDisabled <==> b.operation == 2)
      && (o.result == ServiceInvalidArg <==>
            || b.operation < 1 || b.operation > 2
            || (b.operation == 1 && WellFormedClaim(claim, p) && !WellFormedRequest(b)))
      && (o.result == ServiceNotYetValid <==>
            b.operation == 1 && WellFormedClaim(claim, p) && WellFormedRequest(b) && b.now < claim.issuedAt)
      && (o.result == ServiceExpired <==>
            b.operation == 1 && WellFormedClaim(claim, p) && WellFormedRequest(b) && b.now >= claim.expiresAt)
      && (o.result == ServiceResourceExhausted <==>
            b.operation == 1 && Live(claim, b, p) && Matches(claim, b) && Inside(claim, b) && b.length > p.maxReadBytes)
      && (o.result == ServiceAuthDenied <==>
            b.operation == 1
            && (!WellFormedClaim(claim, p) || (Live(claim, b, p) && !(Matches(claim, b) && Inside(claim, b)))))
  {
    assert b == Bound(cfg, c.request);
    AuthorizeIffEntitled(c.claims, b, cfg.policy);
    AuthorizeAnswers(c.claims, b, cfg.policy);
  }

  /** Only a claim for this very node can be served, whatever node the request names. */
  lemma ServedHere(h: Hash, cfg: Config, s: Slots, c: Call)
    requires Execute(h, cfg, s, c).result == ServiceOk
    ensures c.request.operation == 1 && c.claims.audience == cfg.localNode
    ensures Entitled(c.claims, c.request.(localNode := cfg.localNode), cfg.policy)
  {
    AuthorizeIffEntitled(c.claims, Bound(cfg, c.request), cfg.policy);
  }

  // ---- at the journal ----

  /** An entitled read that begin refuses: another access under a live id is
      CONFLICT, a full journal and a missing digest context RESOURCE_EXHAUSTED, an
      access that outlives the journal and a failing digest INTERNAL. */
  lemma JournalRefusals(h: Hash, cfg: Config, s: Slots, c: Call)
    requires WellFormed(s) && c.request.operation == 1 && Authorized(cfg, c) == CapabilityOk
    ensures var o := Execute(h, cfg, s, c);
      var a, now, t := AccessOf(cfg, c), c.request.now, Sweep(s, c.request.now);
      && (a.expiresAt - now > cfg.journalTtl ==> o == ExecuteOut(ServiceInternal, [], false, s))
      && (a.expiresAt - now <= cfg.journalTtl && c.beginHash.HashFails? ==>
            o == ExecuteOut(if c.beginHash.outOfMemory then ServiceResourceExhausted else ServiceInternal,
                            [], false, s))
      && (FitsJournal(cfg, c) && c.beginHash.HashWorks? && Find(t, a.requestId) < |t|
          && t[Find(t, a.requestId)].digest != AccessHash(h, a) ==>
            o == ExecuteOut(ServiceConflict, [], false, t))
      && (FitsJournal(cfg, c) && c.beginHash.HashWorks? && Find(t, a.requestId) == |t| && FirstFree(t) == |t| ==>
            o == ExecuteOut(ServiceResourceExhausted, [], false, t))
  {
    GrantedIsValid(c.claims, Bound(cfg, c.request), cfg.policy);
  }

  /** If the digest fails only when the result is recorded, the call answers INTERNAL
      with no bytes, and the request is left in progress. */
  lemma StrandedRequest(h: Hash, cfg: Config, s: Slots, c: Call)
    requires WellFormed(s) && c.request.operation == 1 && Authorized(cfg, c) == CapabilityOk && FitsJournal(cfg, c)
    requires c.beginHash.HashWorks? && c.completeHash.HashFails?
    requires Find(Sweep(s, c.request.now), c.request.requestId) == |s| && FirstFree(Sweep(s, c.request.now)) < |s|
    ensures var o := Execute(h, cfg, s, c);
      var f := FirstFree(Sweep(s, c.request.now));
      && o.result == ServiceInternal && o.bytes == [] && !o.replayed
      && |o.slots| == |s| && o.slots[f].id == c.request.requestId && o.slots[f].state.InProgress?
  {
    GrantedPassesBegin(h, cfg, s, c);
  }

  // ---- at the store ----

  /** The answer of a first execution, by what is in the store and what fails. */
  lemma FirstAnswers(h: Hash, cfg: Config, s: Slots, c: Call)
    requires ServiceInv(s) && Admitted(cfg, c) && ReadsChunk(cfg, c)
    requires Find(Sweep(s, c.request.now), c.request.requestId) == |s| && FirstFree(Sweep(s, c.request.now)) < |s|
    ensures var o := Execute(h, cfg, s, c);
      var a := AccessOf(cfg, c);
      var fits, within := a.length <= c.bufferSize, a.cid.size <= cfg.maxBytes;
      var found := Found(c.files, a.cid, c.env);
      var sized := found && |c.files[NameOf(a.cid.digest)]| == a.cid.size;
      && (o.result == ServiceOk <==> Servable(h, cfg, c))
      && (o.result == ServiceInvalidArg <==> fits && !within)
      && (o.result == ServiceNotFound <==> fits && within && !found)
      && (o.result == ServiceCorrupt <==> fits && within && found && Spoiled(h, c.files, a.cid, c.env))
      && (o.result == ServiceResourceExhausted <==>
            || !fits
            || (within && sized && c.env.opens
                && (!c.env.hashStarts || (!c.env.readFails && !c.env.updateFails && !c.env.hashEnds))))
      && (o.result == ServiceIo <==>
            && fits && within && sized
            && (!c.env.opens || (c.env.hashStarts && Digested(c.env) && !c.env.closes
                                 && h(c.files[NameOf(a.cid.digest)]) == a.cid.digest)))
      && (o.result == ServiceOk ==>
            o.bytes == c.files[NameOf(a.cid.digest)][a.offset..a.offset + a.length])
      && (o.result != ServiceOk ==> o.bytes == [])
  {
    var a := AccessOf(cfg, c);
    ExecuteNew(h, cfg, s, c);
    GrantedIsValid(c.claims, Bound(cfg, c.request), cfg.policy);
    AccessReadAnswers(h, c.files, cfg.maxBytes, a, c.request.now, c.bufferSize, c.env);
    ReadAnswers(h, c.files, cfg.maxBytes, a.cid, a.offset, a.length, c.env);
  }

  /** The code that a first execution records: 0 for OK, and the number of its
      failure otherwise. */
  lemma RecordedCode(h: Hash, cfg: Config, s: Slots, c: Call)
    requires ServiceInv(s) && Admitted(cfg, c)
    requires Find(Sweep(s, c.request.now), c.request.requestId) == |s| && FirstFree(Sweep(s, c.request.now)) < |s|
    ensures var o, f := Execute(h, cfg, s, c), FirstFree(Sweep(s, c.request.now));
      && |o.slots| == |s| && o.slots[f].state.Completed? && o.slots[f].id == c.request.requestId
      && o.slots[f].digest == AccessHash(h, AccessOf(cfg, c)) && o.slots[f].expires == c.claims.expiresAt
      && (o.slots[f].code == 0 <==> o.result == ServiceOk)
      && (o.slots[f].code == -1 <==> o.result == ServiceInvalidArg)
      && (o.slots[f].code == -8 <==> o.result == ServiceResourceExhausted)
      && (o.slots[f].code == -9 <==> o.result == ServiceNotFound)
      && (o.slots[f].code == -10 <==> o.result == ServiceCorrupt)
      && (o.slots[f].code == -11 <==> o.result == ServiceDigestMismatch)
      && (o.slots[f].code == -12 <==> o.result == ServiceIo)
  {
    ExecuteNew(h, cfg, s, c);
  }
}
