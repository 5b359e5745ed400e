/** Exactly when imports, transfers and fetches succeed, and what they answer
    otherwise. */
module FetchAnswers {
  import opened Bytes
  import opened Access
  import opened ChunkStore
  import opened ChunkRuns
  import opened FetchService

  // ---- importing ----

  /** A plain seed file of the CID's size, within the limit. */
  predicate SeedFits(cfg: Config, cid: Cid, env: SeedEnv) {
    env.size == Some(cid.size) && env.plain && cid.size <= cfg.maxFetchBytes
  }

  /** Its bytes are read in full. */
  predicate SeedRead(cid: Cid, env: SeedEnv) { env.bytes.Some? && |env.bytes.value| == cid.size }

  ghost predicate ImportSucceeds(h: Hash, cfg: Config, files: Files, cid: Cid, env: SeedEnv) {
    && SeedFits(cfg, cid, env) && SeedRead(cid, env)
    && PutSucceeds(h, cfg.maxChunkBytes, files, cid, env.bytes.value, env.put)
  }

  /** An import answers OK exactly if the seed is found, plain, of the CID's size and
      within the limit, is read in full, and its bytes can be put. */
  lemma ImportOkIff(h: Hash, cfg: Config, files: Files, cid: Cid, env: SeedEnv)
    requires SeedChecks(files, cid, env)
    ensures Import(h, cfg, files, cid, env).result == FetchOk <==> ImportSucceeds(h, cfg, files, cid, env)
  {
    if env.bytes.Some? {
      PutOkIff(h, cfg.maxChunkBytes, files, cid, env.bytes.value, env.put);
    }
  }

  /** The other answers: no file, the wrong file, no bytes, or what the store said.
      Nothing but the put touches the store. */
  lemma ImportAnswers(h: Hash, cfg: Config, files: Files, cid: Cid, env: SeedEnv)
    ensures var o := Import(h, cfg, files, cid, env);
      if env.size.None? then o == ImportOut(FetchIo, false, files)
      else if !SeedFits(cfg, cid, env) then o == ImportOut(FetchIntegrity, false, files)
      else if env.bytes.None? then o == ImportOut(FetchIo, false, files)
      else if !SeedRead(cid, env) then o == ImportOut(FetchIntegrity, false, files)
      else
        var p := Put(h, files, cfg.maxChunkBytes, cid, env.bytes.value, env.put);
        && o.created == p.created && o.files == p.fs
        && (o.result == FetchOk <==> p.result == ChunkOk)
        && (o.result == FetchIntegrity <==> p.result == ChunkCorrupt || p.result == ChunkDigestMismatch)
        && (o.result == FetchIo <==> p.result == ChunkIo || p.result == ChunkNotFound)
        && (o.result == FetchResourceExhausted <==> p.result == ChunkResourceExhausted)
        && (o.result == FetchStoreFailed <==> p.result == ChunkInvalidArg || p.result == ChunkCsprngFailed)
  {
  }

  // ---- transfers ----

  /** The list without its element `k`. */
  function Without(pending: seq<Pending>, k: nat): seq<Pending>
    requires k < |pending|
  {
    pending[..k] + pending[k + 1..]
  }

  /** A transfer that ends adds exactly one callback, for its own request, which
      leaves the list: NETWORK after a failure, with the seed removed, and otherwise
      what the import answered. */
  lemma TransferAnswers(h: Hash, cfg: Config, w: World, k: nat, success: bool, seed: SeedEnv)
    requires Inv(cfg, w) && k < |w.pending|
    ensures var p := w.pending[k];
      var i := Import(h, cfg, w.files, p.cid, seed);
      var o := TransferDone(h, cfg, w, p.token, success, seed);
      && o.pending == Without(w.pending, k) && o.count == |o.pending|
      && o.granted == w.granted && o.issued == w.issued
      && (success ==>
            && o.log == w.log + [Callback(p.token, i.result, p.cid, i.created)]
            && o.files == i.files && o.discarded == w.discarded)
      && (!success ==>
            && o.log == w.log + [Callback(p.token, FetchNetwork, p.cid, false)]
            && o.files == w.files && o.discarded == w.discarded + [p.cid])
  {
    assert IndexOf(w.pending, w.pending[k].token) == k;
  }

  /** End to end: a transfer that brings a good seed calls its fetch back with OK,
      and the chunk is in the store. */
  lemma GoodTransferCallsBackOk(h: Hash, cfg: Config, w: World, k: nat, seed: SeedEnv)
    requires Inv(cfg, w) && k < |w.pending| && SeedChecks(w.files, w.pending[k].cid, seed)
    requires ImportSucceeds(h, cfg, w.files, w.pending[k].cid, seed)
    ensures var p := w.pending[k];
      var o := TransferDone(h, cfg, w, p.token, true, seed);
      && o.log == w.log + [Callback(p.token, FetchOk, p.cid, Import(h, cfg, w.files, p.cid, seed).created)]
      && HasChunk(h, o.files, p.cid)
  {
    TransferAnswers(h, cfg, w, k, true, seed);
    ImportOkIff(h, cfg, w.files, w.pending[k].cid, seed);
    ImportOkHasChunk(h, cfg, w.files, w.pending[k].cid, seed);
  }

  // ---- fetches ----

  ghost predicate IsPending(w: World, cid: Cid) {
    exists k :: 0 <= k < |w.pending| && w.pending[k].cid == cid
  }

  lemma PendingIff(w: World, cid: Cid)
    ensures IsPending(w, cid) <==> FindPending(w.pending, cid) < |w.pending|
  {
  }

  /** The object can be fetched: identified, within the limit and not on its way. */
  ghost predicate Fetchable(cfg: Config, w: World, cid: Cid) {
    Identifies(cid) && cid.size <= cfg.maxFetchBytes && !IsPending(w, cid)
  }

  /** A fetch answers OK exactly if the object can be fetched and either its seed is
      there, can be imported and is announced under its own key, or there is room
      and memory for a request and the transfer is not refused. */
  lemma FetchOkIff(h: Hash, cfg: Config, w: World, token: nat, cid: Cid, env: FetchEnv)
    requires SeedChecks(w.files, cid, env.seed)
    ensures Fetch(h, cfg, w, token, cid, env).result == FetchOk <==>
      && Fetchable(cfg, w, cid)
      && (if env.seedFound then ImportSucceeds(h, cfg, w.files, cid, env.seed) && env.announce.Announced?
          else w.count < cfg.maxPending && env.memory && !env.transfer.Refused?)
  {
    PendingIff(w, cid);
    ImportOkIff(h, cfg, w.files, cid, env.seed);
  }

  /** A transfer that is over before the call returns: called back at once, and the
      list is as before. */
  lemma FinishedAtOnceAnswers(h: Hash, cfg: Config, w: World, token: nat, cid: Cid, env: FetchEnv)
    requires Fetchable(cfg, w, cid) && !env.seedFound && env.transfer.FinishedAtOnce?
    requires w.count < cfg.maxPending && env.memory
    ensures var o := Fetch(h, cfg, w, token, cid, env);
      var i := Import(h, cfg, w.files, cid, env.transfer.seed);
      && o.result == FetchOk && o.world.pending == w.pending && o.world.count == w.count
      && o.world.log == w.log + [if env.transfer.success then Callback(token, i.result, cid, i.created)
                                 else Callback(token, FetchNetwork, cid, false)]
      && o.world.files == (if env.transfer.success then i.files else w.files)
  {
    PendingIff(w, cid);
    var linked := Linked(w, token, cid);
    assert IndexOf(linked.pending, token) == 0;
    assert linked.pending[..0] + linked.pending[1..] == w.pending;
  }

  /** The refusals, and that they call nothing back. */
  lemma FetchRefusals(h: Hash, cfg: Config, w: World, token: nat, cid: Cid, env: FetchEnv)
    ensures var o := Fetch(h, cfg, w, token, cid, env);
      var i := Import(h, cfg, w.files, cid, env.seed);
      && o.world.issued == w.issued + {token}
      && (!Fetchable(cfg, w, cid) ==>
            && o.world == w.(issued := w.issued + {token})
            && o.result == if Identifies(cid) && cid.size <= cfg.maxFetchBytes then FetchBusy else FetchInvalidArg)
      && (Fetchable(cfg, w, cid) && env.seedFound ==>
            && o.world.pending == w.pending && o.world.files == i.files
            && (i.result != FetchOk ==> o.result == i.result)
            && (i.result == FetchOk && env.announce.AnnounceFails? ==> o.result == FetchNetwork)
            && (i.result == FetchOk && env.announce.AnnouncedOtherKey? ==> o.result == FetchIntegrity)
            && o.world.log ==
                 (if o.result == FetchOk then w.log + [Callback(token, FetchOk, cid, i.created)] else w.log))
      && (Fetchable(cfg, w, cid) && !env.seedFound ==>
            && (w.count >= cfg.maxPending || !env.memory ==> o.result == FetchResourceExhausted)
            && (w.count < cfg.maxPending && env.memory && env.transfer.Refused? ==> o.result == FetchNetwork)
            && (o.result != FetchOk ==> o.world == w.(issued := w.issued + {token}))
            && (o.result == FetchOk && env.transfer.Accepted? ==>
                  o.world.pending == [Pending(token, cid)] + w.pending && o.world.log == w.log))
  {
    PendingIff(w, cid);
    FetchIssues(h, cfg, w, token, cid, env);
    if env.transfer.FinishedAtOnce? {
      var linked := Linked(w, token, cid);
      TransferDoneHistory(h, cfg, linked, token, env.transfer.success, env.transfer.seed);
    }
  }

  /** The steps of a run are the calls. */
  lemma StepsAreCalls(h: Hash, cfg: Config, w: World, ev: FetchService.Event)
    ensures var v := FetchService.Step(h, cfg, w, ev);
      match ev
      case EvFetch(token, cid, env) => v == Fetch(h, cfg, w, token, cid, env).world
      case EvTransferDone(token, success, seed) => v == TransferDone(h, cfg, w, token, success, seed)
      case EvOther(e) => v == w.(files := ChunkRuns.Step(h, cfg.maxChunkBytes, w.files, e))
  {
  }
}
