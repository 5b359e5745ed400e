/** The fetch service object. */
module FetchServiceCode {
  import opened Bytes
  import opened Access
  import opened ChunkStore
  import opened FetchService

  class FetchServer {
    const cfg: Config
    var open: bool
    var pending: seq<Pending>
    var pendingCount: nat
    var files: Files
    var callbacks: seq<Callback>
    var discarded: seq<Cid>
    ghost var granted: set<nat>
    ghost var issued: set<nat>

    constructor (cfg: Config, files: Files)
      ensures this.cfg == cfg && open && Value() == Idle(files)
    {
      this.cfg, open := cfg, true;
      this.pending, pendingCount, this.files, callbacks, discarded := [], 0, files, [], [];
      granted, issued := {}, {};
    }

    ghost function Value(): World
      reads this
    {
      World(pending, pendingCount, files, callbacks, discarded, granted, issued)
    }

    /** `find_pending`. */
    method IsPending(cid: Cid) returns (found: bool)
      ensures found <==> FindPending(pending, cid) < |pending|
    {
      for i := 0 to |pending|
        invariant forall j :: 0 <= j < i ==> pending[j].cid != cid
      {
        if pending[i].cid == cid {
          return true;
        }
      }
      return false;
    }

    /** `unlink_pending`. */
    method Unlink(token: nat)
      modifies this`pending, this`pendingCount
      ensures var k := IndexOf(old(pending), token);
        if k == |old(pending)| then unchanged(this)
        else
          && pending == old(pending)[..k] + old(pending)[k + 1..]
          && pendingCount == if old(pendingCount) > 0 then old(pendingCount) - 1 else 0
    {
      for current := 0 to |pending|
        invariant unchanged(this)
        invariant forall j :: 0 <= j < current ==> pending[j].token != token
      {
        if pending[current].token == token {
          assert IndexOf(pending, token) == current;
          pending := pending[..current] + pending[current + 1..];
          if pendingCount > 0 {
            pendingCount := pendingCount - 1;
          }
          return;
        }
      }
    }

    /** `import_seed`. */
    method ImportSeed(h: Hash, cid: Cid, env: SeedEnv) returns (result: FetchResult, created: bool)
      modifies this`files
      ensures ImportOut(result, created, files) == Import(h, cfg, old(files), cid, env)
    {
      if env.size.None? { return FetchIo, false; }
      if !env.plain || env.size.value != cid.size || env.size.value > cfg.maxFetchBytes {
        return FetchIntegrity, false;
      }
      if env.bytes.None? { return FetchIo, false; }
      if |env.bytes.value| != cid.size { return FetchIntegrity, false; }
      var p := Put(h, files, cfg.maxChunkBytes, cid, env.bytes.value, env.put);
      files := p.fs;
      return MapStoreResult(p.result), p.created;
    }

    /** `on_p2p_fetch_complete` and `finish_request`: the seed of a failed transfer
        is removed, and the request leaves the list before its callback runs. */
    method OnTransferDone(h: Hash, token: nat, success: bool, seed: SeedEnv)
      modifies this
      ensures Value() == TransferDone(h, cfg, old(Value()), token, success, seed) && open == old(open)
    {
      var k := 0;
      while k < |pending| && pending[k].token != token
        invariant k <= |pending|
        invariant forall j :: 0 <= j < k ==> pending[j].token != token
      {
        k := k + 1;
      }
      assert k == IndexOf(pending, token);
      if k == |pending| {
        return;
      }
      var cid, result, created := pending[k].cid, FetchNetwork, false;
      if success {
        result, created := ImportSeed(h, cid, seed);
      } else {
        discarded := discarded + [cid];
      }
      Unlink(token);
      callbacks := callbacks + [Callback(token, result, cid, created)];
    }

    /** `m3_chunk_fetch_service_fetch_v1`. */
    method FetchChunk(h: Hash, token: nat, cid: Cid, env: FetchEnv) returns (result: FetchResult)
      modifies this
      ensures open == old(open)
      ensures !open ==> result == FetchInvalidArg && Value() == old(Value())
      ensures open ==> FetchOut(result, Value()) == Fetch(h, cfg, old(Value()), token, cid, env)
    {
      if !open { return FetchInvalidArg; }
      issued := issued + {token};
      if !CidValid(cid) || cid.size > cfg.maxFetchBytes { return FetchInvalidArg; }
      var busy := IsPending(cid);
      if busy { return FetchBusy; }
      if env.seedFound {
        result := FromSeed(h, token, cid, env);
      } else {
        result := StartTransfer(h, token, cid, env);
      }
    }

    method FromSeed(h: Hash, token: nat, cid: Cid, env: FetchEnv) returns (result: FetchResult)
      modifies this
      ensures open == old(open)
      ensures FetchOut(result, Value()) == FetchSeed(h, cfg, old(Value()), token, cid, env)
    {
      var created;
      result, created := ImportSeed(h, cid, env.seed);
      if result != FetchOk { return; }
      match env.announce {
        case AnnounceFails => return FetchNetwork;
        case AnnouncedOtherKey => return FetchIntegrity;
        case Announced =>
      }
      callbacks := callbacks + [Callback(token, FetchOk, cid, created)];
      granted := granted + {token};
      return FetchOk;
    }

    method StartTransfer(h: Hash, token: nat, cid: Cid, env: FetchEnv) returns (result: FetchResult)
      modifies this
      ensures open == old(open)
      ensures FetchOut(result, Value()) == FetchStart(h, cfg, old(Value()), token, cid, env)
    {
      if pendingCount >= cfg.maxPending || !env.memory { return FetchResourceExhausted; }
      ghost var before := pending;
      pending := [Pending(token, cid)] + pending;
      pendingCount := pendingCount + 1;
      match env.transfer {
        case Refused =>
          assert IndexOf(pending, token) == 0;
          Unlink(token);
          assert pending == before;
          return FetchNetwork;
        case Accepted =>
        case FinishedAtOnce(success, seed) => OnTransferDone(h, token, success, seed);
      }
      granted := granted + {token};
      return FetchOk;
    }

    /** `m3_chunk_fetch_service_close_v1`. */
    method CloseService() returns (result: FetchResult)
      modifies this`open
      ensures result == if !old(open) then FetchInvalidState else Close(Value())
      ensures open == (old(open) && result != FetchOk)
    {
      if !open { return FetchInvalidState; }
      if pendingCount != 0 || pending != [] { return FetchBusy; }
      open := false;
      return FetchOk;
    }
  }
}
