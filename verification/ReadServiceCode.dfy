/** The read service as an object that borrows a store and a journal. */
module ReadServiceCode {
  import opened Bytes
  import opened Access
  import opened AccessDigest
  import opened Capability
  import opened Journal
  import opened ChunkStore
  import opened ChunkStoreCode
  import opened AccessStore
  import opened ReadService

  class ReadServer {
    const store: CasStore
    const replay: ReplayJournal
    const policy: Policy
    const localNode: Bytes32

    constructor (store: CasStore, replay: ReplayJournal, policy: Policy, localNode: Bytes32)
      ensures this.store == store && this.replay == replay && this.policy == policy && this.localNode == localNode
    {
      this.store, this.replay, this.policy, this.localNode := store, replay, policy, localNode;
    }

    ghost function Cfg(): Config {
      Config(policy, localNode, store.maxBytes, replay.maxTtl)
    }

    /** `m3_chunk_access_store_read_v1`. */
    method ReadAuthorized(h: Hash, a: AuthorizedAccess, now: u64, buffer: array<u8>, env: ReadEnv)
      returns (result: AccessResult, outRead: nat)
      requires forall i :: 0 <= i < |env.blocks| ==> 0 < |env.blocks[i]| <= IO_BLOCK
      modifies buffer
      ensures outRead <= buffer.Length
      ensures AccessReadOut(result, buffer[..outRead])
        == AccessRead(h, store.files, store.maxBytes, a, now, buffer.Length, env)
    {
      if !AccessValid(a) || a.operation != READ { return AccessInvalidAccess, 0; }
      if now >= a.expiresAt { return AccessExpired, 0; }
      if buffer.Length < a.length { return AccessResourceExhausted, 0; }
      var r;
      r, outRead := store.ReadRange(h, a.cid, a.offset, a.length, buffer, env);
      result := MapChunkResult(r);
    }

    /** `m3_chunk_read_service_execute_v1`. */
    method ExecuteRead(h: Hash, claims: Claims, request: Request, buffer: array<u8>, env: ReadEnv,
                       beginHash: HashCall, completeHash: HashCall)
      returns (result: ServiceResult, outRead: nat, replayed: bool)
      requires forall i :: 0 <= i < |env.blocks| ==> 0 < |env.blocks[i]| <= IO_BLOCK
      modifies buffer, replay.entries
      ensures outRead <= buffer.Length
      ensures ExecuteOut(result, buffer[..outRead], replayed, replay.entries[..])
        == Execute(h, Cfg(), old(replay.entries[..]),
                   Call(claims, request, buffer.Length, old(store.files), env, beginHash, completeHash))
    {
      outRead, replayed := 0, false;
      if request.operation == PUT { return ServiceMutationDisabled, 0, false; }
      if request.operation != READ { return ServiceInvalidArg, 0, false; }
      var bound := Request(request.tenant, request.cid, request.operation, request.offset, request.length,
                           localNode, request.requestId, request.now);
      result := MapCapabilityResult(Decide(claims, bound, policy));
      if result != ServiceOk { return; }
      var access := Granted(claims, bound);
      var begun, begin := replay.BeginRequest(h, beginHash, access, request.now);
      if begun != ReplayOk { return MapBeginFailure(begun), 0, false; }
      if begin.kind == BeginInProgress { return ServiceInProgress, 0, true; }
      if begin.kind == BeginCompleted {
        replayed := true;
        var stored := ResultOf(begin.code);
        if stored.None? { return ServiceInternal, 0, true; }
        if stored.value != ServiceOk { return stored.value, 0, true; }
      } else if begin.kind != BeginNew {
        return ServiceInternal, 0, false;
      }
      var answer;
      answer, outRead := ReadAuthorized(h, access, request.now, buffer, env);
      result := MapAccessResult(answer);
      if begin.kind == BeginCompleted { return; }
      var completed := replay.CompleteRequest(h, completeHash, access, CodeOf(result));
      if completed != ReplayOk { return ServiceInternal, 0, false; }
    }
  }
}
