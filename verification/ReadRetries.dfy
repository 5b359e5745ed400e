/** What a repeated request is answered. */
module ReadRetries {
  import opened Bytes
  import opened Access
  import opened AccessDigest
  import opened Capability
  import opened Journal
  import opened ChunkStore
  import opened AccessStore
  import opened ReadService
  import ChunkRuns

  /** The journal holds the finished request `a` with this result. */
  ghost predicate Recorded(h: Hash, s: Slots, a: AuthorizedAccess, r: ServiceResult) {
    exists k :: 0 <= k < |s| && s[k] == Entry(a.requestId, AccessHash(h, a), a.expiresAt, Completed, CodeOf(r))
  }

  /** A first execution that reached the store is recorded. */
  lemma FirstExecutionRecords(h: Hash, cfg: Config, s: Slots, c: Call)
    requires ServiceInv(s) && Admitted(cfg, c)
    requires Find(Sweep(s, c.request.now), c.request.requestId) == |s| && FirstFree(Sweep(s, c.request.now)) < |s|
    ensures var o := Execute(h, cfg, s, c);
      !o.replayed && o.result == MapAccessResult(StoreAnswer(h, cfg, c).result)
      && Recorded(h, o.slots, AccessOf(cfg, c), o.result)
  {
    ExecuteNew(h, cfg, s, c);
    var t := Sweep(s, c.request.now);
    var o := t[FirstFree(t) := RecordFor(h, cfg, c)];
    assert o[FirstFree(t)] == RecordFor(h, cfg, c);
  }

  lemma SlotsKeepRecord(h: Hash, t: Slots, f: nat, e: Entry, a: AuthorizedAccess, r: ServiceResult)
    requires Recorded(h, t, a, r) && f < |t| && t[f].state.Free?
    ensures Recorded(h, t[f := e], a, r)
  {
    var k :| 0 <= k < |t| && t[k] == Entry(a.requestId, AccessHash(h, a), a.expiresAt, Completed, CodeOf(r));
    assert t[f := e][k] == t[k];
  }

  lemma SweepKeepsRecord(h: Hash, s: Slots, now: u64, a: AuthorizedAccess, r: ServiceResult)
    requires Recorded(h, s, a, r) && now < a.expiresAt
    ensures Recorded(h, Sweep(s, now), a, r)
  {
    var k :| 0 <= k < |s| && s[k] == Entry(a.requestId, AccessHash(h, a), a.expiresAt, Completed, CodeOf(r));
    assert Sweep(s, now)[k] == s[k];
  }

  /** No call before the expiry removes or changes a record. */
  lemma ExecuteKeepsRecord(h: Hash, cfg: Config, s: Slots, c: Call, a: AuthorizedAccess, r: ServiceResult)
    requires ServiceInv(s) && Recorded(h, s, a, r) && c.request.now < a.expiresAt
    requires cfg.policy.maxTtl <= cfg.journalTtl && c.beginHash.HashWorks? && c.completeHash.HashWorks?
    ensures Recorded(h, Execute(h, cfg, s, c).slots, a, r)
  {
    if c.request.operation == READ && Authorized(cfg, c) == CapabilityOk {
      PolicyFitsJournal(cfg, c);
      var t := Sweep(s, c.request.now);
      SweepKeepsRecord(h, s, c.request.now, a, r);
      if Find(t, c.request.requestId) == |s| {
        ExecuteNew(h, cfg, s, c);
        if FirstFree(t) < |t| {
          SlotsKeepRecord(h, t, FirstFree(t), RecordFor(h, cfg, c), a, r);
        }
      } else {
        ExecuteKnown(h, cfg, s, c);
      }
    }
  }

  /** An exact retry replays the record: a failure is repeated without any
      access to the store, a success is read again. */
  lemma RetryReplays(h: Hash, cfg: Config, s: Slots, c: Call, r: ServiceResult)
    requires ServiceInv(s) && Admitted(cfg, c) && Recorded(h, s, AccessOf(cfg, c), r)
    ensures Execute(h, cfg, s, c) ==
      if r != ServiceOk then ExecuteOut(r, [], true, Sweep(s, c.request.now))
      else ExecuteOut(MapAccessResult(StoreAnswer(h, cfg, c).result), StoreAnswer(h, cfg, c).bytes, true,
                      Sweep(s, c.request.now))
  {
    var a := AccessOf(cfg, c);
    var k :| 0 <= k < |s| && s[k] == Entry(a.requestId, AccessHash(h, a), a.expiresAt, Completed, CodeOf(r));
    GrantedPassesBegin(h, cfg, s, c);
    var t := Sweep(s, c.request.now);
    SweepKeeps(s, c.request.now);
    assert t[k] == s[k];
    FindIs(t, a.requestId, k);
    ExecuteKnown(h, cfg, s, c);
    CodeRoundTrip(r);
  }

  /** A live id used for another access is answered CONFLICT, unless a digest
      collision is at hand. */
  lemma OtherAccessConflicts(h: Hash, cfg: Config, s: Slots, c: Call, a: AuthorizedAccess, r: ServiceResult)
    requires ServiceInv(s) && Admitted(cfg, c) && Recorded(h, s, a, r) && c.request.now < a.expiresAt
    requires a.requestId == c.request.requestId && a != AccessOf(cfg, c)
    ensures Execute(h, cfg, s, c) == ExecuteOut(ServiceConflict, [], false, Sweep(s, c.request.now))
      || Collision(h, PreImage(a), PreImage(AccessOf(cfg, c)))
  {
    var k :| 0 <= k < |s| && s[k] == Entry(a.requestId, AccessHash(h, a), a.expiresAt, Completed, CodeOf(r));
    var t := Sweep(s, c.request.now);
    SweepKeeps(s, c.request.now);
    assert t[k] == s[k];
    FindIs(t, a.requestId, k);
    ExecuteKnown(h, cfg, s, c);
    if AccessHash(h, a) == AccessHash(h, AccessOf(cfg, c)) {
      DigestSeparates(h, a, AccessOf(cfg, c));
    }
  }

  /** The platform reads the chunk of a call from the files of that call. */
  ghost predicate ReadsChunk(cfg: Config, c: Call) {
    ReadsSlot(c.env, Lookup(c.files, NameOf(AccessOf(cfg, c).cid.digest)))
  }

  /** When the store can serve a call. */
  ghost predicate Servable(h: Hash, cfg: Config, c: Call) {
    var a := AccessOf(cfg, c);
    var file := Lookup(c.files, NameOf(a.cid.digest));
    && a.length <= c.bufferSize && a.cid.size <= cfg.maxBytes && Smooth(c.env)
    && file.Some? && |file.value| == a.cid.size && h(file.value) == a.cid.digest
  }

  /** Two executions of one access, at any time over any files, that both
      answer OK return the same bytes, unless a digest collision is at hand. */
  lemma SameAccessSameBytes(h: Hash, cfg: Config, c: Call, d: Call)
    requires Admitted(cfg, c) && Admitted(cfg, d) && AccessOf(cfg, c) == AccessOf(cfg, d)
    requires ReadsChunk(cfg, c) && ReadsChunk(cfg, d)
    requires StoreAnswer(h, cfg, c).result == AccessOk && Servable(h, cfg, d)
    ensures StoreAnswer(h, cfg, d).result == AccessOk
    ensures var name := NameOf(AccessOf(cfg, c).cid.digest);
      && name in c.files && name in d.files
      && (StoreAnswer(h, cfg, d).bytes == StoreAnswer(h, cfg, c).bytes || Collision(h, c.files[name], d.files[name]))
  {
    var a := AccessOf(cfg, c);
    GrantedIsValid(c.claims, Bound(cfg, c.request), cfg.policy);
    GrantedIsValid(d.claims, Bound(cfg, d.request), cfg.policy);
    AccessReadIff(h, c.files, cfg.maxBytes, a, c.request.now, c.bufferSize, c.env);
    AccessReadIff(h, d.files, cfg.maxBytes, a, d.request.now, d.bufferSize, d.env);
  }

  /** A chunk that could be read stays servable, with the very same bytes, until
      it is deleted: over every run of the chunk store whose `lstat` answers are
      truthful, for every call with a sufficient buffer that no failure hits. */
  lemma ServableUntilDeleted(h: Hash, cfg: Config, c: Call, d: Call, evs: seq<ChunkRuns.Event>)
    requires Admitted(cfg, c) && AccessOf(cfg, c) == AccessOf(cfg, d) && ReadsChunk(cfg, c)
    requires StoreAnswer(h, cfg, c).result == AccessOk
    requires d.files == ChunkRuns.Run(h, cfg.maxBytes, c.files, evs) && ChunkRuns.HonestStats(evs)
    requires ChunkRuns.NeverDeleted(h, cfg.maxBytes, c.files, evs, NameOf(AccessOf(cfg, c).cid.digest))
    requires AccessOf(cfg, c).length <= d.bufferSize && Smooth(d.env)
    ensures Servable(h, cfg, d)
    ensures var name := NameOf(AccessOf(cfg, c).cid.digest);
      name in c.files && name in d.files && d.files[name] == c.files[name]
  {
    var a := AccessOf(cfg, c);
    GrantedIsValid(c.claims, Bound(cfg, c.request), cfg.policy);
    AccessReadIff(h, c.files, cfg.maxBytes, a, c.request.now, c.bufferSize, c.env);
    ChunkRuns.PublishedBytesNeverChange(h, cfg.maxBytes, c.files, evs, NameOf(a.cid.digest));
  }

  // ---- over runs ----

  ghost predicate Orderly(calls: seq<Call>) {
    forall i, j :: 0 <= i < j < |calls| ==> calls[i].request.now <= calls[j].request.now
  }

  lemma RecordNext(h: Hash, cfg: Config, s: Slots, calls: seq<Call>, j: nat, a: AuthorizedAccess, r: ServiceResult)
    requires ServiceInv(s) && cfg.policy.maxTtl <= cfg.journalTtl && HashingWorks(calls) && j < |calls|
    requires Recorded(h, Run(h, cfg, s, calls[..j]), a, r) && calls[j].request.now < a.expiresAt
    ensures Recorded(h, Run(h, cfg, s, calls[..j + 1]), a, r)
  {
    assert calls[..j + 1][..j] == calls[..j];
    RunKeepsInv(h, cfg, s, calls[..j]);
    ExecuteKeepsRecord(h, cfg, Run(h, cfg, s, calls[..j]), calls[j], a, r);
  }

  lemma {:induction false} RecordStays(h: Hash, cfg: Config, s: Slots, calls: seq<Call>, i: nat, j: nat,
                                       a: AuthorizedAccess, r: ServiceResult)
    requires ServiceInv(s) && cfg.policy.maxTtl <= cfg.journalTtl && HashingWorks(calls) && i <= j <= |calls|
    requires Recorded(h, Run(h, cfg, s, calls[..i]), a, r)
    requires forall k :: i <= k < j ==> calls[k].request.now < a.expiresAt
    ensures Recorded(h, Run(h, cfg, s, calls[..j]), a, r)
    decreases j - i
  {
    if i == j {
    } else {
      RecordStays(h, cfg, s, calls, i, j - 1, a, r);
      RecordNext(h, cfg, s, calls, j - 1, a, r);
    }
  }

  /** The call at `i` is a first execution that reached the store. */
  ghost predicate FirstExecution(h: Hash, cfg: Config, s: Slots, calls: seq<Call>, i: nat)
    requires i < |calls|
  {
    var t := Sweep(Run(h, cfg, s, calls[..i]), calls[i].request.now);
    Admitted(cfg, calls[i]) && Find(t, calls[i].request.requestId) == |t| && FirstFree(t) < |t|
  }

  function AnswerAt(h: Hash, cfg: Config, s: Slots, calls: seq<Call>, i: nat): ExecuteOut
    requires i < |calls|
  {
    Execute(h, cfg, Run(h, cfg, s, calls[..i]), calls[i])
  }

  lemma FirstIsRecorded(h: Hash, cfg: Config, s: Slots, calls: seq<Call>, i: nat)
    requires ServiceInv(s) && cfg.policy.maxTtl <= cfg.journalTtl && HashingWorks(calls)
    requires i < |calls| && FirstExecution(h, cfg, s, calls, i)
    ensures var r := StoreAnswer(h, cfg, calls[i]);
      && AnswerAt(h, cfg, s, calls, i).result == MapAccessResult(r.result)
      && AnswerAt(h, cfg, s, calls, i).bytes == r.bytes
      && Recorded(h, Run(h, cfg, s, calls[..i + 1]), AccessOf(cfg, calls[i]), MapAccessResult(r.result))
  {
    var s1 := Run(h, cfg, s, calls[..i]);
    RunKeepsInv(h, cfg, s, calls[..i]);
    FirstExecutionRecords(h, cfg, s1, calls[i]);
    ExecuteNew(h, cfg, s1, calls[i]);
    assert calls[..i + 1][..i] == calls[..i];
  }

  lemma LaterRetry(h: Hash, cfg: Config, s: Slots, calls: seq<Call>, i: nat, j: nat, r: ServiceResult)
    requires ServiceInv(s) && cfg.policy.maxTtl <= cfg.journalTtl && HashingWorks(calls) && Orderly(calls)
    requires i < j < |calls| && Admitted(cfg, calls[j]) && AccessOf(cfg, calls[i]) == AccessOf(cfg, calls[j])
    requires Recorded(h, Run(h, cfg, s, calls[..i + 1]), AccessOf(cfg, calls[i]), r)
    ensures var a := StoreAnswer(h, cfg, calls[j]);
      var again := AnswerAt(h, cfg, s, calls, j);
      && again.replayed
      && again.result == (if r != ServiceOk then r else MapAccessResult(a.result))
      && again.bytes == (if r != ServiceOk then [] else a.bytes)
  {
    var d := calls[j];
    RunKeepsInv(h, cfg, s, calls[..j]);
    GrantedIsValid(d.claims, Bound(cfg, d.request), cfg.policy);
    RecordStays(h, cfg, s, calls, i + 1, j, AccessOf(cfg, d), r);
    RetryReplays(h, cfg, Run(h, cfg, s, calls[..j]), d, r);
  }

  /** Over every run with an advancing clock: the first execution of an access
      fixes its answer. Until it expires every exact retry repeats a failure
      with no bytes, and repeats a success with the same bytes as long as the
      chunk is there, the buffer suffices and nothing fails. */
  lemma RetrySemantics(h: Hash, cfg: Config, s: Slots, calls: seq<Call>, i: nat, j: nat)
    requires ServiceInv(s) && cfg.policy.maxTtl <= cfg.journalTtl && HashingWorks(calls) && Orderly(calls)
    requires i < j < |calls| && FirstExecution(h, cfg, s, calls, i)
    requires Admitted(cfg, calls[j]) && AccessOf(cfg, calls[i]) == AccessOf(cfg, calls[j])
    requires ReadsChunk(cfg, calls[i]) && ReadsChunk(cfg, calls[j])
    ensures var first, again := AnswerAt(h, cfg, s, calls, i), AnswerAt(h, cfg, s, calls, j);
      var name := NameOf(AccessOf(cfg, calls[i]).cid.digest);
      && again.replayed
      && (first.result != ServiceOk ==> again.result == first.result && again.bytes == [])
      && (first.result == ServiceOk && Servable(h, cfg, calls[j]) ==>
            && again.result == ServiceOk && name in calls[i].files && name in calls[j].files
            && (again.bytes == first.bytes || Collision(h, calls[i].files[name], calls[j].files[name])))
  {
    FirstIsRecorded(h, cfg, s, calls, i);
    LaterRetry(h, cfg, s, calls, i, j, MapAccessResult(StoreAnswer(h, cfg, calls[i]).result));
    if StoreAnswer(h, cfg, calls[i]).result == AccessOk && Servable(h, cfg, calls[j]) {
      SameAccessSameBytes(h, cfg, calls[i], calls[j]);
    }
  }

  /** A success repeats byte for byte until the chunk is deleted: whatever the
      store goes through between the two calls, short of a delete and a lying
      `lstat`, a retry with a sufficient buffer that no failure hits returns the
      bytes of the first answer. */
  lemma SuccessRepeatsUntilDeleted(h: Hash, cfg: Config, s: Slots, calls: seq<Call>, i: nat, j: nat,
                                   evs: seq<ChunkRuns.Event>)
    requires ServiceInv(s) && cfg.policy.maxTtl <= cfg.journalTtl && HashingWorks(calls) && Orderly(calls)
    requires i < j < |calls| && FirstExecution(h, cfg, s, calls, i)
    requires Admitted(cfg, calls[j]) && AccessOf(cfg, calls[i]) == AccessOf(cfg, calls[j])
    requires ReadsChunk(cfg, calls[i]) && ReadsChunk(cfg, calls[j])
    requires calls[j].files == ChunkRuns.Run(h, cfg.maxBytes, calls[i].files, evs) && ChunkRuns.HonestStats(evs)
    requires ChunkRuns.NeverDeleted(h, cfg.maxBytes, calls[i].files, evs, NameOf(AccessOf(cfg, calls[i]).cid.digest))
    requires AccessOf(cfg, calls[i]).length <= calls[j].bufferSize && Smooth(calls[j].env)
    ensures var first, again := AnswerAt(h, cfg, s, calls, i), AnswerAt(h, cfg, s, calls, j);
      again.replayed && again.result == first.result
      && again.bytes == if first.result == ServiceOk then first.bytes else []
  {
    RetrySemantics(h, cfg, s, calls, i, j);
    FirstIsRecorded(h, cfg, s, calls, i);
    if StoreAnswer(h, cfg, calls[i]).result == AccessOk {
      ServableUntilDeleted(h, cfg, calls[i], calls[j], evs);
    }
  }
}
