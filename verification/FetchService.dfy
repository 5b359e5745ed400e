/** Asynchronous chunk fetches: a pending list and completion callbacks. */
module FetchService {
  import opened Bytes
  import opened Access
  import opened ChunkStore
  import opened ChunkRuns

  datatype FetchResult =
    | FetchOk
    | FetchInvalidArg
    | FetchInvalidState
    | FetchBusy
    | FetchIo
    | FetchNetwork
    | FetchIntegrity
    | FetchStoreFailed
    | FetchResourceExhausted

  function MapStoreResult(r: ChunkResult): FetchResult {
    match r
    case ChunkOk => FetchOk
    case ChunkCorrupt => FetchIntegrity
    case ChunkDigestMismatch => FetchIntegrity
    case ChunkResourceExhausted => FetchResourceExhausted
    case ChunkIo => FetchIo
    case ChunkNotFound => FetchIo
    case ChunkInvalidArg => FetchStoreFailed
    case ChunkCsprngFailed => FetchStoreFailed
  }

  datatype Config = Config(maxFetchBytes: u64, maxPending: nat, maxChunkBytes: u64)

  // ---- importing a seed file ----

  /** What the platform says about a seed file: its size unless `lstat` fails,
      whether it is a plain file, and its bytes unless reading fails. */
  datatype SeedEnv = SeedEnv(size: Option<u64>, plain: bool, bytes: Option<seq<u8>>, put: PutEnv)

  datatype ImportOut = ImportOut(result: FetchResult, created: bool, files: Files)

  /** `import_seed`. */
  function Import(h: Hash, cfg: Config, files: Files, cid: Cid, env: SeedEnv): ImportOut {
    if env.size.None? then ImportOut(FetchIo, false, files)
    else if !env.plain || env.size.value != cid.size || env.size.value > cfg.maxFetchBytes then
      ImportOut(FetchIntegrity, false, files)
    else if env.bytes.None? then ImportOut(FetchIo, false, files)
    else if |env.bytes.value| != cid.size then ImportOut(FetchIntegrity, false, files)
    else
      var p := Put(h, files, cfg.maxChunkBytes, cid, env.bytes.value, env.put);
      ImportOut(MapStoreResult(p.result), p.created, p.fs)
  }

  // ---- requests and callbacks ----

  /** A request in flight; `token` is the identity of the fetch call. */
  datatype Pending = Pending(token: nat, cid: Cid)

  datatype Callback = Callback(token: nat, result: FetchResult, cid: Cid, created: bool)

  /** `discarded` are the seed files that the service has removed, in order.
      `granted` is history: the tokens whose fetch call answered OK. `issued` are
      the tokens of all fetch calls so far. */
  datatype World = World(
    pending: seq<Pending>, count: nat, files: Files, log: seq<Callback>, discarded: seq<Cid>,
    granted: set<nat>, issued: set<nat>)

  datatype Announce = Announced | AnnounceFails | AnnouncedOtherKey

  /** The transfer layer's answer to a start: refused, accepted, or accepted and
      finished before the call returns. */
  datatype Transfer = Refused | Accepted | FinishedAtOnce(success: bool, seed: SeedEnv)

  datatype FetchEnv = FetchEnv(seedFound: bool, seed: SeedEnv, announce: Announce, memory: bool, transfer: Transfer)

  datatype Event =
    | EvFetch(token: nat, cid: Cid, env: FetchEnv)
    | EvTransferDone(doneToken: nat, success: bool, seed: SeedEnv)
    | EvOther(storeEvent: ChunkRuns.Event)

  function FindPending(pending: seq<Pending>, cid: Cid): (k: nat)
    ensures k <= |pending|
    ensures k < |pending| ==> pending[k].cid == cid
    ensures forall j :: 0 <= j < k ==> pending[j].cid != cid
  {
    if pending == [] || pending[0].cid == cid then 0 else 1 + FindPending(pending[1..], cid)
  }

  function IndexOf(pending: seq<Pending>, token: nat): (k: nat)
    ensures k <= |pending|
    ensures k < |pending| ==> pending[k].token == token
    ensures forall j :: 0 <= j < k ==> pending[j].token != token
  {
    if pending == [] || pending[0].token == token then 0 else 1 + IndexOf(pending[1..], token)
  }

  /** `finish_request`: unlink, then call back. */
  function Finish(w: World, token: nat, result: FetchResult, created: bool, files: Files): World {
    var k := IndexOf(w.pending, token);
    if k == |w.pending| then w
    else
      w.(pending := w.pending[..k] + w.pending[k + 1..], count := if w.count > 0 then w.count - 1 else 0,
         files := files, log := w.log + [Callback(token, result, w.pending[k].cid, created)])
  }

  /** `on_p2p_fetch_complete`. */
  function TransferDone(h: Hash, cfg: Config, w: World, token: nat, success: bool, seed: SeedEnv): World {
    var k := IndexOf(w.pending, token);
    if k == |w.pending| then w
    else if !success then
      Finish(w.(discarded := w.discarded + [w.pending[k].cid]), token, FetchNetwork, false, w.files)
    else
      var i := Import(h, cfg, w.files, w.pending[k].cid, seed);
      Finish(w, token, i.result, i.created, i.files)
  }

  datatype FetchOut = FetchOut(result: FetchResult, world: World)

  function Grant(w: World, token: nat): World {
    w.(granted := w.granted + {token})
  }

  /** A seed file is there: import it, announce it, call back at once. */
  function FetchSeed(h: Hash, cfg: Config, w: World, token: nat, cid: Cid, env: FetchEnv): FetchOut {
    var i := Import(h, cfg, w.files, cid, env.seed);
    var w1 := w.(files := i.files);
    if i.result != FetchOk then FetchOut(i.result, w1)
    else
      match env.announce
      case AnnounceFails => FetchOut(FetchNetwork, w1)
      case AnnouncedOtherKey => FetchOut(FetchIntegrity, w1)
      case Announced =>
        FetchOut(FetchOk, Grant(w1.(log := w.log + [Callback(token, FetchOk, cid, i.created)]), token))
  }

  /** No seed file: link a request and start a transfer. */
  function FetchStart(h: Hash, cfg: Config, w: World, token: nat, cid: Cid, env: FetchEnv): FetchOut {
    if w.count >= cfg.maxPending || !env.memory then FetchOut(FetchResourceExhausted, w)
    else
      var linked := w.(pending := [Pending(token, cid)] + w.pending, count := w.count + 1);
      match env.transfer
      case Refused => FetchOut(FetchNetwork, w)
      case Accepted => FetchOut(FetchOk, Grant(linked, token))
      case FinishedAtOnce(success, seed) =>
        FetchOut(FetchOk, Grant(TransferDone(h, cfg, linked, token, success, seed), token))
  }

  /** `m3_chunk_fetch_service_fetch_v1` on an open service. */
  function Fetch(h: Hash, cfg: Config, w0: World, token: nat, cid: Cid, env: FetchEnv): FetchOut {
    var w := w0.(issued := w0.issued + {token});
    if !CidValid(cid) || cid.size > cfg.maxFetchBytes then FetchOut(FetchInvalidArg, w)
    else if FindPending(w.pending, cid) < |w.pending| then FetchOut(FetchBusy, w)
    else if env.seedFound then FetchSeed(h, cfg, w, token, cid, env)
    else FetchStart(h, cfg, w, token, cid, env)
  }

  /** `m3_chunk_fetch_service_close_v1` on an open service. */
  function Close(w: World): FetchResult {
    if w.count != 0 || w.pending != [] then FetchBusy else FetchOk
  }

  function Step(h: Hash, cfg: Config, w: World, ev: Event): World {
    match ev
    case EvFetch(token, cid, env) => Fetch(h, cfg, w, token, cid, env).world
    case EvTransferDone(token, success, seed) => TransferDone(h, cfg, w, token, success, seed)
    case EvOther(e) =>
      w.(files := ChunkRuns.Step(h, cfg.maxChunkBytes, w.files, e))
  }

  /** Every fetch call has its own token, and the transfer layer calls back only
      for an accepted transfer that it has not called back for. */
  predicate Legal(w: World, ev: Event) {
    match ev
    case EvFetch(token, _, _) => token !in w.issued
    case EvTransferDone(token, _, _) => IndexOf(w.pending, token) < |w.pending|
    case EvOther(_) => true
  }

  /** A new service over a store with these files. */
  function Idle(files: Files): World { World([], 0, files, [], [], {}, {}) }

  function Run(h: Hash, cfg: Config, w: World, evs: seq<Event>): World {
    if evs == [] then w else Step(h, cfg, Run(h, cfg, w, evs[..|evs| - 1]), evs[|evs| - 1])
  }

  ghost predicate LegalRun(h: Hash, cfg: Config, w: World, evs: seq<Event>) {
    forall i :: 0 <= i < |evs| ==> Legal(Run(h, cfg, w, evs[..i]), evs[i])
  }

  // ---- the invariant ----

  function Calls(log: seq<Callback>, token: nat): nat {
    if log == [] then 0 else Calls(log[..|log| - 1], token) + if log[|log| - 1].token == token then 1 else 0
  }

  function Waiting(pending: seq<Pending>, token: nat): nat {
    if IndexOf(pending, token) < |pending| then 1 else 0
  }

  ghost predicate Distinct(pending: seq<Pending>) {
    forall i, j :: 0 <= i < j < |pending| ==> pending[i].token != pending[j].token && pending[i].cid != pending[j].cid
  }

  /** The counter counts, the list is bounded and without doubles, and every
      granted fetch is either waiting or has been called back once. */
  ghost predicate Inv(cfg: Config, w: World) {
    && w.count == |w.pending| <= cfg.maxPending
    && Distinct(w.pending)
    && w.granted <= w.issued
    && forall t: nat :: Calls(w.log, t) + Waiting(w.pending, t) == if t in w.granted then 1 else 0
  }

  lemma CallsSnoc(log: seq<Callback>, c: Callback, t: nat)
    ensures Calls(log + [c], t) == Calls(log, t) + if c.token == t then 1 else 0
  {
    assert (log + [c])[..|log|] == log;
  }

  lemma WaitingIff(pending: seq<Pending>, t: nat)
    ensures Waiting(pending, t) == 1 <==> exists i :: 0 <= i < |pending| && pending[i].token == t
  {
  }

  lemma WaitingAfterRemove(pending: seq<Pending>, k: nat, t: nat)
    requires Distinct(pending) && k < |pending|
    ensures Distinct(pending[..k] + pending[k + 1..])
    ensures Waiting(pending[..k] + pending[k + 1..], t) == if t == pending[k].token then 0 else Waiting(pending, t)
  {
    var rest := pending[..k] + pending[k + 1..];
    assert forall i :: 0 <= i < |rest| ==> rest[i] == pending[if i < k then i else i + 1];
    WaitingIff(rest, t);
    WaitingIff(pending, t);
    if i :| 0 <= i < |pending| && pending[i].token == t && i != k {
      assert rest[if i < k then i else i - 1] == pending[i];
    }
  }

  lemma WaitingAfterAdd(pending: seq<Pending>, p: Pending, t: nat)
    ensures Waiting([p] + pending, t) == if t == p.token then 1 else Waiting(pending, t)
  {
    assert ([p] + pending)[1..] == pending;
  }

  lemma FinishKeeps(cfg: Config, w: World, token: nat, result: FetchResult, created: bool, files: Files)
    requires Inv(cfg, w)
    ensures Inv(cfg, Finish(w, token, result, created, files))
  {
    var k := IndexOf(w.pending, token);
    if k < |w.pending| {
      var o := Finish(w, token, result, created, files);
      forall t: nat
        ensures Calls(o.log, t) + Waiting(o.pending, t) == if t in o.granted then 1 else 0
      {
        CallsSnoc(w.log, o.log[|w.log|], t);
        WaitingAfterRemove(w.pending, k, t);
      }
      WaitingAfterRemove(w.pending, k, 0);
    }
  }

  lemma TransferDoneKeeps(h: Hash, cfg: Config, w: World, token: nat, success: bool, seed: SeedEnv)
    requires Inv(cfg, w)
    ensures Inv(cfg, TransferDone(h, cfg, w, token, success, seed))
    ensures TransferDone(h, cfg, w, token, success, seed).granted == w.granted
  {
    var k := IndexOf(w.pending, token);
    if k < |w.pending| {
      var i := Import(h, cfg, w.files, w.pending[k].cid, seed);
      FinishKeeps(cfg, w.(discarded := w.discarded + [w.pending[k].cid]), token, FetchNetwork, false, w.files);
      FinishKeeps(cfg, w, token, i.result, i.created, i.files);
    }
  }

  /** The world in which a new request has been linked into the list. */
  function Linked(w: World, token: nat, cid: Cid): World {
    w.(pending := [Pending(token, cid)] + w.pending, count := w.count + 1, issued := w.issued + {token})
  }

  /** A started request, together with its grant, keeps the invariant. */
  lemma LinkKeeps(cfg: Config, w: World, token: nat, cid: Cid)
    requires Inv(cfg, w) && token !in w.issued && FindPending(w.pending, cid) == |w.pending| && w.count < cfg.maxPending
    ensures Inv(cfg, Grant(Linked(w, token, cid), token))
  {
    var p := Pending(token, cid);
    assert Calls(w.log, token) + Waiting(w.pending, token) == 0;
    forall t: nat
      ensures Calls(w.log, t) + Waiting([p] + w.pending, t) == if t in w.granted + {token} then 1 else 0
    {
      WaitingAfterAdd(w.pending, p, t);
    }
    WaitingIff(w.pending, token);
  }

  /** A cache hit calls back once and grants once. */
  lemma HitKeeps(cfg: Config, w: World, token: nat, cid: Cid, created: bool, files: Files)
    requires Inv(cfg, w) && token !in w.issued
    ensures Inv(cfg, w.(files := files, log := w.log + [Callback(token, FetchOk, cid, created)],
                        granted := w.granted + {token}, issued := w.issued + {token}))
  {
    var c := Callback(token, FetchOk, cid, created);
    assert Calls(w.log, token) + Waiting(w.pending, token) == 0;
    forall t: nat
      ensures Calls(w.log + [c], t) + Waiting(w.pending, t) == if t in w.granted + {token} then 1 else 0
    {
      CallsSnoc(w.log, c, t);
    }
  }

  /** Granting before or after the early completion is the same. */
  lemma GrantCommutes(h: Hash, cfg: Config, w: World, token: nat, success: bool, seed: SeedEnv)
    ensures Grant(TransferDone(h, cfg, w, token, success, seed), token)
      == TransferDone(h, cfg, Grant(w, token), token, success, seed)
  {
  }

  ghost predicate Eligible(cfg: Config, w: World, cid: Cid) {
    CidValid(cid) && cid.size <= cfg.maxFetchBytes && FindPending(w.pending, cid) == |w.pending|
  }

  lemma FetchHitKeeps(h: Hash, cfg: Config, w: World, token: nat, cid: Cid, env: FetchEnv)
    requires Inv(cfg, w) && token !in w.issued && Eligible(cfg, w, cid) && env.seedFound
    ensures var o := Fetch(h, cfg, w, token, cid, env);
      Inv(cfg, o.world) && (token in o.world.granted <==> o.result == FetchOk)
  {
    var i := Import(h, cfg, w.files, cid, env.seed);
    HitKeeps(cfg, w, token, cid, i.created, i.files);
  }

  lemma FetchStartKeeps(h: Hash, cfg: Config, w: World, token: nat, cid: Cid, env: FetchEnv)
    requires Inv(cfg, w) && token !in w.issued && Eligible(cfg, w, cid) && !env.seedFound
    ensures var o := Fetch(h, cfg, w, token, cid, env);
      Inv(cfg, o.world) && (token in o.world.granted <==> o.result == FetchOk)
  {
    if w.count < cfg.maxPending && env.memory && !env.transfer.Refused? {
      LinkKeeps(cfg, w, token, cid);
      var linked := Linked(w, token, cid);
      if env.transfer.FinishedAtOnce? {
        GrantCommutes(h, cfg, linked, token, env.transfer.success, env.transfer.seed);
        TransferDoneKeeps(h, cfg, Grant(linked, token), token, env.transfer.success, env.transfer.seed);
      }
    }
  }

  lemma FetchKeeps(h: Hash, cfg: Config, w: World, token: nat, cid: Cid, env: FetchEnv)
    requires Inv(cfg, w) && token !in w.issued
    ensures var o := Fetch(h, cfg, w, token, cid, env);
      Inv(cfg, o.world) && (token in o.world.granted <==> o.result == FetchOk)
  {
    if Eligible(cfg, w, cid) {
      if env.seedFound {
        FetchHitKeeps(h, cfg, w, token, cid, env);
      } else {
        FetchStartKeeps(h, cfg, w, token, cid, env);
      }
    }
  }

  lemma StepKeeps(h: Hash, cfg: Config, w: World, ev: Event)
    requires Inv(cfg, w) && Legal(w, ev)
    ensures Inv(cfg, Step(h, cfg, w, ev))
  {
    match ev
    case EvFetch(token, cid, env) => FetchKeeps(h, cfg, w, token, cid, env);
    case EvTransferDone(token, success, seed) => TransferDoneKeeps(h, cfg, w, token, success, seed);
    case EvOther(_) =>
  }

  lemma {:induction false} RunKeeps(h: Hash, cfg: Config, files: Files, evs: seq<Event>)
    requires LegalRun(h, cfg, Idle(files), evs)
    ensures Inv(cfg, Run(h, cfg, Idle(files), evs))
  {
    if evs == [] {
    } else {
      var n := |evs| - 1;
      forall i | 0 <= i < n
        ensures Legal(Run(h, cfg, Idle(files), evs[..n][..i]), evs[..n][i])
      {
        assert evs[..n][..i] == evs[..i];
      }
      RunKeeps(h, cfg, files, evs[..n]);
      StepKeeps(h, cfg, Run(h, cfg, Idle(files), evs[..n]), evs[n]);
    }
  }

  // ---- exactly once ----

  lemma TransferDoneHistory(h: Hash, cfg: Config, w: World, token: nat, success: bool, seed: SeedEnv)
    ensures TransferDone(h, cfg, w, token, success, seed).issued == w.issued
    ensures TransferDone(h, cfg, w, token, success, seed).granted == w.granted
  {
  }

  lemma StepHistory(h: Hash, cfg: Config, w: World, ev: Event, t: nat)
    requires Legal(w, ev) && t in w.issued
    ensures t in Step(h, cfg, w, ev).issued
    ensures t in Step(h, cfg, w, ev).granted <==> t in w.granted
  {
    match ev
    case EvFetch(token, cid, env) =>
      if env.transfer.FinishedAtOnce? {
        var linked := Linked(w, token, cid);
        TransferDoneHistory(h, cfg, linked, token, env.transfer.success, env.transfer.seed);
      }
    case EvTransferDone(token, success, seed) => TransferDoneHistory(h, cfg, w, token, success, seed);
    case EvOther(_) =>
  }

  function After(h: Hash, cfg: Config, files: Files, evs: seq<Event>, j: nat): World
    requires j <= |evs|
  {
    Run(h, cfg, Idle(files), evs[..j])
  }

  lemma {:induction false} GrantIsFinal(h: Hash, cfg: Config, files: Files, evs: seq<Event>, i: nat, j: nat, t: nat)
    requires LegalRun(h, cfg, Idle(files), evs) && i <= j <= |evs| && t in After(h, cfg, files, evs, i).issued
    ensures t in After(h, cfg, files, evs, j).issued
    ensures t in After(h, cfg, files, evs, j).granted <==> t in After(h, cfg, files, evs, i).granted
    decreases j - i
  {
    if i == j {
    } else {
      GrantIsFinal(h, cfg, files, evs, i, j - 1, t);
      assert evs[..j][..j - 1] == evs[..j - 1];
      StepHistory(h, cfg, After(h, cfg, files, evs, j - 1), evs[j - 1], t);
    }
  }

  lemma AfterKeeps(h: Hash, cfg: Config, files: Files, evs: seq<Event>, j: nat)
    requires LegalRun(h, cfg, Idle(files), evs) && j <= |evs|
    ensures Inv(cfg, After(h, cfg, files, evs, j))
  {
    forall k | 0 <= k < j
      ensures Legal(Run(h, cfg, Idle(files), evs[..j][..k]), evs[..j][k])
    {
      assert evs[..j][..k] == evs[..k];
    }
    RunKeeps(h, cfg, files, evs[..j]);
  }

  lemma FetchIssues(h: Hash, cfg: Config, w: World, token: nat, cid: Cid, env: FetchEnv)
    ensures token in Fetch(h, cfg, w, token, cid, env).world.issued
  {
    if env.transfer.FinishedAtOnce? {
      var linked := Linked(w, token, cid);
      TransferDoneHistory(h, cfg, linked, token, env.transfer.success, env.transfer.seed);
    }
  }

  /** Exactly once: at every later point of every run, a fetch that answered OK
      has been called back once, or it is still pending and has not been; a
      fetch that failed has never been called back. */
  lemma ExactlyOnce(h: Hash, cfg: Config, files: Files, evs: seq<Event>, i: nat, j: nat)
    requires LegalRun(h, cfg, Idle(files), evs) && i < j <= |evs| && evs[i].EvFetch?
    ensures var answer := Fetch(h, cfg, After(h, cfg, files, evs, i), evs[i].token, evs[i].cid, evs[i].env).result;
      var w := After(h, cfg, files, evs, j);
      Calls(w.log, evs[i].token) ==
        if answer == FetchOk && IndexOf(w.pending, evs[i].token) == |w.pending| then 1 else 0
  {
    var t, w := evs[i].token, After(h, cfg, files, evs, i);
    AfterKeeps(h, cfg, files, evs, i);
    AfterKeeps(h, cfg, files, evs, j);
    FetchKeeps(h, cfg, w, t, evs[i].cid, evs[i].env);
    FetchIssues(h, cfg, w, t, evs[i].cid, evs[i].env);
    assert evs[..i + 1][..i] == evs[..i];
    GrantIsFinal(h, cfg, files, evs, i + 1, j, t);
    assert Calls(After(h, cfg, files, evs, j).log, t) + Waiting(After(h, cfg, files, evs, j).pending, t)
      == if t in After(h, cfg, files, evs, j).granted then 1 else 0;
  }

  /** Close succeeds exactly when every granted fetch has been called back. */
  lemma CloseIff(cfg: Config, w: World)
    requires Inv(cfg, w)
    ensures Close(w) == FetchOk <==> forall t :: t in w.granted ==> Calls(w.log, t) == 1
    ensures Close(w) == FetchBusy <==> w.pending != []
  {
    if w.pending != [] {
      var t := w.pending[0].token;
      assert Waiting(w.pending, t) == 1;
      assert Calls(w.log, t) + Waiting(w.pending, t) == if t in w.granted then 1 else 0;
    } else {
      forall t | t in w.granted
        ensures Calls(w.log, t) == 1
      {
        assert Calls(w.log, t) + Waiting(w.pending, t) == 1;
      }
    }
  }

  // ---- a callback with OK has the chunk ----

  ghost predicate SeedChecks(files: Files, cid: Cid, env: SeedEnv) {
    env.bytes.Some? ==> PutChecks(files, cid, env.bytes.value, env.put)
  }

  lemma ImportOkHasChunk(h: Hash, cfg: Config, files: Files, cid: Cid, env: SeedEnv)
    requires SeedChecks(files, cid, env) && Import(h, cfg, files, cid, env).result == FetchOk
    ensures HasChunk(h, Import(h, cfg, files, cid, env).files, cid)
  {
    PutOkHasChunk(h, cfg.maxChunkBytes, files, cid, env.bytes.value, env.put);
  }

  lemma TransferDoneHasChunk(h: Hash, cfg: Config, w: World, token: nat, success: bool, seed: SeedEnv)
    requires var k := IndexOf(w.pending, token);
      k < |w.pending| && SeedChecks(w.files, w.pending[k].cid, seed)
    ensures var o := TransferDone(h, cfg, w, token, success, seed);
      && |o.log| == |w.log| + 1 && o.log[..|w.log|] == w.log
      && o.log[|w.log|].token == token && o.log[|w.log|].cid == w.pending[IndexOf(w.pending, token)].cid
      && (o.log[|w.log|].result == FetchOk ==> success && HasChunk(h, o.files, o.log[|w.log|].cid))
  {
    var k := IndexOf(w.pending, token);
    if success && Import(h, cfg, w.files, w.pending[k].cid, seed).result == FetchOk {
      ImportOkHasChunk(h, cfg, w.files, w.pending[k].cid, seed);
    }
  }

  /** The seed files that a step may import are read as they are. */
  ghost predicate StepChecks(w: World, ev: Event) {
    match ev
    case EvFetch(_, cid, env) =>
      && SeedChecks(w.files, cid, env.seed)
      && (env.transfer.FinishedAtOnce? ==> SeedChecks(w.files, cid, env.transfer.seed))
    case EvTransferDone(token, _, seed) =>
      IndexOf(w.pending, token) < |w.pending| ==> SeedChecks(w.files, w.pending[IndexOf(w.pending, token)].cid, seed)
    case EvOther(_) => true
  }

  /** Every callback that a step adds with OK finds its chunk in the store,
      with the size and the digest of the CID. */
  lemma OkCallbackHasChunk(h: Hash, cfg: Config, w: World, ev: Event)
    requires Legal(w, ev) && StepChecks(w, ev)
    ensures var o := Step(h, cfg, w, ev);
      && |w.log| <= |o.log| <= |w.log| + 1 && o.log[..|w.log|] == w.log
      && (|o.log| > |w.log| && o.log[|w.log|].result == FetchOk ==> HasChunk(h, o.files, o.log[|w.log|].cid))
  {
    match ev
    case EvFetch(token, cid, env) =>
      if env.seedFound {
        if Import(h, cfg, w.files, cid, env.seed).result == FetchOk {
          ImportOkHasChunk(h, cfg, w.files, cid, env.seed);
        }
      } else if env.transfer.FinishedAtOnce? {
        var linked := Linked(w, token, cid);
        assert IndexOf(linked.pending, token) == 0;
        TransferDoneHasChunk(h, cfg, linked, token, env.transfer.success, env.transfer.seed);
      }
    case EvTransferDone(token, success, seed) => TransferDoneHasChunk(h, cfg, w, token, success, seed);
    case EvOther(_) =>
  }
}
