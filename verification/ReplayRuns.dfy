/** Whole runs of the durable journal: begin, complete, sweep, close, power
    loss and reopen, in any order, under any outcome of every snapshot write. */
module ReplayRuns {
  import opened Bytes
  import opened Access
  import opened AccessDigest
  import opened Journal
  import opened Snapshot
  import opened ReplayStore

  datatype World = World(mem: Option<Memory>, disk: Disk, clock: u64)

  datatype Event =
    | EvOpen(env: OpenEnv, capacity: nat, maxTtl: u64, now: u64)
    | EvClose
    | EvPowerLoss(found: Option<seq<u8>>)
    | EvBegin(call: HashCall, persist: Persist, access: AuthorizedAccess, now: u64)
    | EvComplete(call: HashCall, persist: Persist, access: AuthorizedAccess, code: i32)
    | EvSweep(persist: Persist, now: u64)

  datatype Response =
    | NoResponse
    | Reopened(result: StoreResult, recovered: nat)
    | Began(result: StoreResult, out: BeginOut)
    | Finished(result: StoreResult)

  datatype StepOut = StepOut(world: World, response: Response)

  /** One step. Closing stands for an orderly close and for a process crash:
      memory is lost, the disk is not. A power loss also settles the disk. */
  function Step(h: Hash, w: World, ev: Event): StepOut {
    match ev
    case EvOpen(env, capacity, maxTtl, now) =>
      if w.mem.Some? then StepOut(World(w.mem, w.disk, now), Reopened(StoreInvalidArg, 0))
      else
        var o := StoreOpen(h, w.disk, env, capacity, maxTtl, now);
        StepOut(World(o.mem, o.disk, now), Reopened(o.result, o.recovered))
    case EvClose => StepOut(World(None, w.disk, w.clock), NoResponse)
    case EvPowerLoss(found) => StepOut(World(None, Disk(found, {found}), w.clock), NoResponse)
    case EvBegin(call, p, a, now) =>
      if w.mem.None? then StepOut(World(None, w.disk, now), Began(StoreInvalidArg, NO_BEGIN))
      else
        var o := StoreBegin(h, w.mem.value, w.disk, call, p, a, now);
        StepOut(World(Some(o.mem), o.disk, now), Began(o.result, o.out))
    case EvComplete(call, p, a, code) =>
      if w.mem.None? then StepOut(w, Finished(StoreInvalidArg))
      else
        var o := StoreComplete(h, w.mem.value, w.disk, call, p, a, code);
        StepOut(World(Some(o.mem), o.disk, w.clock), Finished(o.result))
    case EvSweep(p, now) =>
      if w.mem.None? then StepOut(World(None, w.disk, now), Finished(StoreInvalidArg))
      else
        var o := StoreSweep(h, w.mem.value, w.disk, p, now);
        StepOut(World(Some(o.mem), o.disk, now), Finished(o.result))
  }

  /** The clock never runs backwards, a power loss leaves one of the possible
      snapshots, and `lstat` reports a missing file only if it is missing. */
  predicate Legal(w: World, ev: Event) {
    match ev
    case EvOpen(env, _, _, now) => w.clock <= now && (env.statMissing ==> w.disk.visible.None?)
    case EvClose => true
    case EvPowerLoss(found) => found in w.disk.possible
    case EvBegin(_, _, _, now) => w.clock <= now
    case EvComplete(_, _, _, _) => true
    case EvSweep(_, now) => w.clock <= now
  }

  const START := World(None, Disk(None, {None}), 0)

  function Run(h: Hash, w: World, evs: seq<Event>): World {
    if evs == [] then w
    else Step(h, Run(h, w, evs[..|evs| - 1]), evs[|evs| - 1]).world
  }

  ghost predicate LegalRun(h: Hash, w: World, evs: seq<Event>) {
    forall i :: 0 <= i < |evs| ==> Legal(Run(h, w, evs[..i]), evs[i])
  }

  function ResponseAt(h: Hash, w: World, evs: seq<Event>, i: nat): Response
    requires i < |evs|
  {
    Step(h, Run(h, w, evs[..i]), evs[i]).response
  }

  // ---- facts and where they must be found ----

  /** A request bound until `expires`; with `terminal`, also its result. */
  datatype Fact = Fact(id: Bytes16, digest: Bytes32, expires: u64, terminal: Option<i32>)

  predicate Matches(e: Entry, f: Fact) {
    && Taken(e, f.id) && e.digest == f.digest && e.expires == f.expires
    && (f.terminal.Some? ==> e.state.Completed? && e.code == f.terminal.value)
  }

  ghost predicate Holds(s: Slots, f: Fact) {
    exists k :: 0 <= k < |s| && Matches(s[k], f)
  }

  ghost predicate MemoryOk(m: Memory) {
    WellFormed(m.slots) && 0 < |m.slots| <= MAX_ENTRIES && m.maxTtl != 0
  }

  /** The bytes are the snapshot of this journal. */
  ghost predicate IsSnapshot(h: Hash, b: seq<u8>, m: Memory) {
    MemoryOk(m) && m.generation != 0 && b == Encode(h, m.slots, m.maxTtl, m.generation)
  }

  /** The bytes are the snapshot of a journal that holds the fact. */
  ghost predicate SnapshotHolds(h: Hash, b: seq<u8>, f: Fact) {
    exists m: Memory :: IsSnapshot(h, b, m) && Holds(m.slots, f)
  }

  ghost predicate DiskHolds(h: Hash, d: Disk, f: Fact) {
    && d.visible in d.possible
    && forall o :: o in d.possible ==> o.Some? && SnapshotHolds(h, o.value, f)
  }

  ghost predicate WorldOk(w: World) {
    w.disk.visible in w.disk.possible && (w.mem.Some? ==> MemoryOk(w.mem.value))
  }

  /** The fact is in memory and in every snapshot the disk may hold. */
  ghost predicate Pinned(h: Hash, w: World, f: Fact) {
    WorldOk(w) && DiskHolds(h, w.disk, f) && (w.mem.Some? ==> Holds(w.mem.value.slots, f))
  }

  // ---- one step ----

  lemma SweepHolds(s: Slots, f: Fact, now: u64)
    requires Holds(s, f) && now < f.expires
    ensures Holds(Sweep(s, now), f)
  {
    var k :| 0 <= k < |s| && Matches(s[k], f);
    assert Matches(Sweep(s, now)[k], f);
  }

  /** One file is the snapshot of one journal. */
  lemma SnapshotUnique(h: Hash, b: seq<u8>, m: Memory, m': Memory)
    requires IsSnapshot(h, b, m) && IsSnapshot(h, b, m')
    ensures m == m'
  {
    EncodeInjective(h, m.slots, m.maxTtl, m.generation, m'.slots, m'.maxTtl, m'.generation);
  }

  /** Whoever accepts a snapshot finds what has not expired in it. */
  lemma SnapshotDecodes(h: Hash, b: seq<u8>, m: Memory, hashes: bool, capacity: nat, maxTtl: u64, now: u64)
    requires IsSnapshot(h, b, m) && Decode(h, hashes, b, capacity, maxTtl, now).Decoded?
    ensures capacity == |m.slots| && maxTtl == m.maxTtl
    ensures Decode(h, hashes, b, capacity, maxTtl, now).slots == Sweep(m.slots, now)
    ensures Decode(h, hashes, b, capacity, maxTtl, now).generation == m.generation
  {
    HeaderWritten(m.slots, m.maxTtl, m.generation, h(Layout(m.slots, m.maxTtl, m.generation, ZERO32)));
    DecodeEncode(h, m.slots, m.maxTtl, m.generation, now);
  }

  lemma PersistHolds(h: Hash, m: Memory, d: Disk, p: Persist, f: Fact)
    requires MemoryOk(m) && d.visible in d.possible && Holds(m.slots, f)
    ensures DiskHolds(h, d, f) ==> DiskHolds(h, PersistSnapshot(h, m, d, p).disk, f)
    ensures PersistSnapshot(h, m, d, p).result == StoreOk ==> DiskHolds(h, PersistSnapshot(h, m, d, p).disk, f)
    ensures PersistSnapshot(h, m, d, p).disk.visible in PersistSnapshot(h, m, d, p).disk.possible
  {
    if m.generation != U64_MAX {
      var next := Memory(m.slots, m.maxTtl, m.generation + 1);
      assert IsSnapshot(h, Encode(h, next.slots, next.maxTtl, next.generation), next);
    }
  }

  lemma BeginHolds(s: Slots, maxTtl: u64, h: Hash, call: HashCall, a: AuthorizedAccess, now: u64, f: Fact)
    requires Holds(s, f) && now < f.expires
    ensures Holds(Begin(s, maxTtl, h, call, a, now).slots, f)
    ensures a.requestId == f.id ==> Begin(s, maxTtl, h, call, a, now).out.kind != BeginNew
  {
    var k :| 0 <= k < |s| && Matches(s[k], f);
    BeginKeepsLive(s, maxTtl, h, call, a, now, k);
    assert Matches(Begin(s, maxTtl, h, call, a, now).slots[k], f);
    assert Taken(Sweep(s, now)[k], f.id);
  }

  lemma ForgetHolds(s: Slots, id: Bytes16, f: Fact)
    requires Holds(s, f) && id != f.id
    ensures Holds(Forget(s, id), f)
  {
    var k :| 0 <= k < |s| && Matches(s[k], f);
    assert Matches(Forget(s, id)[k], f);
  }

  lemma ForgetKeeps(s: Slots, id: Bytes16)
    requires WellFormed(s)
    ensures WellFormed(Forget(s, id)) && |Forget(s, id)| == |s|
  {
  }

  lemma CompleteHolds(s: Slots, h: Hash, call: HashCall, a: AuthorizedAccess, code: i32, f: Fact)
    requires WellFormed(s) && Holds(s, f)
    ensures Holds(Complete(s, h, call, a, code).slots, f)
  {
    var k :| 0 <= k < |s| && Matches(s[k], f);
    FindIs(s, f.id, k);
    assert Matches(Complete(s, h, call, a, code).slots[k], f);
  }

  lemma StoreBeginKeeps(h: Hash, m: Memory, d: Disk, call: HashCall, p: Persist, a: AuthorizedAccess, now: u64)
    requires MemoryOk(m) && d.visible in d.possible
    ensures var o := StoreBegin(h, m, d, call, p, a, now);
      MemoryOk(o.mem) && o.disk.visible in o.disk.possible
  {
    BeginKeeps(m.slots, m.maxTtl, h, call, a, now);
    ForgetKeeps(Begin(m.slots, m.maxTtl, h, call, a, now).slots, a.requestId);
  }

  lemma OpenPersistedKeeps(h: Hash, m: Memory, d: Disk, p: Persist, recovered: nat)
    requires MemoryOk(m) && d.visible in d.possible
    ensures var o := OpenPersisted(h, m, d, p, recovered);
      (o.mem.Some? ==> MemoryOk(o.mem.value)) && o.disk.visible in o.disk.possible
  {
  }

  lemma OpenFoundKeeps(h: Hash, d: Disk, env: OpenEnv, capacity: nat, maxTtl: u64, now: u64)
    requires d.visible in d.possible && 0 < capacity <= MAX_ENTRIES && maxTtl != 0
    ensures var o := OpenFound(h, d, env, capacity, maxTtl, now);
      (o.mem.Some? ==> MemoryOk(o.mem.value)) && o.disk.visible in o.disk.possible
  {
    if d.visible.Some? {
      var r := Decode(h, env.hashes, d.visible.value, capacity, maxTtl, now);
      if r.Decoded? {
        DecodedIsWellFormed(h, env.hashes, d.visible.value, capacity, maxTtl, now);
        OpenPersistedKeeps(h, Memory(r.slots, maxTtl, r.generation), d, env.persist, r.recovered);
      }
    }
  }

  lemma StoreOpenKeeps(h: Hash, d: Disk, env: OpenEnv, capacity: nat, maxTtl: u64, now: u64)
    requires d.visible in d.possible
    ensures var o := StoreOpen(h, d, env, capacity, maxTtl, now);
      (o.mem.Some? ==> MemoryOk(o.mem.value)) && o.disk.visible in o.disk.possible
  {
    if 0 < capacity <= MAX_ENTRIES && maxTtl != 0 {
      OpenPersistedKeeps(h, Memory(FreshSlots(capacity), maxTtl, 0), d, env.persist, 0);
      OpenFoundKeeps(h, d, env, capacity, maxTtl, now);
    }
  }

  lemma StepKeepsWorld(h: Hash, w: World, ev: Event)
    requires WorldOk(w) && Legal(w, ev)
    ensures WorldOk(Step(h, w, ev).world)
    ensures w.clock <= Step(h, w, ev).world.clock
  {
    match ev
    case EvOpen(env, capacity, maxTtl, now) =>
      StoreOpenKeeps(h, w.disk, env, capacity, maxTtl, now);
    case EvClose =>
    case EvPowerLoss(_) =>
    case EvBegin(call, p, a, now) =>
      if w.mem.Some? { StoreBeginKeeps(h, w.mem.value, w.disk, call, p, a, now); }
    case EvComplete(call, p, a, code) =>
      if w.mem.Some? { CompleteKeeps(w.mem.value.slots, h, call, a, code); }
    case EvSweep(p, now) =>
      if w.mem.Some? { SweepKeeps(w.mem.value.slots, now); }
  }

  lemma StoreBeginHolds(h: Hash, m: Memory, d: Disk, call: HashCall, p: Persist, a: AuthorizedAccess, now: u64, f: Fact)
    requires MemoryOk(m) && DiskHolds(h, d, f) && Holds(m.slots, f) && now < f.expires
    ensures var o := StoreBegin(h, m, d, call, p, a, now);
      DiskHolds(h, o.disk, f) && Holds(o.mem.slots, f)
  {
    var b := Begin(m.slots, m.maxTtl, h, call, a, now);
    BeginKeeps(m.slots, m.maxTtl, h, call, a, now);
    BeginHolds(m.slots, m.maxTtl, h, call, a, now, f);
    PersistHolds(h, Memory(b.slots, m.maxTtl, m.generation), d, p, f);
    if b.out.kind == BeginNew {
      ForgetHolds(b.slots, a.requestId, f);
    }
  }

  lemma StoreCompleteHolds(h: Hash, m: Memory, d: Disk, call: HashCall, p: Persist, a: AuthorizedAccess,
                           code: i32, f: Fact)
    requires MemoryOk(m) && DiskHolds(h, d, f) && Holds(m.slots, f)
    ensures var o := StoreComplete(h, m, d, call, p, a, code);
      DiskHolds(h, o.disk, f) && Holds(o.mem.slots, f)
  {
    var c := Complete(m.slots, h, call, a, code);
    CompleteKeeps(m.slots, h, call, a, code);
    CompleteHolds(m.slots, h, call, a, code, f);
    PersistHolds(h, Memory(c.slots, m.maxTtl, m.generation), d, p, f);
  }

  lemma StoreSweepHolds(h: Hash, m: Memory, d: Disk, p: Persist, now: u64, f: Fact)
    requires MemoryOk(m) && DiskHolds(h, d, f) && Holds(m.slots, f) && now < f.expires
    ensures var o := StoreSweep(h, m, d, p, now);
      DiskHolds(h, o.disk, f) && Holds(o.mem.slots, f)
  {
    SweepKeeps(m.slots, now);
    SweepHolds(m.slots, f, now);
    PersistHolds(h, Memory(Sweep(m.slots, now), m.maxTtl, m.generation), d, p, f);
  }

  lemma DecodedHolds(h: Hash, b: seq<u8>, hashes: bool, capacity: nat, maxTtl: u64, now: u64, f: Fact)
    requires SnapshotHolds(h, b, f) && Decode(h, hashes, b, capacity, maxTtl, now).Decoded? && now < f.expires
    ensures Holds(Decode(h, hashes, b, capacity, maxTtl, now).slots, f)
  {
    var m: Memory :| IsSnapshot(h, b, m) && Holds(m.slots, f);
    SnapshotDecodes(h, b, m, hashes, capacity, maxTtl, now);
    SweepHolds(m.slots, f, now);
  }

  lemma OpenDecodedHolds(h: Hash, d: Disk, p: Persist, maxTtl: u64, r: DecodeResult, f: Fact)
    requires DiskHolds(h, d, f) && (r.Decoded? ==> MemoryOk(Memory(r.slots, maxTtl, r.generation)) && Holds(r.slots, f))
    ensures var o := OpenDecoded(h, d, p, maxTtl, r);
      DiskHolds(h, o.disk, f) && (o.mem.Some? ==> Holds(o.mem.value.slots, f))
  {
    if r.Decoded? {
      PersistHolds(h, Memory(r.slots, maxTtl, r.generation), d, p, f);
    }
  }

  lemma OpenFoundHolds(h: Hash, d: Disk, env: OpenEnv, capacity: nat, maxTtl: u64, now: u64, f: Fact)
    requires DiskHolds(h, d, f) && now < f.expires && 0 < capacity <= MAX_ENTRIES && maxTtl != 0
    ensures var o := OpenFound(h, d, env, capacity, maxTtl, now);
      DiskHolds(h, o.disk, f) && (o.mem.Some? ==> Holds(o.mem.value.slots, f))
  {
    var r := Decode(h, env.hashes, d.visible.value, capacity, maxTtl, now);
    if r.Decoded? {
      DecodedHolds(h, d.visible.value, env.hashes, capacity, maxTtl, now, f);
      DecodedIsWellFormed(h, env.hashes, d.visible.value, capacity, maxTtl, now);
    }
    OpenDecodedHolds(h, d, env.persist, maxTtl, r, f);
  }

  lemma StoreOpenHolds(h: Hash, d: Disk, env: OpenEnv, capacity: nat, maxTtl: u64, now: u64, f: Fact)
    requires DiskHolds(h, d, f) && now < f.expires && (env.statMissing ==> d.visible.None?)
    ensures var o := StoreOpen(h, d, env, capacity, maxTtl, now);
      DiskHolds(h, o.disk, f) && (o.mem.Some? ==> Holds(o.mem.value.slots, f))
  {
    if 0 < capacity <= MAX_ENTRIES && maxTtl != 0 {
      OpenFoundHolds(h, d, env, capacity, maxTtl, now, f);
    }
  }

  /** Every legal step before the expiry keeps a pinned fact pinned. */
  lemma StepKeepsPinned(h: Hash, w: World, ev: Event, f: Fact)
    requires Pinned(h, w, f) && Legal(w, ev) && Step(h, w, ev).world.clock < f.expires
    ensures Pinned(h, Step(h, w, ev).world, f)
  {
    StepKeepsWorld(h, w, ev);
    match ev
    case EvOpen(env, capacity, maxTtl, now) =>
      if w.mem.None? { StoreOpenHolds(h, w.disk, env, capacity, maxTtl, now, f); }
    case EvClose =>
    case EvPowerLoss(_) =>
    case EvBegin(call, p, a, now) =>
      if w.mem.Some? { StoreBeginHolds(h, w.mem.value, w.disk, call, p, a, now, f); }
    case EvComplete(call, p, a, code) =>
      if w.mem.Some? { StoreCompleteHolds(h, w.mem.value, w.disk, call, p, a, code, f); }
    case EvSweep(p, now) =>
      if w.mem.Some? { StoreSweepHolds(h, w.mem.value, w.disk, p, now, f); }
  }

  // ---- runs ----

  lemma {:induction false} RunKeepsWorld(h: Hash, w: World, evs: seq<Event>)
    requires WorldOk(w) && LegalRun(h, w, evs)
    ensures WorldOk(Run(h, w, evs)) && w.clock <= Run(h, w, evs).clock
  {
    if evs == [] {
    } else {
      var n := |evs| - 1;
      LegalPrefix(h, w, evs, n);
      RunKeepsWorld(h, w, evs[..n]);
      StepKeepsWorld(h, Run(h, w, evs[..n]), evs[n]);
    }
  }

  lemma LegalPrefix(h: Hash, w: World, evs: seq<Event>, n: nat)
    requires LegalRun(h, w, evs) && n <= |evs|
    ensures LegalRun(h, w, evs[..n])
  {
    forall i | 0 <= i < n
      ensures Legal(Run(h, w, evs[..n][..i]), evs[..n][i])
    {
      assert evs[..n][..i] == evs[..i];
    }
  }

  /** The world after the first `j` events of a run. */
  function After(h: Hash, w: World, evs: seq<Event>, j: nat): World
    requires j <= |evs|
  {
    Run(h, w, evs[..j])
  }

  lemma AfterStep(h: Hash, w: World, evs: seq<Event>, j: nat)
    requires WorldOk(w) && LegalRun(h, w, evs) && j < |evs|
    ensures WorldOk(After(h, w, evs, j)) && Legal(After(h, w, evs, j), evs[j])
    ensures After(h, w, evs, j + 1) == Step(h, After(h, w, evs, j), evs[j]).world
    ensures After(h, w, evs, j).clock <= After(h, w, evs, j + 1).clock
  {
    assert evs[..j + 1][..j] == evs[..j];
    LegalPrefix(h, w, evs, j);
    RunKeepsWorld(h, w, evs[..j]);
    StepKeepsWorld(h, After(h, w, evs, j), evs[j]);
  }

  /** From `w` to `v`: the clock advances, and a pinned fact that has not
      expired at `v` is still pinned there. */
  ghost predicate Keeps(h: Hash, w: World, v: World, f: Fact) {
    w.clock <= v.clock && (Pinned(h, w, f) && v.clock < f.expires ==> Pinned(h, v, f))
  }

  lemma KeepsNext(h: Hash, w: World, evs: seq<Event>, j: nat, f: Fact)
    requires WorldOk(w) && LegalRun(h, w, evs) && j < |evs|
    ensures Keeps(h, After(h, w, evs, j), After(h, w, evs, j + 1), f)
  {
    AfterStep(h, w, evs, j);
    var v := After(h, w, evs, j);
    if Pinned(h, v, f) && Step(h, v, evs[j]).world.clock < f.expires {
      StepKeepsPinned(h, v, evs[j], f);
    }
  }

  lemma {:induction false} KeepsAlong(h: Hash, ws: seq<World>, i: nat, j: nat, f: Fact)
    requires i <= j < |ws| && forall k :: i <= k < j ==> Keeps(h, ws[k], ws[k + 1], f)
    ensures Keeps(h, ws[i], ws[j], f)
    decreases j - i
  {
    if i == j {
    } else {
      KeepsAlong(h, ws, i, j - 1, f);
      assert Keeps(h, ws[j - 1], ws[j - 1 + 1], f);
    }
  }

  /** A fact pinned after `i` events is pinned after `j`, while it lasts. */
  lemma PinnedLater(h: Hash, w: World, evs: seq<Event>, i: nat, j: nat, f: Fact)
    requires WorldOk(w) && LegalRun(h, w, evs) && i <= j <= |evs|
    requires Pinned(h, After(h, w, evs, i), f) && After(h, w, evs, j).clock < f.expires
    ensures Pinned(h, After(h, w, evs, j), f)
  {
    var ws := seq(|evs| + 1, k requires 0 <= k <= |evs| => After(h, w, evs, k));
    forall k | i <= k < j
      ensures Keeps(h, ws[k], ws[k + 1], f)
    {
      KeepsNext(h, w, evs, k, f);
    }
    KeepsAlong(h, ws, i, j, f);
  }

  // ---- at most once ----

  function Binding(h: Hash, a: AuthorizedAccess): Fact {
    Fact(a.requestId, AccessHash(h, a), a.expiresAt, None)
  }

  /** A begin that answers NEW has made its binding durable. */
  lemma NewPins(h: Hash, w: World, ev: Event)
    requires WorldOk(w) && ev.EvBegin?
    requires Step(h, w, ev).response.out.kind == BeginNew
    ensures Step(h, w, ev).response.result == StoreOk
    ensures ev.now < ev.access.expiresAt
    ensures Pinned(h, Step(h, w, ev).world, Binding(h, ev.access))
  {
    var m, f := w.mem.value, Binding(h, ev.access);
    var b := Begin(m.slots, m.maxTtl, h, ev.call, ev.access, ev.now);
    StoreBeginKeeps(h, m, w.disk, ev.call, ev.persist, ev.access, ev.now);
    BeginKeeps(m.slots, m.maxTtl, h, ev.call, ev.access, ev.now);
    assert Matches(b.slots[FirstFree(Sweep(m.slots, ev.now))], f);
    PersistHolds(h, Memory(b.slots, m.maxTtl, m.generation), w.disk, ev.persist, f);
  }

  lemma PinnedIsNotNew(h: Hash, w: World, ev: Event, f: Fact)
    requires Pinned(h, w, f) && ev.EvBegin? && ev.access.requestId == f.id && ev.now < f.expires
    ensures Step(h, w, ev).response.out.kind != BeginNew
  {
    if w.mem.Some? {
      BeginHolds(w.mem.value.slots, w.mem.value.maxTtl, h, ev.call, ev.access, ev.now, f);
    }
  }

  /** At most once: over every legal run from any file left by earlier times, with crashes, power losses, failed
      and uncertain writes and reopenings, a request id that was answered NEW
      is not answered NEW again before that access expires. */
  lemma AtMostOnce(h: Hash, w: World, evs: seq<Event>, i: nat, j: nat)
    requires WorldOk(w) && LegalRun(h, w, evs) && i < j < |evs|
    requires evs[i].EvBegin? && ResponseAt(h, w, evs, i).out.kind == BeginNew
    requires evs[j].EvBegin? && evs[j].access.requestId == evs[i].access.requestId
    requires evs[j].now < evs[i].access.expiresAt
    ensures ResponseAt(h, w, evs, j).out.kind != BeginNew
  {
    var f := Binding(h, evs[i].access);
    AfterStep(h, w, evs, i);
    NewPins(h, After(h, w, evs, i), evs[i]);
    AfterStep(h, w, evs, j);
    PinnedLater(h, w, evs, i + 1, j, f);
    PinnedIsNotNew(h, After(h, w, evs, j), evs[j], f);
  }

  lemma RunOne(h: Hash, w: World, evs: seq<Event>, ev: Event)
    ensures Run(h, w, evs + [ev]) == Step(h, Run(h, w, evs), ev).world
  {
    assert (evs + [ev])[..|evs|] == evs;
  }

  /** Such runs exist: open a store, and begin one access twice. */
  lemma AtMostOnceApplies(h: Hash, a: AuthorizedAccess) returns (evs: seq<Event>)
    requires AccessValid(a)
    ensures |evs| == 3 && WorldOk(START) && LegalRun(h, START, evs)
    ensures evs[1].EvBegin? && evs[1].access == a && ResponseAt(h, START, evs, 1).out.kind == BeginNew
    ensures evs[2].EvBegin? && evs[2].access == a && evs[2].now < a.expiresAt
  {
    var open := EvOpen(OpenEnv(LockHeld, true, None, true, CommitDurable), 1, a.expiresAt, 0);
    var begin := EvBegin(HashWorks, CommitDurable, a, 0);
    evs := [open, begin, begin];
    assert evs[..0] == [] && evs[..1] == [open] && evs[..2] == [open, begin];
    assert [] + [open] == [open] && [open] + [begin] == [open, begin];
    var w1 := Step(h, START, open).world;
    RunOne(h, START, [], open);
    RunOne(h, START, [open], begin);
    assert w1.mem == Some(Memory(FreshSlots(1), a.expiresAt, 1));
    var t := Sweep(FreshSlots(1), 0);
    assert t[0] == ZERO_ENTRY;
    assert Find(t, a.requestId) == 1 && FirstFree(t) == 0;
  }
}
