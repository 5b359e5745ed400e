/** The durable owner of a replay journal, as steps on values: memory, and a
    disk that is a set of snapshots a power loss may leave behind. */
module ReplayStore {
  import opened Bytes
  import opened Access
  import opened AccessDigest
  import opened Journal
  import opened Snapshot

  /** `visible` is what a read returns now; `possible` is what may be found
      after a power loss. A missing file is `None`. */
  datatype Disk = Disk(visible: Option<seq<u8>>, possible: set<Option<seq<u8>>>)

  datatype Memory = Memory(slots: Slots, maxTtl: u64, generation: u64)

  datatype PersistFault = IoFault | HashFault | MemoryFault

  /** How one snapshot replacement ends: nothing reached the final path, the
      rename happened but its directory was not synced, or all is synced. */
  datatype Persist = PersistFails(fault: PersistFault) | CommitUncertain | CommitDurable

  /** What the platform answers during one replacement, call by call. `writes`
      are the sizes that `write` accepted; a zero or a missing one is an error.
      `directory` covers finding the directory and opening it. */
  datatype PersistEnv = PersistEnv(
    memory: bool, hashes: bool, opens: bool, writes: seq<nat>, syncs: bool, closes: bool, renames: bool,
    directory: bool, directorySyncs: bool, unlinks: bool)

  /** The accepted writes add up to `size` bytes before one fails. */
  predicate WritesAll(size: nat, writes: seq<nat>) {
    size == 0 || (writes != [] && writes[0] != 0 && WritesAll(Unwritten(size, writes[0]), writes[1..]))
  }

  function Unwritten(size: nat, accepted: nat): nat { if accepted >= size then 0 else size - accepted }

  /** How the answers add up. */
  function OutcomeOf(env: PersistEnv, size: nat): Persist {
    if !env.memory then PersistFails(MemoryFault)
    else if !env.hashes then PersistFails(HashFault)
    else FileOutcome(env, size)
  }

  function FileOutcome(env: PersistEnv, size: nat): Persist {
    if !env.opens || !WritesAll(size, env.writes) || !env.syncs || !env.closes || !env.renames
    then PersistFails(IoFault)
    else if !env.directory || !env.directorySyncs then CommitUncertain
    else CommitDurable
  }

  /** No outcome is idle: each one is what some answers add up to. */
  lemma EveryOutcomeHappens(p: Persist, size: nat) returns (env: PersistEnv)
    ensures OutcomeOf(env, size) == p
  {
    var io := p == PersistFails(IoFault);
    assert WritesAll(size, [size]) by {
      assert Unwritten(size, size) == 0 && WritesAll(0, [size][1..]);
    }
    env := PersistEnv(p != PersistFails(MemoryFault), p != PersistFails(HashFault), true, [size], true, true, !io, true,
                      p != CommitUncertain, true);
    assert FileOutcome(env, size) ==
      if io then PersistFails(IoFault) else if p == CommitUncertain then CommitUncertain else CommitDurable;
    match p
    case PersistFails(fault) => assert fault == IoFault || fault == HashFault || fault == MemoryFault;
    case CommitUncertain =>
    case CommitDurable =>
  }

  datatype PersistOut = PersistOut(result: StoreResult, generation: u64, disk: Disk, uncertain: bool)

  function FaultResult(f: PersistFault): StoreResult {
    match f
    case IoFault => StoreIo
    case HashFault => StoreCryptoFailed
    case MemoryFault => StoreResourceExhausted
  }

  /** `persist_snapshot`. */
  function PersistSnapshot(h: Hash, m: Memory, d: Disk, p: Persist): PersistOut {
    if m.generation == U64_MAX then PersistOut(StoreInvalidArg, m.generation, d, false)
    else
      var next := m.generation + 1;
      var b := Some(Encode(h, m.slots, m.maxTtl, next));
      match p
      case PersistFails(f) => PersistOut(FaultResult(f), m.generation, d, false)
      case CommitUncertain => PersistOut(StoreIo, next, Disk(b, d.possible + {b}), true)
      case CommitDurable => PersistOut(StoreOk, next, Disk(b, {b}), false)
  }

  function MapReplayResult(r: ReplayResult): StoreResult {
    match r
    case ReplayOk => StoreOk
    case ReplayConflict => StoreConflict
    case ReplayExpired => StoreExpired
    case ReplayNotFound => StoreNotFound
    case ReplayResourceExhausted => StoreResourceExhausted
    case ReplayCryptoFailed => StoreCryptoFailed
    case ReplayInvalidArg => StoreInvalidArg
    case ReplayInvalidAccess => StoreInvalidArg
  }

  /** Undo of a begin that could not be persisted. */
  function Forget(s: Slots, id: Bytes16): Slots {
    var k := Find(s, id);
    if k < |s| && s[k].state.InProgress? then s[k := ZERO_ENTRY] else s
  }

  datatype StoreBeginOut = StoreBeginOut(result: StoreResult, out: BeginOut, mem: Memory, disk: Disk)

  /** `m3_chunk_replay_store_begin_v1` on an open store. */
  function StoreBegin(h: Hash, m: Memory, d: Disk, call: HashCall, p: Persist, a: AuthorizedAccess, now: u64)
    : StoreBeginOut
  {
    var b := Begin(m.slots, m.maxTtl, h, call, a, now);
    var m1 := Memory(b.slots, m.maxTtl, m.generation);
    if b.result != ReplayOk then StoreBeginOut(MapReplayResult(b.result), b.out, m1, d)
    else if b.out.kind != BeginNew then StoreBeginOut(StoreOk, b.out, m1, d)
    else
      var w := PersistSnapshot(h, m1, d, p);
      if w.result == StoreOk then StoreBeginOut(StoreOk, b.out, Memory(b.slots, m.maxTtl, w.generation), w.disk)
      else
        var s := if w.uncertain then b.slots else Forget(b.slots, a.requestId);
        StoreBeginOut(w.result, NO_BEGIN, Memory(s, m.maxTtl, w.generation), w.disk)
  }

  datatype StoreOut = StoreOut(result: StoreResult, mem: Memory, disk: Disk)

  /** `m3_chunk_replay_store_complete_v1` on an open store: only the call that
      changes the entry writes. */
  function StoreComplete(h: Hash, m: Memory, d: Disk, call: HashCall, p: Persist, a: AuthorizedAccess, code: i32)
    : StoreOut
  {
    var k := Find(m.slots, a.requestId);
    var wasCompleted := k < |m.slots| && m.slots[k].state.Completed?;
    var c := Complete(m.slots, h, call, a, code);
    var m1 := Memory(c.slots, m.maxTtl, m.generation);
    if c.result != ReplayOk || wasCompleted then StoreOut(MapReplayResult(c.result), m1, d)
    else
      var w := PersistSnapshot(h, m1, d, p);
      StoreOut(w.result, Memory(c.slots, m.maxTtl, w.generation), w.disk)
  }

  /** `m3_chunk_replay_store_sweep_v1` on an open store. */
  function StoreSweep(h: Hash, m: Memory, d: Disk, p: Persist, now: u64): StoreOut {
    var m1 := Memory(Sweep(m.slots, now), m.maxTtl, m.generation);
    if LapsedCount(m.slots, now) == 0 then StoreOut(StoreOk, m1, d)
    else
      var w := PersistSnapshot(h, m1, d, p);
      StoreOut(w.result, Memory(m1.slots, m.maxTtl, w.generation), w.disk)
  }

  datatype LockOutcome = LockHeld | LockFileFails | LockBusy
  datatype ReadFault = ReadGone | ReadIo | ReadMemory

  /** What the platform answers during an open. `statMissing` is the answer of
      the first `lstat`, which decides between loading and starting afresh. */
  datatype OpenEnv = OpenEnv(
    lock: LockOutcome, statMissing: bool, read: Option<ReadFault>, hashes: bool, persist: Persist)

  function ReadFaultResult(f: ReadFault): StoreResult {
    match f
    case ReadGone => StoreNotFound
    case ReadIo => StoreIo
    case ReadMemory => StoreResourceExhausted
  }

  function FreshSlots(capacity: nat): (s: Slots)
    ensures |s| == capacity
  {
    seq(capacity, _ => ZERO_ENTRY)
  }

  datatype OpenOut = OpenOut(result: StoreResult, recovered: nat, mem: Option<Memory>, disk: Disk)

  function OpenPersisted(h: Hash, m: Memory, d: Disk, p: Persist, recovered: nat): OpenOut {
    var w := PersistSnapshot(h, m, d, p);
    OpenOut(w.result, recovered,
            if w.result == StoreOk then Some(Memory(m.slots, m.maxTtl, w.generation)) else None, w.disk)
  }

  /** `m3_chunk_replay_store_open_v1` on a closed store. */
  function StoreOpen(h: Hash, d: Disk, env: OpenEnv, capacity: nat, maxTtl: u64, now: u64): OpenOut {
    if capacity == 0 || capacity > MAX_ENTRIES || maxTtl == 0 then OpenOut(StoreInvalidArg, 0, None, d)
    else if env.lock.LockFileFails? then OpenOut(StoreIo, 0, None, d)
    else if env.lock.LockBusy? then OpenOut(StoreLocked, 0, None, d)
    else if env.statMissing then OpenFresh(h, d, env.persist, capacity, maxTtl)
    else OpenFound(h, d, env, capacity, maxTtl, now)
  }

  /** No file was found: an empty journal is written in its place. */
  function OpenFresh(h: Hash, d: Disk, p: Persist, capacity: nat, maxTtl: u64): OpenOut {
    OpenPersisted(h, Memory(FreshSlots(capacity), maxTtl, 0), d, p, 0)
  }

  /** The file is loaded; it is rewritten only if something had expired. */
  function OpenFound(h: Hash, d: Disk, env: OpenEnv, capacity: nat, maxTtl: u64, now: u64): OpenOut {
    if d.visible.None? || env.read == Some(ReadGone) then OpenOut(StoreNotFound, 0, None, d)
    else if |d.visible.value| != SnapshotSize(capacity) then OpenOut(StoreCorrupt, 0, None, d)
    else if env.read.Some? then OpenOut(ReadFaultResult(env.read.value), 0, None, d)
    else OpenDecoded(h, d, env.persist, maxTtl, Decode(h, env.hashes, d.visible.value, capacity, maxTtl, now))
  }

  function OpenDecoded(h: Hash, d: Disk, p: Persist, maxTtl: u64, r: DecodeResult): OpenOut {
    match r
    case DecodeFails(e) => OpenOut(e, 0, None, d)
    case Decoded(generation, slots, recovered, expired) =>
      if expired == 0 then OpenOut(StoreOk, recovered, Some(Memory(slots, maxTtl, generation)), d)
      else OpenPersisted(h, Memory(slots, maxTtl, generation), d, p, recovered)
  }
}
