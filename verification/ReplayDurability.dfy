/** What keeps memory and file in step, and when a fact becomes durable, over
    whole runs with closes, power losses and reopenings. */
module ReplayDurability {
  import opened Bytes
  import opened Access
  import opened AccessDigest
  import opened Journal
  import opened Snapshot
  import opened ReplayStore
  import opened ReplayRuns
  import opened ReplayFacts
  import opened ReplayRecovery

  // ---- memory and file keep in step ----

  /** A slot of the file and the same slot of memory: what is in progress in memory
      is so in the file, and what has not expired in the file is in memory, with
      the result that the file has. */
  predicate SlotAgrees(e: Entry, m: Entry, clock: u64) {
    && (m.state.InProgress? ==> e == m)
    && (!e.state.Free? && clock < e.expires ==>
          && !m.state.Free? && m.id == e.id && m.digest == e.digest && m.expires == e.expires
          && (e.state.Completed? ==> m == e))
  }

  ghost predicate Agrees(s: Slots, t: Slots, clock: u64) {
    |s| == |t| && forall k :: 0 <= k < |t| ==> SlotAgrees(s[k], t[k], clock)
  }

  ghost predicate DiskAgrees(h: Hash, d: Disk, t: Slots, clock: u64) {
    d.visible.Some? && exists m: Memory :: IsSnapshot(h, d.visible.value, m) && Agrees(m.slots, t, clock)
  }

  /** The visible file of a running store agrees with its memory. */
  ghost predicate InSync(h: Hash, w: World) {
    w.mem.Some? ==> DiskAgrees(h, w.disk, w.mem.value.slots, w.clock)
  }

  lemma AgreesStill(h: Hash, d: Disk, t: Slots, clock: u64, t': Slots, clock': u64)
    requires DiskAgrees(h, d, t, clock) && Agrees(t, t', clock') && clock <= clock'
    ensures DiskAgrees(h, d, t', clock')
  {
    var m: Memory :| IsSnapshot(h, d.visible.value, m) && Agrees(m.slots, t, clock);
    assert forall k :: 0 <= k < |t'| ==> SlotAgrees(m.slots[k], t[k], clock) && SlotAgrees(t[k], t'[k], clock');
    assert Agrees(m.slots, t', clock');
  }

  lemma SweepAgreesWith(t: Slots, now: u64)
    ensures Agrees(t, Sweep(t, now), now)
  {
  }

  /** A replaced file agrees with the journal written; an untouched one is as
      before. */
  lemma PersistAgrees(h: Hash, m: Memory, d: Disk, p: Persist, clock: u64)
    requires MemoryOk(m)
    ensures var o := PersistSnapshot(h, m, d, p);
      (o.disk == d && o.result != StoreOk && !o.uncertain) || DiskAgrees(h, o.disk, m.slots, clock)
  {
    if m.generation != U64_MAX {
      var next := Memory(m.slots, m.maxTtl, m.generation + 1);
      assert IsSnapshot(h, Encode(h, next.slots, next.maxTtl, next.generation), next);
      assert Agrees(next.slots, m.slots, clock);
    }
  }

  lemma BeginNotNew(s: Slots, maxTtl: u64, h: Hash, call: HashCall, a: AuthorizedAccess, now: u64)
    requires Begin(s, maxTtl, h, call, a, now).out.kind != BeginNew
    ensures Begin(s, maxTtl, h, call, a, now).slots in {s, Sweep(s, now)}
  {
  }

  lemma NewAgrees(h: Hash, m: Memory, d: Disk, call: HashCall, p: Persist, a: AuthorizedAccess, now: u64)
    requires MemoryOk(m) && DiskAgrees(h, d, Sweep(m.slots, now), now)
    requires Begin(m.slots, m.maxTtl, h, call, a, now).out.kind == BeginNew
    ensures var o := StoreBegin(h, m, d, call, p, a, now);
      DiskAgrees(h, o.disk, o.mem.slots, now)
  {
    var b := Begin(m.slots, m.maxTtl, h, call, a, now);
    BeginKeeps(m.slots, m.maxTtl, h, call, a, now);
    ForgetUndoes(m, h, call, a, now);
    NewIsOk(m.slots, m.maxTtl, h, call, a, now);
    BoundAgrees(h, Memory(b.slots, m.maxTtl, m.generation), d, p, a.requestId, Sweep(m.slots, now), now);
  }

  lemma NewIsOk(s: Slots, maxTtl: u64, h: Hash, call: HashCall, a: AuthorizedAccess, now: u64)
    requires Begin(s, maxTtl, h, call, a, now).out.kind == BeginNew
    ensures Begin(s, maxTtl, h, call, a, now).result == ReplayOk
  {
  }

  /** Persisting a journal, and forgetting the id if that fails for certain. */
  lemma BoundAgrees(h: Hash, m: Memory, d: Disk, p: Persist, id: Bytes16, t: Slots, now: u64)
    requires MemoryOk(m) && DiskAgrees(h, d, t, now) && Forget(m.slots, id) == t
    ensures var o := PersistSnapshot(h, m, d, p);
      DiskAgrees(h, o.disk, if o.result == StoreOk || o.uncertain then m.slots else Forget(m.slots, id), now)
  {
    PersistAgrees(h, m, d, p, now);
  }

  lemma BeginAgrees(h: Hash, m: Memory, d: Disk, clock: u64, call: HashCall, p: Persist, a: AuthorizedAccess, now: u64)
    requires MemoryOk(m) && DiskAgrees(h, d, m.slots, clock) && clock <= now
    ensures var o := StoreBegin(h, m, d, call, p, a, now);
      DiskAgrees(h, o.disk, o.mem.slots, now)
  {
    SweepAgreesWith(m.slots, now);
    AgreesStill(h, d, m.slots, clock, Sweep(m.slots, now), now);
    if Begin(m.slots, m.maxTtl, h, call, a, now).out.kind == BeginNew {
      NewAgrees(h, m, d, call, p, a, now);
    } else {
      AgreesWithItself(m.slots, now);
      AgreesStill(h, d, m.slots, clock, m.slots, now);
      BeginNotNew(m.slots, m.maxTtl, h, call, a, now);
    }
  }

  lemma AgreesWithItself(t: Slots, clock: u64)
    ensures Agrees(t, t, clock)
  {
  }

  lemma CompleteAgreesWith(s: Slots, h: Hash, call: HashCall, a: AuthorizedAccess, code: i32, clock: u64)
    ensures Agrees(s, Complete(s, h, call, a, code).slots, clock)
  {
  }

  lemma CompleteAgrees(h: Hash, m: Memory, d: Disk, clock: u64, call: HashCall, p: Persist, a: AuthorizedAccess,
                       code: i32)
    requires MemoryOk(m) && DiskAgrees(h, d, m.slots, clock)
    ensures var o := StoreComplete(h, m, d, call, p, a, code);
      DiskAgrees(h, o.disk, o.mem.slots, clock)
  {
    var c := Complete(m.slots, h, call, a, code);
    CompleteKeeps(m.slots, h, call, a, code);
    CompleteAgreesWith(m.slots, h, call, a, code, clock);
    AgreesStill(h, d, m.slots, clock, c.slots, clock);
    PersistAgrees(h, Memory(c.slots, m.maxTtl, m.generation), d, p, clock);
  }

  lemma SweepAgrees(h: Hash, m: Memory, d: Disk, clock: u64, p: Persist, now: u64)
    requires MemoryOk(m) && DiskAgrees(h, d, m.slots, clock) && clock <= now
    ensures var o := StoreSweep(h, m, d, p, now);
      DiskAgrees(h, o.disk, o.mem.slots, now)
  {
    SweepKeeps(m.slots, now);
    SweepAgreesWith(m.slots, now);
    AgreesStill(h, d, m.slots, clock, Sweep(m.slots, now), now);
    PersistAgrees(h, Memory(Sweep(m.slots, now), m.maxTtl, m.generation), d, p, now);
  }

  lemma OpenPersistedAgrees(h: Hash, m: Memory, d: Disk, p: Persist, recovered: nat, now: u64)
    requires MemoryOk(m)
    ensures var o := OpenPersisted(h, m, d, p, recovered);
      o.mem.Some? ==> DiskAgrees(h, o.disk, o.mem.value.slots, now)
  {
    PersistAgrees(h, m, d, p, now);
  }

  lemma OpenFoundAgrees(h: Hash, d: Disk, env: OpenEnv, capacity: nat, maxTtl: u64, now: u64)
    requires 0 < capacity <= MAX_ENTRIES && maxTtl != 0
    ensures var o := OpenFound(h, d, env, capacity, maxTtl, now);
      o.mem.Some? ==> DiskAgrees(h, o.disk, o.mem.value.slots, now)
  {
    if d.visible.Some? {
      var r := Decode(h, env.hashes, d.visible.value, capacity, maxTtl, now);
      if r.Decoded? {
        DecodedMemory(h, env.hashes, d.visible.value, capacity, maxTtl, now);
        var m := Memory(r.slots, maxTtl, r.generation);
        OpenPersistedAgrees(h, m, d, env.persist, r.recovered, now);
        if r.expired == 0 {
          EncodeDecode(h, d.visible.value, capacity, maxTtl, now);
          AgreesWithItself(r.slots, now);
          assert IsSnapshot(h, d.visible.value, m);
        }
      }
    }
  }

  lemma OpenAgrees(h: Hash, d: Disk, env: OpenEnv, capacity: nat, maxTtl: u64, now: u64)
    ensures var o := StoreOpen(h, d, env, capacity, maxTtl, now);
      o.mem.Some? ==> DiskAgrees(h, o.disk, o.mem.value.slots, now)
  {
    if 0 < capacity <= MAX_ENTRIES && maxTtl != 0 {
      OpenPersistedAgrees(h, Memory(FreshSlots(capacity), maxTtl, 0), d, env.persist, 0, now);
      OpenFoundAgrees(h, d, env, capacity, maxTtl, now);
    }
  }

  /** Over every run, from any file left by earlier times, the visible file of a
      running store agrees with its memory. */
  lemma StepKeepsInSync(h: Hash, w: World, ev: Event)
    requires WorldOk(w) && InSync(h, w) && Legal(w, ev)
    ensures InSync(h, Step(h, w, ev).world)
  {
    match ev
    case EvOpen(env, capacity, maxTtl, now) =>
      if w.mem.None? {
        OpenAgrees(h, w.disk, env, capacity, maxTtl, now);
      } else {
        AgreesWithItself(w.mem.value.slots, now);
        AgreesStill(h, w.disk, w.mem.value.slots, w.clock, w.mem.value.slots, now);
      }
    case EvClose =>
    case EvPowerLoss(_) =>
    case EvBegin(call, p, a, now) =>
      if w.mem.Some? { BeginAgrees(h, w.mem.value, w.disk, w.clock, call, p, a, now); }
    case EvComplete(call, p, a, code) =>
      if w.mem.Some? { CompleteAgrees(h, w.mem.value, w.disk, w.clock, call, p, a, code); }
    case EvSweep(p, now) =>
      if w.mem.Some? { SweepAgrees(h, w.mem.value, w.disk, w.clock, p, now); }
  }

  lemma {:induction false} AfterInSync(h: Hash, w: World, evs: seq<Event>, j: nat)
    requires WorldOk(w) && InSync(h, w) && LegalRun(h, w, evs) && j <= |evs|
    ensures InSync(h, After(h, w, evs, j))
  {
    if j == 0 {
      assert evs[..0] == [];
    } else {
      AfterInSync(h, w, evs, j - 1);
      AfterStep(h, w, evs, j - 1);
      StepKeepsInSync(h, After(h, w, evs, j - 1), evs[j - 1]);
    }
  }

  /** What is in every possible file and has not expired is also in memory. */
  lemma DurableIsPinned(h: Hash, w: World, f: Fact)
    requires WorldOk(w) && InSync(h, w) && DiskHolds(h, w.disk, f) && w.clock < f.expires
    ensures Pinned(h, w, f)
  {
    if w.mem.Some? {
      var b, t := w.disk.visible.value, w.mem.value.slots;
      var m: Memory :| IsSnapshot(h, b, m) && Agrees(m.slots, t, w.clock);
      var m': Memory :| IsSnapshot(h, b, m') && Holds(m'.slots, f);
      SnapshotUnique(h, b, m, m');
      var k :| 0 <= k < |m.slots| && Matches(m.slots[k], f);
      assert SlotAgrees(m.slots[k], t[k], w.clock);
      assert Matches(t[k], f);
    }
  }

  // ---- what makes a fact durable ----

  /** The open writes a snapshot: there was no file, or something had expired. */
  predicate OpenRewrites(h: Hash, w: World, ev: Event)
    requires ev.EvOpen?
  {
    ev.env.statMissing
    || (w.disk.visible.Some?
        && (var r := Decode(h, ev.env.hashes, w.disk.visible.value, ev.capacity, ev.maxTtl, ev.now);
            r.Decoded? && r.expired > 0))
  }

  /** The step replaced the snapshot, and the replacement is durable. */
  predicate WroteDurably(h: Hash, w: World, ev: Event) {
    var v := Step(h, w, ev).world;
    match ev
    case EvOpen(env, _, _, _) => w.mem.None? && v.mem.Some? && env.persist.CommitDurable? && OpenRewrites(h, w, ev)
    case EvClose => false
    case EvPowerLoss(_) => false
    case _ =>
      && w.mem.Some? && v.mem.Some? && ev.persist.CommitDurable?
      && v.mem.value.generation == w.mem.value.generation + 1
  }

  /** The step settles the disk on a fact: it writes durably a journal that holds
      it, or it is a power loss that leaves a file that holds it. */
  ghost predicate Settles(h: Hash, w: World, ev: Event, f: Fact) {
    || (WroteDurably(h, w, ev) && Holds(Step(h, w, ev).world.mem.value.slots, f))
    || (ev.EvPowerLoss? && ev.found.Some? && SnapshotHolds(h, ev.found.value, f))
  }

  /** A write either settles the disk on what it wrote, durably, or removes
      nothing from what a power loss may leave. */
  lemma PersistSettles(h: Hash, m: Memory, d: Disk, p: Persist)
    ensures var o := PersistSnapshot(h, m, d, p);
      if p.CommitDurable? && o.generation == m.generation + 1
      then
        && o.disk == Disk(Some(Encode(h, m.slots, m.maxTtl, o.generation)), {o.disk.visible})
        && o.result == StoreOk
      else d.possible <= o.disk.possible && o.result != StoreOk
  {
  }

  /** The disk is one file, the snapshot of the memory. */
  ghost predicate Settled(h: Hash, v: World) {
    && v.mem.Some? && MemoryOk(v.mem.value) && v.mem.value.generation != 0
    && v.disk.visible == Some(Encode(h, v.mem.value.slots, v.mem.value.maxTtl, v.mem.value.generation))
    && v.disk.possible == {v.disk.visible}
  }

  lemma SettledHoldsIff(h: Hash, v: World, f: Fact)
    requires Settled(h, v)
    ensures DiskHolds(h, v.disk, f) <==> Holds(v.mem.value.slots, f)
  {
    var m, b := v.mem.value, v.disk.visible.value;
    assert IsSnapshot(h, b, m);
    if DiskHolds(h, v.disk, f) {
      assert v.disk.visible in v.disk.possible;
      var m': Memory :| IsSnapshot(h, b, m') && Holds(m'.slots, f);
      SnapshotUnique(h, b, m, m');
    }
  }

  /** What a step other than a power loss does to the disk. */
  ghost predicate Moves(h: Hash, w: World, ev: Event) {
    var v := Step(h, w, ev).world;
    if WroteDurably(h, w, ev) then Settled(h, v) else w.disk.possible <= v.disk.possible
  }

  lemma BeginMoves(h: Hash, w: World, ev: Event)
    requires WorldOk(w) && ev.EvBegin? && w.mem.Some?
    ensures Moves(h, w, ev)
  {
    var m := w.mem.value;
    var b := Begin(m.slots, m.maxTtl, h, ev.call, ev.access, ev.now);
    BeginKeeps(m.slots, m.maxTtl, h, ev.call, ev.access, ev.now);
    PersistSettles(h, Memory(b.slots, m.maxTtl, m.generation), w.disk, ev.persist);
  }

  lemma CompleteMoves(h: Hash, w: World, ev: Event)
    requires WorldOk(w) && ev.EvComplete? && w.mem.Some?
    ensures Moves(h, w, ev)
  {
    var m := w.mem.value;
    var c := Complete(m.slots, h, ev.call, ev.access, ev.code);
    CompleteKeeps(m.slots, h, ev.call, ev.access, ev.code);
    PersistSettles(h, Memory(c.slots, m.maxTtl, m.generation), w.disk, ev.persist);
  }

  lemma SweepMoves(h: Hash, w: World, ev: Event)
    requires WorldOk(w) && ev.EvSweep? && w.mem.Some?
    ensures Moves(h, w, ev)
  {
    var m := w.mem.value;
    SweepKeeps(m.slots, ev.now);
    PersistSettles(h, Memory(Sweep(m.slots, ev.now), m.maxTtl, m.generation), w.disk, ev.persist);
  }

  lemma OpenPersistedMoves(h: Hash, m: Memory, d: Disk, p: Persist, recovered: nat, now: u64)
    requires MemoryOk(m)
    ensures var o := OpenPersisted(h, m, d, p, recovered);
      if o.mem.Some? then p.CommitDurable? && Settled(h, World(o.mem, o.disk, now)) else d.possible <= o.disk.possible
  {
    PersistSettles(h, m, d, p);
  }

  lemma OpenDecodedMoves(h: Hash, d: Disk, p: Persist, maxTtl: u64, r: DecodeResult, now: u64)
    requires r.Decoded? ==> MemoryOk(Memory(r.slots, maxTtl, r.generation))
    ensures var o := OpenDecoded(h, d, p, maxTtl, r);
      if o.mem.Some? && r.Decoded? && r.expired > 0 then p.CommitDurable? && Settled(h, World(o.mem, o.disk, now))
      else d.possible <= o.disk.possible
  {
    if r.Decoded? {
      OpenPersistedMoves(h, Memory(r.slots, maxTtl, r.generation), d, p, r.recovered, now);
    }
  }

  lemma OpenFoundMoves(h: Hash, d: Disk, env: OpenEnv, capacity: nat, maxTtl: u64, now: u64)
    requires 0 < capacity <= MAX_ENTRIES && maxTtl != 0 && d.visible.Some?
    ensures var o := OpenFound(h, d, env, capacity, maxTtl, now);
      var r := Decode(h, env.hashes, d.visible.value, capacity, maxTtl, now);
      if o.mem.Some? && r.Decoded? && r.expired > 0
      then env.persist.CommitDurable? && Settled(h, World(o.mem, o.disk, now))
      else d.possible <= o.disk.possible
  {
    var r := Decode(h, env.hashes, d.visible.value, capacity, maxTtl, now);
    if r.Decoded? {
      DecodedMemory(h, env.hashes, d.visible.value, capacity, maxTtl, now);
    }
    OpenDecodedMoves(h, d, env.persist, maxTtl, r, now);
  }

  lemma OpenMoves(h: Hash, w: World, ev: Event)
    requires WorldOk(w) && ev.EvOpen? && w.mem.None?
    ensures Moves(h, w, ev)
  {
    if 0 < ev.capacity <= MAX_ENTRIES && ev.maxTtl != 0 {
      OpenPersistedMoves(h, Memory(FreshSlots(ev.capacity), ev.maxTtl, 0), w.disk, ev.env.persist, 0, ev.now);
      if w.disk.visible.Some? {
        OpenFoundMoves(h, w.disk, ev.env, ev.capacity, ev.maxTtl, ev.now);
      }
    }
  }

  lemma StepMoves(h: Hash, w: World, ev: Event)
    requires WorldOk(w) && !ev.EvPowerLoss?
    ensures Moves(h, w, ev)
  {
    match ev
    case EvOpen(_, _, _, _) => if w.mem.None? { OpenMoves(h, w, ev); }
    case EvClose =>
    case EvBegin(_, _, _, _) => if w.mem.Some? { BeginMoves(h, w, ev); }
    case EvComplete(_, _, _, _) => if w.mem.Some? { CompleteMoves(h, w, ev); }
    case EvSweep(_, _) => if w.mem.Some? { SweepMoves(h, w, ev); }
  }

  /** From `w` to `v`: a fact that lasts until `v` is durable there exactly if it
      was before or `settled` says so. */
  ghost predicate Carries(h: Hash, w: World, v: World, settled: bool, f: Fact) {
    w.clock <= v.clock && (v.clock < f.expires ==> (DiskHolds(h, v.disk, f) <==> DiskHolds(h, w.disk, f) || settled))
  }

  lemma UnsettledStaysOpen(h: Hash, w: World, ev: Event, f: Fact)
    requires WorldOk(w) && Legal(w, ev) && !DiskHolds(h, w.disk, f)
    ensures DiskHolds(h, Step(h, w, ev).world.disk, f) <==> Settles(h, w, ev, f)
  {
    var v := Step(h, w, ev).world;
    if !ev.EvPowerLoss? {
      StepMoves(h, w, ev);
      if WroteDurably(h, w, ev) {
        SettledHoldsIff(h, v, f);
      }
    }
  }

  lemma StepCarries(h: Hash, w: World, ev: Event, f: Fact)
    requires WorldOk(w) && InSync(h, w) && Legal(w, ev)
    ensures Carries(h, w, Step(h, w, ev).world, Settles(h, w, ev, f), f)
  {
    StepKeepsWorld(h, w, ev);
    if DiskHolds(h, w.disk, f) {
      if Step(h, w, ev).world.clock < f.expires {
        DurableIsPinned(h, w, f);
        StepKeepsPinned(h, w, ev, f);
      }
    } else {
      UnsettledStaysOpen(h, w, ev, f);
    }
  }

  lemma CarriesBoth(h: Hash, u: World, v: World, w: World, first: bool, second: bool, f: Fact)
    requires Carries(h, u, v, first, f) && Carries(h, v, w, second, f)
    ensures Carries(h, u, w, first || second, f)
  {
  }

  lemma {:induction false} CarriesAlong(h: Hash, ws: seq<World>, flags: seq<bool>, i: nat, j: nat, f: Fact)
    requires i <= j < |ws| == |flags| + 1
    requires forall k :: i <= k < j ==> Carries(h, ws[k], ws[k + 1], flags[k], f)
    ensures Carries(h, ws[i], ws[j], true in flags[i..j], f)
    decreases j - i
  {
    if i == j {
    } else {
      CarriesAlong(h, ws, flags, i, j - 1, f);
      assert Carries(h, ws[j - 1], ws[j - 1 + 1], flags[j - 1], f);
      CarriesBoth(h, ws[i], ws[j - 1], ws[j], true in flags[i..j - 1], flags[j - 1], f);
      assert flags[i..j] == flags[i..j - 1] + [flags[j - 1]];
    }
  }

  /** For each event of a run, whether it settles the disk on the fact. */
  ghost function Settlings(h: Hash, w: World, evs: seq<Event>, f: Fact): (flags: seq<bool>)
    ensures |flags| == |evs|
  {
    seq(|evs|, k requires 0 <= k < |evs| => Settles(h, After(h, w, evs, k), evs[k], f))
  }

  lemma CarriesNext(h: Hash, w: World, evs: seq<Event>, k: nat, f: Fact)
    requires WorldOk(w) && InSync(h, w) && LegalRun(h, w, evs) && k < |evs|
    ensures Carries(h, After(h, w, evs, k), After(h, w, evs, k + 1), Settlings(h, w, evs, f)[k], f)
  {
    AfterStep(h, w, evs, k);
    AfterInSync(h, w, evs, k);
    StepCarries(h, After(h, w, evs, k), evs[k], f);
  }

  /** Over any stretch of any run, a fact that has not expired is durable at the
      end exactly if it was at the start or some event settled the disk on it. */
  lemma DurableIff(h: Hash, w: World, evs: seq<Event>, i: nat, j: nat, f: Fact)
    requires WorldOk(w) && InSync(h, w) && LegalRun(h, w, evs) && i <= j <= |evs|
    ensures Carries(h, After(h, w, evs, i), After(h, w, evs, j), true in Settlings(h, w, evs, f)[i..j], f)
  {
    var ws := seq(|evs| + 1, k requires 0 <= k <= |evs| => After(h, w, evs, k));
    forall k | i <= k < j
      ensures Carries(h, ws[k], ws[k + 1], Settlings(h, w, evs, f)[k], f)
    {
      CarriesNext(h, w, evs, k, f);
    }
    CarriesAlong(h, ws, Settlings(h, w, evs, f), i, j, f);
  }

}
