/** Which files a run leaves on disk, when one of them can be opened again, and
    when an answered result is on it. */
module ReplayRecovery {
  import opened Bytes
  import opened Access
  import opened AccessDigest
  import opened Journal
  import opened Snapshot
  import opened ReplayStore
  import opened ReplayRuns
  import opened ReplayFacts

  // ---- every file on disk is a snapshot ----

  /** No input has the all-zero digest, which the snapshot reader refuses. */
  ghost predicate NonzeroHash(h: Hash) {
    forall x: seq<u8> :: Nonzero(h(x))
  }

  /** The bytes are the snapshot of a well-formed journal; with `strict`, of one
      without an all-zero digest. */
  ghost predicate IsWritten(h: Hash, b: seq<u8>, strict: bool) {
    exists m: Memory :: IsSnapshot(h, b, m) && (strict ==> DigestsNonzero(m.slots))
  }

  ghost predicate DiskWritten(h: Hash, d: Disk, strict: bool) {
    d.visible in d.possible && forall o :: o in d.possible && o.Some? ==> IsWritten(h, o.value, strict)
  }

  ghost predicate Written(h: Hash, w: World, strict: bool) {
    && WorldOk(w) && DiskWritten(h, w.disk, strict)
    && (strict && w.mem.Some? ==> DigestsNonzero(w.mem.value.slots))
  }

  lemma PersistWrites(h: Hash, m: Memory, d: Disk, p: Persist, strict: bool)
    requires MemoryOk(m) && DiskWritten(h, d, strict) && (strict ==> DigestsNonzero(m.slots))
    ensures DiskWritten(h, PersistSnapshot(h, m, d, p).disk, strict)
  {
    if m.generation != U64_MAX {
      var next := Memory(m.slots, m.maxTtl, m.generation + 1);
      assert IsSnapshot(h, Encode(h, next.slots, next.maxTtl, next.generation), next);
    }
  }

  lemma BeginKeepsNonzero(s: Slots, maxTtl: u64, h: Hash, call: HashCall, a: AuthorizedAccess, now: u64)
    requires NonzeroHash(h) && DigestsNonzero(s)
    ensures DigestsNonzero(Begin(s, maxTtl, h, call, a, now).slots)
  {
    assert Nonzero(h(PreImage(a)));
  }

  lemma BeginWrites(h: Hash, m: Memory, d: Disk, call: HashCall, p: Persist, a: AuthorizedAccess,
                    now: u64, strict: bool)
    requires MemoryOk(m) && DiskWritten(h, d, strict) && (strict ==> NonzeroHash(h) && DigestsNonzero(m.slots))
    ensures var o := StoreBegin(h, m, d, call, p, a, now);
      DiskWritten(h, o.disk, strict) && (strict ==> DigestsNonzero(o.mem.slots))
  {
    var b := Begin(m.slots, m.maxTtl, h, call, a, now);
    BeginKeeps(m.slots, m.maxTtl, h, call, a, now);
    if strict {
      BeginKeepsNonzero(m.slots, m.maxTtl, h, call, a, now);
    }
    PersistWrites(h, Memory(b.slots, m.maxTtl, m.generation), d, p, strict);
  }

  lemma OpenPersistedWrites(h: Hash, m: Memory, d: Disk, p: Persist, recovered: nat, strict: bool)
    requires MemoryOk(m) && DiskWritten(h, d, strict) && (strict ==> DigestsNonzero(m.slots))
    ensures var o := OpenPersisted(h, m, d, p, recovered);
      DiskWritten(h, o.disk, strict) && (o.mem.Some? ==> o.mem.value.slots == m.slots)
  {
    PersistWrites(h, m, d, p, strict);
  }

  lemma OpenDecodedWrites(h: Hash, d: Disk, p: Persist, maxTtl: u64, r: DecodeResult, strict: bool)
    requires DiskWritten(h, d, strict)
    requires r.Decoded? ==> MemoryOk(Memory(r.slots, maxTtl, r.generation)) && DigestsNonzero(r.slots)
    ensures var o := OpenDecoded(h, d, p, maxTtl, r);
      DiskWritten(h, o.disk, strict) && (strict && o.mem.Some? ==> DigestsNonzero(o.mem.value.slots))
  {
    if r.Decoded? {
      OpenPersistedWrites(h, Memory(r.slots, maxTtl, r.generation), d, p, r.recovered, strict);
    }
  }

  lemma DecodedMemory(h: Hash, hashes: bool, b: seq<u8>, capacity: nat, maxTtl: u64, now: u64)
    requires Decode(h, hashes, b, capacity, maxTtl, now).Decoded? && 0 < capacity <= MAX_ENTRIES && maxTtl != 0
    ensures var r := Decode(h, hashes, b, capacity, maxTtl, now);
      MemoryOk(Memory(r.slots, maxTtl, r.generation)) && DigestsNonzero(r.slots)
  {
    DecodedIsWellFormed(h, hashes, b, capacity, maxTtl, now);
  }

  lemma OpenFoundWrites(h: Hash, d: Disk, env: OpenEnv, capacity: nat, maxTtl: u64, now: u64, strict: bool)
    requires DiskWritten(h, d, strict) && 0 < capacity <= MAX_ENTRIES && maxTtl != 0
    ensures var o := OpenFound(h, d, env, capacity, maxTtl, now);
      DiskWritten(h, o.disk, strict) && (strict && o.mem.Some? ==> DigestsNonzero(o.mem.value.slots))
  {
    if d.visible.Some? {
      var r := Decode(h, env.hashes, d.visible.value, capacity, maxTtl, now);
      if r.Decoded? {
        DecodedMemory(h, env.hashes, d.visible.value, capacity, maxTtl, now);
      }
      OpenDecodedWrites(h, d, env.persist, maxTtl, r, strict);
    }
  }

  lemma OpenWrites(h: Hash, d: Disk, env: OpenEnv, capacity: nat, maxTtl: u64, now: u64, strict: bool)
    requires DiskWritten(h, d, strict)
    ensures var o := StoreOpen(h, d, env, capacity, maxTtl, now);
      DiskWritten(h, o.disk, strict) && (strict && o.mem.Some? ==> DigestsNonzero(o.mem.value.slots))
  {
    if 0 < capacity <= MAX_ENTRIES && maxTtl != 0 {
      OpenPersistedWrites(h, Memory(FreshSlots(capacity), maxTtl, 0), d, env.persist, 0, strict);
      OpenFoundWrites(h, d, env, capacity, maxTtl, now, strict);
    }
  }

  /** Every step leaves only snapshots of well-formed journals on disk, in every
      state that a power loss may choose. */
  lemma StepKeepsWritten(h: Hash, w: World, ev: Event, strict: bool)
    requires Written(h, w, strict) && Legal(w, ev) && (strict ==> NonzeroHash(h))
    ensures Written(h, Step(h, w, ev).world, strict)
  {
    StepKeepsWorld(h, w, ev);
    match ev
    case EvOpen(env, capacity, maxTtl, now) =>
      if w.mem.None? { OpenWrites(h, w.disk, env, capacity, maxTtl, now, strict); }
    case EvClose =>
    case EvPowerLoss(_) =>
    case EvBegin(call, p, a, now) =>
      if w.mem.Some? { BeginWrites(h, w.mem.value, w.disk, call, p, a, now, strict); }
    case EvComplete(call, p, a, code) =>
      if w.mem.Some? {
        var m := w.mem.value;
        CompleteKeeps(m.slots, h, call, a, code);
        PersistWrites(h, Memory(Complete(m.slots, h, call, a, code).slots, m.maxTtl, m.generation), w.disk, p, strict);
      }
    case EvSweep(p, now) =>
      if w.mem.Some? {
        var m := w.mem.value;
        SweepKeeps(m.slots, now);
        PersistWrites(h, Memory(Sweep(m.slots, now), m.maxTtl, m.generation), w.disk, p, strict);
      }
  }

  lemma {:induction false} RunKeepsWritten(h: Hash, w: World, evs: seq<Event>, strict: bool)
    requires Written(h, w, strict) && LegalRun(h, w, evs) && (strict ==> NonzeroHash(h))
    ensures Written(h, Run(h, w, evs), strict)
  {
    if evs == [] {
    } else {
      var n := |evs| - 1;
      LegalPrefix(h, w, evs, n);
      RunKeepsWritten(h, w, evs[..n], strict);
      StepKeepsWritten(h, Run(h, w, evs[..n]), evs[n], strict);
    }
  }

  // ---- when a snapshot can be opened again ----

  /** Nothing fails during the open. */
  predicate Undisturbed(env: OpenEnv) {
    env.lock.LockHeld? && !env.statMissing && env.read.None? && env.hashes && env.persist.CommitDurable?
  }

  const REOPEN := OpenEnv(LockHeld, false, None, true, CommitDurable)

  /** Its own capacity and TTL open a snapshot exactly if no digest in it is all
      zero and, where something has expired, a generation is left to write the
      rest with. The journal is then what has not expired, slot for slot. */
  lemma ReopenIff(h: Hash, d: Disk, env: OpenEnv, m: Memory, now: u64)
    requires d.visible.Some? && IsSnapshot(h, d.visible.value, m) && Undisturbed(env)
    ensures var o := StoreOpen(h, d, env, |m.slots|, m.maxTtl, now);
      && (o.result == StoreOk <==>
            DigestsNonzero(m.slots) && (LapsedCount(m.slots, now) == 0 || m.generation != U64_MAX))
      && (o.result == StoreOk ==>
            && o.mem.Some? && o.mem.value.slots == Sweep(m.slots, now) && o.mem.value.maxTtl == m.maxTtl
            && o.mem.value.generation == (if LapsedCount(m.slots, now) == 0 then m.generation else m.generation + 1)
            && o.recovered == InProgressCount(Sweep(m.slots, now))
            && (LapsedCount(m.slots, now) == 0 ==> o.disk == d))
  {
    DecodeEncode(h, m.slots, m.maxTtl, m.generation, now);
  }

  lemma RecoverPinned(h: Hash, w: World, env: OpenEnv, now: u64, f: Fact) returns (m: Memory)
    requires Written(h, w, true) && Pinned(h, w, f) && w.mem.None? && Undisturbed(env) && w.clock <= now < f.expires
    ensures w.disk.visible.Some? && IsSnapshot(h, w.disk.visible.value, m)
    ensures var o := Step(h, w, EvOpen(env, |m.slots|, m.maxTtl, now));
      m.generation != U64_MAX ==>
        && o.response.result == StoreOk && Pinned(h, o.world, f)
        && o.world.mem.Some? && o.world.mem.value.maxTtl == m.maxTtl
  {
    m :| IsSnapshot(h, w.disk.visible.value, m) && DigestsNonzero(m.slots);
    ReopenIff(h, w.disk, env, m, now);
    StepKeepsPinned(h, w, EvOpen(env, |m.slots|, m.maxTtl, now), f);
  }

  lemma BeginReportsPinned(h: Hash, w: World, p: Persist, a: AuthorizedAccess, now: u64, f: Fact)
    requires Pinned(h, w, f) && w.mem.Some? && w.clock <= now < f.expires && f.terminal.Some?
    requires a.requestId == f.id && AccessHash(h, a) == f.digest
    requires AccessValid(a) && now < a.expiresAt && a.expiresAt - now <= w.mem.value.maxTtl
    ensures Step(h, w, EvBegin(HashWorks, p, a, now)).response
      == Began(StoreOk, BeginOut(BeginCompleted, f.terminal.value))
  {
    PinnedAnswers(h, w, EvBegin(HashWorks, p, a, now), f);
  }

  /** End to end: once the deciding complete call answered OK, then at every
      closed point of every run, whichever file a power loss has left, an
      undisturbed open before the expiry succeeds, and a live begin of the same
      access is then told that it is completed, with that code. */
  lemma TerminalResultIsRecovered(h: Hash, w: World, evs: seq<Event>, i: nat, j: nat,
                                  env: OpenEnv, p: Persist, now: u64)
    returns (m: Memory)
    requires NonzeroHash(h) && Written(h, w, true) && LegalRun(h, w, evs) && i < j < |evs|
    requires evs[i].EvComplete? && IsInProgress(After(h, w, evs, i), evs[i].access.requestId)
    requires ResponseAt(h, w, evs, i).result == StoreOk
    requires After(h, w, evs, j).mem.None? && Undisturbed(env)
    requires After(h, w, evs, j).clock <= now < ExpiryOf(After(h, w, evs, i), evs[i].access.requestId)
    ensures After(h, w, evs, j).disk.visible.Some? && IsSnapshot(h, After(h, w, evs, j).disk.visible.value, m)
    ensures var a := evs[i].access;
      var o := Step(h, After(h, w, evs, j), EvOpen(env, |m.slots|, m.maxTtl, now));
      m.generation != U64_MAX ==>
        && o.response.result == StoreOk
        && (now < a.expiresAt && a.expiresAt - now <= m.maxTtl ==>
              Step(h, o.world, EvBegin(HashWorks, p, a, now)).response
                == Began(StoreOk, BeginOut(BeginCompleted, evs[i].code)))
  {
    var a, v := evs[i].access, After(h, w, evs, j);
    var f := Outcome(h, a, ExpiryOf(After(h, w, evs, i), a.requestId), evs[i].code);
    TerminalResultIsDurable(h, w, evs, i, j);
    LegalPrefix(h, w, evs, j);
    RunKeepsWritten(h, w, evs[..j], true);
    m := RecoverPinned(h, v, env, now, f);
    var o := Step(h, v, EvOpen(env, |m.slots|, m.maxTtl, now)).world;
    if m.generation != U64_MAX && now < a.expiresAt && a.expiresAt - now <= m.maxTtl {
      CompletedIsValid(h, After(h, w, evs, i), evs[i]);
      BeginReportsPinned(h, o, p, a, now, f);
    }
  }

  lemma CompletedIsValid(h: Hash, w: World, ev: Event)
    requires ev.EvComplete? && Step(h, w, ev).response.result == StoreOk
    ensures AccessValid(ev.access) && ev.call.HashWorks?
  {
  }
}
