/** What a finished request keeps answering, what a begin that could not be
    persisted leaves behind, generations, and the `lstat` that must not lie. */
module ReplayFacts {
  import opened Bytes
  import opened Access
  import opened AccessDigest
  import opened Journal
  import opened Snapshot
  import opened ReplayStore
  import opened ReplayRuns

  // ---- durable results ----

  /** The entry of `id` in an open world is still in progress. */
  ghost predicate IsInProgress(w: World, id: Bytes16) {
    w.mem.Some? && (var s := w.mem.value.slots; Find(s, id) < |s| && s[Find(s, id)].state.InProgress?)
  }

  function ExpiryOf(w: World, id: Bytes16): u64
    requires w.mem.Some? && Find(w.mem.value.slots, id) < |w.mem.value.slots|
  {
    w.mem.value.slots[Find(w.mem.value.slots, id)].expires
  }

  function Outcome(h: Hash, a: AuthorizedAccess, expires: u64, code: i32): Fact {
    Fact(a.requestId, AccessHash(h, a), expires, Some(code))
  }

  /** The complete call that moves an entry out of IN_PROGRESS and answers OK
      has made the result durable. */
  lemma ResultPins(h: Hash, w: World, ev: Event)
    requires WorldOk(w) && ev.EvComplete? && IsInProgress(w, ev.access.requestId)
    requires Step(h, w, ev).response.result == StoreOk
    ensures Pinned(h, Step(h, w, ev).world, Outcome(h, ev.access, ExpiryOf(w, ev.access.requestId), ev.code))
  {
    var m := w.mem.value;
    var k := Find(m.slots, ev.access.requestId);
    var f := Outcome(h, ev.access, m.slots[k].expires, ev.code);
    var c := Complete(m.slots, h, ev.call, ev.access, ev.code);
    CompleteKeeps(m.slots, h, ev.call, ev.access, ev.code);
    assert Matches(c.slots[k], f);
    PersistHolds(h, Memory(c.slots, m.maxTtl, m.generation), w.disk, ev.persist, f);
  }

  /** While a terminal fact is pinned, every question about it has one answer. */
  ghost predicate AnswersTerminal(h: Hash, w: World, ev: Event, f: Fact)
    requires f.terminal.Some?
  {
    var o := Step(h, w, ev);
    match ev
    case EvBegin(call, _, a, now) =>
      w.mem.Some? && a.requestId == f.id && now < f.expires ==>
        && (o.response.result == StoreOk ==>
              o.response.out == BeginOut(BeginCompleted, f.terminal.value) && AccessHash(h, a) == f.digest)
        && (AccessValid(a) && now < a.expiresAt && a.expiresAt - now <= w.mem.value.maxTtl && call.HashWorks? ==>
              o.response.result == if AccessHash(h, a) == f.digest then StoreOk else StoreConflict)
    case EvComplete(call, _, a, code) =>
      w.mem.Some? && a.requestId == f.id ==>
        && o.world == w
        && (AccessValid(a) && call.HashWorks? ==>
              o.response.result ==
                if AccessHash(h, a) == f.digest && code == f.terminal.value then StoreOk else StoreConflict)
    case EvOpen(_, _, _, now) =>
      w.mem.None? && o.response.result == StoreOk && now < f.expires ==>
        o.world.mem.Some? && Holds(o.world.mem.value.slots, f)
    case _ => true
  }

  lemma PinnedBeginAnswers(h: Hash, w: World, ev: Event, f: Fact, k: nat)
    requires WorldOk(w) && w.mem.Some? && ev.EvBegin? && f.terminal.Some?
    requires k < |w.mem.value.slots| && Matches(w.mem.value.slots[k], f)
    ensures AnswersTerminal(h, w, ev, f)
  {
    var s := w.mem.value.slots;
    if ev.access.requestId == f.id && ev.now < f.expires {
      SweepKeeps(s, ev.now);
      FindIs(Sweep(s, ev.now), f.id, k);
    }
  }

  lemma PinnedCompleteAnswers(h: Hash, w: World, ev: Event, f: Fact, k: nat)
    requires WorldOk(w) && w.mem.Some? && ev.EvComplete? && f.terminal.Some?
    requires k < |w.mem.value.slots| && Matches(w.mem.value.slots[k], f)
    ensures AnswersTerminal(h, w, ev, f)
  {
    FindIs(w.mem.value.slots, f.id, k);
  }

  lemma PinnedOpenAnswers(h: Hash, w: World, ev: Event, f: Fact)
    requires Pinned(h, w, f) && ev.EvOpen? && f.terminal.Some? && Legal(w, ev)
    ensures AnswersTerminal(h, w, ev, f)
  {
    if w.mem.None? && ev.now < f.expires {
      StoreOpenHolds(h, w.disk, ev.env, ev.capacity, ev.maxTtl, ev.now, f);
    }
  }

  lemma PinnedAnswers(h: Hash, w: World, ev: Event, f: Fact)
    requires Pinned(h, w, f) && f.terminal.Some? && Legal(w, ev)
    ensures AnswersTerminal(h, w, ev, f)
  {
    if ev.EvOpen? {
      PinnedOpenAnswers(h, w, ev, f);
    } else if w.mem.Some? {
      var k :| 0 <= k < |w.mem.value.slots| && Matches(w.mem.value.slots[k], f);
      if ev.EvBegin? {
        PinnedBeginAnswers(h, w, ev, f, k);
      } else if ev.EvComplete? {
        PinnedCompleteAnswers(h, w, ev, f, k);
      }
    }
  }

  /** Durable terminal fact: once the deciding complete call answered OK with a
      code, every recovery, begin and complete of every legal continuation
      reports that code until the entry expires, and no complete changes
      anything. */
  lemma TerminalResultIsDurable(h: Hash, w: World, evs: seq<Event>, i: nat, j: nat)
    requires WorldOk(w) && LegalRun(h, w, evs) && i < j < |evs|
    requires evs[i].EvComplete? && IsInProgress(After(h, w, evs, i), evs[i].access.requestId)
    requires ResponseAt(h, w, evs, i).result == StoreOk
    requires After(h, w, evs, j).clock < ExpiryOf(After(h, w, evs, i), evs[i].access.requestId)
    ensures var f := Outcome(h, evs[i].access, ExpiryOf(After(h, w, evs, i), evs[i].access.requestId), evs[i].code);
      Pinned(h, After(h, w, evs, j), f) && AnswersTerminal(h, After(h, w, evs, j), evs[j], f)
  {
    var f := Outcome(h, evs[i].access, ExpiryOf(After(h, w, evs, i), evs[i].access.requestId), evs[i].code);
    AfterStep(h, w, evs, i);
    ResultPins(h, After(h, w, evs, i), evs[i]);
    AfterStep(h, w, evs, j);
    PinnedLater(h, w, evs, i + 1, j, f);
    PinnedAnswers(h, After(h, w, evs, j), evs[j], f);
  }

  // ---- a begin that could not be persisted ----

  /** Forgetting the id that a begin has just bound leaves the swept journal. */
  lemma ForgetUndoes(m: Memory, h: Hash, call: HashCall, a: AuthorizedAccess, now: u64)
    requires MemoryOk(m) && Begin(m.slots, m.maxTtl, h, call, a, now).out.kind == BeginNew
    ensures Forget(Begin(m.slots, m.maxTtl, h, call, a, now).slots, a.requestId) == Sweep(m.slots, now)
  {
    var t := Sweep(m.slots, now);
    var f := FirstFree(t);
    SweepKeeps(m.slots, now);
    BeginKeeps(m.slots, m.maxTtl, h, call, a, now);
    var s := t[f := Opened(t[f], h, a)];
    FindIs(s, a.requestId, f);
    assert s[f := ZERO_ENTRY] == t;
  }

  /** If the snapshot did not reach its path, a begin leaves no trace beyond the
      sweep: the caller may try again and be answered NEW. */
  lemma FailedBeginIsUndone(h: Hash, m: Memory, d: Disk, fault: PersistFault, a: AuthorizedAccess, now: u64)
    requires MemoryOk(m) && Begin(m.slots, m.maxTtl, h, HashWorks, a, now).out.kind == BeginNew
    ensures StoreBegin(h, m, d, HashWorks, PersistFails(fault), a, now)
      == StoreBeginOut(if m.generation == U64_MAX then StoreInvalidArg else FaultResult(fault), NO_BEGIN,
                       Memory(Sweep(m.slots, now), m.maxTtl, m.generation), d)
  {
    ForgetUndoes(m, h, HashWorks, a, now);
  }

  /** If the rename happened but may be lost, the binding stays in memory: the
      call answers IO, and a retry answers IN_PROGRESS, not NEW. */
  lemma UncertainBeginStaysBound(h: Hash, m: Memory, d: Disk, p: Persist, a: AuthorizedAccess, now: u64, later: u64)
    requires MemoryOk(m) && Begin(m.slots, m.maxTtl, h, HashWorks, a, now).out.kind == BeginNew
    requires m.generation != U64_MAX && now <= later < a.expiresAt
    ensures var o := StoreBegin(h, m, d, HashWorks, CommitUncertain, a, now);
      && o.result == StoreIo && o.out == NO_BEGIN
      && StoreBegin(h, o.mem, o.disk, HashWorks, p, a, later).result == StoreOk
      && StoreBegin(h, o.mem, o.disk, HashWorks, p, a, later).out == BeginOut(BeginInProgress, 0)
  {
    var b := Begin(m.slots, m.maxTtl, h, HashWorks, a, now);
    var f := FirstFree(Sweep(m.slots, now));
    BeginKeeps(m.slots, m.maxTtl, h, HashWorks, a, now);
    SweepKeeps(m.slots, now);
    SweepKeeps(b.slots, later);
    assert Sweep(b.slots, later)[f] == b.slots[f];
    FindIs(Sweep(b.slots, later), a.requestId, f);
  }

  // ---- generations ----

  /** The running generation is the one in the file. */
  ghost predicate GenerationOk(w: World) {
    w.mem.Some? ==>
      && w.mem.value.generation != 0
      && w.disk.visible.Some? && |w.disk.visible.value| >= HEADER_SIZE
      && ReadU64(w.disk.visible.value[32..40]) == w.mem.value.generation
  }

  lemma PersistKeepsGeneration(h: Hash, m: Memory, d: Disk, p: Persist)
    requires MemoryOk(m)
    ensures var o := PersistSnapshot(h, m, d, p);
      if o.disk == d && o.generation == m.generation then o.result != StoreOk
      else
        && o.generation == m.generation + 1 && o.disk.visible.Some? && |o.disk.visible.value| >= HEADER_SIZE
        && ReadU64(o.disk.visible.value[32..40]) == o.generation
  {
    if m.generation != U64_MAX {
      HeaderWritten(m.slots, m.maxTtl, m.generation + 1, h(Layout(m.slots, m.maxTtl, m.generation + 1, ZERO32)));
    }
  }

  lemma OpenPersistedGeneration(h: Hash, m: Memory, d: Disk, p: Persist, recovered: nat, now: u64)
    requires MemoryOk(m)
    ensures var o := OpenPersisted(h, m, d, p, recovered);
      GenerationOk(World(o.mem, o.disk, now))
  {
    PersistKeepsGeneration(h, m, d, p);
  }

  lemma OpenFoundGeneration(h: Hash, d: Disk, env: OpenEnv, capacity: nat, maxTtl: u64, now: u64)
    requires 0 < capacity <= MAX_ENTRIES && maxTtl != 0
    ensures var o := OpenFound(h, d, env, capacity, maxTtl, now);
      GenerationOk(World(o.mem, o.disk, now))
  {
    if d.visible.Some? {
      var r := Decode(h, env.hashes, d.visible.value, capacity, maxTtl, now);
      if r.Decoded? {
        DecodedIsWellFormed(h, env.hashes, d.visible.value, capacity, maxTtl, now);
        OpenPersistedGeneration(h, Memory(r.slots, maxTtl, r.generation), d, env.persist, r.recovered, now);
      }
    }
  }

  lemma OpenKeepsGeneration(h: Hash, d: Disk, env: OpenEnv, capacity: nat, maxTtl: u64, now: u64)
    ensures var o := StoreOpen(h, d, env, capacity, maxTtl, now);
      GenerationOk(World(o.mem, o.disk, now))
  {
    if 0 < capacity <= MAX_ENTRIES && maxTtl != 0 {
      OpenPersistedGeneration(h, Memory(FreshSlots(capacity), maxTtl, 0), d, env.persist, 0, now);
      OpenFoundGeneration(h, d, env, capacity, maxTtl, now);
    }
  }

  /** Over every run the generation in memory is that of the file on disk; it
      grows by one with each replacement and never wraps to zero. */
  lemma StepKeepsGeneration(h: Hash, w: World, ev: Event)
    requires WorldOk(w) && GenerationOk(w) && Legal(w, ev)
    ensures GenerationOk(Step(h, w, ev).world)
    ensures w.mem.Some? && Step(h, w, ev).world.mem.Some? ==>
      w.mem.value.generation <= Step(h, w, ev).world.mem.value.generation <= w.mem.value.generation + 1
  {
    match ev
    case EvOpen(env, capacity, maxTtl, now) => OpenKeepsGeneration(h, w.disk, env, capacity, maxTtl, now);
    case EvClose =>
    case EvPowerLoss(_) =>
    case EvBegin(call, p, a, now) =>
      if w.mem.Some? {
        var m := w.mem.value;
        BeginKeeps(m.slots, m.maxTtl, h, call, a, now);
        var b := Begin(m.slots, m.maxTtl, h, call, a, now);
        PersistKeepsGeneration(h, Memory(b.slots, m.maxTtl, m.generation), w.disk, p);
      }
    case EvComplete(call, p, a, code) =>
      if w.mem.Some? {
        var m := w.mem.value;
        CompleteKeeps(m.slots, h, call, a, code);
        PersistKeepsGeneration(h, Memory(Complete(m.slots, h, call, a, code).slots, m.maxTtl, m.generation), w.disk, p);
      }
    case EvSweep(p, now) =>
      if w.mem.Some? {
        var m := w.mem.value;
        SweepKeeps(m.slots, now);
        PersistKeepsGeneration(h, Memory(Sweep(m.slots, now), m.maxTtl, m.generation), w.disk, p);
      }
  }

  // ---- a missing file that is not missing ----

  lemma FreshHoldsNothing(h: Hash, capacity: nat, maxTtl: u64, f: Fact)
    requires 0 < capacity <= MAX_ENTRIES && maxTtl != 0
    ensures !SnapshotHolds(h, Encode(h, FreshSlots(capacity), maxTtl, 1), f)
  {
    var fresh0, b := Memory(FreshSlots(capacity), maxTtl, 1), Encode(h, FreshSlots(capacity), maxTtl, 1);
    forall m: Memory | IsSnapshot(h, b, m)
      ensures !Holds(m.slots, f)
    {
      SnapshotUnique(h, b, m, fresh0);
    }
  }

  lemma FreshFileUnpins(h: Hash, d: Disk, p: Persist, capacity: nat, maxTtl: u64, f: Fact)
    requires DiskHolds(h, d, f) && 0 < capacity <= MAX_ENTRIES && maxTtl != 0
    ensures var o := OpenFresh(h, d, p, capacity, maxTtl);
      if p.PersistFails? then o.disk == d && o.mem.None? else !DiskHolds(h, o.disk, f)
  {
    FreshHoldsNothing(h, capacity, maxTtl, f);
    var b := Some(Encode(h, FreshSlots(capacity), maxTtl, 1));
    assert !p.PersistFails? ==> b in OpenFresh(h, d, p, capacity, maxTtl).disk.possible;
  }

  lemma BlindOpenUnpins(h: Hash, w: World, env: OpenEnv, capacity: nat, maxTtl: u64, now: u64, f: Fact)
    requires Pinned(h, w, f) && w.mem.None? && now < f.expires
    requires 0 < capacity <= MAX_ENTRIES && maxTtl != 0 && env.lock.LockHeld? && env.statMissing
    ensures Pinned(h, Step(h, w, EvOpen(env, capacity, maxTtl, now)).world, f) <==> env.persist.PersistFails?
  {
    FreshFileUnpins(h, w.disk, env.persist, capacity, maxTtl, f);
    var o := OpenFresh(h, w.disk, env.persist, capacity, maxTtl);
    assert Step(h, w, EvOpen(env, capacity, maxTtl, now)).world == World(o.mem, o.disk, now);
  }

  /** Reopening keeps a binding exactly when `lstat` finds the snapshot, or the
      empty one written in its place does not reach the final path. */
  lemma OpenKeepsBindingIff(h: Hash, w: World, env: OpenEnv, capacity: nat, maxTtl: u64, now: u64, f: Fact)
    requires Pinned(h, w, f) && w.mem.None? && w.clock <= now < f.expires
    requires 0 < capacity <= MAX_ENTRIES && maxTtl != 0 && env.lock.LockHeld?
    ensures Pinned(h, Step(h, w, EvOpen(env, capacity, maxTtl, now)).world, f)
      <==> !env.statMissing || env.persist.PersistFails?
  {
    if env.statMissing {
      BlindOpenUnpins(h, w, env, capacity, maxTtl, now, f);
    } else {
      StepKeepsPinned(h, w, EvOpen(env, capacity, maxTtl, now), f);
    }
  }

  const BLIND_OPEN := OpenEnv(LockHeld, true, None, true, CommitDurable)

  lemma NewOnEmpty(h: Hash, w: World, a: AuthorizedAccess)
    requires w.mem.Some? && w.mem.value.slots == FreshSlots(1) && w.mem.value.generation == 1
    requires AccessValid(a) && a.expiresAt <= w.mem.value.maxTtl
    ensures Step(h, w, EvBegin(HashWorks, CommitDurable, a, 0)).response == Began(StoreOk, BeginOut(BeginNew, 0))
  {
    var t := Sweep(FreshSlots(1), 0);
    assert t[0] == ZERO_ENTRY;
    assert Find(t, a.requestId) == 1 && FirstFree(t) == 0;
  }

  lemma BlindOpenStartsAfresh(h: Hash, w: World, maxTtl: u64)
    requires w.mem.None? && maxTtl != 0
    ensures var o := Step(h, w, EvOpen(BLIND_OPEN, 1, maxTtl, 0));
      o.world.mem == Some(Memory(FreshSlots(1), maxTtl, 1)) && o.response.result == StoreOk
  {
  }

  /** One wrong answer of `lstat` is enough to run a request twice: open, begin
      (NEW), close, reopen with the file reported missing, begin (NEW again). */
  lemma WrongStatRunsTwice(h: Hash, a: AuthorizedAccess)
    requires AccessValid(a)
    ensures var w1 := Step(h, START, EvOpen(BLIND_OPEN, 1, a.expiresAt, 0)).world;
      var begin := EvBegin(HashWorks, CommitDurable, a, 0);
      var w2 := Step(h, Step(h, w1, begin).world, EvClose).world;
      var w3 := Step(h, w2, EvOpen(BLIND_OPEN, 1, a.expiresAt, 0)).world;
      && w2.disk.visible.Some?
      && Step(h, w1, begin).response == Began(StoreOk, BeginOut(BeginNew, 0))
      && Step(h, w3, begin).response == Began(StoreOk, BeginOut(BeginNew, 0))
  {
    BlindOpenStartsAfresh(h, START, a.expiresAt);
    var w1 := Step(h, START, EvOpen(BLIND_OPEN, 1, a.expiresAt, 0)).world;
    NewOnEmpty(h, w1, a);
    var w2 := Step(h, Step(h, w1, EvBegin(HashWorks, CommitDurable, a, 0)).world, EvClose).world;
    BlindOpenStartsAfresh(h, w2, a.expiresAt);
    NewOnEmpty(h, Step(h, w2, EvOpen(BLIND_OPEN, 1, a.expiresAt, 0)).world, a);
  }
}
