/** Exactly when reopening can make a bound request run a second time. */
module ReplayTwice {
  import opened Bytes
  import opened Access
  import opened AccessDigest
  import opened Journal
  import opened Snapshot
  import opened ReplayStore
  import opened ReplayRuns
  import opened ReplayFacts
  import opened ReplayRecovery

  /** A legal run from `w` ends with a begin of the fact's id, before its expiry,
      that is answered NEW. */
  ghost predicate NewAgain(h: Hash, w: World, evs: seq<Event>, f: Fact) {
    && evs != [] && LegalRun(h, w, evs)
    && (var n := |evs| - 1;
        && evs[n].EvBegin? && evs[n].access.requestId == f.id && evs[n].now < f.expires
        && ResponseAt(h, w, evs, n).out.kind == BeginNew)
  }

  /** Nothing that may happen from `w` on runs the request again. */
  ghost predicate NeverAgain(h: Hash, w: World, f: Fact) {
    forall evs: seq<Event> :: !NewAgain(h, w, evs, f)
  }

  lemma PinnedNeverAgain(h: Hash, w: World, f: Fact)
    requires Pinned(h, w, f)
    ensures NeverAgain(h, w, f)
  {
    forall evs: seq<Event>
      ensures !NewAgain(h, w, evs, f)
    {
      if NewAgain(h, w, evs, f) {
        NewAgainIsUnpinned(h, w, evs, f);
      }
    }
  }

  lemma NewAgainIsUnpinned(h: Hash, w: World, evs: seq<Event>, f: Fact)
    requires WorldOk(w) && NewAgain(h, w, evs, f)
    ensures !Pinned(h, w, f)
  {
    if Pinned(h, w, f) {
      var n := |evs| - 1;
      AfterStep(h, w, evs, n);
      assert evs[..0] == [];
      PinnedLater(h, w, evs, 0, n, f);
      PinnedIsNotNew(h, After(h, w, evs, n), evs[n], f);
    }
  }

  // ---- a fresh journal forgets ----

  /** An access with this id that lives for one more millisecond. */
  function Brief(id: Bytes16, now: u64): AuthorizedAccess
    requires now < U64_MAX
  {
    AuthorizedAccess(ONES32, Cid(SHA256_ALGORITHM, 0, ONES32), READ, 0, 0, ONES32, id, now + 1)
  }

  lemma BriefIsValid(id: Bytes16, now: u64)
    requires Nonzero(id) && now < U64_MAX
    ensures AccessValid(Brief(id, now))
  {
    assert ONES32[0] == 1;
  }

  lemma FreshFinds(capacity: nat, id: Bytes16, now: u64)
    requires 0 < capacity
    ensures var t := Sweep(FreshSlots(capacity), now);
      t == FreshSlots(capacity) && Find(t, id) == |t| && FirstFree(t) == 0
  {
    var t := Sweep(FreshSlots(capacity), now);
    assert t[0] == ZERO_ENTRY;
  }

  lemma FreshIsNew(h: Hash, w: World, id: Bytes16, now: u64)
    requires w.mem.Some? && w.mem.value.maxTtl != 0 && w.mem.value.generation == 1
    requires 0 < |w.mem.value.slots| && w.mem.value.slots == FreshSlots(|w.mem.value.slots|)
    requires Nonzero(id) && now < U64_MAX
    ensures Step(h, w, EvBegin(HashWorks, CommitDurable, Brief(id, now), now)).response
      == Began(StoreOk, BeginOut(BeginNew, 0))
  {
    BriefIsValid(id, now);
    FreshFinds(|w.mem.value.slots|, id, now);
  }

  lemma {:induction false} FreshCounts(capacity: nat, now: u64)
    ensures LapsedCount(FreshSlots(capacity), now) == 0
  {
    if capacity == 0 {
    } else {
      var s := FreshSlots(capacity);
      FreshCounts(capacity - 1, now);
      assert s[..capacity - 1] == FreshSlots(capacity - 1);
    }
  }

  /** The file of a fresh journal opens as a fresh journal. */
  lemma FreshReopens(h: Hash, w: World, capacity: nat, maxTtl: u64, now: u64)
    requires 0 < capacity <= MAX_ENTRIES && maxTtl != 0 && w.mem.None?
    requires w.disk.visible == Some(Encode(h, FreshSlots(capacity), maxTtl, 1))
    ensures Step(h, w, EvOpen(REOPEN, capacity, maxTtl, now)).world
      == World(Some(Memory(FreshSlots(capacity), maxTtl, 1)), w.disk, now)
  {
    var m := Memory(FreshSlots(capacity), maxTtl, 1);
    assert IsSnapshot(h, w.disk.visible.value, m);
    FreshCounts(capacity, now);
    assert Sweep(m.slots, now) == m.slots;
    ReopenIff(h, w.disk, REOPEN, m, now);
  }

  // ---- the blind open ----

  /** What an open that misses the file leaves. */
  lemma BlindOpen(h: Hash, w: World, env: OpenEnv, capacity: nat, maxTtl: u64, now: u64)
    requires w.mem.None? && 0 < capacity <= MAX_ENTRIES && maxTtl != 0 && env.lock.LockHeld?
    requires env.statMissing && !env.persist.PersistFails?
    ensures var v := Step(h, w, EvOpen(env, capacity, maxTtl, now)).world;
      && v.clock == now && v.disk.visible == Some(Encode(h, FreshSlots(capacity), maxTtl, 1))
      && v.mem == if env.persist.CommitDurable? then Some(Memory(FreshSlots(capacity), maxTtl, 1)) else None
  {
  }

  lemma AgainAtOnce(h: Hash, v: World, capacity: nat, f: Fact)
    requires v.mem.Some? && v.mem.value.maxTtl != 0 && v.mem.value.generation == 1
    requires 0 < capacity && v.mem.value.slots == FreshSlots(capacity)
    requires Nonzero(f.id) && v.clock < f.expires
    ensures !NeverAgain(h, v, f)
  {
    var evs := [EvBegin(HashWorks, CommitDurable, Brief(f.id, v.clock), v.clock)];
    assert evs[..0] == [];
    FreshIsNew(h, v, f.id, v.clock);
    assert NewAgain(h, v, evs, f);
  }

  lemma AgainAfterReopen(h: Hash, v: World, capacity: nat, maxTtl: u64, f: Fact)
    requires v.mem.None? && 0 < capacity <= MAX_ENTRIES && maxTtl != 0
    requires v.disk.visible == Some(Encode(h, FreshSlots(capacity), maxTtl, 1))
    requires Nonzero(f.id) && v.clock < f.expires
    ensures !NeverAgain(h, v, f)
  {
    var open := EvOpen(REOPEN, capacity, maxTtl, v.clock);
    var begin := EvBegin(HashWorks, CommitDurable, Brief(f.id, v.clock), v.clock);
    var evs := [open, begin];
    assert evs[..0] == [] && evs[..1] == [open] && [] + [open] == [open];
    FreshReopens(h, v, capacity, maxTtl, v.clock);
    RunOne(h, v, [], open);
    FreshIsNew(h, Step(h, v, open).world, f.id, v.clock);
    assert NewAgain(h, v, evs, f);
  }

  lemma PinnedIdIsNonzero(h: Hash, w: World, f: Fact)
    requires Pinned(h, w, f)
    ensures Nonzero(f.id)
  {
    assert w.disk.visible in w.disk.possible;
    var m: Memory :| IsSnapshot(h, w.disk.visible.value, m) && Holds(m.slots, f);
    var k :| 0 <= k < |m.slots| && Matches(m.slots[k], f);
    assert EntryOk(m.slots[k]);
  }

  /** Reopening a store in which a request is bound: nothing that may follow runs
      it again before its expiry, exactly if `lstat` finds the snapshot, or the
      empty one written in its place does not reach the final path. */
  lemma RunsOnceIff(h: Hash, w: World, env: OpenEnv, capacity: nat, maxTtl: u64, now: u64, f: Fact)
    requires Pinned(h, w, f) && w.mem.None? && w.clock <= now < f.expires
    requires 0 < capacity <= MAX_ENTRIES && maxTtl != 0 && env.lock.LockHeld?
    ensures NeverAgain(h, Step(h, w, EvOpen(env, capacity, maxTtl, now)).world, f)
      <==> !env.statMissing || env.persist.PersistFails?
  {
    var v := Step(h, w, EvOpen(env, capacity, maxTtl, now)).world;
    OpenKeepsBindingIff(h, w, env, capacity, maxTtl, now, f);
    if !env.statMissing || env.persist.PersistFails? {
      PinnedNeverAgain(h, v, f);
    } else {
      PinnedIdIsNonzero(h, w, f);
      BlindOpen(h, w, env, capacity, maxTtl, now);
      if env.persist.CommitDurable? {
        AgainAtOnce(h, v, capacity, f);
      } else {
        AgainAfterReopen(h, v, capacity, maxTtl, f);
      }
    }
  }
}
