/** Exactly what the durable journal answers, writes and keeps, call by call, in
    terms of its slots, its file and the outcome of the write. */
module ReplayAnswers {
  import opened Bytes
  import opened Access
  import opened AccessDigest
  import opened Journal
  import opened Snapshot
  import opened ReplayStore
  import opened ReplayRuns
  import opened ReplayFacts

  // ---- writing ----

  /** What one write of this journal does: the answer, the generation afterwards and
      the disk afterwards. Nothing is written once the generations are used up. */
  ghost predicate Writes(h: Hash, slots: Slots, maxTtl: u64, generation: u64, d: Disk, p: Persist,
                         result: StoreResult, generation': u64, d': Disk)
  {
    if generation == 0xFFFF_FFFF_FFFF_FFFF then result == StoreInvalidArg && generation' == generation && d' == d
    else
      var file := Some(Encode(h, slots, maxTtl, generation + 1));
      match p
      case CommitDurable =>
        result == StoreOk && generation' == generation + 1 && d'.visible == file && d'.possible == {file}
      case CommitUncertain =>
        && result == StoreIo && generation' == generation + 1
        && d'.visible == file && d'.possible == d.possible + {file}
      case PersistFails(fault) =>
        generation' == generation && d' == d && Reports(fault, result)
  }

  /** The code of a fault. */
  predicate Reports(fault: PersistFault, result: StoreResult) {
    && (fault == IoFault ==> result == StoreIo)
    && (fault == HashFault ==> result == StoreCryptoFailed)
    && (fault == MemoryFault ==> result == StoreResourceExhausted)
  }

  lemma PersistAnswers(h: Hash, m: Memory, d: Disk, p: Persist)
    ensures var o := PersistSnapshot(h, m, d, p);
      && Writes(h, m.slots, m.maxTtl, m.generation, d, p, o.result, o.generation, o.disk)
      && (o.uncertain <==> m.generation != U64_MAX && p.CommitUncertain?)
  {
  }

  // ---- sweeping ----

  /** Some taken slot's time is up. */
  ghost predicate SomeLapsed(s: Slots, now: u64) {
    exists k :: 0 <= k < |s| && !s[k].state.Free? && s[k].expires <= now
  }

  /** The slots with everything expired zeroed. */
  ghost predicate IsSwept(s: Slots, now: u64, t: Slots) {
    && |t| == |s|
    && forall k :: 0 <= k < |s| ==> t[k] == if !s[k].state.Free? && s[k].expires <= now then ZERO_ENTRY else s[k]
  }

  lemma SweptIs(s: Slots, now: u64)
    ensures IsSwept(s, now, Sweep(s, now))
    ensures LapsedCount(s, now) > 0 <==> SomeLapsed(s, now)
  {
    LapsedCountIs(s, now);
    if SomeLapsed(s, now) {
      var k :| 0 <= k < |s| && !s[k].state.Free? && s[k].expires <= now;
      assert k in LapsedAt(s, now);
    }
    if LapsedAt(s, now) != {} {
      var k :| k in LapsedAt(s, now);
    }
  }

  /** A sweep drops what has expired, and writes the rest exactly if something had:
      OK then means a durable file of the next generation, a failed write answers
      its fault and leaves the disk alone, an uncertain one answers IO. */
  lemma SweepAnswers(h: Hash, m: Memory, d: Disk, p: Persist, now: u64)
    ensures var o := StoreSweep(h, m, d, p, now);
      && IsSwept(m.slots, now, o.mem.slots) && o.mem.maxTtl == m.maxTtl
      && (SomeLapsed(m.slots, now) ==>
            Writes(h, o.mem.slots, m.maxTtl, m.generation, d, p, o.result, o.mem.generation, o.disk))
      && (!SomeLapsed(m.slots, now) ==> o.result == StoreOk && o.mem.generation == m.generation && o.disk == d)
  {
    SweptIs(m.slots, now);
    PersistAnswers(h, Memory(Sweep(m.slots, now), m.maxTtl, m.generation), d, p);
  }

  /** In one line: with something expired and a generation left, a sweep answers OK
      exactly if its write is durable. */
  lemma SweepOkIff(h: Hash, m: Memory, d: Disk, p: Persist, now: u64)
    requires SomeLapsed(m.slots, now) && m.generation < U64_MAX
    ensures StoreSweep(h, m, d, p, now).result == StoreOk <==> p.CommitDurable?
    ensures p.CommitDurable? ==>
      var o := StoreSweep(h, m, d, p, now);
      o.disk.possible == {Some(Encode(h, o.mem.slots, m.maxTtl, m.generation + 1))}
  {
    SweepAnswers(h, m, d, p, now);
  }

  // ---- beginning ----

  /** Slot `k` holds this id, and its time is not up. */
  predicate LiveAt(s: Slots, k: nat, id: Bytes16, now: u64) {
    k < |s| && !s[k].state.Free? && s[k].id == id && now < s[k].expires
  }

  ghost predicate Unknown(s: Slots, id: Bytes16, now: u64) {
    forall k: nat :: !LiveAt(s, k, id, now)
  }

  ghost predicate Full(s: Slots, now: u64) {
    forall k :: 0 <= k < |s| ==> !s[k].state.Free? && now < s[k].expires
  }

  /** The access may be bound at this time. */
  predicate Bindable(a: AuthorizedAccess, now: u64, maxTtl: u64) {
    AccessValid(a) && now < a.expiresAt <= now + maxTtl
  }

  /** What is refused before the journal is looked at changes nothing. */
  lemma BeginRefusals(h: Hash, m: Memory, d: Disk, call: HashCall, p: Persist, a: AuthorizedAccess, now: u64)
    requires !Bindable(a, now, m.maxTtl) || call.HashFails?
    ensures var o := StoreBegin(h, m, d, call, p, a, now);
      && o.mem == m && o.disk == d && o.out == NO_BEGIN
      && (o.result == StoreExpired <==> AccessValid(a) && a.expiresAt <= now)
      && (o.result == StoreInvalidArg <==> !AccessValid(a) || a.expiresAt > now + m.maxTtl)
      && (o.result == StoreResourceExhausted <==> Bindable(a, now, m.maxTtl) && call.outOfMemory)
      && (o.result == StoreCryptoFailed <==> Bindable(a, now, m.maxTtl) && !call.outOfMemory)
  {
  }

  /** A known live id: CONFLICT if it is bound to another digest, and otherwise its
      state and code. Nothing is written. */
  lemma BeginKnown(h: Hash, m: Memory, d: Disk, p: Persist, a: AuthorizedAccess, now: u64, k: nat)
    requires MemoryOk(m) && Bindable(a, now, m.maxTtl) && LiveAt(m.slots, k, a.requestId, now)
    ensures var o := StoreBegin(h, m, d, HashWorks, p, a, now);
      && IsSwept(m.slots, now, o.mem.slots) && o.mem.generation == m.generation && o.disk == d
      && (if m.slots[k].digest != AccessHash(h, a) then o.result == StoreConflict && o.out == NO_BEGIN
          else
            && o.result == StoreOk && o.out.code == m.slots[k].code
            && o.out.kind == if m.slots[k].state.Completed? then BeginCompleted else BeginInProgress)
  {
    SweptIs(m.slots, now);
    SweepKeeps(m.slots, now);
    FindIs(Sweep(m.slots, now), a.requestId, k);
  }

  /** The swept slots with one free slot bound to the access. */
  ghost predicate IsBound(s: Slots, now: u64, t: Slots, h: Hash, a: AuthorizedAccess) {
    exists k :: 0 <= k < |s| && |t| == |s| && IsSwept(s, now, t[k := ZERO_ENTRY])
      && t[k] == Entry(a.requestId, AccessHash(h, a), a.expiresAt, InProgress, 0)
  }

  /** An unknown id: RESOURCE_EXHAUSTED if all slots are live; otherwise it is bound
      and written. NEW is answered exactly for a durable write; a failed one leaves
      the swept journal, an uncertain one the bound journal, both with no NEW. */
  lemma BeginUnknown(h: Hash, m: Memory, d: Disk, p: Persist, a: AuthorizedAccess, now: u64)
    requires MemoryOk(m) && Bindable(a, now, m.maxTtl) && Unknown(m.slots, a.requestId, now)
    ensures var o := StoreBegin(h, m, d, HashWorks, p, a, now);
      if Full(m.slots, now) then
        o.result == StoreResourceExhausted && o.out == NO_BEGIN && IsSwept(m.slots, now, o.mem.slots) && o.disk == d
      else
        && (o.result == StoreOk <==> m.generation != U64_MAX && p.CommitDurable?)
        && o.out == (if o.result == StoreOk then BeginOut(BeginNew, 0) else NO_BEGIN)
        && (if m.generation == U64_MAX || p.PersistFails? then
              && IsSwept(m.slots, now, o.mem.slots) && o.disk == d && o.mem.generation == m.generation
              && (m.generation == U64_MAX ==> o.result == StoreInvalidArg)
              && (m.generation != U64_MAX ==> Reports(p.fault, o.result))
            else
              && IsBound(m.slots, now, o.mem.slots, h, a)
              && Writes(h, o.mem.slots, m.maxTtl, m.generation, d, p, o.result, o.mem.generation, o.disk))
  {
    SweptIs(m.slots, now);
    UnknownIsNotFound(m.slots, a.requestId, now);
    FullIff(m.slots, now);
    if !Full(m.slots, now) {
      BindUnknown(h, m, d, p, a, now);
    }
  }

  lemma UnknownIsNotFound(s: Slots, id: Bytes16, now: u64)
    requires Unknown(s, id, now)
    ensures Find(Sweep(s, now), id) == |s|
  {
    var k := Find(Sweep(s, now), id);
    if k < |s| {
      assert LiveAt(s, k, id, now);
    }
  }

  lemma FullIff(s: Slots, now: u64)
    ensures Full(s, now) <==> FirstFree(Sweep(s, now)) == |s|
  {
    var t := Sweep(s, now);
    assert forall k :: 0 <= k < |s| ==> (t[k].state.Free? <==> !(!s[k].state.Free? && now < s[k].expires));
  }

  lemma BindUnknown(h: Hash, m: Memory, d: Disk, p: Persist, a: AuthorizedAccess, now: u64)
    requires MemoryOk(m) && Bindable(a, now, m.maxTtl)
    requires Find(Sweep(m.slots, now), a.requestId) == |m.slots| && FirstFree(Sweep(m.slots, now)) < |m.slots|
    ensures var b := Begin(m.slots, m.maxTtl, h, HashWorks, a, now);
      && b.result == ReplayOk && b.out == BeginOut(BeginNew, 0) && |b.slots| == |m.slots|
      && IsBound(m.slots, now, b.slots, h, a)
      && Forget(b.slots, a.requestId) == Sweep(m.slots, now)
  {
    var t := Sweep(m.slots, now);
    var f := FirstFree(t);
    var b := Begin(m.slots, m.maxTtl, h, HashWorks, a, now);
    SweptIs(m.slots, now);
    SweepKeeps(m.slots, now);
    assert EntryOk(t[f]);
    assert b.slots == t[f := Opened(t[f], h, a)];
    assert b.slots[f := ZERO_ENTRY] == t;
    ForgetUndoes(m, h, HashWorks, a, now);
  }

  // ---- completing ----

  /** Slot `k` holds this id, expired or not. */
  predicate HeldAt(s: Slots, k: nat, id: Bytes16) { k < |s| && !s[k].state.Free? && s[k].id == id }

  /** An invalid access, a digest that cannot be computed, and an id that no slot
      holds: nothing changes. */
  lemma CompleteRefusals(h: Hash, m: Memory, d: Disk, call: HashCall, p: Persist, a: AuthorizedAccess, code: i32)
    requires !AccessValid(a) || call.HashFails? || forall k: nat :: !HeldAt(m.slots, k, a.requestId)
    ensures var o := StoreComplete(h, m, d, call, p, a, code);
      && o.mem == m && o.disk == d
      && o.result ==
           (if !AccessValid(a) then StoreInvalidArg
            else if call.HashWorks? then StoreNotFound
            else if call.outOfMemory then StoreResourceExhausted
            else StoreCryptoFailed)
  {
    var f := Find(m.slots, a.requestId);
    assert f < |m.slots| ==> HeldAt(m.slots, f, a.requestId);
  }

  /** A held id that is bound to another digest, or has its result: CONFLICT unless
      digest and code are the recorded ones. Nothing changes. */
  lemma CompleteSettled(h: Hash, m: Memory, d: Disk, p: Persist, a: AuthorizedAccess, code: i32, k: nat)
    requires MemoryOk(m) && AccessValid(a) && HeldAt(m.slots, k, a.requestId)
    requires m.slots[k].digest != AccessHash(h, a) || m.slots[k].state.Completed?
    ensures var o := StoreComplete(h, m, d, HashWorks, p, a, code);
      && o.mem == m && o.disk == d
      && o.result ==
           (if m.slots[k].digest == AccessHash(h, a) && m.slots[k].code == code then StoreOk else StoreConflict)
  {
    FindIs(m.slots, a.requestId, k);
  }

  /** The deciding complete: the entry in progress takes the code, and is written;
      the answer is that of the write, and memory keeps the code in any case. */
  lemma CompleteDecides(h: Hash, m: Memory, d: Disk, p: Persist, a: AuthorizedAccess, code: i32, k: nat)
    requires MemoryOk(m) && AccessValid(a) && HeldAt(m.slots, k, a.requestId)
    requires m.slots[k].digest == AccessHash(h, a) && m.slots[k].state.InProgress?
    ensures var o := StoreComplete(h, m, d, HashWorks, p, a, code);
      && o.mem.slots == m.slots[k := Entry(a.requestId, AccessHash(h, a), m.slots[k].expires, Completed, code)]
      && o.mem.maxTtl == m.maxTtl
      && Writes(h, o.mem.slots, m.maxTtl, m.generation, d, p, o.result, o.mem.generation, o.disk)
  {
    FindIs(m.slots, a.requestId, k);
    PersistAnswers(h, Memory(Complete(m.slots, h, HashWorks, a, code).slots, m.maxTtl, m.generation), d, p);
  }

  // ---- opening ----

  /** What a refused open answers, without touching the disk. */
  lemma OpenRefusals(h: Hash, d: Disk, env: OpenEnv, capacity: nat, maxTtl: u64, now: u64)
    ensures var o := StoreOpen(h, d, env, capacity, maxTtl, now);
      var valid := 1 <= capacity <= 4096 && maxTtl >= 1;
      var loads := valid && env.lock.LockHeld? && !env.statMissing;
      var size := 80 + 72 * capacity;
      && (!valid ==> o == OpenOut(StoreInvalidArg, 0, None, d))
      && (valid && env.lock.LockFileFails? ==> o == OpenOut(StoreIo, 0, None, d))
      && (valid && env.lock.LockBusy? ==> o == OpenOut(StoreLocked, 0, None, d))
      && (loads && (d.visible.None? || env.read == Some(ReadGone)) ==> o == OpenOut(StoreNotFound, 0, None, d))
      && (loads && d.visible.Some? && env.read != Some(ReadGone) && |d.visible.value| != size ==>
            o == OpenOut(StoreCorrupt, 0, None, d))
      && (loads && d.visible.Some? && |d.visible.value| == size && env.read == Some(ReadIo) ==>
            o == OpenOut(StoreIo, 0, None, d))
      && (loads && d.visible.Some? && |d.visible.value| == size && env.read == Some(ReadMemory) ==>
            o == OpenOut(StoreResourceExhausted, 0, None, d))
  {
  }

  /** The generation after a write. */
  function Written(generation: u64, p: Persist): u64 {
    if generation == U64_MAX || p.PersistFails? then generation else generation + 1
  }

  /** Without a file an empty journal of generation 1 is written; the store is open
      exactly if that write is durable. */
  lemma OpenFreshAnswers(h: Hash, d: Disk, env: OpenEnv, capacity: nat, maxTtl: u64, now: u64)
    requires 1 <= capacity <= 4096 && maxTtl >= 1 && env.lock.LockHeld? && env.statMissing
    ensures var o := StoreOpen(h, d, env, capacity, maxTtl, now);
      && o.recovered == 0
      && (o.result == StoreOk <==> env.persist.CommitDurable?)
      && o.mem == (if o.result == StoreOk then Some(Memory(seq(capacity, _ => ZERO_ENTRY), maxTtl, 1)) else None)
      && Writes(h, FreshSlots(capacity), maxTtl, 0, d, env.persist, o.result, Written(0, env.persist), o.disk)
  {
    PersistAnswers(h, Memory(FreshSlots(capacity), maxTtl, 0), d, env.persist);
  }

  /** A file that is loaded: the store is open exactly if it is accepted and, where
      something had expired, the rest could be written durably. */
  lemma OpenLoadedAnswers(h: Hash, d: Disk, env: OpenEnv, capacity: nat, maxTtl: u64, now: u64)
    requires 1 <= capacity <= 4096 && maxTtl >= 1 && env.lock.LockHeld? && !env.statMissing && env.read.None?
    requires d.visible.Some? && |d.visible.value| == 80 + 72 * capacity
    ensures var r := Decode(h, env.hashes, d.visible.value, capacity, maxTtl, now);
      var o := StoreOpen(h, d, env, capacity, maxTtl, now);
      && (r.DecodeFails? ==> o == OpenOut(r.error, 0, None, d))
      && (r.Decoded? && r.expired == 0 ==>
            o == OpenOut(StoreOk, r.recovered, Some(Memory(r.slots, maxTtl, r.generation)), d))
      && (r.Decoded? && r.expired > 0 ==>
            && o.recovered == r.recovered
            && Writes(h, r.slots, maxTtl, r.generation, d, env.persist, o.result, Written(r.generation, env.persist),
                      o.disk)
            && o.mem == (if o.result == StoreOk then Some(Memory(r.slots, maxTtl, r.generation + 1)) else None))
  {
    var r := Decode(h, env.hashes, d.visible.value, capacity, maxTtl, now);
    if r.Decoded? {
      var m := Memory(r.slots, maxTtl, r.generation);
      PersistAnswers(h, m, d, env.persist);
    }
  }

  // ---- calls at the wrong time ----

  /** A closed store takes no requests and an open one cannot be opened again; both
      answer INVALID_ARG and leave memory and disk alone. */
  lemma WrongTimeAnswers(h: Hash, w: World, ev: Event)
    requires !ev.EvClose? && !ev.EvPowerLoss? && (ev.EvOpen? <==> w.mem.Some?)
    ensures var o := Step(h, w, ev);
      && o.world.mem == w.mem && o.world.disk == w.disk && o.response.result == StoreInvalidArg
      && (ev.EvBegin? ==> o.response.out == NO_BEGIN) && (ev.EvOpen? ==> o.response.recovered == 0)
  {
  }

  /** The steps of a run are the calls: time passes, and memory, disk and answer are
      those of the store operation. */
  lemma StepsAreCalls(h: Hash, w: World, ev: Event)
    requires ev.EvClose? || ev.EvPowerLoss? || (ev.EvOpen? <==> w.mem.None?)
    ensures var o := Step(h, w, ev);
      match ev
      case EvOpen(env, capacity, maxTtl, now) =>
        var r := StoreOpen(h, w.disk, env, capacity, maxTtl, now);
        o == StepOut(World(r.mem, r.disk, now), Reopened(r.result, r.recovered))
      case EvClose => o == StepOut(World(None, w.disk, w.clock), NoResponse)
      case EvPowerLoss(found) =>
        && o.world.mem == None && o.world.clock == w.clock
        && o.world.disk.visible == found && o.world.disk.possible == {found}
      case EvBegin(call, p, a, now) =>
        var r := StoreBegin(h, w.mem.value, w.disk, call, p, a, now);
        o == StepOut(World(Some(r.mem), r.disk, now), Began(r.result, r.out))
      case EvComplete(call, p, a, code) =>
        var r := StoreComplete(h, w.mem.value, w.disk, call, p, a, code);
        o == StepOut(World(Some(r.mem), r.disk, w.clock), Finished(r.result))
      case EvSweep(p, now) =>
        var r := StoreSweep(h, w.mem.value, w.disk, p, now);
        o == StepOut(World(Some(r.mem), r.disk, now), Finished(r.result))
  {
  }
}
