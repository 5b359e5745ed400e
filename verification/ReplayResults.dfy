/** When a result that was answered is durable, and runs in which it is not. */
module ReplayResults {
  import opened Bytes
  import opened Access
  import opened AccessDigest
  import opened Journal
  import opened Snapshot
  import opened ReplayStore
  import opened ReplayRuns
  import opened ReplayFacts
  import opened ReplayRecovery
  import opened ReplayDurability

  // ---- the deciding call ----

  /** The complete call finds its entry in progress and bound to its access. */
  ghost predicate Decides(h: Hash, w: World, ev: Event) {
    && ev.EvComplete? && IsInProgress(w, ev.access.requestId)
    && AccessValid(ev.access) && ev.call.HashWorks?
    && w.mem.value.slots[Find(w.mem.value.slots, ev.access.requestId)].digest == AccessHash(h, ev.access)
  }

  function FactOf(h: Hash, w: World, ev: Event): Fact
    requires ev.EvComplete? && w.mem.Some?
    requires Find(w.mem.value.slots, ev.access.requestId) < |w.mem.value.slots|
  {
    Outcome(h, ev.access, ExpiryOf(w, ev.access.requestId), ev.code)
  }

  /** Before the deciding call its result is not durable. */
  lemma UndecidedIsNotDurable(h: Hash, w: World, ev: Event)
    requires WorldOk(w) && InSync(h, w) && Decides(h, w, ev)
    ensures !DiskHolds(h, w.disk, FactOf(h, w, ev))
  {
    var t, f := w.mem.value.slots, FactOf(h, w, ev);
    var k := Find(t, f.id);
    var b := w.disk.visible.value;
    var m: Memory :| IsSnapshot(h, b, m) && Agrees(m.slots, t, w.clock);
    forall m': Memory | IsSnapshot(h, b, m')
      ensures !Holds(m'.slots, f)
    {
      SnapshotUnique(h, b, m, m');
      assert SlotAgrees(m.slots[k], t[k], w.clock);
      FindIs(m.slots, f.id, k);
    }
  }

  /** The deciding call leaves its result in memory; it answers OK exactly if it
      wrote durably, and exactly then the result is durable. */
  lemma DecidingCall(h: Hash, w: World, ev: Event)
    requires WorldOk(w) && InSync(h, w) && Decides(h, w, ev)
    ensures var v, f := Step(h, w, ev).world, FactOf(h, w, ev);
      && v.mem.Some? && Holds(v.mem.value.slots, f) && v.clock == w.clock
      && (Step(h, w, ev).response.result == StoreOk <==> WroteDurably(h, w, ev))
      && (DiskHolds(h, v.disk, f) <==> WroteDurably(h, w, ev))
  {
    var m, f := w.mem.value, FactOf(h, w, ev);
    var k := Find(m.slots, f.id);
    var c := Complete(m.slots, h, ev.call, ev.access, ev.code);
    assert Matches(c.slots[k], f);
    UndecidedIsNotDurable(h, w, ev);
    UnsettledStaysOpen(h, w, ev, f);
    PersistSettles(h, Memory(c.slots, m.maxTtl, m.generation), w.disk, ev.persist);
  }

  lemma RepeatAnswers(h: Hash, w: World, ev: Event, f: Fact)
    requires WorldOk(w) && w.mem.Some? && Holds(w.mem.value.slots, f) && ev.EvComplete? && f.terminal == Some(ev.code)
    requires ev.access.requestId == f.id && AccessHash(h, ev.access) == f.digest
    requires AccessValid(ev.access) && ev.call.HashWorks?
    ensures Step(h, w, ev) == StepOut(w, Finished(StoreOk))
  {
    var k :| 0 <= k < |w.mem.value.slots| && Matches(w.mem.value.slots[k], f);
    FindIs(w.mem.value.slots, f.id, k);
  }

  lemma BeginReports(h: Hash, w: World, ev: Event, f: Fact)
    requires WorldOk(w) && w.mem.Some? && Holds(w.mem.value.slots, f) && ev.EvBegin? && f.terminal.Some?
    requires ev.access.requestId == f.id && AccessHash(h, ev.access) == f.digest && ev.now < f.expires
    requires AccessValid(ev.access) && ev.call.HashWorks?
    requires ev.now < ev.access.expiresAt && ev.access.expiresAt - ev.now <= w.mem.value.maxTtl
    ensures Step(h, w, ev).response == Began(StoreOk, BeginOut(BeginCompleted, f.terminal.value))
    ensures Step(h, w, ev).world.disk == w.disk
  {
    var s := w.mem.value.slots;
    var k :| 0 <= k < |s| && Matches(s[k], f);
    SweepKeeps(s, ev.now);
    assert Sweep(s, ev.now)[k] == s[k];
    FindIs(Sweep(s, ev.now), f.id, k);
  }

  // ---- one session ----

  predicate InSession(ev: Event) { !ev.EvClose? && !ev.EvPowerLoss? }

  ghost predicate Remembers(w: World, f: Fact) { w.mem.Some? && Holds(w.mem.value.slots, f) }

  lemma StepRemembers(h: Hash, w: World, ev: Event, f: Fact)
    requires WorldOk(w) && Remembers(w, f) && InSession(ev) && Step(h, w, ev).world.clock < f.expires
    ensures Remembers(Step(h, w, ev).world, f)
  {
    var m := w.mem.value;
    match ev
    case EvOpen(_, _, _, _) =>
    case EvBegin(call, _, a, now) =>
      var b := Begin(m.slots, m.maxTtl, h, call, a, now);
      BeginHolds(m.slots, m.maxTtl, h, call, a, now, f);
      if b.out.kind == BeginNew {
        ForgetHolds(b.slots, a.requestId, f);
      }
    case EvComplete(call, _, a, code) => CompleteHolds(m.slots, h, call, a, code, f);
    case EvSweep(_, now) => SweepHolds(m.slots, f, now);
  }

  /** From `w` to `v`: a fact in memory that lasts until `v` is in memory there. */
  ghost predicate Recalls(w: World, v: World, f: Fact) {
    w.clock <= v.clock && (Remembers(w, f) && v.clock < f.expires ==> Remembers(v, f))
  }

  lemma RecallsNext(h: Hash, w: World, evs: seq<Event>, k: nat, f: Fact)
    requires WorldOk(w) && LegalRun(h, w, evs) && k < |evs| && InSession(evs[k])
    ensures Recalls(After(h, w, evs, k), After(h, w, evs, k + 1), f)
  {
    AfterStep(h, w, evs, k);
    var v := After(h, w, evs, k);
    if Remembers(v, f) && Step(h, v, evs[k]).world.clock < f.expires {
      StepRemembers(h, v, evs[k], f);
    }
  }

  lemma {:induction false} RecallsAlong(ws: seq<World>, i: nat, j: nat, f: Fact)
    requires i <= j < |ws| && forall k :: i <= k < j ==> Recalls(ws[k], ws[k + 1], f)
    ensures Recalls(ws[i], ws[j], f)
    decreases j - i
  {
    if i == j {
    } else {
      RecallsAlong(ws, i, j - 1, f);
      assert Recalls(ws[j - 1], ws[j - 1 + 1], f);
    }
  }

  lemma SessionRemembers(h: Hash, w: World, evs: seq<Event>, i: nat, j: nat, f: Fact)
    requires WorldOk(w) && LegalRun(h, w, evs) && i <= j <= |evs| && Remembers(After(h, w, evs, i), f)
    requires (forall k :: i <= k < j ==> InSession(evs[k])) && After(h, w, evs, j).clock < f.expires
    ensures Remembers(After(h, w, evs, j), f)
  {
    var ws := seq(|evs| + 1, k requires 0 <= k <= |evs| => After(h, w, evs, k));
    forall k | i <= k < j
      ensures Recalls(ws[k], ws[k + 1], f)
    {
      RecallsNext(h, w, evs, k, f);
    }
    RecallsAlong(ws, i, j, f);
  }

  // ---- when an answer can be relied on ----

  /** The event asks about the access of a deciding call: complete with the same
      code, or a live begin. */
  ghost predicate AsksAgain(w: World, ev: Event, decided: Event)
    requires decided.EvComplete?
  {
    match ev
    case EvComplete(call, _, a, code) => a == decided.access && code == decided.code && call.HashWorks?
    case EvBegin(call, _, a, now) =>
      && a == decided.access && call.HashWorks? && now < a.expiresAt
      && w.mem.Some? && a.expiresAt - now <= w.mem.value.maxTtl
    case _ => false
  }

  /** The event is told that the request has completed with this code. */
  predicate IsToldResult(r: Response, code: i32) {
    r == Finished(StoreOk) || r == Began(StoreOk, BeginOut(BeginCompleted, code))
  }

  lemma AnsweredFromMemory(h: Hash, w: World, ev: Event, decided: Event, f: Fact)
    requires WorldOk(w) && Legal(w, ev) && Remembers(w, f) && decided.EvComplete? && AsksAgain(w, ev, decided)
    requires AccessValid(decided.access) && Step(h, w, ev).world.clock < f.expires
    requires f.id == decided.access.requestId && f.digest == AccessHash(h, decided.access)
      && f.terminal == Some(decided.code)
    ensures IsToldResult(Step(h, w, ev).response, decided.code) && Step(h, w, ev).world.disk == w.disk
  {
    if ev.EvComplete? {
      RepeatAnswers(h, w, ev, f);
    } else {
      BeginReports(h, w, ev, f);
    }
  }

  /** When an answer can be relied on. After a deciding complete call, through any
      closes, power losses and reopenings before the expiry, the result is durable
      exactly if that call answered OK, or a later write, an open's too, ended
      durably with the result in it, or a power loss settled on a file that has it.
      In the session of the call the result is in memory regardless. */
  lemma OkIsDurableIff(h: Hash, w: World, evs: seq<Event>, i: nat, j: nat)
    requires WorldOk(w) && InSync(h, w) && LegalRun(h, w, evs) && i < j <= |evs|
    requires Decides(h, After(h, w, evs, i), evs[i])
    requires After(h, w, evs, j).clock < ExpiryOf(After(h, w, evs, i), evs[i].access.requestId)
    ensures var f := FactOf(h, After(h, w, evs, i), evs[i]);
      && (Pinned(h, After(h, w, evs, j), f) <==>
            ResponseAt(h, w, evs, i).result == StoreOk || true in Settlings(h, w, evs, f)[i + 1..j])
      && ((forall k :: i < k < j ==> InSession(evs[k])) ==> Remembers(After(h, w, evs, j), f))
  {
    var v, f := After(h, w, evs, i), FactOf(h, After(h, w, evs, i), evs[i]);
    AfterStep(h, w, evs, i);
    AfterInSync(h, w, evs, i);
    DecidingCall(h, v, evs[i]);
    DurableIff(h, w, evs, i + 1, j, f);
    AfterOk(h, w, evs, j);
    AfterInSync(h, w, evs, j);
    if DiskHolds(h, After(h, w, evs, j).disk, f) {
      DurableIsPinned(h, After(h, w, evs, j), f);
    }
    if forall k :: i < k < j ==> InSession(evs[k]) {
      SessionRemembers(h, w, evs, i + 1, j, f);
    }
  }

  lemma AfterOk(h: Hash, w: World, evs: seq<Event>, j: nat)
    requires WorldOk(w) && LegalRun(h, w, evs) && j <= |evs|
    ensures WorldOk(After(h, w, evs, j))
  {
    LegalPrefix(h, w, evs, j);
    RunKeepsWorld(h, w, evs[..j]);
  }

  /** Whoever asks again while the result is in memory is told it and nothing is
      written, whether or not it is durable. */
  lemma ToldRegardless(h: Hash, w: World, evs: seq<Event>, i: nat, j: nat)
    requires WorldOk(w) && LegalRun(h, w, evs) && i < j < |evs|
    requires Decides(h, After(h, w, evs, i), evs[i])
    requires Remembers(After(h, w, evs, j), FactOf(h, After(h, w, evs, i), evs[i]))
    requires AsksAgain(After(h, w, evs, j), evs[j], evs[i])
    requires After(h, w, evs, j + 1).clock < ExpiryOf(After(h, w, evs, i), evs[i].access.requestId)
    ensures IsToldResult(ResponseAt(h, w, evs, j), evs[i].code)
    ensures After(h, w, evs, j + 1).disk == After(h, w, evs, j).disk
  {
    AfterStep(h, w, evs, j);
    AnsweredFromMemory(h, After(h, w, evs, j), evs[j], evs[i], FactOf(h, After(h, w, evs, i), evs[i]));
  }

  // ---- a result that never reached the disk ----

  /** Whoever reopens a file that agrees with `t` finds what `t` has in progress
      and has not expired, still in progress. */
  lemma ReopenShowsProgress(h: Hash, d: Disk, env: OpenEnv, m: Memory, now: u64, t: Slots, clock: u64, k: nat)
    requires d.visible.Some? && IsSnapshot(h, d.visible.value, m) && Undisturbed(env)
    requires Agrees(m.slots, t, clock) && k < |t| && t[k].state.InProgress? && now < t[k].expires
    ensures var o := StoreOpen(h, d, env, |m.slots|, m.maxTtl, now);
      o.result == StoreOk ==> o.mem.Some? && k < |o.mem.value.slots| && o.mem.value.slots[k] == t[k]
  {
    assert SlotAgrees(m.slots[k], t[k], clock);
    ReopenIff(h, d, env, m, now);
  }

  /** From any running store: a deciding call whose write fails answers the
      fault, its repeat answers OK, the disk is as before, and whoever opens the
      file again, undisturbed and before the expiry, finds the request still in
      progress in its slot. */
  lemma LostResult(h: Hash, w: World, fault: PersistFault, p: Persist, a: AuthorizedAccess, code: i32,
                   env: OpenEnv, now: u64) returns (m: Memory)
    requires WorldOk(w) && InSync(h, w) && w.mem.Some? && w.mem.value.generation != U64_MAX
    requires Decides(h, w, EvComplete(HashWorks, PersistFails(fault), a, code))
    requires Undisturbed(env) && now < ExpiryOf(w, a.requestId)
    ensures w.disk.visible.Some? && IsSnapshot(h, w.disk.visible.value, m)
    ensures var first := Step(h, w, EvComplete(HashWorks, PersistFails(fault), a, code));
      var again := Step(h, first.world, EvComplete(HashWorks, p, a, code));
      var reopened := Step(h, Step(h, again.world, EvClose).world, EvOpen(env, |m.slots|, m.maxTtl, now));
      var k := Find(w.mem.value.slots, a.requestId);
      && first.response == Finished(FaultResult(fault))
      && again.response == Finished(StoreOk)
      && again.world.disk == w.disk
      && (reopened.response.result == StoreOk ==>
            && reopened.world.mem.Some? && k < |reopened.world.mem.value.slots|
            && reopened.world.mem.value.slots[k] == w.mem.value.slots[k])
  {
    var ev := EvComplete(HashWorks, PersistFails(fault), a, code);
    DecidingCall(h, w, ev);
    var v, t := Step(h, w, ev).world, w.mem.value.slots;
    CompleteKeeps(t, h, HashWorks, a, code);
    RepeatAnswers(h, v, EvComplete(HashWorks, p, a, code), FactOf(h, w, ev));
    m :| IsSnapshot(h, w.disk.visible.value, m) && Agrees(m.slots, t, w.clock);
    ReopenShowsProgress(h, w.disk, env, m, now, t, w.clock, Find(t, a.requestId));
  }

  // ---- whole runs ----

  /** The slots of a journal of one entry, bound to `a`, and completed. */
  function BoundTo(h: Hash, a: AuthorizedAccess): Slots { [Opened(ZERO_ENTRY, h, a)] }

  function DoneWith(h: Hash, a: AuthorizedAccess, code: i32): Slots { [Closed(Opened(ZERO_ENTRY, h, a), code)] }

  /** A store of one request in progress, as it was written. */
  function Bound(h: Hash, a: AuthorizedAccess): World {
    var b := Some(Encode(h, BoundTo(h, a), a.expiresAt, 2));
    World(Some(Memory(BoundTo(h, a), a.expiresAt, 2)), Disk(b, {b}), 0)
  }

  /** Open and begin from nothing. */
  lemma OpenAndBegin(h: Hash, a: AuthorizedAccess)
    requires AccessValid(a)
    ensures var w := Step(h, START, EvOpen(BLIND_OPEN, 1, a.expiresAt, 0)).world;
      Step(h, w, EvBegin(HashWorks, CommitDurable, a, 0))
        == StepOut(Bound(h, a), Began(StoreOk, BeginOut(BeginNew, 0)))
  {
    BlindOpenStartsAfresh(h, START, a.expiresAt);
    var t := Sweep(FreshSlots(1), 0);
    assert t[0] == ZERO_ENTRY;
    assert Find(t, a.requestId) == 1 && FirstFree(t) == 0;
    assert t[0 := Opened(t[0], h, a)] == BoundTo(h, a);
  }

  /** Completing in memory. */
  lemma BoundCompletes(h: Hash, a: AuthorizedAccess, code: i32)
    requires AccessValid(a)
    ensures Complete(BoundTo(h, a), h, HashWorks, a, code) == CompleteStep(ReplayOk, DoneWith(h, a, code))
    ensures Find(BoundTo(h, a), a.requestId) == 0 && WellFormed(BoundTo(h, a)) && WellFormed(DoneWith(h, a, code))
  {
    FindIs(BoundTo(h, a), a.requestId, 0);
    assert BoundTo(h, a)[0 := DoneWith(h, a, code)[0]] == DoneWith(h, a, code);
  }

  lemma CountsOfOne(e: Entry)
    requires !e.state.Free? && 0 < e.expires
    ensures LapsedCount([e], 0) == 0 && InProgressCount([e]) == (if e.state.InProgress? then 1 else 0)
    ensures Sweep([e], 0) == [e]
  {
    var s, none := [e], [];
    assert s[..0] == none && InProgressCount(none) == 0 && LapsedCount(none, 0) == 0;
  }

  /** Reopening the file of a journal of one live entry restores that entry. */
  lemma ReopensOne(h: Hash, d: Disk, e: Entry, maxTtl: u64, generation: u64)
    requires EntryOk(e) && !e.state.Free? && Nonzero(e.digest) && maxTtl != 0 && generation != 0
    requires d.visible == Some(Encode(h, [e], maxTtl, generation))
    ensures Step(h, World(None, d, 0), EvOpen(REOPEN, 1, maxTtl, 0))
      == StepOut(World(Some(Memory([e], maxTtl, generation)), d, 0),
                 Reopened(StoreOk, if e.state.InProgress? then 1 else 0))
  {
    var m := Memory([e], maxTtl, generation);
    assert IsSnapshot(h, d.visible.value, m);
    CountsOfOne(e);
    ReopenIff(h, d, REOPEN, m, 0);
  }

  /** A complete whose write fails, and what is told afterwards. */
  lemma FailedComplete(h: Hash, a: AuthorizedAccess, fault: PersistFault, code: i32)
    requires AccessValid(a)
    ensures Step(h, Bound(h, a), EvComplete(HashWorks, PersistFails(fault), a, code))
      == StepOut(World(Some(Memory(DoneWith(h, a, code), a.expiresAt, 2)), Bound(h, a).disk, 0),
                 Finished(FaultResult(fault)))
  {
    BoundCompletes(h, a, code);
  }

  lemma DoneAnswers(h: Hash, a: AuthorizedAccess, d: Disk, generation: u64, p: Persist, code: i32)
    requires AccessValid(a)
    ensures var w := World(Some(Memory(DoneWith(h, a, code), a.expiresAt, generation)), d, 0);
      && Step(h, w, EvComplete(HashWorks, p, a, code)) == StepOut(w, Finished(StoreOk))
      && Step(h, w, EvBegin(HashWorks, p, a, 0)) == StepOut(w, Began(StoreOk, BeginOut(BeginCompleted, code)))
  {
    var s := DoneWith(h, a, code);
    FindIs(s, a.requestId, 0);
    CountsOfOne(s[0]);
  }

  lemma BoundAnswers(h: Hash, a: AuthorizedAccess, p: Persist, code: i32)
    requires AccessValid(a)
    ensures Step(h, Bound(h, a), EvBegin(HashWorks, p, a, 0)).response == Began(StoreOk, BeginOut(BeginInProgress, 0))
    ensures Step(h, Bound(h, a), EvComplete(HashWorks, CommitDurable, a, code)).response == Finished(StoreOk)
  {
    BoundCompletes(h, a, code);
    CountsOfOne(BoundTo(h, a)[0]);
  }

  /** A whole run: open, begin (NEW), complete with a failed write (the fault);
      complete and begin both report the result; close, open (OK): the request is
      in progress, and takes another result. */
  lemma LostResultRun(h: Hash, a: AuthorizedAccess, fault: PersistFault, p: Persist, code: i32, other: i32)
    requires AccessValid(a) && Nonzero(AccessHash(h, a))
    ensures var start := Step(h, START, EvOpen(BLIND_OPEN, 1, a.expiresAt, 0));
      var begun := Step(h, start.world, EvBegin(HashWorks, CommitDurable, a, 0));
      var first := Step(h, begun.world, EvComplete(HashWorks, PersistFails(fault), a, code));
      var again := Step(h, first.world, EvComplete(HashWorks, p, a, code));
      var asked := Step(h, again.world, EvBegin(HashWorks, p, a, 0));
      var reopened := Step(h, Step(h, asked.world, EvClose).world, EvOpen(REOPEN, 1, a.expiresAt, 0));
      && begun.response == Began(StoreOk, BeginOut(BeginNew, 0))
      && first.response == Finished(FaultResult(fault))
      && again.response == Finished(StoreOk)
      && asked.response == Began(StoreOk, BeginOut(BeginCompleted, code))
      && reopened.response == Reopened(StoreOk, 1)
      && Step(h, reopened.world, EvBegin(HashWorks, p, a, 0)).response == Began(StoreOk, BeginOut(BeginInProgress, 0))
      && Step(h, reopened.world, EvComplete(HashWorks, CommitDurable, a, other)).response == Finished(StoreOk)
  {
    OpenAndBegin(h, a);
    FailedComplete(h, a, fault, code);
    DoneAnswers(h, a, Bound(h, a).disk, 2, p, code);
    ReopensOne(h, Bound(h, a).disk, BoundTo(h, a)[0], a.expiresAt, 2);
    BoundAnswers(h, a, p, other);
  }

  /** The disk after an uncertain complete: the new file shows, the old one is
      still possible. */
  function Doubtful(h: Hash, a: AuthorizedAccess, code: i32): Disk {
    var b := Some(Encode(h, DoneWith(h, a, code), a.expiresAt, 3));
    Disk(b, Bound(h, a).disk.possible + {b})
  }

  lemma UncertainComplete(h: Hash, a: AuthorizedAccess, code: i32)
    requires AccessValid(a)
    ensures Step(h, Bound(h, a), EvComplete(HashWorks, CommitUncertain, a, code))
      == StepOut(World(Some(Memory(DoneWith(h, a, code), a.expiresAt, 3)), Doubtful(h, a, code), 0), Finished(StoreIo))
  {
    BoundCompletes(h, a, code);
  }

  /** A reopening in between does not help: complete with an uncertain write (IO),
      close, open, complete again (OK); a power loss may still bring the old file
      back, and then the request is in progress. */
  lemma DoubtfulResultRun(h: Hash, a: AuthorizedAccess, p: Persist, code: i32)
    requires AccessValid(a) && Nonzero(AccessHash(h, a))
    ensures var first := Step(h, Bound(h, a), EvComplete(HashWorks, CommitUncertain, a, code));
      var reopened := Step(h, Step(h, first.world, EvClose).world, EvOpen(REOPEN, 1, a.expiresAt, 0));
      var again := Step(h, reopened.world, EvComplete(HashWorks, p, a, code));
      var lost := EvPowerLoss(Bound(h, a).disk.visible);
      var recovered := Step(h, Step(h, again.world, lost).world, EvOpen(REOPEN, 1, a.expiresAt, 0));
      && first.response == Finished(StoreIo)
      && reopened.response == Reopened(StoreOk, 0)
      && again.response == Finished(StoreOk)
      && Legal(again.world, lost)
      && recovered.response == Reopened(StoreOk, 1)
      && Step(h, recovered.world, EvBegin(HashWorks, p, a, 0)).response == Began(StoreOk, BeginOut(BeginInProgress, 0))
  {
    UncertainComplete(h, a, code);
    ReopensOne(h, Doubtful(h, a, code), DoneWith(h, a, code)[0], a.expiresAt, 3);
    DoneAnswers(h, a, Doubtful(h, a, code), 3, p, code);
    ReopensOne(h, Bound(h, a).disk, BoundTo(h, a)[0], a.expiresAt, 2);
    BoundAnswers(h, a, p, code);
  }
}
