/** The bounded request-id journal: its slot array as a value, and the in-place
    code. */
module Journal {
  import opened Bytes
  import opened Access
  import opened AccessDigest

  const MAX_ENTRIES: nat := 4096

  datatype EntryState = Free | InProgress | Completed

  datatype Entry = Entry(id: Bytes16, digest: Bytes32, expires: u64, state: EntryState, code: i32)

  type Slots = seq<Entry>

  const ZERO_ENTRY := Entry(ZERO16, ZERO32, 0, Free, 0)

  datatype ReplayResult =
    | ReplayOk
    | ReplayInvalidArg
    | ReplayInvalidAccess
    | ReplayExpired
    | ReplayConflict
    | ReplayNotFound
    | ReplayResourceExhausted
    | ReplayCryptoFailed

  datatype BeginKind = NoKind | BeginNew | BeginInProgress | BeginCompleted

  datatype BeginOut = BeginOut(kind: BeginKind, code: i32)

  const NO_BEGIN := BeginOut(NoKind, 0)

  datatype BeginStep = BeginStep(result: ReplayResult, out: BeginOut, slots: Slots)
  datatype CompleteStep = CompleteStep(result: ReplayResult, slots: Slots)

  // ---- the slot array as a value ----

  predicate Taken(e: Entry, id: Bytes16) { !e.state.Free? && e.id == id }

  predicate Lapsed(e: Entry, now: u64) { !e.state.Free? && now >= e.expires }

  function Swept(e: Entry, now: u64): Entry { if Lapsed(e, now) then ZERO_ENTRY else e }

  function Sweep(s: Slots, now: u64): (t: Slots)
    ensures |t| == |s|
  {
    seq(|s|, i requires 0 <= i < |s| => Swept(s[i], now))
  }

  /** First slot taken by `id`, or the capacity. */
  function Find(s: Slots, id: Bytes16): (k: nat)
    ensures k <= |s|
    ensures k < |s| ==> Taken(s[k], id)
    ensures forall j :: 0 <= j < k ==> !Taken(s[j], id)
  {
    if s == [] then 0 else if Taken(s[0], id) then 0 else 1 + Find(s[1..], id)
  }

  /** First free slot, or the capacity. */
  function FirstFree(s: Slots): (k: nat)
    ensures k <= |s|
    ensures k < |s| ==> s[k].state.Free?
    ensures forall j :: 0 <= j < k ==> !s[j].state.Free?
  {
    if s == [] then 0 else if s[0].state.Free? then 0 else 1 + FirstFree(s[1..])
  }

  function HashFailure(call: HashCall): ReplayResult
    requires call.HashFails?
  {
    if call.outOfMemory then ReplayResourceExhausted else ReplayCryptoFailed
  }

  function HashRefusal(r: HashResult): ReplayResult
    requires r != HashOk
  {
    match r
    case HashInvalidAccess => ReplayInvalidAccess
    case HashOutOfMemory => ReplayResourceExhausted
    case HashCryptoFailed => ReplayCryptoFailed
  }

  /** A slot bound to an access; its result code is left as it is. */
  function Opened(e: Entry, h: Hash, a: AuthorizedAccess): Entry {
    Entry(a.requestId, AccessHash(h, a), a.expiresAt, InProgress, e.code)
  }

  function Closed(e: Entry, code: i32): Entry {
    Entry(e.id, e.digest, e.expires, Completed, code)
  }

  /** `m3_chunk_replay_begin_request_v1` on values. */
  function Begin(s: Slots, maxTtl: u64, h: Hash, call: HashCall, a: AuthorizedAccess, now: u64): BeginStep {
    if !AccessValid(a) then BeginStep(ReplayInvalidAccess, NO_BEGIN, s)
    else if now >= a.expiresAt then BeginStep(ReplayExpired, NO_BEGIN, s)
    else if a.expiresAt - now > maxTtl then BeginStep(ReplayInvalidAccess, NO_BEGIN, s)
    else if call.HashFails? then BeginStep(HashFailure(call), NO_BEGIN, s)
    else
      BeginSwept(Sweep(s, now), h, a)
  }

  /** The part of begin that follows the sweep: look the id up, or bind it to
      the first free slot. */
  function BeginSwept(t: Slots, h: Hash, a: AuthorizedAccess): BeginStep {
    var k := Find(t, a.requestId);
    if k < |t| then
      if t[k].digest != AccessHash(h, a) then BeginStep(ReplayConflict, NO_BEGIN, t)
      else BeginStep(ReplayOk,
                     BeginOut(if t[k].state.Completed? then BeginCompleted else BeginInProgress, t[k].code), t)
    else
      var f := FirstFree(t);
      if f == |t| then BeginStep(ReplayResourceExhausted, NO_BEGIN, t)
      else BeginStep(ReplayOk, BeginOut(BeginNew, 0), t[f := Opened(t[f], h, a)])
  }

  /** `m3_chunk_replay_complete_request_v1` on values. */
  function Complete(s: Slots, h: Hash, call: HashCall, a: AuthorizedAccess, code: i32): CompleteStep {
    if !AccessValid(a) then CompleteStep(ReplayInvalidAccess, s)
    else if call.HashFails? then CompleteStep(HashFailure(call), s)
    else
      var k := Find(s, a.requestId);
      if k == |s| then CompleteStep(ReplayNotFound, s)
      else if s[k].digest != AccessHash(h, a) then CompleteStep(ReplayConflict, s)
      else if s[k].state.Completed? then
        CompleteStep(if s[k].code == code then ReplayOk else ReplayConflict, s)
      else CompleteStep(ReplayOk, s[k := Closed(s[k], code)])
  }

  // ---- the journal invariant ----

  predicate EntryOk(e: Entry) {
    if e.state.Free? then e == ZERO_ENTRY
    else Nonzero(e.id) && e.expires != 0 && (e.state.InProgress? ==> e.code == 0)
  }

  ghost predicate UniqueIds(s: Slots) {
    forall i, j :: 0 <= i < j < |s| && !s[i].state.Free? && !s[j].state.Free? ==> s[i].id != s[j].id
  }

  /** What every operation keeps: distinct request ids, zeroed free slots. */
  ghost predicate WellFormed(s: Slots) {
    UniqueIds(s) && forall i :: 0 <= i < |s| ==> EntryOk(s[i])
  }

  lemma SweepKeeps(s: Slots, now: u64)
    requires WellFormed(s)
    ensures WellFormed(Sweep(s, now))
  {
  }

  lemma BeginKeeps(s: Slots, maxTtl: u64, h: Hash, call: HashCall, a: AuthorizedAccess, now: u64)
    requires WellFormed(s)
    ensures WellFormed(Begin(s, maxTtl, h, call, a, now).slots)
    ensures |Begin(s, maxTtl, h, call, a, now).slots| == |s|
  {
    SweepKeeps(s, now);
  }

  lemma CompleteKeeps(s: Slots, h: Hash, call: HashCall, a: AuthorizedAccess, code: i32)
    requires WellFormed(s)
    ensures WellFormed(Complete(s, h, call, a, code).slots)
    ensures |Complete(s, h, call, a, code).slots| == |s|
  {
  }

  lemma FindIs(s: Slots, id: Bytes16, k: nat)
    requires UniqueIds(s) && k < |s| && Taken(s[k], id)
    ensures Find(s, id) == k
  {
  }

  /** No live entry is ever evicted: begin keeps each one, slot for slot. */
  lemma BeginKeepsLive(s: Slots, maxTtl: u64, h: Hash, call: HashCall, a: AuthorizedAccess, now: u64, i: nat)
    requires i < |s| && !s[i].state.Free? && now < s[i].expires
    ensures Begin(s, maxTtl, h, call, a, now).slots[i] == s[i]
  {
    assert Sweep(s, now)[i] == s[i];
  }

  /** A valid live access with an unknown id is refused exactly when every
      slot holds an unexpired entry. */
  lemma ExhaustedIff(s: Slots, maxTtl: u64, h: Hash, a: AuthorizedAccess, now: u64)
    requires AccessValid(a) && now < a.expiresAt && a.expiresAt - now <= maxTtl
    requires forall i :: 0 <= i < |s| ==> !(Taken(s[i], a.requestId) && now < s[i].expires)
    ensures Begin(s, maxTtl, h, HashWorks, a, now).result == ReplayResourceExhausted
      <==> forall i :: 0 <= i < |s| ==> !s[i].state.Free? && now < s[i].expires
  {
    var t := Sweep(s, now);
    var k := Find(t, a.requestId);
    assert k < |t| ==> t[k] == s[k];
    assert forall i :: 0 <= i < |s| ==> (t[i].state.Free? <==> !(!s[i].state.Free? && now < s[i].expires));
  }

  // ---- the code ----

  /** The journal object; its calls are serialized by one owner. */
  class ReplayJournal {
    const entries: array<Entry>
    const maxTtl: u64

    constructor (capacity: nat, maxTtl: u64)
      ensures fresh(entries) && this.maxTtl == maxTtl
      ensures entries[..] == seq(capacity, _ => ZERO_ENTRY)
    {
      this.maxTtl := maxTtl;
      entries := new Entry[capacity](_ => ZERO_ENTRY);
    }

    method FindEntry(id: Bytes16) returns (k: nat)
      ensures k == Find(entries[..], id)
    {
      k := 0;
      while k < entries.Length
        invariant k <= entries.Length
        invariant forall j :: 0 <= j < k ==> !Taken(entries[j], id)
      {
        if Taken(entries[k], id) {
          assert Taken(entries[..][k], id);
          return;
        }
        k := k + 1;
      }
    }

    /** `m3_chunk_replay_journal_sweep_v1`. */
    method SweepExpired(now: u64) returns (removed: nat)
      modifies entries
      ensures entries[..] == Sweep(old(entries[..]), now)
      ensures removed == LapsedCount(old(entries[..]), now)
    {
      removed := 0;
      ghost var before := entries[..];
      for i := 0 to entries.Length
        invariant forall j :: 0 <= j < entries.Length ==>
          entries[j] == if j < i then Swept(before[j], now) else before[j]
        invariant removed == LapsedCount(before[..i], now)
      {
        assert before[..i + 1][..i] == before[..i];
        if Lapsed(entries[i], now) {
          entries[i] := ZERO_ENTRY;
          removed := removed + 1;
        }
      }
      assert before[..entries.Length] == before;
    }

    method BeginRequest(h: Hash, call: HashCall, a: AuthorizedAccess, now: u64)
      returns (result: ReplayResult, out: BeginOut)
      modifies entries
      ensures BeginStep(result, out, entries[..]) == Begin(old(entries[..]), maxTtl, h, call, a, now)
    {
      if !AccessValid(a) { return ReplayInvalidAccess, NO_BEGIN; }
      if now >= a.expiresAt { return ReplayExpired, NO_BEGIN; }
      if a.expiresAt - now > maxTtl { return ReplayInvalidAccess, NO_BEGIN; }
      var hashed, digest := HashAccess(h, call, a, ZERO32);
      if hashed != HashOk { return HashRefusal(hashed), NO_BEGIN; }
      var _ := SweepExpired(now);
      var k := FindEntry(a.requestId);
      if k < entries.Length {
        var entry := entries[k];
        if entry.digest != digest { return ReplayConflict, NO_BEGIN; }
        return ReplayOk, BeginOut(if entry.state.Completed? then BeginCompleted else BeginInProgress, entry.code);
      }
      ghost var t := entries[..];
      var f := 0;
      while f < entries.Length && !entries[f].state.Free?
        invariant f <= entries.Length
        invariant forall j :: 0 <= j < f ==> !entries[j].state.Free?
      {
        f := f + 1;
      }
      assert f == FirstFree(t);
      if f == entries.Length { return ReplayResourceExhausted, NO_BEGIN; }
      entries[f] := entries[f].(id := a.requestId, digest := digest, expires := a.expiresAt, state := InProgress);
      return ReplayOk, BeginOut(BeginNew, 0);
    }

    method CompleteRequest(h: Hash, call: HashCall, a: AuthorizedAccess, code: i32) returns (result: ReplayResult)
      modifies entries
      ensures CompleteStep(result, entries[..]) == Complete(old(entries[..]), h, call, a, code)
    {
      var hashed, digest := HashAccess(h, call, a, ZERO32);
      if hashed != HashOk { return HashRefusal(hashed); }
      var k := FindEntry(a.requestId);
      if k == entries.Length { return ReplayNotFound; }
      if entries[k].digest != digest { return ReplayConflict; }
      if entries[k].state.Completed? {
        return if entries[k].code == code then ReplayOk else ReplayConflict;
      }
      entries[k] := entries[k].(code := code, state := Completed);
      return ReplayOk;
    }
  }

  function LapsedCount(s: Slots, now: u64): nat {
    if s == [] then 0
    else LapsedCount(s[..|s| - 1], now) + if Lapsed(s[|s| - 1], now) then 1 else 0
  }

  /** `m3_chunk_replay_journal_init_v1`; a journal that is in use, or one that
      cannot be made, stays as it is. */
  method NewJournal(current: ReplayJournal?, capacity: nat, maxTtl: u64, memory: bool)
    returns (result: ReplayResult, journal: ReplayJournal?)
    ensures result ==
      if current != null || capacity == 0 || capacity > MAX_ENTRIES || maxTtl == 0 then ReplayInvalidArg
      else if !memory then ReplayResourceExhausted
      else ReplayOk
    ensures result != ReplayOk ==> journal == current
    ensures result == ReplayOk ==>
      && journal != null && fresh(journal) && fresh(journal.entries) && journal.maxTtl == maxTtl
      && journal.entries.Length == capacity && WellFormed(journal.entries[..])
  {
    if current != null || capacity == 0 || capacity > MAX_ENTRIES || maxTtl == 0 {
      return ReplayInvalidArg, current;
    }
    if !memory {
      return ReplayResourceExhausted, current;
    }
    journal := new ReplayJournal(capacity, maxTtl);
    result := ReplayOk;
  }
}
