/** The store object: one journal in memory, one snapshot file. */
module ReplayStoreCode {
  import opened Bytes
  import opened Access
  import opened AccessDigest
  import opened Journal
  import opened Snapshot
  import opened SnapshotCode
  import opened ReplayStore

  /** The snapshot file and its temporary neighbour, as the platform keeps them. */
  class SnapshotFile {
    var temp: Option<seq<u8>>
    var state: Disk

    constructor (state: Disk)
      ensures this.state == state
    {
      this.temp, this.state := None, state;
    }

    /** `write_all` to the open temporary file, through any short writes. */
    method WriteAll(b: seq<u8>, writes: seq<nat>) returns (ok: bool)
      requires temp == Some([])
      modifies this`temp
      ensures temp.Some? && (ok <==> WritesAll(|b|, writes))
      ensures ok ==> temp == Some(b)
    {
      var offset, i := 0, 0;
      while offset < |b|
        invariant offset <= |b| && i <= |writes| && temp == Some(b[..offset])
        invariant WritesAll(|b|, writes) <==> WritesAll(|b| - offset, writes[i..])
      {
        if i == |writes| || writes[i] == 0 {
          return false;
        }
        var written := if writes[i] < |b| - offset then writes[i] else |b| - offset;
        temp := Some(temp.value + b[offset..offset + written]);
        assert temp.value == b[..offset + written];
        offset := offset + written;
        assert writes[i..][1..] == writes[i + 1..];
        i := i + 1;
      }
      assert b[..offset] == b;
      return true;
    }

    /** The rest of `persist_snapshot`: the temporary file is written, synced,
        closed and renamed over the final path, then the directory is synced.
        The final path changes only with the rename, and then to all of `b`. */
    method Replace(b: seq<u8>, env: PersistEnv) returns (outcome: Persist)
      modifies this
      ensures outcome == FileOutcome(env, |b|)
      ensures outcome.PersistFails? ==> state == old(state)
      ensures outcome.CommitUncertain? ==> state == Disk(Some(b), old(state).possible + {Some(b)})
      ensures outcome.CommitDurable? ==> state == Disk(Some(b), {Some(b)})
      ensures !outcome.PersistFails? || env.unlinks ==> temp.None?
    {
      outcome := PersistFails(IoFault);
      if env.opens {
        temp := Some([]);
        var written := WriteAll(b, env.writes);
        if written && env.syncs && env.closes {
          outcome := Rename(env);
        }
      }
      if outcome != CommitDurable && env.unlinks {
        temp := None;
      }
    }

    /** `replace_snapshot`. */
    method Rename(env: PersistEnv) returns (outcome: Persist)
      requires temp.Some?
      modifies this
      ensures !env.renames ==> outcome == PersistFails(IoFault) && state == old(state) && temp == old(temp)
      ensures env.renames ==>
        && temp.None? && state.visible == old(temp)
        && outcome == (if env.directory && env.directorySyncs then CommitDurable else CommitUncertain)
        && state.possible == (if outcome.CommitDurable? then {old(temp)} else old(state).possible + {old(temp)})
    {
      if !env.renames {
        return PersistFails(IoFault);
      }
      state := Disk(temp, state.possible + {temp});
      temp := None;
      if !env.directory || !env.directorySyncs {
        return CommitUncertain;
      }
      state := Disk(state.visible, {state.visible});
      return CommitDurable;
    }
  }

  class DurableJournal {
    const file: SnapshotFile
    var journal: ReplayJournal?
    var generation: u64

    constructor (file: SnapshotFile)
      ensures this.file == file && journal == null
    {
      this.file := file;
      journal, generation := null, 0;
    }

    ghost predicate IsOpen()
      reads this
    {
      journal != null
    }

    ghost function Mem(): Memory
      requires IsOpen()
      reads this, journal, journal.entries
    {
      Memory(journal.entries[..], journal.maxTtl, generation)
    }

    ghost function Owned(): set<object>
      reads this
    {
      if journal == null then {} else {journal.entries}
    }

    /** How the platform's answers add up for a snapshot of this journal. */
    ghost function Outcome(env: PersistEnv): Persist
      requires IsOpen()
      reads this, journal
    {
      OutcomeOf(env, SnapshotSize(journal.entries.Length))
    }

    /** `persist_snapshot`. */
    method Persist(h: Hash, env: PersistEnv) returns (result: StoreResult, uncertain: bool)
      requires IsOpen()
      modifies this`generation, file
      ensures PersistOut(result, generation, file.state, uncertain)
        == PersistSnapshot(h, old(Mem()), old(file.state), Outcome(env))
    {
      uncertain := false;
      if generation == U64_MAX {
        return StoreInvalidArg, false;
      }
      var buf;
      result, buf := EncodeSnapshot(h, env.memory, env.hashes, journal.entries, journal.maxTtl, generation + 1);
      if buf == null {
        return;
      }
      var outcome := file.Replace(buf[..], env);
      if outcome.PersistFails? {
        return StoreIo, false;
      }
      generation := generation + 1;
      if outcome.CommitUncertain? {
        return StoreIo, true;
      }
      return StoreOk, false;
    }

    /** `m3_chunk_replay_store_begin_v1`. */
    method Begin(h: Hash, call: HashCall, env: PersistEnv, a: AuthorizedAccess, now: u64)
      returns (result: StoreResult, out: BeginOut)
      modifies this`generation, file, Owned()
      ensures journal == old(journal)
      ensures !IsOpen() ==> result == StoreInvalidArg && out == NO_BEGIN && unchanged(this, file)
      ensures IsOpen() ==>
        StoreBeginOut(result, out, Mem(), file.state)
          == StoreBegin(h, old(Mem()), old(file.state), call, Outcome(env), a, now)
    {
      if journal == null {
        return StoreInvalidArg, NO_BEGIN;
      }
      var replay;
      replay, out := journal.BeginRequest(h, call, a, now);
      result := MapReplayResult(replay);
      if result != StoreOk || out.kind != BeginNew {
        return;
      }
      var uncertain;
      result, uncertain := Persist(h, env);
      if result == StoreOk {
        return;
      }
      if !uncertain {
        var k := journal.FindEntry(a.requestId);
        if k < journal.entries.Length && journal.entries[k].state.InProgress? {
          journal.entries[k] := ZERO_ENTRY;
        }
      }
      out := NO_BEGIN;
    }

    /** `m3_chunk_replay_store_complete_v1`. */
    method Complete(h: Hash, call: HashCall, env: PersistEnv, a: AuthorizedAccess, code: i32)
      returns (result: StoreResult)
      modifies this`generation, file, Owned()
      ensures journal == old(journal)
      ensures !IsOpen() ==> result == StoreInvalidArg && unchanged(this, file)
      ensures IsOpen() ==>
        StoreOut(result, Mem(), file.state)
          == StoreComplete(h, old(Mem()), old(file.state), call, Outcome(env), a, code)
    {
      if journal == null {
        return StoreInvalidArg;
      }
      var k := journal.FindEntry(a.requestId);
      var wasCompleted := k < journal.entries.Length && journal.entries[k].state.Completed?;
      var replay := journal.CompleteRequest(h, call, a, code);
      result := MapReplayResult(replay);
      if result != StoreOk || wasCompleted {
        return;
      }
      var uncertain;
      result, uncertain := Persist(h, env);
    }

    /** `m3_chunk_replay_store_sweep_v1`. */
    method Sweep(h: Hash, env: PersistEnv, now: u64) returns (result: StoreResult, removed: nat)
      modifies this`generation, file, Owned()
      ensures journal == old(journal)
      ensures !IsOpen() ==> result == StoreInvalidArg && removed == 0 && unchanged(this, file)
      ensures IsOpen() ==>
        && StoreOut(result, Mem(), file.state) == StoreSweep(h, old(Mem()), old(file.state), Outcome(env), now)
        && removed == LapsedCount(old(Mem()).slots, now)
    {
      if journal == null {
        return StoreInvalidArg, 0;
      }
      removed := journal.SweepExpired(now);
      if removed == 0 {
        return StoreOk, 0;
      }
      var uncertain;
      result, uncertain := Persist(h, env);
    }

    /** `m3_chunk_replay_store_close_v1`. */
    method Close()
      modifies this
      ensures !IsOpen()
    {
      journal, generation := null, 0;
    }

    /** `m3_chunk_replay_store_open_v1`; `platform` answers the write that an open
        may end with. */
    method Open(h: Hash, env: OpenEnv, platform: PersistEnv, capacity: nat, maxTtl: u64, now: u64)
      returns (result: StoreResult, recovered: nat)
      modifies this, file
      ensures old(IsOpen()) ==> result == StoreInvalidArg && recovered == 0 && unchanged(this, file)
      ensures !old(IsOpen()) ==>
        OpenOut(result, recovered, if IsOpen() then Some(Mem()) else None, file.state)
          == StoreOpen(h, old(file.state), env.(persist := OutcomeOf(platform, SnapshotSize(capacity))),
                       capacity, maxTtl, now)
      ensures !old(IsOpen()) && IsOpen() ==> fresh(journal) && fresh(journal.entries)
    {
      recovered := 0;
      if journal != null || capacity == 0 || capacity > MAX_ENTRIES || maxTtl == 0 {
        return StoreInvalidArg, 0;
      }
      match env.lock {
        case LockFileFails => return StoreIo, 0;
        case LockBusy => return StoreLocked, 0;
        case LockHeld =>
      }
      journal := new ReplayJournal(capacity, maxTtl);
      generation := 0;
      if env.statMissing {
        assert journal.entries[..] == FreshSlots(capacity);
        var uncertain;
        result, uncertain := Persist(h, platform);
        if result != StoreOk { Close(); }
        return;
      }
      var found := file.state.visible;
      if found.None? || env.read.Some? || |found.value| != SnapshotSize(capacity) {
        Close();
        return (if found.None? || env.read == Some(ReadGone) then StoreNotFound
                else if |found.value| != SnapshotSize(capacity) then StoreCorrupt
                else ReadFaultResult(env.read.value)), 0;
      }
      result, recovered := LoadFound(h, env.hashes, platform, found.value, maxTtl, now);
    }

    method LoadFound(h: Hash, hashes: bool, platform: PersistEnv, found: seq<u8>, maxTtl: u64, now: u64)
      returns (result: StoreResult, recovered: nat)
      requires IsOpen() && journal.maxTtl == maxTtl
      requires forall i :: 0 <= i < journal.entries.Length ==> journal.entries[i] == ZERO_ENTRY
      modifies this, file, journal.entries
      ensures OpenOut(result, recovered, if IsOpen() then Some(Mem()) else None, file.state)
        == OpenDecoded(h, old(file.state), OutcomeOf(platform, SnapshotSize(old(journal).entries.Length)), maxTtl,
                       Decode(h, hashes, found, old(journal).entries.Length, maxTtl, now))
      ensures IsOpen() ==> journal == old(journal)
    {
      var buf := new u8[|found|](i requires 0 <= i < |found| => found[i]);
      assert buf[..] == found;
      var expired;
      result, generation, recovered, expired :=
        DecodeSnapshot(h, hashes, buf, journal.entries, maxTtl, now);
      if result != StoreOk {
        recovered := 0;
        Close();
      } else if expired > 0 {
        var uncertain;
        result, uncertain := Persist(h, platform);
        if result != StoreOk { Close(); }
      }
    }
  }
}
