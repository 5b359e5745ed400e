/** The loops that fill and read a snapshot buffer in place. */
module SnapshotCode {
  import opened Bytes
  import opened Access
  import opened Journal
  import opened Snapshot

  /** One record into a zeroed window; a free slot leaves it zeroed. */
  method WriteRecord(buf: array<u8>, off: nat, e: Entry)
    requires off + RECORD_SIZE <= buf.Length
    requires forall k :: off <= k < off + RECORD_SIZE ==> buf[k] == 0
    modifies buf
    ensures forall k :: 0 <= k < buf.Length ==>
      buf[k] == if off <= k < off + RECORD_SIZE then RecordByte(e, k - off) else old(buf[k])
  {
    if e.state.Free? {
      return;
    }
    buf[off] := StateByte(e.state);
    CopyInto(buf, off + 4, e.id);
    CopyInto(buf, off + 20, e.digest);
    WriteBE(buf, off + 52, e.expires, 8);
    WriteBE(buf, off + 60, ToU32(e.code), 4);
  }

  method WriteHeader(buf: array<u8>, capacity: nat, maxTtl: u64, generation: u64)
    requires HEADER_SIZE <= buf.Length && forall k :: 0 <= k < buf.Length ==> buf[k] == 0
    modifies buf
    ensures forall k :: 0 <= k < buf.Length ==>
      buf[k] == if k < HEADER_SIZE then HeaderByte(capacity, maxTtl, generation, ZERO32, k) else 0
  {
    WriteFormat(buf);
    WriteBE(buf, 20, capacity, 4);
    WriteBE(buf, 24, maxTtl, 8);
    WriteBE(buf, 32, generation, 8);
  }

  /** The part of the header that is the same in every snapshot. */
  method WriteFormat(buf: array<u8>)
    requires HEADER_SIZE <= buf.Length
    modifies buf
    ensures forall k :: 0 <= k < buf.Length ==>
      buf[k] == if k < 20 then HeaderByte(0, 0, 0, ZERO32, k) else old(buf[k])
  {
    CopyInto(buf, 0, MAGIC);
    WriteBE(buf, 8, VERSION, 4);
    WriteBE(buf, 12, HEADER_SIZE, 4);
    WriteBE(buf, 16, RECORD_SIZE, 4);
  }

  /** `calculate_digest`: zero the digest field, hash the buffer, restore it,
      also when hashing fails. */
  method CalculateDigest(h: Hash, hashes: bool, buf: array<u8>) returns (digest: Bytes32)
    requires buf.Length >= HEADER_SIZE
    modifies buf
    ensures buf[..] == old(buf[..])
    ensures digest == if hashes then h(DigestZeroed(old(buf[..]))) else ZERO32
  {
    ghost var before := buf[..];
    var saved := buf[40..72];
    CopyInto(buf, 40, ZERO32);
    assert buf[..] == DigestZeroed(before);
    digest := if hashes then h(buf[..]) else ZERO32;
    CopyInto(buf, 40, saved);
    assert buf[..] == before;
  }

  /** `encode_snapshot`: without memory or without a digest there is no buffer. */
  method EncodeSnapshot(h: Hash, memory: bool, hashes: bool, entries: array<Entry>, maxTtl: u64, generation: u64)
    returns (result: StoreResult, buf: array?<u8>)
    ensures result == if !memory then StoreResourceExhausted else if !hashes then StoreCryptoFailed else StoreOk
    ensures buf != null <==> result == StoreOk
    ensures buf != null ==> fresh(buf) && buf[..] == Encode(h, entries[..], maxTtl, generation)
  {
    if !memory {
      return StoreResourceExhausted, null;
    }
    var out := FillSnapshot(entries, maxTtl, generation);
    assert DigestZeroed(out[..]) == out[..];
    var digest := CalculateDigest(h, hashes, out);
    if !hashes {
      return StoreCryptoFailed, null;
    }
    CopyInto(out, 40, digest);
    assert out[..] == Layout(entries[..], maxTtl, generation, digest);
    return StoreOk, out;
  }

  /** Header and records, with the digest field still zero. */
  method FillSnapshot(entries: array<Entry>, maxTtl: u64, generation: u64) returns (buf: array<u8>)
    ensures fresh(buf) && buf[..] == Layout(entries[..], maxTtl, generation, ZERO32)
  {
    ghost var s := entries[..];
    buf := new u8[SnapshotSize(entries.Length)](_ => 0);
    WriteHeader(buf, entries.Length, maxTtl, generation);
    for i := 0 to entries.Length
      invariant entries[..] == s && fresh(buf) && buf.Length == SnapshotSize(|s|)
      invariant forall k :: 0 <= k < buf.Length ==>
        buf[k] == if k < SnapshotSize(i) then LayoutByte(s, maxTtl, generation, ZERO32, k) else 0
    {
      assert SnapshotSize(i + 1) <= SnapshotSize(|s|);
      WriteRecord(buf, SnapshotSize(i), entries[i]);
      forall k | SnapshotSize(i) <= k < SnapshotSize(i + 1)
        ensures LayoutByte(s, maxTtl, generation, ZERO32, k) == RecordByte(s[i], k - SnapshotSize(i))
      {
        DivMod(i, k - SnapshotSize(i));
      }
    }
  }

  lemma {:induction false} LoadFailsEarly(es: seq<Option<Entry>>, n: nat, now: u64)
    requires n <= |es| && Load(es[..n], now).None?
    ensures Load(es, now).None?
  {
    if n == |es| {
      assert es[..n] == es;
    } else {
      var init := es[..|es| - 1];
      assert init[..n] == es[..n];
      LoadFailsEarly(init, n, now);
    }
  }

  /** Whether an earlier slot is already taken by `id`. */
  method TakenBefore(entries: array<Entry>, n: nat, id: Bytes16) returns (taken: bool)
    requires n <= entries.Length
    ensures taken <==> Find(entries[..n], id) < n
  {
    for previous := 0 to n
      invariant forall j :: 0 <= j < previous ==> !Taken(entries[j], id)
    {
      if Taken(entries[previous], id) {
        assert Taken(entries[..n][previous], id);
        return true;
      }
    }
    return false;
  }

  /** One parsed record into its zeroed slot. */
  method LoadOne(entries: array<Entry>, i: nat, e: Entry, now: u64, recovered: nat, expired: nat)
    returns (ok: bool, recovered': nat, expired': nat)
    requires i < entries.Length && entries[i] == ZERO_ENTRY
    modifies entries
    ensures LoadEntry(Loaded(old(entries[..i]), recovered, expired), e, now)
      == if ok then Some(Loaded(entries[..i + 1], recovered', expired')) else None
    ensures forall j :: 0 <= j < entries.Length && j != i ==> entries[j] == old(entries[j])
  {
    ghost var before := entries[..i];
    ok, recovered', expired' := true, recovered, expired;
    if !e.state.Free? {
      if now >= e.expires {
        expired' := expired + 1;
      } else {
        entries[i] := e;
        if e.state.InProgress? {
          recovered' := recovered + 1;
        }
        assert entries[..i] == before;
        var taken := TakenBefore(entries, i, e.id);
        ok := !taken;
      }
    }
    assert entries[..i + 1] == before + [entries[i]];
  }

  /** The record loop: slot by slot, in place. */
  method LoadRecords(buf: array<u8>, entries: array<Entry>, now: u64) returns (ok: bool, recovered: nat, expired: nat)
    requires buf.Length == SnapshotSize(entries.Length)
    requires forall i :: 0 <= i < entries.Length ==> entries[i] == ZERO_ENTRY
    modifies entries
    ensures Load(ParseAll(buf[..], entries.Length), now)
      == if ok then Some(Loaded(entries[..], recovered, expired)) else None
  {
    ok, recovered, expired := true, 0, 0;
    ghost var es := ParseAll(buf[..], entries.Length);
    for i := 0 to entries.Length
      invariant Load(es[..i], now) == Some(Loaded(entries[..i], recovered, expired))
      invariant forall j :: i <= j < entries.Length ==> entries[j] == ZERO_ENTRY
    {
      LoadSnoc(es, i, now);
      assert SnapshotSize(i + 1) <= buf.Length;
      var parsed := ParseRecord(RecordAt(buf[..], i));
      if parsed.None? {
        ok := false;
      } else {
        ok, recovered, expired := LoadOne(entries, i, parsed.value, now, recovered, expired);
      }
      if !ok {
        LoadFailsEarly(es, i + 1, now);
        return;
      }
    }
    assert es[..entries.Length] == es && entries[..entries.Length] == entries[..];
  }

  lemma LoadSnoc(es: seq<Option<Entry>>, i: nat, now: u64)
    requires i < |es| && Load(es[..i], now).Some?
    ensures Load(es[..i + 1], now) ==
      if es[i].None? then None else LoadEntry(Load(es[..i], now).value, es[i].value, now)
  {
    assert es[..i + 1][..i] == es[..i];
  }

  /** `decode_snapshot` into a zeroed entry array. */
  method DecodeSnapshot(h: Hash, hashes: bool, buf: array<u8>, entries: array<Entry>, maxTtl: u64, now: u64)
    returns (result: StoreResult, generation: u64, recovered: nat, expired: nat)
    requires forall i :: 0 <= i < entries.Length ==> entries[i] == ZERO_ENTRY
    modifies buf, entries
    ensures var d := Decode(h, hashes, old(buf[..]), entries.Length, maxTtl, now);
      if result == StoreOk then d == Decoded(generation, entries[..], recovered, expired)
      else d == DecodeFails(result)
  {
    generation, recovered, expired := 0, 0, 0;
    if buf.Length != SnapshotSize(entries.Length) {
      return StoreInvalidArg, generation, recovered, expired;
    }
    if !HeaderOk(buf[..], entries.Length, maxTtl) {
      return StoreCorrupt, generation, recovered, expired;
    }
    generation := ReadU64(buf[..][32..40]);
    var stored := buf[..][40..72];
    var actual := CalculateDigest(h, hashes, buf);
    if !hashes {
      return StoreCryptoFailed, generation, recovered, expired;
    }
    if stored != actual {
      return StoreCorrupt, generation, recovered, expired;
    }
    var ok;
    ok, recovered, expired := LoadRecords(buf, entries, now);
    result := if ok then StoreOk else StoreCorrupt;
  }
}
