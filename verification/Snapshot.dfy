/** The on-disk snapshot of a replay journal. */
module Snapshot {
  import opened Bytes
  import opened Access
  import opened Journal

  const HEADER_SIZE: nat := 80
  const RECORD_SIZE: nat := 72
  const VERSION: u32 := 1
  const MAGIC: seq<u8> := ['M' as int, '3' as int, 'R' as int, 'P' as int, 'L' as int, 'Y' as int, '1' as int, 0]

  datatype StoreResult =
    | StoreOk
    | StoreInvalidArg
    | StoreLocked
    | StoreIo
    | StoreCorrupt
    | StoreResourceExhausted
    | StoreConflict
    | StoreExpired
    | StoreNotFound
    | StoreCryptoFailed

  function SnapshotSize(capacity: nat): nat { HEADER_SIZE + capacity * RECORD_SIZE }

  // ---- layout ----

  function StateByte(s: EntryState): u8 {
    match s
    case Free => 0
    case InProgress => 1
    case Completed => 2
  }

  /** Byte `i` of the record of one slot; a free slot is all zeros. */
  function RecordByte(e: Entry, i: nat): u8
    requires i < RECORD_SIZE
  {
    if e.state.Free? then 0
    else if i < 1 then StateByte(e.state)
    else if i < 4 then 0
    else if i < 20 then e.id[i - 4]
    else if i < 52 then e.digest[i - 20]
    else if i < 60 then BE(e.expires, 8)[i - 52]
    else if i < 64 then BE(ToU32(e.code), 4)[i - 60]
    else 0
  }

  function HeaderByte(capacity: nat, maxTtl: u64, generation: u64, digest: Bytes32, i: nat): u8
    requires i < HEADER_SIZE
  {
    if i < 8 then MAGIC[i]
    else if i < 12 then BE(VERSION, 4)[i - 8]
    else if i < 16 then BE(HEADER_SIZE, 4)[i - 12]
    else if i < 20 then BE(RECORD_SIZE, 4)[i - 16]
    else if i < 24 then BE(capacity, 4)[i - 20]
    else if i < 32 then BE(maxTtl, 8)[i - 24]
    else if i < 40 then BE(generation, 8)[i - 32]
    else if i < 72 then digest[i - 40]
    else 0
  }

  function LayoutByte(s: Slots, maxTtl: u64, generation: u64, digest: Bytes32, i: nat): u8
    requires i < SnapshotSize(|s|)
  {
    if i < HEADER_SIZE then HeaderByte(|s|, maxTtl, generation, digest, i)
    else RecordByte(s[(i - HEADER_SIZE) / RECORD_SIZE], (i - HEADER_SIZE) % RECORD_SIZE)
  }

  function Layout(s: Slots, maxTtl: u64, generation: u64, digest: Bytes32): (b: seq<u8>)
    ensures |b| == SnapshotSize(|s|)
  {
    seq(SnapshotSize(|s|), i requires 0 <= i < SnapshotSize(|s|) => LayoutByte(s, maxTtl, generation, digest, i))
  }

  /** `encode_snapshot`: the digest covers the layout with its own field zeroed. */
  function Encode(h: Hash, s: Slots, maxTtl: u64, generation: u64): (b: seq<u8>)
    ensures |b| == SnapshotSize(|s|)
  {
    Layout(s, maxTtl, generation, h(Layout(s, maxTtl, generation, ZERO32)))
  }

  // ---- reading ----

  function RecordAt(b: seq<u8>, i: nat): (r: seq<u8>)
    requires SnapshotSize(i + 1) <= |b|
    ensures |r| == RECORD_SIZE
  {
    b[SnapshotSize(i)..SnapshotSize(i + 1)]
  }

  /** One record, or `None` when the source calls it corrupt. */
  function ParseRecord(r: seq<u8>): Option<Entry>
    requires |r| == RECORD_SIZE
  {
    if r[0] == 0 then
      if Nonzero(r) then None else Some(ZERO_ENTRY)
    else if r[0] > 2 || Nonzero(r[1..4]) || Nonzero(r[64..72]) || !Nonzero(r[4..20]) || !Nonzero(r[20..52]) then
      None
    else
      var expires, code := ReadU64(r[52..60]), ToI32(ReadU32(r[60..64]));
      if expires == 0 || (r[0] == 1 && code != 0) then None
      else Some(Entry(r[4..20], r[20..52], expires, if r[0] == 1 then InProgress else Completed, code))
  }

  datatype Loaded = Loaded(slots: Slots, recovered: nat, expired: nat)

  function LoadEntry(l: Loaded, e: Entry, now: u64): Option<Loaded> {
    if e.state.Free? then Some(Loaded(l.slots + [ZERO_ENTRY], l.recovered, l.expired))
    else if now >= e.expires then Some(Loaded(l.slots + [ZERO_ENTRY], l.recovered, l.expired + 1))
    else if Find(l.slots, e.id) < |l.slots| then None
    else Some(Loaded(l.slots + [e], l.recovered + (if e.state.InProgress? then 1 else 0), l.expired))
  }

  /** Every record of a snapshot, slot by slot. */
  function ParseAll(b: seq<u8>, capacity: nat): (es: seq<Option<Entry>>)
    requires SnapshotSize(capacity) <= |b|
    ensures |es| == capacity
  {
    seq(capacity, i requires 0 <= i < capacity => ParseRecord(RecordAt(b, i)))
  }

  /** Loading in slot order. */
  function Load(es: seq<Option<Entry>>, now: u64): (l: Option<Loaded>)
    ensures l.Some? ==> |l.value.slots| == |es|
  {
    if es == [] then Some(Loaded([], 0, 0))
    else
      var prev, e := Load(es[..|es| - 1], now), es[|es| - 1];
      if prev.None? || e.None? then None else LoadEntry(prev.value, e.value, now)
  }

  predicate HeaderOk(b: seq<u8>, capacity: nat, maxTtl: u64)
    requires |b| >= HEADER_SIZE
  {
    && b[0..8] == MAGIC
    && ReadU32(b[8..12]) == VERSION
    && ReadU32(b[12..16]) == HEADER_SIZE
    && ReadU32(b[16..20]) == RECORD_SIZE
    && ReadU32(b[20..24]) == capacity
    && ReadU64(b[24..32]) == maxTtl
    && !Nonzero(b[72..80])
    && ReadU64(b[32..40]) != 0
  }

  function DigestZeroed(b: seq<u8>): (z: seq<u8>)
    requires |b| >= HEADER_SIZE
    ensures |z| == |b|
    ensures forall k :: 0 <= k < |b| ==> z[k] == if 40 <= k < 72 then 0 else b[k]
  {
    b[..40] + ZERO32 + b[72..]
  }

  datatype DecodeResult =
    | DecodeFails(error: StoreResult)
    | Decoded(generation: u64, slots: Slots, recovered: nat, expired: nat)

  /** `decode_snapshot`; the digest computation may fail (`hashes` false). */
  function Decode(h: Hash, hashes: bool, b: seq<u8>, capacity: nat, maxTtl: u64, now: u64): DecodeResult {
    if |b| != SnapshotSize(capacity) then DecodeFails(StoreInvalidArg)
    else if !HeaderOk(b, capacity, maxTtl) then DecodeFails(StoreCorrupt)
    else if !hashes then DecodeFails(StoreCryptoFailed)
    else if b[40..72] != h(DigestZeroed(b)) then DecodeFails(StoreCorrupt)
    else
      match Load(ParseAll(b, capacity), now)
      case None => DecodeFails(StoreCorrupt)
      case Some(l) => Decoded(ReadU64(b[32..40]), l.slots, l.recovered, l.expired)
  }

  // ---- decode after encode ----

  predicate DigestsNonzero(s: Slots) {
    forall i :: 0 <= i < |s| && !s[i].state.Free? ==> Nonzero(s[i].digest)
  }

  function InProgressCount(s: Slots): nat {
    if s == [] then 0
    else InProgressCount(s[..|s| - 1]) + if s[|s| - 1].state.InProgress? then 1 else 0
  }

  /** The slots whose time is up, and those in progress. */
  function LapsedAt(s: Slots, now: u64): set<nat> {
    set k | 0 <= k < |s| && !s[k].state.Free? && s[k].expires <= now
  }

  function InProgressAt(s: Slots): set<nat> {
    set k | 0 <= k < |s| && s[k].state.InProgress?
  }

  /** The counters count. */
  lemma {:induction false} LapsedCountIs(s: Slots, now: u64)
    ensures LapsedCount(s, now) == |LapsedAt(s, now)|
  {
    if s == [] {
    } else {
      var n := |s| - 1;
      LapsedCountIs(s[..n], now);
      assert LapsedAt(s, now) == LapsedAt(s[..n], now) + if !s[n].state.Free? && s[n].expires <= now then {n} else {};
    }
  }

  lemma {:induction false} InProgressCountIs(s: Slots)
    ensures InProgressCount(s) == |InProgressAt(s)|
  {
    if s == [] {
    } else {
      var n := |s| - 1;
      InProgressCountIs(s[..n]);
      assert InProgressAt(s) == InProgressAt(s[..n]) + if s[n].state.InProgress? then {n} else {};
    }
  }

  lemma DivMod(i: nat, j: nat)
    requires j < RECORD_SIZE
    ensures (i * RECORD_SIZE + j) / RECORD_SIZE == i && (i * RECORD_SIZE + j) % RECORD_SIZE == j
  {
  }

  function RecordBytes(e: Entry): (r: seq<u8>)
    ensures |r| == RECORD_SIZE
  {
    seq(RECORD_SIZE, i requires 0 <= i < RECORD_SIZE => RecordByte(e, i))
  }

  lemma LayoutRecord(s: Slots, maxTtl: u64, generation: u64, digest: Bytes32, i: nat)
    requires i < |s|
    ensures RecordAt(Layout(s, maxTtl, generation, digest), i) == RecordBytes(s[i])
  {
    var b := Layout(s, maxTtl, generation, digest);
    forall j | 0 <= j < RECORD_SIZE
      ensures RecordAt(b, i)[j] == RecordByte(s[i], j)
    {
      DivMod(i, j);
      assert RecordAt(b, i)[j] == b[SnapshotSize(i) + j];
    }
  }

  lemma RecordFields(e: Entry)
    requires !e.state.Free?
    ensures var r := RecordBytes(e);
      && r[4..20] == e.id && r[20..52] == e.digest
      && r[52..60] == BE(e.expires, 8) && r[60..64] == BE(ToU32(e.code), 4)
  {
  }

  /** A written record reads back as its entry; only a zero digest is refused. */
  lemma ParseWritten(e: Entry)
    requires EntryOk(e)
    ensures ParseRecord(RecordBytes(e)) == Readable(e)
  {
    var r := RecordBytes(e);
    if !e.state.Free? {
      RecordFields(e);
      ReadWriteU64(e.expires);
      ReadWriteU32(ToU32(e.code));
    }
  }

  /** What loading the snapshot of `s` should give. */
  function Survivors(s: Slots, now: u64): Loaded {
    Loaded(Sweep(s, now), InProgressCount(Sweep(s, now)), LapsedCount(s, now))
  }

  lemma LoadOneMore(init: Slots, e: Entry, now: u64)
    requires EntryOk(e)
    requires !e.state.Free? ==> Find(Sweep(init, now), e.id) == |init|
    ensures LoadEntry(Survivors(init, now), e, now) == Some(Survivors(init + [e], now))
  {
    var s := init + [e];
    assert s[..|init|] == init;
    assert Sweep(s, now) == Sweep(init, now) + [Swept(e, now)];
    assert Sweep(s, now)[..|init|] == Sweep(init, now);
  }

  function Readable(e: Entry): Option<Entry> {
    if !e.state.Free? && !Nonzero(e.digest) then None else Some(e)
  }

  function Expected(s: Slots, now: u64): Option<Loaded> {
    if DigestsNonzero(s) then Some(Survivors(s, now)) else None
  }

  lemma ExpectedSnoc(init: Slots, e: Entry, now: u64)
    requires EntryOk(e)
    requires !e.state.Free? ==> Find(Sweep(init, now), e.id) == |init|
    ensures Expected(init + [e], now) ==
      if Expected(init, now).None? || Readable(e).None? then None
      else LoadEntry(Expected(init, now).value, e, now)
  {
    LoadOneMore(init, e, now);
    var s := init + [e];
    assert forall i :: 0 <= i < |init| ==> s[i] == init[i];
    assert s[|init|] == e;
  }

  lemma WellFormedPrefix(s: Slots, n: nat)
    requires WellFormed(s) && n < |s|
    ensures WellFormed(s[..n]) && EntryOk(s[n])
  {
  }

  lemma {:induction false} LoadWritten(s: Slots, es: seq<Option<Entry>>, now: u64)
    requires WellFormed(s) && |es| == |s| && forall i :: 0 <= i < |s| ==> es[i] == Readable(s[i])
    ensures Load(es, now) == Expected(s, now)
  {
    if s == [] {
    } else {
      var n := |s| - 1;
      WellFormedPrefix(s, n);
      LoadWritten(s[..n], es[..n], now);
      if !s[n].state.Free? {
        NoEarlierId(s, n, now);
      }
      ExpectedSnoc(s[..n], s[n], now);
      assert s == s[..n] + [s[n]];
    }
  }

  lemma NoEarlierId(s: Slots, n: nat, now: u64)
    requires UniqueIds(s) && n < |s| && !s[n].state.Free?
    ensures Find(Sweep(s[..n], now), s[n].id) == n
  {
  }

  lemma HeaderWritten(s: Slots, maxTtl: u64, generation: u64, digest: Bytes32)
    requires |s| <= MAX_ENTRIES && generation != 0
    ensures var b := Layout(s, maxTtl, generation, digest);
      HeaderOk(b, |s|, maxTtl) && ReadU64(b[32..40]) == generation
  {
    var b := Layout(s, maxTtl, generation, digest);
    assert b[0..8] == MAGIC;
    assert b[8..12] == BE(VERSION, 4);
    assert b[12..16] == BE(HEADER_SIZE, 4);
    assert b[16..20] == BE(RECORD_SIZE, 4);
    assert b[20..24] == BE(|s|, 4);
    assert b[24..32] == BE(maxTtl, 8);
    assert b[32..40] == BE(generation, 8);
    ReadWriteU32(VERSION);
    ReadWriteU32(HEADER_SIZE);
    ReadWriteU32(RECORD_SIZE);
    ReadWriteU32(|s|);
    ReadWriteU64(maxTtl);
    ReadWriteU64(generation);
  }

  lemma DigestWritten(s: Slots, maxTtl: u64, generation: u64, digest: Bytes32)
    ensures var b := Layout(s, maxTtl, generation, digest);
      b[40..72] == digest && DigestZeroed(b) == Layout(s, maxTtl, generation, ZERO32)
  {
  }

  /** Reopening a snapshot restores the generation and exactly the unexpired
      entries, slot for slot, with the right counts. The one journal that its
      own reader refuses is one that holds an all-zero access digest. */
  lemma DecodeEncode(h: Hash, s: Slots, maxTtl: u64, generation: u64, now: u64)
    requires WellFormed(s) && |s| <= MAX_ENTRIES && generation != 0
    ensures Decode(h, true, Encode(h, s, maxTtl, generation), |s|, maxTtl, now) ==
      if DigestsNonzero(s)
      then Decoded(generation, Sweep(s, now), InProgressCount(Sweep(s, now)), LapsedCount(s, now))
      else DecodeFails(StoreCorrupt)
  {
    var digest := h(Layout(s, maxTtl, generation, ZERO32));
    HeaderWritten(s, maxTtl, generation, digest);
    DigestWritten(s, maxTtl, generation, digest);
    var b := Encode(h, s, maxTtl, generation);
    forall i | 0 <= i < |s|
      ensures ParseAll(b, |s|)[i] == Readable(s[i])
    {
      LayoutRecord(s, maxTtl, generation, digest, i);
      ParseWritten(s[i]);
    }
    LoadWritten(s, ParseAll(b, |s|), now);
  }

  lemma RecordInjective(e: Entry, e': Entry)
    requires EntryOk(e) && EntryOk(e') && RecordBytes(e) == RecordBytes(e')
    ensures e == e'
  {
    var r := RecordBytes(e);
    assert r[0] == RecordByte(e, 0) && r[0] == RecordBytes(e')[0] == RecordByte(e', 0);
    if !e.state.Free? {
      RecordFields(e);
      RecordFields(e');
      ReadWriteU64(e.expires);
      ReadWriteU64(e'.expires);
      ReadWriteU32(ToU32(e.code));
      ReadWriteU32(ToU32(e'.code));
    }
  }

  /** Different journals, TTLs or generations have different snapshots, whatever
      the digest function does. */
  lemma EncodeInjective(h: Hash, s: Slots, maxTtl: u64, generation: u64, s': Slots, maxTtl': u64, generation': u64)
    requires WellFormed(s) && WellFormed(s') && |s| <= MAX_ENTRIES && |s'| <= MAX_ENTRIES
    requires generation != 0 && generation' != 0
    requires Encode(h, s, maxTtl, generation) == Encode(h, s', maxTtl', generation')
    ensures s == s' && maxTtl == maxTtl' && generation == generation'
  {
    var d, d' := h(Layout(s, maxTtl, generation, ZERO32)), h(Layout(s', maxTtl', generation', ZERO32));
    HeaderWritten(s, maxTtl, generation, d);
    HeaderWritten(s', maxTtl', generation', d');
    forall i | 0 <= i < |s|
      ensures s[i] == s'[i]
    {
      LayoutRecord(s, maxTtl, generation, d, i);
      LayoutRecord(s', maxTtl', generation', d', i);
      RecordInjective(s[i], s'[i]);
    }
  }

  // ---- encode after decode ----

  /** An accepted record is the only record of its entry. */
  lemma WriteParsed(r: seq<u8>)
    requires |r| == RECORD_SIZE && ParseRecord(r).Some?
    ensures RecordBytes(ParseRecord(r).value) == r
    ensures EntryOk(ParseRecord(r).value)
    ensures !ParseRecord(r).value.state.Free? ==> Nonzero(ParseRecord(r).value.digest)
  {
    var e := ParseRecord(r).value;
    var w := RecordBytes(e);
    if r[0] != 0 {
      assert BE(e.expires, 8) == r[52..60] && BE(ToU32(e.code), 4) == r[60..64];
      forall i | 0 <= i < RECORD_SIZE
        ensures w[i] == r[i]
      {
        if 1 <= i < 4 { assert r[1..4][i - 1] == 0; }
        if 64 <= i { assert r[64..72][i - 64] == 0; }
      }
    } else {
      assert forall i :: 0 <= i < RECORD_SIZE ==> r[i] == 0;
    }
  }

  ghost predicate LiveJournal(s: Slots, now: u64) {
    && WellFormed(s) && DigestsNonzero(s)
    && forall i :: 0 <= i < |s| && !s[i].state.Free? ==> now < s[i].expires
  }

  lemma LoadEntryKeeps(l: Loaded, e: Entry, now: u64)
    requires LiveJournal(l.slots, now) && EntryOk(e) && (!e.state.Free? ==> Nonzero(e.digest))
    requires LoadEntry(l, e, now).Some?
    ensures LiveJournal(LoadEntry(l, e, now).value.slots, now)
  {
    var s := LoadEntry(l, e, now).value.slots;
    assert forall i :: 0 <= i < |l.slots| ==> s[i] == l.slots[i];
    assert s[|l.slots|] == ZERO_ENTRY || forall i :: 0 <= i < |l.slots| ==> !Taken(l.slots[i], e.id);
  }

  /** Whatever is loaded is well formed and live. */
  lemma {:induction false} LoadedIsLive(es: seq<Option<Entry>>, now: u64)
    requires forall i :: 0 <= i < |es| && es[i].Some? ==>
      EntryOk(es[i].value) && (!es[i].value.state.Free? ==> Nonzero(es[i].value.digest))
    requires Load(es, now).Some?
    ensures LiveJournal(Load(es, now).value.slots, now)
  {
    if es == [] {
    } else {
      var n := |es| - 1;
      LoadedIsLive(es[..n], now);
      LoadEntryKeeps(Load(es[..n], now).value, es[n].value, now);
    }
  }

  lemma {:induction false} LoadedUnchanged(es: seq<Option<Entry>>, now: u64, i: nat)
    requires Load(es, now).Some? && Load(es, now).value.expired == 0 && i < |es|
    requires forall j :: 0 <= j < |es| && es[j].Some? ==> EntryOk(es[j].value)
    ensures es[i] == Some(Load(es, now).value.slots[i])
  {
    var n := |es| - 1;
    if i == n {
    } else {
      LoadedUnchanged(es[..n], now, i);
    }
  }

  lemma ParsedEntries(b: seq<u8>, capacity: nat)
    requires SnapshotSize(capacity) <= |b|
    ensures var es := ParseAll(b, capacity);
      forall i :: 0 <= i < |es| && es[i].Some? ==>
        EntryOk(es[i].value) && (!es[i].value.state.Free? ==> Nonzero(es[i].value.digest))
  {
    forall i | 0 <= i < capacity && ParseRecord(RecordAt(b, i)).Some? {
      WriteParsed(RecordAt(b, i));
    }
  }

  lemma HeaderParsed(b: seq<u8>, capacity: nat, maxTtl: u64, i: nat)
    requires |b| == SnapshotSize(capacity) && capacity <= MAX_ENTRIES
      && HeaderOk(b, capacity, maxTtl) && i < HEADER_SIZE
    ensures HeaderByte(capacity, maxTtl, ReadU64(b[32..40]), b[40..72], i) == b[i]
  {
    if 72 <= i { assert b[72..80][i - 72] == 0; }
  }

  lemma LayoutParsed(b: seq<u8>, capacity: nat, maxTtl: u64, s: Slots, digest: Bytes32)
    requires |b| == SnapshotSize(capacity) && capacity <= MAX_ENTRIES && HeaderOk(b, capacity, maxTtl)
    requires |s| == capacity && digest == b[40..72]
    requires forall i :: 0 <= i < capacity ==> RecordAt(b, i) == RecordBytes(s[i])
    ensures Layout(s, maxTtl, ReadU64(b[32..40]), digest) == b
  {
    var l := Layout(s, maxTtl, ReadU64(b[32..40]), digest);
    forall i | 0 <= i < |b|
      ensures l[i] == b[i]
    {
      if i < HEADER_SIZE {
        HeaderParsed(b, capacity, maxTtl, i);
      } else {
        var k, j := (i - HEADER_SIZE) / RECORD_SIZE, (i - HEADER_SIZE) % RECORD_SIZE;
        assert RecordAt(b, k)[j] == b[i];
      }
    }
  }

  /** Accepted bytes in which nothing has expired are the one encoding of what
      they decode to. */
  lemma EncodeDecode(h: Hash, b: seq<u8>, capacity: nat, maxTtl: u64, now: u64)
    requires capacity <= MAX_ENTRIES
    requires Decode(h, true, b, capacity, maxTtl, now).Decoded?
    requires Decode(h, true, b, capacity, maxTtl, now).expired == 0
    ensures var d := Decode(h, true, b, capacity, maxTtl, now);
      Encode(h, d.slots, maxTtl, d.generation) == b
  {
    var d := Decode(h, true, b, capacity, maxTtl, now);
    ParsedEntries(b, capacity);
    forall i | 0 <= i < capacity
      ensures RecordAt(b, i) == RecordBytes(d.slots[i])
    {
      LoadedUnchanged(ParseAll(b, capacity), now, i);
      WriteParsed(RecordAt(b, i));
    }
    var digest := b[40..72];
    LayoutParsed(b, capacity, maxTtl, d.slots, digest);
    DigestWritten(d.slots, maxTtl, d.generation, digest);
  }

  /** Every accepted snapshot yields a well-formed journal of live entries. */
  lemma DecodedIsWellFormed(h: Hash, hashes: bool, b: seq<u8>, capacity: nat, maxTtl: u64, now: u64)
    requires Decode(h, hashes, b, capacity, maxTtl, now).Decoded?
    ensures var d := Decode(h, hashes, b, capacity, maxTtl, now);
      |d.slots| == capacity && d.generation != 0 && LiveJournal(d.slots, now)
  {
    ParsedEntries(b, capacity);
    LoadedIsLive(ParseAll(b, capacity), now);
  }
}
