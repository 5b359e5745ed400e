/** Where every field of every format lies, in literal offsets and bytes. */
module Layouts {
  import opened Bytes
  import opened Access
  import opened AccessDigest
  import J = Journal
  import S = Snapshot
  import M = ChunkMesh
  import R = Receipt

  /** The text that separates access pre-images from other hashed inputs. */
  lemma DomainBytes()
    ensures |DOMAIN| == 38
    ensures DOMAIN[0..13] == [84, 117, 114, 98, 111, 78, 101, 116, 45, 77, 51, 45, 67]
    ensures DOMAIN[13..26] == [104, 117, 110, 107, 45, 65, 117, 116, 104, 111, 114, 105, 122]
    ensures DOMAIN[26..38] == [101, 100, 45, 65, 99, 99, 101, 115, 115, 45, 118, 49]
  {
    DomainFront();
    DomainMiddle();
    DomainBack();
  }

  lemma DomainFront()
    ensures |DOMAIN| == 38
    ensures DOMAIN[0..13] == [84, 117, 114, 98, 111, 78, 101, 116, 45, 77, 51, 45, 67]
  {
    var part: seq<u8> := [84, 117, 114, 98, 111, 78, 101, 116, 45, 77, 51, 45, 67];
    forall i | 0 <= i < 13
      ensures DOMAIN[0 + i] == part[i]
    {
    }
  }

  lemma DomainMiddle()
    ensures |DOMAIN| == 38
    ensures DOMAIN[13..26] == [104, 117, 110, 107, 45, 65, 117, 116, 104, 111, 114, 105, 122]
  {
    var part: seq<u8> := [104, 117, 110, 107, 45, 65, 117, 116, 104, 111, 114, 105, 122];
    forall i | 0 <= i < 13
      ensures DOMAIN[13 + i] == part[i]
    {
    }
  }

  lemma DomainBack()
    ensures |DOMAIN| == 38
    ensures DOMAIN[26..38] == [101, 100, 45, 65, 99, 99, 101, 115, 115, 45, 118, 49]
  {
    var part: seq<u8> := [101, 100, 45, 65, 99, 99, 101, 115, 115, 45, 118, 49];
    forall i | 0 <= i < 12
      ensures DOMAIN[26 + i] == part[i]
    {
    }
  }

  lemma TailLayout(a: AuthorizedAccess)
    ensures var t := Tail(a);
      && |t| == 72 && t[0..8] == BE(a.offset, 8) && t[8..16] == BE(a.length, 8)
      && t[16..48] == a.audience && t[48..64] == a.requestId && t[64..72] == BE(a.expiresAt, 8)
  {
  }

  /** The access pre-image: 187 bytes, the domain text first. */
  lemma PreImageLayout(a: AuthorizedAccess)
    ensures var b := PreImage(a);
      && |b| == 187
      && b[..38] == DOMAIN && b[38..70] == a.tenant && b[70] == a.cid.algorithm && b[71..79] == BE(a.cid.size, 8)
      && b[79..111] == a.cid.digest && b[111..115] == BE(a.operation, 4)
      && b[115..123] == BE(a.offset, 8) && b[123..131] == BE(a.length, 8)
      && b[131..163] == a.audience && b[163..179] == a.requestId && b[179..187] == BE(a.expiresAt, 8)
  {
    var t, b := Tail(a), PreImage(a);
    TailLayout(a);
    HeadLayout(a);
    assert b[115..123] == t[0..8] && b[123..131] == t[8..16];
    assert b[131..163] == t[16..48] && b[163..179] == t[48..64] && b[179..187] == t[64..72];
  }

  lemma Slice(x: seq<u8>, y: seq<u8>)
    ensures (x + y)[..|x|] == x && (x + y)[|x|..] == y
  {
  }

  lemma HeadLayout(a: AuthorizedAccess)
    ensures var b := PreImage(a);
      && |b| == 187 && |DOMAIN| == 38
      && b[..38] == DOMAIN && b[38..70] == a.tenant && b[70] == a.cid.algorithm && b[71..79] == BE(a.cid.size, 8)
      && b[79..111] == a.cid.digest && b[111..115] == BE(a.operation, 4) && b[115..] == Tail(a)
  {
    var b := PreImage(a);
    TailLayout(a);
    DomainLength();
    var t5 := BE(a.operation, 4) + Tail(a);
    var t4 := a.cid.digest + t5;
    var t3 := BE(a.cid.size, 8) + t4;
    var t2 := [a.cid.algorithm] + t3;
    var t1 := a.tenant + t2;
    Slice(DOMAIN, t1);
    Slice(a.tenant, t2);
    Slice([a.cid.algorithm], t3);
    Slice(BE(a.cid.size, 8), t4);
    Slice(a.cid.digest, t5);
    Slice(BE(a.operation, 4), Tail(a));
    Drop(b, 38, 32);
    Drop(b, 70, 1);
    Drop(b, 71, 8);
    Drop(b, 79, 32);
    Drop(b, 111, 4);
  }

  lemma DomainLength()
    ensures |DOMAIN| == 38
  {
  }

  lemma Drop(b: seq<u8>, i: nat, n: nat)
    requires i + n <= |b|
    ensures b[i..][..n] == b[i..i + n] && b[i..][n..] == b[i + n..]
  {
  }

  /** Claims: 168 bytes, with two reserved stretches of zeros. */
  lemma ClaimsLayout(c: Claims)
    ensures var b := M.EncodeClaims(c);
      && |b| == 168 && b[0..32] == c.tenant && b[32] == c.cid.algorithm && b[33..40] == [0, 0, 0, 0, 0, 0, 0]
      && b[40..48] == BE(c.cid.size, 8) && b[48..80] == c.cid.digest
      && b[80] == c.operation % 256 && b[81..88] == [0, 0, 0, 0, 0, 0, 0]
      && b[88..96] == BE(c.offset, 8) && b[96..104] == BE(c.length, 8)
      && b[104..136] == c.audience && b[136..152] == c.requestId
      && b[152..160] == BE(c.issuedAt, 8) && b[160..168] == BE(c.expiresAt, 8)
  {
  }

  lemma {:induction false} ZeroBE(n: nat)
    ensures BE(0, n) == seq(n, _ => 0)
  {
    if n == 0 {
    } else {
      ZeroBE(n - 1);
    }
  }

  /** A small number is stored in the last byte. */
  lemma SmallBE(v: u8, n: nat)
    requires n > 0
    ensures BE(v, n) == seq(n - 1, _ => 0) + [v]
  {
    ZeroBE(n - 1);
  }

  lemma SmallNumbers()
    ensures BE(1, 2) == [0, 1] && BE(1, 4) == [0, 0, 0, 1]
    ensures BE(72, 4) == [0, 0, 0, 72] && BE(80, 4) == [0, 0, 0, 80] && BE(168, 4) == [0, 0, 0, 168]
  {
    SmallBE(1, 2);
    SmallBE(1, 4);
    SmallBE(72, 4);
    SmallBE(80, 4);
    SmallBE(168, 4);
  }

  /** A frame of version 1: magic, kind, sizes, the fixed fields, then the payload. */
  lemma FrameLayout(f: M.Frame, capacity: nat)
    requires M.EncodeFrame(f, capacity).Encoded?
    ensures var b := M.EncodeFrame(f, capacity).bytes;
      && |b| == 336 + |f.payload|
      && b[0..8] == [77, 51, 67, 72, 78, 75, 49, 0] && b[8..10] == [0, 1]
      && b[10] == f.kind && b[11] == f.operation && b[12..16] == BE(ToU32(f.status), 4)
      && b[16..32] == f.correlation && b[32..36] == [0, 0, 0, 168] && b[36..40] == BE(|f.payload|, 4)
      && b[40..208] == f.claims && b[208..272] == f.signature
      && b[272..304] == f.channelKey && b[304..336] == f.signerKey && b[336..] == f.payload
  {
    FrameHeadLayout(f);
    FrameFieldsLayout(f);
    SmallNumbers();
  }

  lemma FrameHeadLayout(f: M.Frame)
    ensures var b := M.FrameBytes(f);
      && b[0..8] == [77, 51, 67, 72, 78, 75, 49, 0] && b[8..10] == BE(1, 2)
      && b[10] == f.kind && b[11] == f.operation && b[12..16] == BE(ToU32(f.status), 4)
      && b[32..36] == BE(168, 4) && b[36..40] == BE(|f.payload|, 4)
  {
  }

  lemma FrameFieldsLayout(f: M.Frame)
    ensures var b := M.FrameBytes(f);
      && |b| == 336 + |f.payload| && b[16..32] == f.correlation && b[40..208] == f.claims && b[208..272] == f.signature
      && b[272..304] == f.channelKey && b[304..336] == f.signerKey && b[336..] == f.payload
  {
  }

  /** When a frame is encoded at all. */
  lemma FrameEncodedIff(f: M.Frame, capacity: nat)
    ensures var o := M.EncodeFrame(f, capacity);
      var known := (f.kind == 1 || f.kind == 2) && (f.operation == 1 || f.operation == 2);
      && (o == M.NotEncoded(M.MeshInvalidArg) <==> !known)
      && (o == M.NotEncoded(M.MeshOverflow) <==> known && |f.payload| > 61440)
      && (o == M.NotEncoded(M.MeshResourceExhausted) <==> known && |f.payload| <= 61440 && capacity < 336 + |f.payload|)
  {
  }

  /** A receipt: 112 signed bytes and the signature. */
  lemma ReceiptLayout(r: R.Receipt)
    ensures var b := R.Layout(r);
      && |b| == 176 && b[0..8] == [77, 51, 82, 67, 80, 84, 49, 0]
      && b[8..40] == r.storeNode && b[40] == r.cid.algorithm && b[41..48] == [0, 0, 0, 0, 0, 0, 0]
      && b[48..56] == BE(r.cid.size, 8) && b[56..88] == r.cid.digest && b[88..104] == r.requestId
      && b[104..112] == BE(r.issuedAt, 8) && b[112..176] == r.signature
    ensures R.Body(r) == R.Layout(r)[..112]
  {
  }

  /** What the receipt code calls well formed. */
  lemma ReceiptWellFormedIff(r: R.Receipt)
    ensures R.WellFormed(r) <==>
      !AllZero(r.storeNode) && Identifies(r.cid) && !AllZero(r.requestId) && r.issuedAt > 0
    ensures R.Encode(r).Some? <==> R.WellFormed(r)
  {
  }

  /** A snapshot: an 80-byte header whose digest covers the file with that field
      zeroed, then 72 bytes for each slot. */
  lemma SnapshotLayout(h: Hash, s: J.Slots, maxTtl: u64, generation: u64)
    ensures var b := S.Encode(h, s, maxTtl, generation);
      && |b| == 80 + 72 * |s|
      && b[0..8] == [77, 51, 82, 80, 76, 89, 49, 0] && b[8..12] == [0, 0, 0, 1]
      && b[12..16] == [0, 0, 0, 80] && b[16..20] == [0, 0, 0, 72] && b[20..24] == BE(|s|, 4)
      && b[24..32] == BE(maxTtl, 8) && b[32..40] == BE(generation, 8)
      && b[40..72] == h(b[..40] + seq(32, _ => 0) + b[72..]) && b[72..80] == [0, 0, 0, 0, 0, 0, 0, 0]
  {
    var digest := h(S.Layout(s, maxTtl, generation, ZERO32));
    S.DigestWritten(s, maxTtl, generation, digest);
    SnapshotHeadLayout(s, maxTtl, generation, digest);
    SnapshotFieldsLayout(s, maxTtl, generation, digest);
    SmallNumbers();
    assert seq(32, _ => 0) == ZERO32;
  }

  lemma SnapshotHeadLayout(s: J.Slots, maxTtl: u64, generation: u64, digest: Bytes32)
    ensures var b := S.Layout(s, maxTtl, generation, digest);
      && b[0..8] == [77, 51, 82, 80, 76, 89, 49, 0] && b[8..12] == BE(1, 4)
      && b[12..16] == BE(80, 4) && b[16..20] == BE(72, 4)
  {
    var b := S.Layout(s, maxTtl, generation, digest);
    assert b[0..8] == S.MAGIC;
  }

  lemma SnapshotFieldsLayout(s: J.Slots, maxTtl: u64, generation: u64, digest: Bytes32)
    ensures var b := S.Layout(s, maxTtl, generation, digest);
      && b[20..24] == BE(|s|, 4) && b[24..32] == BE(maxTtl, 8) && b[32..40] == BE(generation, 8)
      && b[72..80] == [0, 0, 0, 0, 0, 0, 0, 0]
  {
  }

  /** The record of slot `i`: zeros for a free one, and otherwise its state (1 in
      progress, 2 completed), id, digest, expiry and code. */
  lemma RecordLayout(h: Hash, s: J.Slots, maxTtl: u64, generation: u64, i: nat)
    requires i < |s|
    ensures 80 + 72 * (i + 1) <= |S.Encode(h, s, maxTtl, generation)|
    ensures var r := S.Encode(h, s, maxTtl, generation)[80 + 72 * i..80 + 72 * (i + 1)];
      if s[i].state.Free? then AllZero(r)
      else
        && r[0] == (if s[i].state.InProgress? then 1 else 2) && r[1..4] == [0, 0, 0]
        && r[4..20] == s[i].id && r[20..52] == s[i].digest && r[52..60] == BE(s[i].expires, 8)
        && r[60..64] == BE(ToU32(s[i].code), 4) && r[64..72] == [0, 0, 0, 0, 0, 0, 0, 0]
  {
    var digest := h(S.Layout(s, maxTtl, generation, ZERO32));
    S.LayoutRecord(s, maxTtl, generation, digest, i);
    RecordBytesLayout(s[i]);
  }

  lemma RecordBytesLayout(e: J.Entry)
    ensures var r := S.RecordBytes(e);
      if e.state.Free? then AllZero(r)
      else
        && r[0] == (if e.state.InProgress? then 1 else 2) && r[1..4] == [0, 0, 0]
        && r[4..20] == e.id && r[20..52] == e.digest && r[52..60] == BE(e.expires, 8)
        && r[60..64] == BE(ToU32(e.code), 4) && r[64..72] == [0, 0, 0, 0, 0, 0, 0, 0]
  {
  }

  /** Signed numbers are stored in two's complement. */
  lemma TwosComplement(v: i32)
    ensures (ToU32(v) - v) % 0x1_0000_0000 == 0 && ToI32(ToU32(v)) == v
  {
  }

  /** A header that is accepted: the literal magic, version and sizes, this capacity
      and TTL, a generation, and zeros in the reserved bytes. */
  lemma HeaderOkIff(b: seq<u8>, capacity: nat, maxTtl: u64)
    requires |b| >= 80 && capacity <= 4096
    ensures S.HeaderOk(b, capacity, maxTtl) <==>
      && b[0..8] == [77, 51, 82, 80, 76, 89, 49, 0] && b[8..12] == [0, 0, 0, 1]
      && b[12..16] == [0, 0, 0, 80] && b[16..20] == [0, 0, 0, 72] && b[20..24] == BE(capacity, 4)
      && b[24..32] == BE(maxTtl, 8) && !AllZero(b[32..40]) && AllZero(b[72..80])
  {
    SmallNumbers();
    ReadWriteU32(1);
    ReadWriteU32(80);
    ReadWriteU32(72);
    ReadWriteU32(capacity);
    ReadWriteU64(maxTtl);
    ZeroReadsZero(b[32..40]);
  }

  lemma ZeroReadsZero(s: seq<u8>)
    requires |s| == 8
    ensures ReadU64(s) == 0 <==> AllZero(s)
  {
    ZeroBE(8);
    ReadWriteU64(0);
    if AllZero(s) {
      assert s == BE(0, 8);
    }
  }

  /** Which refusal a snapshot gets: the wrong size is INVALID_ARG, a digest that
      cannot be computed CRYPTO_FAILED after a good header, anything else CORRUPT. */
  lemma DecodeRefusals(h: Hash, hashes: bool, b: seq<u8>, capacity: nat, maxTtl: u64, now: u64)
    ensures var o := S.Decode(h, hashes, b, capacity, maxTtl, now);
      && (|b| != 80 + 72 * capacity ==> o == S.DecodeFails(S.StoreInvalidArg))
      && (|b| == 80 + 72 * capacity && S.HeaderOk(b, capacity, maxTtl) && !hashes ==>
            o == S.DecodeFails(S.StoreCryptoFailed))
      && (|b| == 80 + 72 * capacity && (hashes || !S.HeaderOk(b, capacity, maxTtl)) && o.DecodeFails? ==>
            o.error == S.StoreCorrupt)
  {
  }

  /** The journal is one whose snapshot this is, with nothing expired and no all-zero
      digest. */
  ghost predicate IsLiveFile(h: Hash, b: seq<u8>, s: J.Slots, maxTtl: u64, generation: u64, now: u64) {
    S.LiveJournal(s, now) && generation != 0 && b == S.Encode(h, s, maxTtl, generation)
  }

  /** A file is accepted with nothing expired exactly if it is the snapshot of a
      well-formed live journal of this capacity and TTL, and that is what it loads. */
  lemma AcceptedIff(h: Hash, b: seq<u8>, capacity: nat, maxTtl: u64, now: u64, s: J.Slots, generation: u64)
    requires capacity <= 4096 && |s| == capacity
    ensures var o := S.Decode(h, true, b, capacity, maxTtl, now);
      (o.Decoded? && o.expired == 0 && o.slots == s && o.generation == generation)
        <==> IsLiveFile(h, b, s, maxTtl, generation, now)
  {
    var o := S.Decode(h, true, b, capacity, maxTtl, now);
    if o.Decoded? && o.expired == 0 {
      S.EncodeDecode(h, b, capacity, maxTtl, now);
      S.DecodedIsWellFormed(h, true, b, capacity, maxTtl, now);
    }
    if IsLiveFile(h, b, s, maxTtl, generation, now) {
      S.DecodeEncode(h, s, maxTtl, generation, now);
      LiveIsSwept(s, now);
    }
  }

  lemma LiveIsSwept(s: J.Slots, now: u64)
    requires S.LiveJournal(s, now)
    ensures J.Sweep(s, now) == s && J.LapsedCount(s, now) == 0
  {
    S.LapsedCountIs(s, now);
    assert S.LapsedAt(s, now) == {};
  }
}
