/** Wire formats of the chunk mesh: capability claims and frames. */
module ChunkMesh {
  import opened Bytes
  import opened Access

  const CLAIMS_SIZE: nat := 168
  const MAX_PAYLOAD: nat := 61440
  const FRAME_MAX: nat := MAX_PAYLOAD + 512
  const PAYLOAD_OFFSET: nat := 336

  datatype MeshResult = MeshInvalidArg | MeshOverflow | MeshResourceExhausted

  type ClaimsBytes = s: seq<u8> | |s| == 168 witness seq(168, _ => 0)

  // ---- claims ----

  /** Byte `i` of the canonical claims; the operation is truncated to a byte. */
  function ClaimsByte(c: Claims, i: nat): u8
    requires i < CLAIMS_SIZE
  {
    if i < 32 then c.tenant[i]
    else if i < 33 then c.cid.algorithm
    else if i < 40 then 0
    else if i < 48 then BE(c.cid.size, 8)[i - 40]
    else if i < 80 then c.cid.digest[i - 48]
    else if i < 81 then c.operation % 256
    else if i < 88 then 0
    else if i < 96 then BE(c.offset, 8)[i - 88]
    else if i < 104 then BE(c.length, 8)[i - 96]
    else if i < 136 then c.audience[i - 104]
    else if i < 152 then c.requestId[i - 136]
    else if i < 160 then BE(c.issuedAt, 8)[i - 152]
    else BE(c.expiresAt, 8)[i - 160]
  }

  /** `m3_chunk_mesh_claims_encode_v1`. */
  function EncodeClaims(c: Claims): (b: ClaimsBytes) {
    seq(CLAIMS_SIZE, i requires 0 <= i < CLAIMS_SIZE => ClaimsByte(c, i))
  }

  /** `m3_chunk_mesh_claims_decode_v1`; `None` is CORRUPT. */
  function DecodeClaims(b: ClaimsBytes): Option<Claims> {
    if Nonzero(b[33..40]) || Nonzero(b[81..88]) then None
    else Some(Claims(b[0..32], Cid(b[32], ReadU64(b[40..48]), b[48..80]), b[80], ReadU64(b[88..96]),
                     ReadU64(b[96..104]),
                     b[104..136], b[136..152], ReadU64(b[152..160]), ReadU64(b[160..168])))
  }

  /** Claims survive the wire exactly if their operation fits its byte. */
  lemma ClaimsRoundTripIff(c: Claims)
    ensures DecodeClaims(EncodeClaims(c)) == Some(c) <==> c.operation < 256
  {
    var b := EncodeClaims(c);
    assert b[0..32] == c.tenant && b[48..80] == c.cid.digest && b[104..136] == c.audience && b[136..152] == c.requestId;
    assert b[40..48] == BE(c.cid.size, 8);
    assert b[88..96] == BE(c.offset, 8) && b[96..104] == BE(c.length, 8);
    assert b[152..160] == BE(c.issuedAt, 8) && b[160..168] == BE(c.expiresAt, 8);
    ReadWriteU64(c.cid.size);
    ReadWriteU64(c.offset);
    ReadWriteU64(c.length);
    ReadWriteU64(c.issuedAt);
    ReadWriteU64(c.expiresAt);
  }

  /** Accepted bytes are the only encoding of what they decode to, so the bytes
      that are re-encoded to check a signature are the bytes received. */
  lemma ClaimsReencode(b: ClaimsBytes)
    requires DecodeClaims(b).Some?
    ensures EncodeClaims(DecodeClaims(b).value) == b
  {
    var c := DecodeClaims(b).value;
    forall i | 0 <= i < CLAIMS_SIZE
      ensures ClaimsByte(c, i) == b[i]
    {
      if 33 <= i < 40 { assert b[33..40][i - 33] == 0; }
      if 81 <= i < 88 { assert b[81..88][i - 81] == 0; }
    }
  }

  // ---- frames ----

  const FRAME_MAGIC: seq<u8> := ['M' as int, '3' as int, 'C' as int, 'H' as int, 'N' as int, 'K' as int, '1' as int, 0]

  datatype Frame = Frame(
    kind: u8, operation: u8, status: i32, correlation: Bytes16, claims: ClaimsBytes, signature: Bytes64,
    channelKey: Bytes32, signerKey: Bytes32, payload: seq<u8>)

  predicate KindsValid(f: Frame) { f.kind in {1, 2} && f.operation in {1, 2} }

  function FrameByte(f: Frame, i: nat): u8
    requires i < PAYLOAD_OFFSET + |f.payload|
  {
    if i < 8 then FRAME_MAGIC[i]
    else if i < 10 then BE(1, 2)[i - 8]
    else if i < 11 then f.kind
    else if i < 12 then f.operation
    else if i < 16 then BE(ToU32(f.status), 4)[i - 12]
    else if i < 32 then f.correlation[i - 16]
    else if i < 36 then BE(CLAIMS_SIZE, 4)[i - 32]
    else if i < 40 then BE(|f.payload|, 4)[i - 36]
    else if i < 208 then f.claims[i - 40]
    else if i < 272 then f.signature[i - 208]
    else if i < 304 then f.channelKey[i - 272]
    else if i < 336 then f.signerKey[i - 304]
    else f.payload[i - 336]
  }

  function FrameBytes(f: Frame): (b: seq<u8>)
    ensures |b| == PAYLOAD_OFFSET + |f.payload|
  {
    seq(PAYLOAD_OFFSET + |f.payload|, i requires 0 <= i < PAYLOAD_OFFSET + |f.payload| => FrameByte(f, i))
  }

  datatype Encoded = Encoded(bytes: seq<u8>) | NotEncoded(error: MeshResult)

  /** `m3_chunk_mesh_frame_encode_v1` into a buffer of `capacity` bytes. */
  function EncodeFrame(f: Frame, capacity: nat): Encoded {
    if !KindsValid(f) then NotEncoded(MeshInvalidArg)
    else if |f.payload| > MAX_PAYLOAD then NotEncoded(MeshOverflow)
    else if PAYLOAD_OFFSET + |f.payload| > capacity then NotEncoded(MeshResourceExhausted)
    else Encoded(FrameBytes(f))
  }

  /** `m3_chunk_mesh_frame_decode_v1`; `None` is CORRUPT. Type and operation are
      passed on as they are. */
  function DecodeFrame(b: seq<u8>): Option<Frame> {
    if |b| < PAYLOAD_OFFSET || b[0..8] != FRAME_MAGIC || FromBE(b[8..10]) != 1 then None
    else if ReadU32(b[32..36]) != CLAIMS_SIZE || ReadU32(b[36..40]) > MAX_PAYLOAD then None
    else if |b| != PAYLOAD_OFFSET + ReadU32(b[36..40]) then None
    else Some(Frame(b[10], b[11], ToI32(ReadU32(b[12..16])), b[16..32], b[40..208], b[208..272], b[272..304],
                    b[304..336], b[336..]))
  }

  lemma FrameHeaderWritten(f: Frame)
    requires |f.payload| <= MAX_PAYLOAD
    ensures var b := FrameBytes(f);
      && b[0..8] == FRAME_MAGIC && FromBE(b[8..10]) == 1
      && ReadU32(b[32..36]) == CLAIMS_SIZE && ReadU32(b[36..40]) == |f.payload|
  {
    var b := FrameBytes(f);
    assert b[0..8] == FRAME_MAGIC;
    assert b[8..10] == BE(1, 2);
    assert b[32..36] == BE(CLAIMS_SIZE, 4);
    assert b[36..40] == BE(|f.payload|, 4);
    PowersOf256();
    BERoundTrip(1, 2);
    ReadWriteU32(CLAIMS_SIZE);
    ReadWriteU32(|f.payload|);
  }

  lemma FrameStatusWritten(f: Frame)
    ensures ToI32(ReadU32(FrameBytes(f)[12..16])) == f.status
  {
    assert FrameBytes(f)[12..16] == BE(ToU32(f.status), 4);
    ReadWriteU32(ToU32(f.status));
  }

  /** Decoding an encoded frame gives the frame back. */
  lemma FrameRoundTrip(f: Frame, capacity: nat)
    requires EncodeFrame(f, capacity).Encoded?
    ensures DecodeFrame(EncodeFrame(f, capacity).bytes) == Some(f)
  {
    var b := FrameBytes(f);
    FrameHeaderWritten(f);
    FrameStatusWritten(f);
    assert b[16..32] == f.correlation && b[40..208] == f.claims && b[208..272] == f.signature;
    assert b[272..304] == f.channelKey && b[304..336] == f.signerKey && b[336..] == f.payload;
  }

  lemma FrameRewritten(b: seq<u8>)
    requires DecodeFrame(b).Some?
    ensures FrameBytes(DecodeFrame(b).value) == b
  {
    var f := DecodeFrame(b).value;
    FromBERoundTrip(b[8..10]);
    assert |f.payload| == ReadU32(b[36..40]);
    forall i | 0 <= i < |b|
      ensures FrameByte(f, i) == b[i]
    {
    }
  }

  /** An accepted frame re-encodes to the same bytes exactly if its type and
      operation are ones that the encoder takes. */
  lemma FrameReencodeIff(b: seq<u8>)
    requires DecodeFrame(b).Some?
    ensures EncodeFrame(DecodeFrame(b).value, FRAME_MAX) == Encoded(b) <==> KindsValid(DecodeFrame(b).value)
  {
    FrameRewritten(b);
  }

  /** Every payload within the cap fits a frame buffer, and with it the message
      limit of the peer link. */
  lemma PayloadFitsFrame(f: Frame)
    requires KindsValid(f)
    ensures EncodeFrame(f, FRAME_MAX).Encoded? <==> |f.payload| <= MAX_PAYLOAD
    ensures EncodeFrame(f, FRAME_MAX).Encoded? ==> |EncodeFrame(f, FRAME_MAX).bytes| <= FRAME_MAX < 65536
  {
  }

  // ---- the encoders' code ----

  method WriteClaims(c: Claims, out: array<u8>)
    requires out.Length == CLAIMS_SIZE
    modifies out
    ensures out[..] == EncodeClaims(c)
  {
    CopyInto(out, 0, seq(CLAIMS_SIZE, _ => 0));
    CopyInto(out, 0, c.tenant);
    out[32] := c.cid.algorithm;
    WriteBE(out, 40, c.cid.size, 8);
    CopyInto(out, 48, c.cid.digest);
    out[80] := c.operation % 256;
    WriteBE(out, 88, c.offset, 8);
    WriteBE(out, 96, c.length, 8);
    CopyInto(out, 104, c.audience);
    CopyInto(out, 136, c.requestId);
    WriteBE(out, 152, c.issuedAt, 8);
    WriteBE(out, 160, c.expiresAt, 8);
  }

  /** Writes the frame at the start of a larger buffer and returns its size. */
  method WriteFrame(f: Frame, out: array<u8>) returns (error: Option<MeshResult>, size: nat)
    modifies out
    ensures error.None? ==> size <= out.Length && EncodeFrame(f, out.Length) == Encoded(out[..size])
    ensures error.Some? ==>
      EncodeFrame(f, out.Length) == NotEncoded(error.value) && size == 0 && out[..] == old(out[..])
  {
    if !KindsValid(f) { return Some(MeshInvalidArg), 0; }
    if |f.payload| > MAX_PAYLOAD { return Some(MeshOverflow), 0; }
    size := PAYLOAD_OFFSET + |f.payload|;
    if size > out.Length { return Some(MeshResourceExhausted), 0; }
    WriteFrameHeader(f, out);
    CopyInto(out, 40, f.claims);
    CopyInto(out, 208, f.signature);
    CopyInto(out, 272, f.channelKey);
    CopyInto(out, 304, f.signerKey);
    CopyInto(out, 336, f.payload);
    assert out[..size] == FrameBytes(f);
    error := None;
  }

  method WriteFrameHeader(f: Frame, out: array<u8>)
    requires PAYLOAD_OFFSET + |f.payload| <= out.Length
    modifies out
    ensures forall i :: 0 <= i < 40 ==> out[i] == FrameByte(f, i)
  {
    CopyInto(out, 0, FRAME_MAGIC);
    WriteBE(out, 8, 1, 2);
    out[10] := f.kind;
    out[11] := f.operation;
    WriteBE(out, 12, ToU32(f.status), 4);
    CopyInto(out, 16, f.correlation);
    WriteBE(out, 32, CLAIMS_SIZE, 4);
    WriteBE(out, 36, |f.payload|, 4);
  }
}
