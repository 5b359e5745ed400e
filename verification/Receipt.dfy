/** Durable-store receipts: canonical form and binding check. */
module Receipt {
  import opened Bytes
  import opened Access

  const BODY_SIZE: nat := 112
  const ENCODED_SIZE: nat := 176
  const RECEIPT_MAGIC: seq<u8> :=
    ['M' as int, '3' as int, 'R' as int, 'C' as int, 'P' as int, 'T' as int, '1' as int, 0]

  datatype ReceiptResult =
    | ReceiptOk
    | ReceiptInvalidArg
    | ReceiptExpired
    | StoreMismatch
    | CidMismatch
    | RequestMismatch

  datatype Receipt = Receipt(storeNode: Bytes32, cid: Cid, requestId: Bytes16, issuedAt: u64, signature: Bytes64)

  predicate WellFormed(r: Receipt) {
    Nonzero(r.storeNode) && CidValid(r.cid) && Nonzero(r.requestId) && r.issuedAt != 0
  }

  function ReceiptByte(r: Receipt, i: nat): u8
    requires i < ENCODED_SIZE
  {
    if i < 8 then RECEIPT_MAGIC[i]
    else if i < 40 then r.storeNode[i - 8]
    else if i < 41 then r.cid.algorithm
    else if i < 48 then 0
    else if i < 56 then BE(r.cid.size, 8)[i - 48]
    else if i < 88 then r.cid.digest[i - 56]
    else if i < 104 then r.requestId[i - 88]
    else if i < 112 then BE(r.issuedAt, 8)[i - 104]
    else r.signature[i - 112]
  }

  function Layout(r: Receipt): (b: seq<u8>)
    ensures |b| == ENCODED_SIZE
  {
    seq(ENCODED_SIZE, i requires 0 <= i < ENCODED_SIZE => ReceiptByte(r, i))
  }

  /** `m3_chunk_receipt_encode_v1`; `None` is INVALID_ARG. */
  function Encode(r: Receipt): Option<seq<u8>> {
    if WellFormed(r) then Some(Layout(r)) else None
  }

  /** The signed part: everything but the signature. */
  function Body(r: Receipt): seq<u8> { Layout(r)[..BODY_SIZE] }

  /** `m3_chunk_receipt_decode_v1`; `None` is CORRUPT. */
  function Decode(b: seq<u8>): Option<Receipt> {
    if |b| != ENCODED_SIZE || b[0..8] != RECEIPT_MAGIC || Nonzero(b[41..48]) then None
    else
      var r := Receipt(b[8..40], Cid(b[40], ReadU64(b[48..56]), b[56..88]),
                       b[88..104], ReadU64(b[104..112]), b[112..176]);
      if WellFormed(r) then Some(r) else None
  }

  /** A receipt survives encoding and decoding exactly if it is well formed. */
  lemma RoundTripIff(r: Receipt)
    ensures Decode(Layout(r)) == Some(r) <==> WellFormed(r)
    ensures Encode(r).Some? ==> Decode(Encode(r).value) == Some(r)
  {
    var b := Layout(r);
    assert b[0..8] == RECEIPT_MAGIC && b[8..40] == r.storeNode && b[56..88] == r.cid.digest;
    assert b[88..104] == r.requestId && b[112..176] == r.signature;
    assert b[48..56] == BE(r.cid.size, 8) && b[104..112] == BE(r.issuedAt, 8);
    ReadWriteU64(r.cid.size);
    ReadWriteU64(r.issuedAt);
  }

  /** Accepted bytes are the one encoding of their receipt; the signed part that
      a verifier rebuilds is the signed part received. */
  lemma Reencode(b: seq<u8>)
    requires Decode(b).Some?
    ensures Encode(Decode(b).value) == Some(b)
    ensures Body(Decode(b).value) == b[..BODY_SIZE]
  {
    var r := Decode(b).value;
    forall i | 0 <= i < ENCODED_SIZE
      ensures ReceiptByte(r, i) == b[i]
    {
      if 41 <= i < 48 { assert b[41..48][i - 41] == 0; }
    }
    assert Layout(r) == b;
  }

  /** What a signature over the body binds: receipts with one body agree in
      everything except the signature. */
  lemma BodyBinds(r: Receipt, s: Receipt)
    requires WellFormed(r) && WellFormed(s) && Body(r) == Body(s)
    ensures (r.storeNode, r.cid, r.requestId, r.issuedAt) == (s.storeNode, s.cid, s.requestId, s.issuedAt)
  {
    var t := Receipt(s.storeNode, s.cid, s.requestId, s.issuedAt, r.signature);
    forall i | 0 <= i < ENCODED_SIZE
      ensures ReceiptByte(t, i) == ReceiptByte(r, i)
    {
      if i < BODY_SIZE {
        assert Body(r)[i] == ReceiptByte(r, i) && Body(s)[i] == ReceiptByte(s, i);
      }
    }
    assert Layout(t) == Layout(r);
    RoundTripIff(r);
    RoundTripIff(t);
  }

  /** `m3_chunk_receipt_check_binding_v1`. */
  function CheckBinding(r: Receipt, storeNode: Bytes32, cid: Cid, requestId: Bytes16, now: u64, maxAge: u64)
    : ReceiptResult
  {
    if !WellFormed(r) then ReceiptInvalidArg
    else if r.storeNode != storeNode then StoreMismatch
    else if r.cid != cid then CidMismatch
    else if r.requestId != requestId then RequestMismatch
    else if maxAge != 0 && (now < r.issuedAt || now - r.issuedAt > maxAge) then ReceiptExpired
    else ReceiptOk
  }

  /** Of two receipts with one signed body, either both pass a binding check or
      neither does; and no receipt passes it for two different targets. */
  lemma BindingIsDetermined(r: Receipt, s: Receipt, storeNode: Bytes32, cid: Cid, requestId: Bytes16,
                            storeNode': Bytes32, cid': Cid, requestId': Bytes16, now: u64, maxAge: u64)
    requires WellFormed(r) && WellFormed(s) && Body(r) == Body(s)
    ensures CheckBinding(r, storeNode, cid, requestId, now, maxAge)
      == CheckBinding(s, storeNode, cid, requestId, now, maxAge)
    ensures
      (CheckBinding(r, storeNode, cid, requestId, now, maxAge) == ReceiptOk
       && CheckBinding(s, storeNode', cid', requestId', now, maxAge) == ReceiptOk) ==>
        (storeNode, cid, requestId) == (storeNode', cid', requestId')
  {
    BodyBinds(r, s);
  }

  /** A binding check passes exactly for a well-formed receipt of this target; with
      an age limit, the receipt is also at most that old and not from the future. */
  lemma BindingAnswer(r: Receipt, storeNode: Bytes32, cid: Cid, requestId: Bytes16, now: u64, maxAge: u64)
    ensures CheckBinding(r, storeNode, cid, requestId, now, maxAge) == ReceiptOk <==>
        && WellFormed(r) && (r.storeNode, r.cid, r.requestId) == (storeNode, cid, requestId)
        && (maxAge == 0 || r.issuedAt <= now <= r.issuedAt + maxAge)
  {
  }

  /** Each refusal, exactly: what is malformed comes first, then the store, the
      object, the request, and the age last. */
  lemma BindingRefusals(r: Receipt, storeNode: Bytes32, cid: Cid, requestId: Bytes16, now: u64, maxAge: u64)
    ensures var o := CheckBinding(r, storeNode, cid, requestId, now, maxAge);
      && (o == ReceiptInvalidArg <==> !WellFormed(r))
      && (o == StoreMismatch <==> WellFormed(r) && r.storeNode != storeNode)
      && (o == CidMismatch <==> WellFormed(r) && r.storeNode == storeNode && r.cid != cid)
      && (o == RequestMismatch <==>
            WellFormed(r) && (r.storeNode, r.cid) == (storeNode, cid) && r.requestId != requestId)
      && (o == ReceiptExpired <==>
            && WellFormed(r) && (r.storeNode, r.cid, r.requestId) == (storeNode, cid, requestId)
            && maxAge > 0 && !(r.issuedAt <= now <= r.issuedAt + maxAge))
  {
  }

  /** `m3_chunk_receipt_encode_v1`: `encode_body` and the signature after it.
      A refused receipt leaves the buffer alone. */
  method WriteReceipt(r: Receipt, out: array<u8>) returns (size: nat)
    requires out.Length == ENCODED_SIZE
    modifies out
    ensures Encode(r) == if size == ENCODED_SIZE then Some(out[..]) else None
    ensures size != ENCODED_SIZE ==> size == 0 && out[..] == old(out[..])
  {
    if !WellFormed(r) {
      return 0;
    }
    CopyInto(out, 0, seq(ENCODED_SIZE, _ => 0));
    CopyInto(out, 0, RECEIPT_MAGIC);
    CopyInto(out, 8, r.storeNode);
    out[40] := r.cid.algorithm;
    WriteBE(out, 48, r.cid.size, 8);
    CopyInto(out, 56, r.cid.digest);
    CopyInto(out, 88, r.requestId);
    WriteBE(out, 104, r.issuedAt, 8);
    CopyInto(out, 112, r.signature);
    assert out[..] == Layout(r);
    return ENCODED_SIZE;
  }
}
