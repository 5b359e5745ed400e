/** Exactly when the chunk store and the access store give each answer, in terms
    of the files and of what the platform does. */
module ChunkAnswers {
  import opened Bytes
  import opened Access
  import opened ChunkStore
  import opened ChunkRuns
  import opened AccessStore

  // ---- names ----

  /** Two lower-case hexadecimal digits per byte, the high half first. */
  lemma {:induction false} HexAt(s: seq<u8>, i: nat)
    requires i < |s|
    ensures var high, low := s[i] / 16, s[i] % 16;
      && Hex(s)[2 * i] as int == (if high < 10 then 48 + high else 87 + high)
      && Hex(s)[2 * i + 1] as int == (if low < 10 then 48 + low else 87 + low)
  {
    if i == 0 {
      HexDigitCode(s[0] / 16);
      HexDigitCode(s[0] % 16);
    } else {
      HexAt(s[1..], i - 1);
      assert Hex(s)[2..] == Hex(s[1..]);
    }
  }

  lemma HexDigitCode(n: nat)
    requires n < 16
    ensures HEX_DIGITS[n] as int == if n < 10 then 48 + n else 87 + n
  {
  }

  /** A hexadecimal digit of either case and its value; anything else is refused. */
  lemma HexValueIs(c: char)
    ensures var code := c as int;
      HexValue(c) ==
        if 48 <= code <= 57 then code - 48
        else if 97 <= code <= 102 then code - 87
        else if 65 <= code <= 70 then code - 55
        else -1
  {
  }

  /** Characters `2 * i` and `2 * i + 1` are the digits of byte `i`. */
  predicate SpellsAt(t: string, s: seq<u8>, i: nat) {
    && i < |s| && 2 * i + 1 < |t| && HexValue(t[2 * i]) >= 0 && HexValue(t[2 * i + 1]) >= 0
    && s[i] == HexValue(t[2 * i]) * 16 + HexValue(t[2 * i + 1])
  }

  /** A text spells bytes exactly if it has two hexadecimal digits for each. */
  lemma {:induction false} FromHexIff(t: string, s: seq<u8>)
    ensures FromHex(t) == Some(s) <==> |t| == 2 * |s| && forall i: nat :: i < |s| ==> SpellsAt(t, s, i)
  {
    if |t| < 2 || s == [] {
    } else {
      FromHexIff(t[2..], s[1..]);
      assert s == [s[0]] + s[1..];
      if |t| == 2 * |s| {
        SpellsTail(t, s);
      }
    }
  }

  lemma SpellsNext(t: string, s: seq<u8>, i: nat)
    requires |t| == 2 * |s| && i + 1 < |s|
    ensures SpellsAt(t, s, i + 1) <==> SpellsAt(t[2..], s[1..], i)
  {
    assert t[2..][2 * i] == t[2 * (i + 1)] && t[2..][2 * i + 1] == t[2 * (i + 1) + 1];
  }

  lemma SpellsTail(t: string, s: seq<u8>)
    requires s != [] && |t| == 2 * |s|
    ensures (forall i: nat :: i < |s| ==> SpellsAt(t, s, i)) <==>
      SpellsAt(t, s, 0) && forall i: nat :: i < |s| - 1 ==> SpellsAt(t[2..], s[1..], i)
  {
    if forall i: nat :: i < |s| ==> SpellsAt(t, s, i) {
      forall i: nat | i < |s| - 1
        ensures SpellsAt(t[2..], s[1..], i)
      {
        SpellsNext(t, s, i);
      }
    }
    if SpellsAt(t, s, 0) && forall i: nat :: i < |s| - 1 ==> SpellsAt(t[2..], s[1..], i) {
      forall i: nat | i < |s|
        ensures SpellsAt(t, s, i)
      {
        if i > 0 {
          SpellsNext(t, s, i - 1);
        }
      }
    }
  }

  /** The directory is the first byte of the digest in hexadecimal, the file the
      other thirty-one and `.chunk`. */
  lemma NameIs(digest: Bytes32)
    ensures NameOf(digest).shard == Hex(digest[..1]) && NameOf(digest).file == Hex(digest[1..]) + ".chunk"
  {
    assert Hex(digest) == [HEX_DIGITS[digest[0] / 16], HEX_DIGITS[digest[0] % 16]] + Hex(digest[1..]);
    assert digest[..1][1..] == [];
    assert Hex(digest[..1]) == [HEX_DIGITS[digest[0] / 16], HEX_DIGITS[digest[0] % 16]] + Hex([]);
  }

  // ---- reading ----

  /** The range asked for lies in an object of SHA-256 (algorithm 1) that the store
      may hold. */
  ghost predicate Asks(cid: Cid, offset: u64, length: u64, maxBytes: u64) {
    cid.algorithm == 1 && cid.size <= maxBytes && offset + length <= cid.size
  }

  /** The file of the object is there and `lstat` finds it. */
  ghost predicate Found(fs: Files, cid: Cid, env: ReadEnv) {
    NameOf(cid.digest) in fs && !env.statFails
  }

  /** The whole file is read and fed to a digest that can be finished. */
  predicate Digested(env: ReadEnv) { !env.readFails && !env.updateFails && env.hashEnds }

  /** Why a read of a found object is answered CORRUPT. */
  ghost predicate Spoiled(h: Hash, fs: Files, cid: Cid, env: ReadEnv)
    requires NameOf(cid.digest) in fs
  {
    var content := fs[NameOf(cid.digest)];
    || |content| != cid.size
    || (env.opens && env.hashStarts && (env.readFails || env.updateFails))
    || (env.opens && env.hashStarts && Digested(env) && h(content) != cid.digest)
  }

  lemma ReadAnswers(h: Hash, fs: Files, maxBytes: u64, cid: Cid, offset: u64, length: u64, env: ReadEnv)
    requires ReadsSlot(env, Lookup(fs, NameOf(cid.digest)))
    ensures var name := NameOf(cid.digest);
      var o := Read(h, fs, maxBytes, cid, offset, length, env);
      var asks, found := Asks(cid, offset, length, maxBytes), Found(fs, cid, env);
      && (o.result == ChunkInvalidArg <==> !asks)
      && (o.result == ChunkNotFound <==> asks && !found)
      && (o.result == ChunkCorrupt <==> asks && found && Spoiled(h, fs, cid, env))
      && (o.result == ChunkIo <==>
            && asks && found && |fs[name]| == cid.size
            && (!env.opens
                || (env.hashStarts && Digested(env) && h(fs[name]) == cid.digest && !env.closes)))
      && (o.result == ChunkResourceExhausted <==>
            && asks && found && |fs[name]| == cid.size && env.opens
            && (!env.hashStarts || (!env.readFails && !env.updateFails && !env.hashEnds)))
      && (o.result == ChunkOk <==>
            && asks && found && |fs[name]| == cid.size && h(fs[name]) == cid.digest
            && env.opens && env.hashStarts && Digested(env) && env.closes)
      && o.bytes == if o.result == ChunkOk then fs[name][offset..offset + length] else []
  {
  }

  // ---- deleting ----

  /** A delete succeeds exactly if the object's file is found with the size of the
      CID and the unlink works; it then removes that file and no other. Every other
      answer has its reason and changes nothing. */
  lemma DeleteIff(fs: Files, cid: Cid, statFails: bool, unlinks: bool)
    ensures var name := NameOf(cid.digest);
      var o := Delete(fs, cid, statFails, unlinks);
      var found := name in fs && !statFails;
      && (o.result == ChunkOk <==> cid.algorithm == 1 && found && |fs[name]| == cid.size && unlinks)
      && (o.result == ChunkInvalidArg <==> cid.algorithm != 1)
      && (o.result == ChunkNotFound <==> cid.algorithm == 1 && !found)
      && (o.result == ChunkCorrupt <==> cid.algorithm == 1 && found && |fs[name]| != cid.size)
      && (o.result == ChunkIo <==> cid.algorithm == 1 && found && |fs[name]| == cid.size && !unlinks)
      && o.fs == (if o.result == ChunkOk then map n | n in fs && n != name :: fs[n] else fs)
  {
  }

  /** An intact chunk can be deleted with its own CID, and is then not found. */
  lemma IntactIsDeletable(h: Hash, maxBytes: u64, fs: Files, cid: Cid, offset: u64, length: u64, env: ReadEnv)
    requires HasChunk(h, fs, cid) && Asks(cid, offset, length, maxBytes)
    ensures var o := Delete(fs, cid, false, true);
      && o.result == ChunkOk
      && Read(h, o.fs, maxBytes, cid, offset, length, env) == ReadOut(ChunkNotFound, [])
  {
    DeleteIff(fs, cid, false, true);
  }

  // ---- putting ----

  /** The bytes are the object of the CID, within the store's limit, and their
      digest could be computed. */
  ghost predicate Publishable(h: Hash, maxBytes: u64, cid: Cid, bytes: seq<u8>, env: PutEnv) {
    cid.algorithm == 1 && cid.size == |bytes| <= maxBytes && env.hashes && h(bytes) == cid.digest
  }

  /** What a put answers in terms of what a read of nothing would: where the path is
      found, that read; where the bytes are moved there, that read after the move;
      where the move fails, OK over an intact copy and IO otherwise. Only the move
      changes a file. */
  lemma PutAnswers(h: Hash, fs: Files, maxBytes: u64, cid: Cid, bytes: seq<u8>, env: PutEnv)
    ensures var name := NameOf(cid.digest);
      var o := Put(h, fs, maxBytes, cid, bytes, env);
      var good, taken := Publishable(h, maxBytes, cid, bytes, env), name in fs && !env.statMisses;
      && (!good ==>
            o.result ==
              if cid.algorithm != 1 || cid.size != |bytes| then ChunkInvalidArg
              else if |bytes| > maxBytes || !env.hashes then ChunkResourceExhausted
              else ChunkDigestMismatch)
      && (good && taken ==> o.result == Read(h, fs, maxBytes, cid, 0, 0, env.check).result)
      && (good && !taken ==>
            match env.fault
            case DirectoryFails(corrupt) => o.result == if corrupt then ChunkCorrupt else ChunkIo
            case RandomFails => o.result == ChunkCsprngFailed
            case TempFails => o.result == ChunkIo
            case RenameFails =>
              o.result == if Read(h, fs, maxBytes, cid, 0, 0, env.check).result == ChunkOk then ChunkOk else ChunkIo
            case NoFault => o.result == Read(h, fs[name := bytes], maxBytes, cid, 0, 0, env.check).result)
      && o.fs == (if good && !taken && env.fault.NoFault? then fs[name := bytes] else fs)
  {
  }

  // ---- authorized access ----

  /** An authorized read passes the store's answer on, once the access is a live one
      for reading (1) and the buffer is large enough. */
  lemma AccessReadAnswers(h: Hash, fs: Files, maxBytes: u64, a: AuthorizedAccess, now: u64, bufferSize: nat,
                          env: ReadEnv)
    ensures var o := AccessRead(h, fs, maxBytes, a, now, bufferSize, env);
      var r := Read(h, fs, maxBytes, a.cid, a.offset, a.length, env);
      if !AccessValid(a) || a.operation != 1 then o == AccessReadOut(AccessInvalidAccess, [])
      else if a.expiresAt <= now then o == AccessReadOut(AccessExpired, [])
      else if bufferSize < a.length then o == AccessReadOut(AccessResourceExhausted, [])
      else o.bytes == r.bytes && SameAnswer(r.result, o.result)
  {
  }

  lemma AccessPutAnswers(h: Hash, fs: Files, maxBytes: u64, a: AuthorizedAccess, now: u64, bytes: seq<u8>, env: PutEnv)
    ensures var o := AccessPut(h, fs, maxBytes, a, now, bytes, env);
      var r := Put(h, fs, maxBytes, a.cid, bytes, env);
      if !AccessValid(a) || a.operation != 2 then o == AccessPutOut(AccessInvalidAccess, false, fs)
      else if a.expiresAt <= now then o == AccessPutOut(AccessExpired, false, fs)
      else if |bytes| != a.cid.size then o == AccessPutOut(AccessResourceExhausted, false, fs)
      else o.created == r.created && o.fs == r.fs && SameAnswer(r.result, o.result)
  {
  }

  /** The two enumerations name the same outcomes. */
  predicate SameAnswer(r: ChunkResult, o: AccessResult) {
    && (r == ChunkOk <==> o == AccessOk)
    && (r == ChunkInvalidArg <==> o == AccessInvalidArg)
    && (r == ChunkNotFound <==> o == AccessNotFound)
    && (r == ChunkCorrupt <==> o == AccessCorrupt)
    && (r == ChunkDigestMismatch <==> o == AccessDigestMismatch)
    && (r == ChunkResourceExhausted <==> o == AccessResourceExhausted)
    && (r == ChunkCsprngFailed <==> o == AccessCsprngFailed)
    && (r == ChunkIo <==> o == AccessIo)
  }
}
