/** The content-addressed chunk store: names, the streaming verifier, and the
    operations as steps on a map from names to file contents. */
module ChunkStore {
  import opened Bytes
  import opened Access

  const IO_BLOCK: nat := 32768

  datatype ChunkResult =
    | ChunkOk
    | ChunkInvalidArg
    | ChunkIo
    | ChunkNotFound
    | ChunkCorrupt
    | ChunkDigestMismatch
    | ChunkResourceExhausted
    | ChunkCsprngFailed

  // ---- names ----

  const HEX_DIGITS: string := "0123456789abcdef"

  function Hex(s: seq<u8>): (t: string)
    ensures |t| == 2 * |s|
  {
    if s == [] then []
    else [HEX_DIGITS[s[0] / 16], HEX_DIGITS[s[0] % 16]] + Hex(s[1..])
  }

  function HexValue(c: char): int {
    if '0' <= c <= '9' then c as int - '0' as int
    else if 'a' <= c <= 'f' then c as int - 'a' as int + 10
    else if 'A' <= c <= 'F' then c as int - 'A' as int + 10
    else -1
  }

  function FromHex(t: string): (s: Option<seq<u8>>)
    ensures s.Some? ==> 2 * |s.value| == |t|
  {
    if t == [] then Some([])
    else if |t| == 1 || HexValue(t[0]) < 0 || HexValue(t[1]) < 0 then None
    else
      var rest := FromHex(t[2..]);
      if rest.None? then None else Some([HexValue(t[0]) * 16 + HexValue(t[1])] + rest.value)
  }

  const SUFFIX: string := ".chunk"

  /** Shard directory and file name, relative to the chunks directory. */
  datatype ChunkName = ChunkName(shard: string, file: string)

  /** `build_chunk_path`. */
  function NameOf(digest: Bytes32): ChunkName {
    ChunkName(Hex(digest)[..2], Hex(digest)[2..] + SUFFIX)
  }

  /** `parse_chunk_name`. */
  function DigestOf(name: ChunkName): Option<Bytes32> {
    if |name.shard| != 2 || |name.file| != 68 || name.file[62..] != SUFFIX then None
    else
      var d := FromHex(name.shard + name.file[..62]);
      if d.None? then None else Some(d.value)
  }

  lemma {:induction false} HexRoundTrip(s: seq<u8>)
    ensures FromHex(Hex(s)) == Some(s)
  {
    if s == [] {
    } else {
      HexRoundTrip(s[1..]);
      var t := Hex(s);
      assert t[2..] == Hex(s[1..]);
      assert t[0] == HEX_DIGITS[s[0] / 16] && t[1] == HEX_DIGITS[s[0] % 16];
      assert s == [s[0]] + s[1..];
      HexDigitValue(s[0] / 16);
      HexDigitValue(s[0] % 16);
    }
  }

  lemma HexDigitValue(n: nat)
    requires n < 16
    ensures HexValue(HEX_DIGITS[n]) == n
  {
  }

  /** Every digest has its own name, and the name gives it back. */
  lemma NameRoundTrip(digest: Bytes32)
    ensures DigestOf(NameOf(digest)) == Some(digest)
  {
    var n := NameOf(digest);
    assert n.file[62..] == SUFFIX && n.file[..62] == Hex(digest)[2..];
    assert n.shard + n.file[..62] == Hex(digest);
    HexRoundTrip(digest);
  }

  // ---- verified reading ----

  function Flatten(blocks: seq<seq<u8>>): seq<u8> {
    if blocks == [] then [] else Flatten(blocks[..|blocks| - 1]) + blocks[|blocks| - 1]
  }

  /** What the platform does during one verified read: the blocks that `read`
      returned, how the last `read` ended, and which calls failed. */
  datatype ReadEnv = ReadEnv(
    statFails: bool, opens: bool, hashStarts: bool, blocks: seq<seq<u8>>, readFails: bool,
    updateFails: bool, hashEnds: bool, closes: bool)

  datatype ReadOut = ReadOut(result: ChunkResult, bytes: seq<u8>)

  function Failed(r: ChunkResult): ReadOut { ReadOut(r, []) }

  /** `read_verify_range`, by its meaning: all of the object is read and
      checked, then the range is cut out of it. */
  function VerifyRange(h: Hash, file: Option<seq<u8>>, cid: Cid, offset: u64, length: u64, env: ReadEnv): ReadOut
    requires offset + length <= cid.size
  {
    var content := Flatten(env.blocks);
    if cid.algorithm != SHA256_ALGORITHM then Failed(ChunkInvalidArg)
    else if file.None? || env.statFails then Failed(ChunkNotFound)
    else if |file.value| != cid.size then Failed(ChunkCorrupt)
    else if !env.opens then Failed(ChunkIo)
    else if !env.hashStarts then Failed(ChunkResourceExhausted)
    else if env.updateFails || env.readFails || |content| != cid.size then Failed(ChunkCorrupt)
    else if !env.hashEnds then Failed(ChunkResourceExhausted)
    else if h(content) != cid.digest then Failed(ChunkCorrupt)
    else if !env.closes then Failed(ChunkIo)
    else ReadOut(ChunkOk, content[offset..offset + length])
  }

  /** The platform reads this file: positive blocks of bounded size that make
      up its content, or the start of it when a read fails. */
  ghost predicate Reads(env: ReadEnv, file: seq<u8>) {
    && (forall i :: 0 <= i < |env.blocks| ==> 0 < |env.blocks[i]| <= IO_BLOCK)
    && Flatten(env.blocks) <= file
    && (!env.readFails ==> Flatten(env.blocks) == file)
  }

  ghost predicate ReadsSlot(env: ReadEnv, file: Option<seq<u8>>) {
    file.Some? ==> Reads(env, file.value)
  }

  predicate Smooth(env: ReadEnv) {
    && !env.statFails && env.opens && env.hashStarts && !env.readFails && !env.updateFails
    && env.hashEnds && env.closes
  }

  /** A verified read succeeds only on an intact object, and then returns the
      requested slice of it; if nothing fails it does succeed. */
  lemma VerifiedReadIff(h: Hash, file: Option<seq<u8>>, cid: Cid, offset: u64, length: u64, env: ReadEnv)
    requires offset + length <= cid.size && ReadsSlot(env, file) && cid.algorithm == SHA256_ALGORITHM
    ensures VerifyRange(h, file, cid, offset, length, env).result == ChunkOk
      <==> Smooth(env) && file.Some? && |file.value| == cid.size && h(file.value) == cid.digest
    ensures VerifyRange(h, file, cid, offset, length, env).result == ChunkOk ==>
      VerifyRange(h, file, cid, offset, length, env).bytes == file.value[offset..offset + length]
  {
  }

  // ---- operations ----

  type Files = map<ChunkName, seq<u8>>

  function Lookup(fs: Files, name: ChunkName): Option<seq<u8>> {
    if name in fs then Some(fs[name]) else None
  }

  datatype PutFault = NoFault | DirectoryFails(corrupt: bool) | RandomFails | TempFails | RenameFails

  /** Outcomes of a put. `statMisses` says that the first `lstat` fails although
      the file is there; `check` is the verifying read that ends the call. */
  datatype PutEnv = PutEnv(hashes: bool, statMisses: bool, fault: PutFault, check: ReadEnv)

  datatype PutOut = PutOut(result: ChunkResult, created: bool, fs: Files)

  /** `m3_chunk_store_put_bytes_v1` on an open store. */
  function Put(h: Hash, fs: Files, maxBytes: u64, cid: Cid, bytes: seq<u8>, env: PutEnv): PutOut {
    var name := NameOf(cid.digest);
    if cid.algorithm != SHA256_ALGORITHM || cid.size != |bytes| then PutOut(ChunkInvalidArg, false, fs)
    else if |bytes| > maxBytes then PutOut(ChunkResourceExhausted, false, fs)
    else if !env.hashes then PutOut(ChunkResourceExhausted, false, fs)
    else if h(bytes) != cid.digest then PutOut(ChunkDigestMismatch, false, fs)
    else if name in fs && !env.statMisses then
      PutOut(VerifyRange(h, Some(fs[name]), cid, 0, 0, env.check).result, false, fs)
    else
      match env.fault
      case DirectoryFails(corrupt) => PutOut(if corrupt then ChunkCorrupt else ChunkIo, false, fs)
      case RandomFails => PutOut(ChunkCsprngFailed, false, fs)
      case TempFails => PutOut(ChunkIo, false, fs)
      case RenameFails =>
        var v := VerifyRange(h, Lookup(fs, name), cid, 0, 0, env.check);
        PutOut(if v.result == ChunkOk then ChunkOk else ChunkIo, false, fs)
      case NoFault =>
        var v := VerifyRange(h, Some(bytes), cid, 0, 0, env.check);
        PutOut(v.result, v.result == ChunkOk, fs[name := bytes])
  }

  /** `m3_chunk_store_read_range_v1` on an open store. */
  function Read(h: Hash, fs: Files, maxBytes: u64, cid: Cid, offset: u64, length: u64, env: ReadEnv): ReadOut {
    if cid.algorithm != SHA256_ALGORITHM || cid.size > maxBytes || offset > cid.size || length > cid.size - offset then
      Failed(ChunkInvalidArg)
    else VerifyRange(h, Lookup(fs, NameOf(cid.digest)), cid, offset, length, env)
  }

  datatype DeleteOut = DeleteOut(result: ChunkResult, fs: Files)

  /** `m3_chunk_store_delete_v1` on an open store. */
  function Delete(fs: Files, cid: Cid, statFails: bool, unlinks: bool): DeleteOut {
    var name := NameOf(cid.digest);
    if cid.algorithm != SHA256_ALGORITHM then DeleteOut(ChunkInvalidArg, fs)
    else if name !in fs || statFails then DeleteOut(ChunkNotFound, fs)
    else if |fs[name]| != cid.size then DeleteOut(ChunkCorrupt, fs)
    else if !unlinks then DeleteOut(ChunkIo, fs)
    else DeleteOut(ChunkOk, fs - {name})
  }
}
