/** The streaming loop and the store object. */
module ChunkStoreCode {
  import opened Bytes
  import opened Access
  import opened ChunkStore

  lemma FlattenSnoc(blocks: seq<seq<u8>>, i: nat)
    requires i < |blocks|
    ensures Flatten(blocks[..i + 1]) == Flatten(blocks[..i]) + blocks[i]
  {
    assert blocks[..i + 1][..i] == blocks[..i];
  }

  lemma {:induction false} FlattenPrefix(blocks: seq<seq<u8>>, i: nat)
    requires i <= |blocks|
    ensures |Flatten(blocks[..i])| <= |Flatten(blocks)|
  {
    if i == |blocks| {
      assert blocks[..i] == blocks;
    } else {
      var init := blocks[..|blocks| - 1];
      assert init[..i] == blocks[..i];
      FlattenPrefix(init, i);
    }
  }

  /** How much of the range lies before `position`. */
  function Copied(position: nat, offset: nat, length: nat): nat {
    if position <= offset then 0
    else if position <= offset + length then position - offset
    else length
  }

  /** The buffer holds the part of the range that has been read so far. */
  ghost predicate Filled(buffer: array<u8>, copied: nat, content: seq<u8>, offset: nat, length: nat)
    reads buffer
  {
    && copied == Copied(|content|, offset, length) <= buffer.Length
    && forall k :: 0 <= k < copied ==> buffer[k] == content[offset + k]
  }

  /** Append the part of one block that falls into the range. */
  method CopyPart(block: seq<u8>, position: u64, offset: u64, length: u64, buffer: array<u8>, copied: nat,
                  ghost before: seq<u8>) returns (copied': nat)
    requires offset + length <= U64_MAX && position + |block| <= U64_MAX
    requires length <= buffer.Length && position == |before| && Filled(buffer, copied, before, offset, length)
    modifies buffer
    ensures Filled(buffer, copied', before + block, offset, length)
    ensures forall k :: length <= k < buffer.Length ==> buffer[k] == old(buffer[k])
  {
    copied' := copied;
    var blockEnd: u64 := position + |block|;
    var rangeEnd: u64 := offset + length;
    if length > 0 && blockEnd > offset && position < rangeEnd {
      var copyStart := if position > offset then position else offset;
      var copyEnd := if blockEnd < rangeEnd then blockEnd else rangeEnd;
      var part := block[copyStart - position..copyEnd - position];
      CopyInto(buffer, copied, part);
      copied' := copied + |part|;
    }
  }

  /** The read loop of `read_verify_range`: every block is hashed, and the part
      of it that falls into the range is appended to the buffer. */
  method StreamBlocks(blocks: seq<seq<u8>>, offset: u64, length: u64, buffer: array<u8>)
    returns (overflow: bool, position: u64, copied: nat, absorbed: seq<u8>)
    requires length <= buffer.Length && offset + length <= U64_MAX
    requires forall i :: 0 <= i < |blocks| ==> 0 < |blocks[i]| <= IO_BLOCK
    modifies buffer
    ensures overflow <==> |Flatten(blocks)| > U64_MAX
    ensures !overflow ==> absorbed == Flatten(blocks) && position == |absorbed|
    ensures !overflow ==> Filled(buffer, copied, absorbed, offset, length)
    ensures forall k :: length <= k < buffer.Length ==> buffer[k] == old(buffer[k])
  {
    overflow, position, copied, absorbed := false, 0, 0, [];
    for i := 0 to |blocks|
      invariant absorbed == Flatten(blocks[..i]) && position == |absorbed|
      invariant Filled(buffer, copied, absorbed, offset, length)
      invariant forall k :: length <= k < buffer.Length ==> buffer[k] == old(buffer[k])
    {
      FlattenSnoc(blocks, i);
      FlattenPrefix(blocks, i + 1);
      if position + |blocks[i]| > U64_MAX {
        overflow := true;
        return;
      }
      copied := CopyPart(blocks[i], position, offset, length, buffer, copied, absorbed);
      absorbed := absorbed + blocks[i];
      position := position + |blocks[i]|;
    }
    assert blocks[..|blocks|] == blocks;
  }

  /** `read_verify_range`. */
  method ReadVerifyRange(h: Hash, file: Option<seq<u8>>, cid: Cid, offset: u64, length: u64,
                         buffer: array<u8>, env: ReadEnv)
    returns (result: ChunkResult, outRead: nat)
    requires offset + length <= cid.size && length <= buffer.Length
    requires forall i :: 0 <= i < |env.blocks| ==> 0 < |env.blocks[i]| <= IO_BLOCK
    modifies buffer
    ensures result == VerifyRange(h, file, cid, offset, length, env).result
    ensures outRead == if result == ChunkOk then length else 0
    ensures result == ChunkOk ==> buffer[..length] == VerifyRange(h, file, cid, offset, length, env).bytes
    ensures buffer[length..] == old(buffer[length..])
  {
    outRead := 0;
    if cid.algorithm != SHA256_ALGORITHM { return ChunkInvalidArg, 0; }
    if file.None? || env.statFails { return ChunkNotFound, 0; }
    if |file.value| != cid.size { return ChunkCorrupt, 0; }
    if !env.opens { return ChunkIo, 0; }
    if !env.hashStarts { return ChunkResourceExhausted, 0; }
    var overflow, position, copied, absorbed := StreamBlocks(env.blocks, offset, length, buffer);
    if overflow || env.updateFails || env.readFails || position != cid.size || copied != length {
      return ChunkCorrupt, 0;
    }
    if !env.hashEnds { return ChunkResourceExhausted, 0; }
    if h(absorbed) != cid.digest { return ChunkCorrupt, 0; }
    if !env.closes { return ChunkIo, 0; }
    assert buffer[..length] == absorbed[offset..offset + length];
    return ChunkOk, copied;
  }

  /** An open store over its files. */
  class CasStore {
    const maxBytes: u64
    var files: Files

    constructor (files: Files, maxBytes: u64)
      ensures this.files == files && this.maxBytes == maxBytes
    {
      this.files, this.maxBytes := files, maxBytes;
    }

    /** `m3_chunk_store_put_bytes_v1`. */
    method PutBytes(h: Hash, cid: Cid, bytes: seq<u8>, env: PutEnv) returns (result: ChunkResult, created: bool)
      requires forall i :: 0 <= i < |env.check.blocks| ==> 0 < |env.check.blocks[i]| <= IO_BLOCK
      modifies this
      ensures PutOut(result, created, files) == Put(h, old(files), maxBytes, cid, bytes, env)
    {
      created := false;
      if cid.algorithm != SHA256_ALGORITHM || cid.size != |bytes| { return ChunkInvalidArg, false; }
      if |bytes| > maxBytes || !env.hashes { return ChunkResourceExhausted, false; }
      if h(bytes) != cid.digest { return ChunkDigestMismatch, false; }
      var name := NameOf(cid.digest);
      var nothing := new u8[0];
      var verified;
      if name in files && !env.statMisses {
        result, verified := ReadVerifyRange(h, Some(files[name]), cid, 0, 0, nothing, env.check);
        return;
      }
      match env.fault {
        case DirectoryFails(corrupt) => return if corrupt then ChunkCorrupt else ChunkIo, false;
        case RandomFails => return ChunkCsprngFailed, false;
        case TempFails => return ChunkIo, false;
        case RenameFails =>
          result, verified := ReadVerifyRange(h, Lookup(files, name), cid, 0, 0, nothing, env.check);
          return if result == ChunkOk then ChunkOk else ChunkIo, false;
        case NoFault =>
          files := files[name := bytes];
          result, verified := ReadVerifyRange(h, Some(bytes), cid, 0, 0, nothing, env.check);
          created := result == ChunkOk;
      }
    }

    /** `m3_chunk_store_read_range_v1`. */
    method ReadRange(h: Hash, cid: Cid, offset: u64, length: u64, buffer: array<u8>, env: ReadEnv)
      returns (result: ChunkResult, outRead: nat)
      requires length <= buffer.Length
      requires forall i :: 0 <= i < |env.blocks| ==> 0 < |env.blocks[i]| <= IO_BLOCK
      modifies buffer
      ensures result == Read(h, files, maxBytes, cid, offset, length, env).result
      ensures outRead == if result == ChunkOk then length else 0
      ensures result == ChunkOk ==> buffer[..length] == Read(h, files, maxBytes, cid, offset, length, env).bytes
      ensures buffer[length..] == old(buffer[length..])
    {
      if cid.algorithm != SHA256_ALGORITHM || cid.size > maxBytes || offset > cid.size || length > cid.size - offset {
        return ChunkInvalidArg, 0;
      }
      result, outRead := ReadVerifyRange(h, Lookup(files, NameOf(cid.digest)), cid, offset, length, buffer, env);
    }

    /** `m3_chunk_store_delete_v1`. */
    method DeleteChunk(cid: Cid, statFails: bool, unlinks: bool) returns (result: ChunkResult)
      modifies this
      ensures DeleteOut(result, files) == Delete(old(files), cid, statFails, unlinks)
    {
      var name := NameOf(cid.digest);
      if cid.algorithm != SHA256_ALGORITHM { return ChunkInvalidArg; }
      if name !in files || statFails { return ChunkNotFound; }
      if |files[name]| != cid.size { return ChunkCorrupt; }
      if !unlinks { return ChunkIo; }
      files := files - {name};
      return ChunkOk;
    }
  }
}
