/** Whole runs of the chunk store: published bytes never change. */
module ChunkRuns {
  import opened Bytes
  import opened Access
  import opened ChunkStore

  datatype Event =
    | EvPut(cid: Cid, bytes: seq<u8>, putEnv: PutEnv)
    | EvRead(cid: Cid, offset: u64, length: u64, readEnv: ReadEnv)
    | EvDelete(cid: Cid, statFails: bool, unlinks: bool)

  function Step(h: Hash, maxBytes: u64, fs: Files, ev: Event): Files {
    match ev
    case EvPut(cid, bytes, env) => Put(h, fs, maxBytes, cid, bytes, env).fs
    case EvRead(_, _, _, _) => fs
    case EvDelete(cid, statFails, unlinks) => Delete(fs, cid, statFails, unlinks).fs
  }

  function Run(h: Hash, maxBytes: u64, fs: Files, evs: seq<Event>): Files
    decreases |evs|
  {
    if evs == [] then fs else Run(h, maxBytes, Step(h, maxBytes, fs, evs[0]), evs[1..])
  }

  /** A delete of this name that removed the file. */
  predicate Deletes(fs: Files, ev: Event, name: ChunkName) {
    ev.EvDelete? && NameOf(ev.cid.digest) == name && Delete(fs, ev.cid, ev.statFails, ev.unlinks).result == ChunkOk
  }

  ghost predicate NeverDeleted(h: Hash, maxBytes: u64, fs: Files, evs: seq<Event>, name: ChunkName)
    decreases |evs|
  {
    evs != [] ==>
      && !Deletes(fs, evs[0], name)
      && NeverDeleted(h, maxBytes, Step(h, maxBytes, fs, evs[0]), evs[1..], name)
  }

  /** No `lstat` misses a file that is there. */
  ghost predicate HonestStats(evs: seq<Event>) {
    forall i :: 0 <= i < |evs| && evs[i].EvPut? ==> !evs[i].putEnv.statMisses
  }

  /** The content under a name has the digest that the name spells. */
  predicate Intact(h: Hash, fs: Files, digest: Bytes32) {
    NameOf(digest) in fs && h(fs[NameOf(digest)]) == digest
  }

  /** The object of this CID is in the store: its digest and its size. */
  predicate HasChunk(h: Hash, fs: Files, cid: Cid) {
    Intact(h, fs, cid.digest) && |fs[NameOf(cid.digest)]| == cid.size
  }

  lemma StepKeepsBytes(h: Hash, maxBytes: u64, fs: Files, ev: Event, name: ChunkName)
    requires name in fs && !Deletes(fs, ev, name) && (ev.EvPut? ==> !ev.putEnv.statMisses)
    ensures name in Step(h, maxBytes, fs, ev) && Step(h, maxBytes, fs, ev)[name] == fs[name]
  {
  }

  /** With truthful `lstat` answers, no put, read or failed delete ever changes
      what is published under a name, intact or not. */
  lemma {:induction false} PublishedBytesNeverChange(h: Hash, maxBytes: u64, fs: Files, evs: seq<Event>,
                                                     name: ChunkName)
    requires name in fs && NeverDeleted(h, maxBytes, fs, evs, name) && HonestStats(evs)
    ensures name in Run(h, maxBytes, fs, evs) && Run(h, maxBytes, fs, evs)[name] == fs[name]
    decreases |evs|
  {
    if evs == [] {
    } else {
      StepKeepsBytes(h, maxBytes, fs, evs[0], name);
      PublishedBytesNeverChange(h, maxBytes, Step(h, maxBytes, fs, evs[0]), evs[1..], name);
    }
  }

  lemma StepKeepsIntact(h: Hash, maxBytes: u64, fs: Files, ev: Event, digest: Bytes32)
    requires Intact(h, fs, digest) && !Deletes(fs, ev, NameOf(digest))
    ensures Intact(h, Step(h, maxBytes, fs, ev), digest)
  {
    if ev.EvPut? && NameOf(ev.cid.digest) == NameOf(digest) {
      NameRoundTrip(digest);
      NameRoundTrip(ev.cid.digest);
    }
  }

  lemma {:induction false} RunKeepsIntact(h: Hash, maxBytes: u64, fs: Files, evs: seq<Event>, digest: Bytes32)
    requires Intact(h, fs, digest) && NeverDeleted(h, maxBytes, fs, evs, NameOf(digest))
    ensures Intact(h, Run(h, maxBytes, fs, evs), digest)
    decreases |evs|
  {
    if evs == [] {
    } else {
      StepKeepsIntact(h, maxBytes, fs, evs[0], digest);
      RunKeepsIntact(h, maxBytes, Step(h, maxBytes, fs, evs[0]), evs[1..], digest);
    }
  }

  /** Under any failures at all, intact content is replaced by nothing else,
      unless a digest collision is at hand. */
  lemma IntactBytesNeverChange(h: Hash, maxBytes: u64, fs: Files, evs: seq<Event>, digest: Bytes32)
    requires Intact(h, fs, digest) && NeverDeleted(h, maxBytes, fs, evs, NameOf(digest))
    ensures NameOf(digest) in Run(h, maxBytes, fs, evs)
    ensures var now := Run(h, maxBytes, fs, evs)[NameOf(digest)];
      now == fs[NameOf(digest)] || Collision(h, now, fs[NameOf(digest)])
  {
    RunKeepsIntact(h, maxBytes, fs, evs, digest);
  }

  /** The verifying read of a put sees the file that is there. */
  ghost predicate PutChecks(fs: Files, cid: Cid, bytes: seq<u8>, env: PutEnv) {
    var name := NameOf(cid.digest);
    if name in fs && (!env.statMisses || env.fault.RenameFails?) then Reads(env.check, fs[name])
    else Reads(env.check, bytes)
  }

  /** A put that answered OK leaves the object in the store. */
  lemma PutOkHasChunk(h: Hash, maxBytes: u64, fs: Files, cid: Cid, bytes: seq<u8>, env: PutEnv)
    requires PutChecks(fs, cid, bytes, env) && Put(h, fs, maxBytes, cid, bytes, env).result == ChunkOk
    ensures var o := Put(h, fs, maxBytes, cid, bytes, env);
      && HasChunk(h, o.fs, cid) && h(bytes) == cid.digest && |bytes| == cid.size <= maxBytes
      && cid.algorithm == SHA256_ALGORITHM
  {
  }

  /** Read your writes: after a put that answered OK, and any run in which the
      chunk is not deleted, a read of any range that no failure hits returns
      exactly that part of the bytes put, unless a digest collision is at hand. */
  lemma PutThenRead(h: Hash, maxBytes: u64, fs: Files, cid: Cid, bytes: seq<u8>, env: PutEnv, evs: seq<Event>,
                    offset: u64, length: u64, readEnv: ReadEnv)
    requires PutChecks(fs, cid, bytes, env) && Put(h, fs, maxBytes, cid, bytes, env).result == ChunkOk
    requires NeverDeleted(h, maxBytes, Put(h, fs, maxBytes, cid, bytes, env).fs, evs, NameOf(cid.digest))
    requires offset + length <= cid.size && Smooth(readEnv)
    requires
      ReadsSlot(readEnv, Lookup(Run(h, maxBytes, Put(h, fs, maxBytes, cid, bytes, env).fs, evs), NameOf(cid.digest)))
    ensures var later := Run(h, maxBytes, Put(h, fs, maxBytes, cid, bytes, env).fs, evs);
      || Read(h, later, maxBytes, cid, offset, length, readEnv) == ReadOut(ChunkOk, bytes[offset..offset + length])
      || (NameOf(cid.digest) in later && Collision(h, later[NameOf(cid.digest)], bytes))
  {
    PutOkHasChunk(h, maxBytes, fs, cid, bytes, env);
    RunKeepsIntact(h, maxBytes, Put(h, fs, maxBytes, cid, bytes, env).fs, evs, cid.digest);
  }

  /** `created` marks a new publication exactly when `lstat` told the truth:
      a put that reports it found the name free, or `lstat` missed the file. */
  lemma CreatedIff(h: Hash, maxBytes: u64, fs: Files, cid: Cid, bytes: seq<u8>, env: PutEnv)
    requires PutChecks(fs, cid, bytes, env)
    ensures Put(h, fs, maxBytes, cid, bytes, env).created <==>
      && cid == Cid(SHA256_ALGORITHM, cid.size, h(bytes)) && cid.size == |bytes| <= maxBytes && env.hashes
      && (NameOf(cid.digest) !in fs || env.statMisses)
      && env.fault.NoFault? && Smooth(env.check)
  {
  }

  const SMOOTH := ReadEnv(false, true, true, [], false, false, true, true)

  /** A put of other bytes of the same name whose `lstat` misses the published
      file and whose rename succeeds. */
  predicate Overwrites(h: Hash, maxBytes: u64, fs: Files, ev: Event, name: ChunkName) {
    && ev.EvPut? && name in fs && NameOf(ev.cid.digest) == name && ev.bytes != fs[name]
    && |ev.bytes| <= maxBytes && ev.cid == Cid(SHA256_ALGORITHM, |ev.bytes|, h(ev.bytes))
    && ev.putEnv.hashes && ev.putEnv.statMisses && ev.putEnv.fault.NoFault?
  }

  /** A step leaves what is published under a name alone exactly if it neither
      deletes it nor overwrites it, be the bytes corrupt or not. */
  lemma OverwritesIff(h: Hash, maxBytes: u64, fs: Files, ev: Event, name: ChunkName)
    requires name in fs
    ensures Lookup(Step(h, maxBytes, fs, ev), name) == Some(fs[name])
      <==> !Deletes(fs, ev, name) && !Overwrites(h, maxBytes, fs, ev, name)
    ensures ev.EvPut? ==> name in Step(h, maxBytes, fs, ev)
  {
  }

  /** At every point of the run the name holds these bytes. */
  ghost predicate Throughout(h: Hash, maxBytes: u64, fs: Files, evs: seq<Event>, name: ChunkName, bytes: seq<u8>)
    decreases |evs|
  {
    && Lookup(fs, name) == Some(bytes)
    && (evs != [] ==> Throughout(h, maxBytes, Step(h, maxBytes, fs, evs[0]), evs[1..], name, bytes))
  }

  ghost predicate Untouched(h: Hash, maxBytes: u64, fs: Files, evs: seq<Event>, name: ChunkName)
    decreases |evs|
  {
    evs != [] ==>
      && !Deletes(fs, evs[0], name) && !Overwrites(h, maxBytes, fs, evs[0], name)
      && Untouched(h, maxBytes, Step(h, maxBytes, fs, evs[0]), evs[1..], name)
  }

  /** Published bytes stay throughout a run, under any failures, exactly if no
      delete of them succeeds and no put overwrites them. */
  lemma {:induction false} UnchangedIff(h: Hash, maxBytes: u64, fs: Files, evs: seq<Event>, name: ChunkName)
    requires name in fs
    ensures Throughout(h, maxBytes, fs, evs, name, fs[name]) <==> Untouched(h, maxBytes, fs, evs, name)
    decreases |evs|
  {
    if evs == [] {
    } else {
      OverwritesIff(h, maxBytes, fs, evs[0], name);
      var next := Step(h, maxBytes, fs, evs[0]);
      if Lookup(next, name) == Some(fs[name]) {
        UnchangedIff(h, maxBytes, next, evs[1..], name);
      }
    }
  }

  /** Corrupt bytes that are overwritten: a wrong byte under the name of the empty
      chunk, and a put of the empty chunk whose `lstat` misses it. */
  lemma CorruptBytesOverwritten(h: Hash, maxBytes: u64)
    ensures var cid := Cid(SHA256_ALGORITHM, 0, h([]));
      var fs := map[NameOf(cid.digest) := [7]];
      && (!Intact(h, fs, cid.digest) || Collision(h, [7], []))
      && Put(h, fs, maxBytes, cid, [], PutEnv(true, true, NoFault, SMOOTH))
           == PutOut(ChunkOk, true, map[NameOf(cid.digest) := []])
  {
    var cid := Cid(SHA256_ALGORITHM, 0, h([]));
    var fs: Files := map[NameOf(cid.digest) := [7]];
    assert fs[NameOf(cid.digest) := []] == map[NameOf(cid.digest) := []];
  }

  /** The bytes are the named object (of SHA-256, algorithm 1, within the limit), and
      either the path was found and holds them intact, or they were moved there, or
      the move failed over an intact copy; nothing fails in the verifying read. */
  ghost predicate PutSucceeds(h: Hash, maxBytes: u64, fs: Files, cid: Cid, bytes: seq<u8>, env: PutEnv) {
    var name := NameOf(cid.digest);
    var intact := name in fs && |fs[name]| == cid.size && h(fs[name]) == cid.digest;
    && cid.algorithm == 1 && cid.digest == h(bytes) && cid.size == |bytes| <= maxBytes && env.hashes
    && Smooth(env.check)
    && (if name in fs && !env.statMisses then intact else env.fault.NoFault? || (env.fault.RenameFails? && intact))
  }

  /** Exactly when a put answers OK. */
  lemma PutOkIff(h: Hash, maxBytes: u64, fs: Files, cid: Cid, bytes: seq<u8>, env: PutEnv)
    requires PutChecks(fs, cid, bytes, env)
    ensures Put(h, fs, maxBytes, cid, bytes, env).result == ChunkOk <==> PutSucceeds(h, maxBytes, fs, cid, bytes, env)
  {
  }

  /** A deleted chunk is gone, and nothing else is. */
  lemma DeleteOkRemoves(h: Hash, maxBytes: u64, fs: Files, cid: Cid, statFails: bool, unlinks: bool,
                        offset: u64, length: u64, env: ReadEnv)
    requires Delete(fs, cid, statFails, unlinks).result == ChunkOk
    requires cid.size <= maxBytes && offset + length <= cid.size
    ensures var later := Delete(fs, cid, statFails, unlinks).fs;
      && later == (map n | n in fs && n != NameOf(cid.digest) :: fs[n])
      && Read(h, later, maxBytes, cid, offset, length, env) == ReadOut(ChunkNotFound, [])
  {
  }

  /** One missed `lstat` is enough: an empty chunk that is already published is
      published again and reported as created. */
  lemma MissedStatCreatesTwice(h: Hash, maxBytes: u64)
    ensures var cid := Cid(SHA256_ALGORITHM, 0, h([]));
      var fs := map[NameOf(cid.digest) := []];
      Put(h, fs, maxBytes, cid, [], PutEnv(true, true, NoFault, SMOOTH)) == PutOut(ChunkOk, true, fs)
  {
    var cid := Cid(SHA256_ALGORITHM, 0, h([]));
    var fs: Files := map[NameOf(cid.digest) := []];
    assert fs[NameOf(cid.digest) := []] == fs;
  }
}
