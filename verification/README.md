# A verified model of the turboP2P chunk data plane

This project models, in Dafny, the M3 chunk data plane of turboP2P and two state
machines of its mesh daemon, and proves what they promise over every input, every
run and every way the platform may fail.

- **Durable replay journal.** A bounded journal binds a request id to one authorized
  access until it expires. It is kept in a slot array (`Journal`), which implements a
  bounded map (`JournalMap`), is written as a checksummed snapshot (`Snapshot`,
  `SnapshotCode`) and is owned by a store that replaces the file by rename
  (`ReplayStore`, `ReplayStoreCode`). A disk is what a read returns now together with
  the set of snapshots that a power loss may leave behind; a replacement fails, is
  uncertain, or is durable, as the platform's answers add up. `ReplayRuns`, `ReplayFacts`,
  `ReplayRecovery`, `ReplayDurability`, `ReplayResults` and `ReplayTwice` prove the guarantees
  over whole runs of open, begin, complete, sweep, close, crash and power loss.
- **Authorize, bind, read, record.** `Capability`, `AccessDigest`, `AccessStore`,
  `ReadService`, `ReadRetries` and `ReadServiceCode` model the read pipeline, where
  several modules check the same facts again.
- **Content-addressed store.** `ChunkStore`, `ChunkStoreCode` and `ChunkRuns` model the
  streaming verifier and the store as an immutable map.
- **Fetch service.** `FetchService` and `FetchServiceCode` model the pending list and
  its callbacks.
- **Formats.** `Bytes`, `ChunkMesh` and `Receipt` model the fixed big-endian layouts.
- **Daemon.** `Http`, `HttpFraming`, `HttpToken` and `HttpCode` model the incremental
  HTTP/1.1 parser (sections 5 and 6.3 of RFC 9112, section 8.6 of RFC 9110);
  `Decimals` and `Epoch` model the epoch allocator.

`ReplayAnswers`, `ReadAnswers`, `ChunkAnswers`, `FetchAnswers`, `HttpAnswers` and `Layouts`
state what each operation answers, changes and writes, against literal values and predicates
of their own; `HttpGrammar` does the same for what a request is.

Modules whose name ends in `Code`, and the classes elsewhere, are the in-place form:
each method is proved equal to a function on values, and the properties are proved
about that function.

SHA-256 is a function value `h`. Where a property rests on collision freedom, the lemma says
"or these two inputs collide" and names them. The one assumption about `h` is
`NonzeroHash`, that no input has the all-zero digest, because the snapshot reader refuses such
a digest; only `TerminalResultIsRecovered` needs it, and `LostResultRun` and
`DoubtfulResultRun` need it of their one access. Clocks, and everything that the file system,
the digest library, the random source and the transfer layer answer, are parameters, so a
theorem covers every answer.

"Durable" means: in memory while the store is open, and in every file that a power loss may
leave, each of which is the snapshot of a well-formed journal that holds the fact. When such a
file can be opened again is `ReopenIff`.

Some promises turn out to depend on one platform answer. Each has a concrete failing run and
the exact condition under which it holds:

- At most once fails if the first `lstat` of an open reports an existing snapshot as missing
  (`WrongStatRunsTwice`; exactly when some continuation runs a request again: `RunsOnceIff`).
- "Existing corrupt bytes are never overwritten" (mesh/src/m3_chunk_store.h:61-67) fails if
  the `lstat` of a put misses the file (`CorruptBytesOverwritten`; exactly when, for one step
  and for whole runs: `OverwritesIff`, `UnchangedIff`). Intact bytes are still replaced by
  nothing else (`IntactBytesNeverChange`).
- `out_created` is then also set for a chunk that was published already
  (`MissedStatCreatesTwice`, `CreatedIff`).
- Epochs repeat if `access` reports an existing file as absent
  (`MisreportedFileRepeats`, `MisreportedFileIsSafeIff`).

Two further facts that a caller may not expect, each with a run that shows it and the exact
condition: a repeated complete call, or a begin, can report a result that never reached the
disk or may still be lost (`LostResultRun`, `DoubtfulResultRun`, `OkIsDurableIff`), and an
authorized read can be answered INTERNAL, exactly if the policy grants longer lives than the
journal keeps (`InternalPossibleIff`, `InternalIff`).

The comment at mesh/src/m3_chunk_replay_store.c:43-48 says that POSIX stays rename-only;
the code below it syncs the directory and reports an uncertain commit when that fails. The
model follows the code.

`dafny verify dfyconfig.toml` checks the whole project.

## Model

| member | source | states |
|---|---|---|
| `Bytes.BERoundTrip` | mesh/src/m3_chunk_mesh.c:40-72 | reading back a big-endian write gives the value, for every width and every value that fits |
| `Bytes.FromBERoundTrip` | mesh/src/m3_chunk_mesh.c:40-72 | re-writing a big-endian read gives the bytes, so the codec is a bijection per width |
| `Bytes.BEAt` | mesh/src/m3_chunk_mesh.c:61-64 | the byte stored by the shift-and-truncate loop at each position is that byte of the encoding |
| `Bytes.WriteBE` | mesh/src/m3_chunk_replay_store.c:100-123 | the writers fill exactly their window with the encoding and leave every other byte of the buffer alone |
| `Bytes.ReadBE` | mesh/src/m3_chunk_mesh.c:66-72 | the accumulating reader returns the one value whose encoding are the bytes read |
| `Bytes.NonzeroIff` | mesh/src/m3_chunk_capability.c:6-14 | the aggregate test fails exactly on the all-zero bytes |
| `Access.AccessValidIff` | mesh/src/m3_chunk_replay.c:21-39 | what both copies of the access check let through: named parties, object and request, a range inside the object, and a read or a put of all of it |
| `Capability.RangeContainsIsContainment` | mesh/src/m3_chunk_capability.c:35-51 | the guarded 64-bit comparison is containment over the integers; no sum or difference wraps |
| `Capability.AuthorizeIffEntitled` | mesh/src/m3_chunk_capability.c:81-153 | authorization succeeds exactly for entitled requests: a well-formed live claim for this tenant, node, request, operation and object, the range inside it, and the length within the read limit for a read and the put limit for a put |
| `Capability.AuthorizeAnswers` | mesh/src/m3_chunk_capability.c:88-140 | exactly when each refusal is given, in terms of malformed, too early, too late, not matching, outside and over the limit |
| `Capability.GrantedIsValid` | mesh/src/m3_chunk_capability.c:142-152 | the granted access is that of the claim narrowed to the requested range, inside the claimed range and the object; it is valid for both downstream modules and lives at most the policy TTL |
| `AccessDigest.PreImageInjective` | mesh/src/m3_chunk_replay.c:41-108 | two accesses with the same concatenated pre-image agree in every field |
| `Layouts.PreImageLayout` | mesh/src/m3_chunk_replay.c:66-97 | the pre-image is 187 bytes with each field at its offset |
| `Layouts.DomainBytes` | mesh/src/m3_chunk_replay.c:8-9 | the domain text, byte by byte |
| `AccessDigest.DigestSeparates` | mesh/src/m3_chunk_replay.c:53-108 | equal digests of different accesses exhibit a collision of the hash |
| `AccessDigest.HashAccess` | mesh/src/m3_chunk_replay.c:53-108 | the sequence of updates digests the canonical pre-image; a refused update clears the output, an invalid access or a missing context leaves it as it was |
| `Journal.SweepKeeps` | mesh/src/m3_chunk_replay.c:152-167 | sweeping keeps ids distinct and free slots zeroed |
| `Journal.BeginKeeps` | mesh/src/m3_chunk_replay.c:169-220 | begin keeps ids distinct, free slots zeroed and the capacity, on every path |
| `Journal.CompleteKeeps` | mesh/src/m3_chunk_replay.c:222-248 | complete keeps ids distinct, free slots zeroed and the capacity, on every path |
| `Journal.BeginKeepsLive` | mesh/src/m3_chunk_replay.c:169-220 | no unexpired entry is evicted or altered by a begin |
| `Journal.ExhaustedIff` | mesh/src/m3_chunk_replay.c:205-212 | a valid live access with an unknown id is refused as exhausted exactly when every slot holds an unexpired entry |
| `Journal.NewJournal` | mesh/src/m3_chunk_replay.c:124-142 | a journal is made exactly for an unused one, a capacity from 1 to 4096, a non-zero TTL and available memory; it starts well formed, and a refusal changes nothing |
| `Journal.ReplayJournal.FindEntry` | mesh/src/m3_chunk_replay.c:110-122 | the linear search finds the first slot taken by the id, or the capacity |
| `Journal.ReplayJournal.SweepExpired` | mesh/src/m3_chunk_replay.c:152-167 | in place, exactly the expired slots are zeroed, and their number is returned |
| `Journal.ReplayJournal.BeginRequest` | mesh/src/m3_chunk_replay.c:169-220 | the in-place code has the result, output and slots of the step whose invariants and map refinement are proved |
| `Journal.ReplayJournal.CompleteRequest` | mesh/src/m3_chunk_replay.c:222-248 | the in-place code has the result and slots of the step whose invariants and map refinement are proved |
| `JournalMap.AbsSize` | mesh/src/m3_chunk_replay.c:205-212 | the slot array holds as many records as the map; it is full exactly when no slot is free |
| `JournalMap.SweepRefines` | mesh/src/m3_chunk_replay.c:152-167 | sweeping is restriction of the map to unexpired records |
| `JournalMap.BeginRefines` | mesh/src/m3_chunk_replay.c:169-220 | sweep, linear search and first-free insertion are one operation on a bounded map |
| `JournalMap.CompleteRefines` | mesh/src/m3_chunk_replay.c:222-248 | complete is a map update in which the first result stands |
| `JournalMap.ConflictMeansDifferentAccess` | mesh/src/m3_chunk_replay.c:193-203 | CONFLICT is answered exactly for a live id bound to a different access, unless a collision is at hand |
| `Snapshot.ParseWritten` | mesh/src/m3_chunk_replay_store.c:168-229 | a written record reads back as its entry; only an all-zero digest is refused |
| `Snapshot.EncodeInjective` | mesh/src/m3_chunk_replay_store.c:168-229 | different journals, TTLs or generations have different snapshots, whatever the digest function does |
| `Layouts.SnapshotLayout` | mesh/src/m3_chunk_replay_store.c:168-229 | the header is 80 bytes with magic, version and sizes as literal bytes; the digest covers the file with its own field zeroed |
| `Layouts.RecordLayout` | mesh/src/m3_chunk_replay_store.c:200-219 | slot i is the 72 bytes from 80 + 72 i: zeros, or state, id, digest, expiry and code at their offsets |
| `Layouts.HeaderOkIff` | mesh/src/m3_chunk_replay_store.c:355-371 | exactly which headers are accepted, in literal bytes |
| `Layouts.DecodeRefusals` | mesh/src/m3_chunk_replay_store.c:344-431 | which refusal a file gets |
| `Layouts.AcceptedIff` | mesh/src/m3_chunk_replay_store.c:344-431 | a file is accepted with nothing expired exactly if it is the snapshot of a well-formed live journal of this capacity and TTL, and that is what it loads |
| `Snapshot.DecodeEncode` | mesh/src/m3_chunk_replay_store.c:344-431 | decoding an encoded journal gives the generation, exactly the unexpired entries slot for slot, and the right counts; the only journals refused hold a zero digest |
| `Snapshot.WriteParsed` | mesh/src/m3_chunk_replay_store.c:377-425 | an accepted record is the only encoding of a well-formed entry |
| `Snapshot.EncodeDecode` | mesh/src/m3_chunk_replay_store.c:344-431 | accepted bytes in which nothing has expired re-encode to themselves |
| `Snapshot.DecodedIsWellFormed` | mesh/src/m3_chunk_replay_store.c:344-431 | every accepted snapshot yields distinct ids, live entries and a non-zero generation |
| `Snapshot.LapsedCountIs` | mesh/src/m3_chunk_replay.c:152-167 | the removed and expired counts are the number of taken slots whose time is up |
| `Snapshot.InProgressCountIs` | mesh/src/m3_chunk_replay_store.c:414-416 | the recovered count is the number of live slots in progress |
| `SnapshotCode.WriteRecord` | mesh/src/m3_chunk_replay_store.c:168-229 | one record is filled in place and nothing outside it is touched |
| `SnapshotCode.CalculateDigest` | mesh/src/m3_chunk_replay_store.c:133-151 | the digest covers the buffer with its own field zeroed; the buffer is restored also when hashing fails, and the output is then zero |
| `SnapshotCode.EncodeSnapshot` | mesh/src/m3_chunk_replay_store.c:168-229 | the record loop and the digest produce the one encoding of the journal; without memory or a digest there is a result code and no buffer |
| `SnapshotCode.LoadRecords` | mesh/src/m3_chunk_replay_store.c:377-425 | the record loop, with its duplicate search, loads slot by slot or refuses |
| `SnapshotCode.DecodeSnapshot` | mesh/src/m3_chunk_replay_store.c:344-431 | the in-place decoder accepts, counts and refuses as the decoding function does |
| `ReplayStoreCode.SnapshotFile.WriteAll` | mesh/src/m3_chunk_replay_store.c:153-166 | through any short writes the temporary file ends as all of the bytes, or the answer is an error |
| `ReplayStoreCode.SnapshotFile.Replace` | mesh/src/m3_chunk_replay_store.c:246-283 | which of the three outcomes the platform's answers add up to; the final path changes only with the rename and then holds all of the snapshot, however it was written; no temporary file is left unless removing it fails |
| `ReplayStoreCode.SnapshotFile.Rename` | mesh/src/m3_chunk_replay_store.c:56-88 | the rename makes the new file visible and possible, and only the synced directory makes it the only possible one |
| `ReplayStore.EveryOutcomeHappens` | mesh/src/m3_chunk_replay_store.c:231-290 | every outcome that runs range over is what some answers of the platform add up to |
| `ReplayStoreCode.DurableJournal.Persist` | mesh/src/m3_chunk_replay_store.c:231-290 | a snapshot of the next generation is written; memory and disk end in the state of the step used in runs |
| `ReplayStoreCode.DurableJournal.Begin` | mesh/src/m3_chunk_replay_store.c:573-602 | begin, persist and the undo of a failed write together are the begin step of a run |
| `ReplayStoreCode.DurableJournal.Complete` | mesh/src/m3_chunk_replay_store.c:604-623 | only the call that changes the entry writes; the whole is the complete step of a run |
| `ReplayStoreCode.DurableJournal.Sweep` | mesh/src/m3_chunk_replay_store.c:625-640 | a sweep that removed something persists; the whole is the sweep step of a run |
| `ReplayStoreCode.DurableJournal.Open` | mesh/src/m3_chunk_replay_store.c:469-558 | loading, starting afresh and every failure are the open step of a run; a failed open leaves the store closed |
| `ReplayAnswers.PersistAnswers` | mesh/src/m3_chunk_replay_store.c:231-290 | one write, exactly: OK and the only possible file, IO and one more possible file, or the code of its fault and no change; nothing once the generations are used up |
| `ReplayAnswers.SweepAnswers` | mesh/src/m3_chunk_replay_store.c:625-640 | a sweep zeroes exactly what has expired and writes the rest exactly if something had |
| `ReplayAnswers.SweepOkIff` | mesh/src/m3_chunk_replay_store.c:633-639 | with something expired and a generation left, OK means exactly a durable file of the next generation |
| `ReplayAnswers.BeginRefusals` | mesh/src/m3_chunk_replay_store.c:573-588 | expired, invalid or too long-lived accesses and failing digests: the code of each, and no change |
| `ReplayAnswers.BeginKnown` | mesh/src/m3_chunk_replay_store.c:581-588 | a known live id is CONFLICT under another digest, and otherwise its state and code; nothing is written |
| `ReplayAnswers.BeginUnknown` | mesh/src/m3_chunk_replay_store.c:573-602 | an unknown id is refused exactly by a full journal; otherwise it is bound, and NEW means exactly a durable write |
| `ReplayAnswers.CompleteRefusals` | mesh/src/m3_chunk_replay_store.c:604-618 | invalid accesses, failing digests and ids that no slot holds: the code of each, and no change |
| `ReplayAnswers.CompleteSettled` | mesh/src/m3_chunk_replay_store.c:604-620 | another digest or another code is CONFLICT, the recorded one OK, and nothing is written |
| `ReplayAnswers.CompleteDecides` | mesh/src/m3_chunk_replay_store.c:604-623 | the entry in progress takes the code and is written; memory keeps it whatever the write answers |
| `ReplayAnswers.OpenRefusals` | mesh/src/m3_chunk_replay_store.c:479-526 | bad arguments, the lock, a file that is gone, of the wrong size or unreadable: the code of each, and no change |
| `ReplayAnswers.OpenFreshAnswers` | mesh/src/m3_chunk_replay_store.c:538-543 | without a file the store opens exactly if an empty journal of generation 1 is written durably |
| `ReplayAnswers.OpenLoadedAnswers` | mesh/src/m3_chunk_replay_store.c:523-536 | a loaded file opens the store as it was decoded, rewritten exactly if something had expired |
| `ReplayAnswers.WrongTimeAnswers` | mesh/src/m3_chunk_replay_store.c:573-633 | calls on a closed store and opens of an open one are INVALID_ARG and change nothing |
| `ReplayAnswers.StepsAreCalls` | mesh/src/m3_chunk_replay_store.c:469-640 | the steps of a run are the store's operations; a power loss leaves exactly the file it settles on |
| `ReplayRuns.StepKeepsWorld` | mesh/src/m3_chunk_replay_store.c:231-640 | every step keeps the journal well formed and what is visible on disk possible |
| `ReplayRuns.StepKeepsPinned` | mesh/src/m3_chunk_replay_store.c:231-640 | a fact in memory and in every possible snapshot stays there through every step before its expiry, whatever a write ends with |
| `ReplayRuns.PinnedLater` | mesh/src/m3_chunk_replay_store.c:231-640 | the same over any number of steps |
| `ReplayRuns.NewPins` | mesh/src/m3_chunk_replay_store.c:573-602 | a begin that answers NEW has its binding in memory and in every file that a power loss may leave |
| `ReplayRuns.AtMostOnce` | mesh/src/m3_chunk_replay_store.c:469-602 | on every run from any file left by earlier times, with crashes, power losses and failed or uncertain writes, an id answered NEW is not answered NEW again before that access expires |
| `ReplayRuns.AtMostOnceApplies` | mesh/src/m3_chunk_replay_store.c:469-602 | a legal run in which one access is begun twice, and the first time as NEW |
| `ReplayFacts.ResultPins` | mesh/src/m3_chunk_replay_store.c:604-623 | the complete call that leaves IN_PROGRESS and answers OK has its result in memory and in every file that a power loss may leave |
| `ReplayFacts.TerminalResultIsDurable` | mesh/src/m3_chunk_replay_store.c:604-623 | after that call, on every continuation until expiry, the result stays in every possible file; every recovery and begin reports the code, another code is CONFLICT, and no complete changes anything |
| `ReplayFacts.FailedBeginIsUndone` | mesh/src/m3_chunk_replay_store.c:590-601 | a begin whose snapshot did not reach its path leaves nothing behind but the sweep |
| `ReplayFacts.UncertainBeginStaysBound` | mesh/src/m3_chunk_replay_store.c:590-601 | a begin whose rename may be lost answers IO and stays bound: a live retry is IN_PROGRESS, not NEW |
| `ReplayFacts.StepKeepsGeneration` | mesh/src/m3_chunk_replay_store.c:231-290 | the generation in memory is always that of the visible file, grows by at most one per step and is never zero |
| `ReplayFacts.OpenKeepsBindingIff` | mesh/src/m3_chunk_replay_store.c:519-543 | an open leaves a binding in memory and in every possible file exactly if `lstat` finds the file or the empty snapshot does not reach the path |
| `ReplayFacts.WrongStatRunsTwice` | mesh/src/m3_chunk_replay_store.c:519-543 | a concrete run in which one wrong `lstat` answer makes the same access NEW twice |
| `ReplayTwice.RunsOnceIff` | mesh/src/m3_chunk_replay_store.c:469-602 | after a reopen of a store in which a request is bound, no continuation answers NEW for it before its expiry, exactly if `lstat` finds the file or the empty snapshot does not reach the path |
| `ReplayRecovery.StepKeepsWritten` | mesh/src/m3_chunk_replay_store.c:231-640 | every file that a power loss may leave is the snapshot of a well-formed journal, through every step |
| `ReplayRecovery.RunKeepsWritten` | mesh/src/m3_chunk_replay_store.c:231-640 | the same on every run; without all-zero digests if the hash has none |
| `ReplayRecovery.ReopenIff` | mesh/src/m3_chunk_replay_store.c:519-543 | an undisturbed open with the file's own capacity and TTL succeeds exactly if no digest is all zero and, where something has expired, a generation is left; it restores what has not expired |
| `ReplayRecovery.TerminalResultIsRecovered` | mesh/src/m3_chunk_replay_store.c:469-623 | end to end: after the deciding complete answered OK, from every closed point of every run before expiry, reopening succeeds and a live begin is told the code |
| `ReplayDurability.StepKeepsInSync` | mesh/src/m3_chunk_replay_store.c:469-640 | the visible file of a running store agrees with its memory slot by slot: what is in progress in memory is so in the file, and what has not expired in the file is in memory with its result; from any file left by earlier times |
| `ReplayDurability.DurableIsPinned` | mesh/src/m3_chunk_replay_store.c:469-640 | what is in every possible file and has not expired is also in the memory of a running store |
| `ReplayDurability.DurableIff` | mesh/src/m3_chunk_replay_store.c:231-640 | over any stretch of any run, a fact is durable at the end exactly if it was at the start, or a durable write held it, or a power loss left a file that holds it |
| `ReplayResults.DecidingCall` | mesh/src/m3_chunk_replay_store.c:604-623 | the deciding complete answers OK exactly if its write is durable, and exactly then its result is durable; before it the result is not |
| `ReplayResults.OkIsDurableIff` | mesh/src/m3_chunk_replay_store.c:573-623 | through any closes, power losses and reopenings before expiry, a result is durable exactly if the deciding call answered OK, or a later write, an open's too, ended durably with the result in it, or a power loss settled on a file that has it; within the session it is in memory regardless |
| `ReplayResults.ToldRegardless` | mesh/src/m3_chunk_replay_store.c:573-623 | a repeated complete and a live begin report a result that is in memory, and write nothing, whether or not it is durable |
| `ReplayResults.LostResult` | mesh/src/m3_chunk_replay_store.c:614-622 | from any running store: a deciding call whose write fails answers the fault, its repeat answers OK, and whoever opens the file again finds the request in progress in its slot |
| `ReplayResults.LostResultRun` | mesh/src/m3_chunk_replay_store.c:614-622 | a concrete run: complete fails, its repeat and a begin report the result, and after close and reopen the request is in progress and takes another result |
| `ReplayResults.DoubtfulResultRun` | mesh/src/m3_chunk_replay_store.c:604-623 | a concrete run: complete is uncertain, a repeat after close and reopen answers OK, and a power loss may still bring the request back in progress |
| `AccessStore.GrantedPassesAccessStore` | mesh/src/m3_chunk_access_store.c:21-111 | a granted access is refused by the access store neither as invalid nor as expired at the same time |
| `AccessStore.AccessReadIff` | mesh/src/m3_chunk_access_store.c:89-111 | a valid live READ succeeds exactly if the buffer suffices, the object fits and is intact and nothing fails; it returns the range |
| `ChunkAnswers.AccessReadAnswers` | mesh/src/m3_chunk_access_store.c:89-111 | an authorized read: invalid, expired and short buffers first, then the store's own answer and bytes |
| `ChunkAnswers.AccessPutAnswers` | mesh/src/m3_chunk_access_store.c:67-87 | an authorized put: invalid, expired and wrong sizes first, then the store's own answer |
| `ReadService.GrantedPassesBegin` | mesh/src/m3_chunk_read_service.c:131-146 | begin can refuse a granted access only for a taken id or a full journal |
| `ReadService.PolicyFitsJournal` | mesh/src/m3_chunk_read_service.c:131-138 | with a policy TTL within the journal's, every granted access fits the journal |
| `ReadService.ExecuteNew` | mesh/src/m3_chunk_read_service.c:162-175 | an unknown id is read and recorded in one call, or finds no slot |
| `ReadService.ExecuteKnown` | mesh/src/m3_chunk_read_service.c:148-167 | a known live id changes nothing beyond the sweep |
| `ReadService.ExecuteKeepsInv` | mesh/src/m3_chunk_read_service.c:102-176 | every call leaves no entry in progress and only codes a read can end with |
| `ReadService.FreshJournal` | mesh/src/m3_chunk_replay.c:124-142 | a fresh journal of any capacity is one to start such a run from |
| `ReadService.InternalIff` | mesh/src/m3_chunk_read_service.c:137-146 | with no relation between the TTLs, an authorized READ is INTERNAL exactly if the access outlives the journal's TTL |
| `ReadService.InternalPossibleIff` | mesh/src/m3_chunk_read_service.c:72-146 | a configured service can answer INTERNAL exactly if its policy TTL exceeds the journal's; the call that does is given |
| `ReadService.NeverInProgressNeverInternal` | mesh/src/m3_chunk_read_service.c:102-176 | on every run from a journal with nothing in progress and readable codes, whatever happens to the files, IN_PROGRESS and INTERNAL are never answered |
| `ReadAnswers.Refusals` | mesh/src/m3_chunk_read_service.c:15-38 | writes, unknown operations and unentitled reads: exactly when each code is answered, with the journal untouched |
| `ReadAnswers.ServedHere` | mesh/src/m3_chunk_read_service.c:128-135 | a served claim is one for this very node, whatever node the request names |
| `ReadAnswers.JournalRefusals` | mesh/src/m3_chunk_read_service.c:137-146 | another access under a live id, a full journal, an access that outlives it and failing digests: the code of each |
| `ReadAnswers.StrandedRequest` | mesh/src/m3_chunk_read_service.c:169-174 | a digest that fails at recording answers INTERNAL with no bytes and leaves the request in progress |
| `ReadAnswers.FirstAnswers` | mesh/src/m3_chunk_read_service.c:40-65 | the answer of a first execution by what is in the store and what fails, for every code, and its bytes |
| `ReadAnswers.RecordedCode` | mesh/src/m3_chunk_read_service.c:169-175 | the recorded entry and its code, as a literal number, for every answer |
| `ReadRetries.FirstExecutionRecords` | mesh/src/m3_chunk_read_service.c:162-175 | a first execution that reached the store leaves its result in the journal |
| `ReadRetries.ExecuteKeepsRecord` | mesh/src/m3_chunk_read_service.c:137-176 | no call before the expiry removes or changes a record |
| `ReadRetries.RetryReplays` | mesh/src/m3_chunk_read_service.c:148-167 | an exact retry repeats a failure with no bytes and independently of the store, and reads a success again |
| `ReadRetries.OtherAccessConflicts` | mesh/src/m3_chunk_read_service.c:137-140 | a live id used for a different access is CONFLICT, unless a collision is at hand |
| `ReadRetries.SameAccessSameBytes` | mesh/src/m3_chunk_read_service.c:162-167 | two successful reads of one access return the same bytes, over any files, unless a collision is at hand |
| `ReadRetries.ServableUntilDeleted` | mesh/src/m3_chunk_store.c:299-410 | a chunk that could be read stays readable, with the same bytes, on every truthful run until it is deleted |
| `ReadRetries.RetrySemantics` | mesh/src/m3_chunk_read_service.c:137-176 | over whole runs the first execution fixes the answer of every exact retry until expiry |
| `ReadRetries.SuccessRepeatsUntilDeleted` | mesh/src/m3_chunk_read_service.c:137-176 | joined with the store's runs: until a delete, an exact retry of a success returns the very bytes of the first answer |
| `ReadServiceCode.ReadServer.ReadAuthorized` | mesh/src/m3_chunk_access_store.c:89-111 | the read through the buffer returns the bytes of the access-store function |
| `ReadServiceCode.ReadServer.ExecuteRead` | mesh/src/m3_chunk_read_service.c:102-176 | result, bytes, replay flag and journal of the in-place service are those of the step used in runs |
| `ChunkStore.HexRoundTrip` | mesh/src/m3_chunk_store.c:34-42 | hex digits decode to the bytes they spell |
| `ChunkStore.NameRoundTrip` | mesh/src/m3_chunk_store.c:422-449 | the path of a digest gives the digest back, so different digests have different paths |
| `ChunkAnswers.HexAt` | mesh/src/m3_chunk_store.c:34-42 | two lower-case digits for each byte, the high half first |
| `ChunkAnswers.HexValueIs` | mesh/src/m3_chunk_store.c:412-420 | digits of either case and their values; anything else is refused |
| `ChunkAnswers.FromHexIff` | mesh/src/m3_chunk_store.c:440-447 | a text spells bytes exactly if it has two digits for each |
| `ChunkAnswers.NameIs` | mesh/src/m3_chunk_store.c:72-95 | the path of a digest: its first byte, the other thirty-one, and the suffix |
| `ChunkStore.VerifiedReadIff` | mesh/src/m3_chunk_store.c:126-205 | a verified read succeeds exactly on an intact object when nothing fails, and returns the requested slice of it |
| `ChunkAnswers.ReadAnswers` | mesh/src/m3_chunk_store.c:392-410 | exactly when a read gives each answer, and the bytes |
| `ChunkStoreCode.StreamBlocks` | mesh/src/m3_chunk_store.c:162-180 | for every split of the file into reads, all bytes are hashed and the buffer holds the part of the range read so far; nothing past the length is written |
| `ChunkStoreCode.ReadVerifyRange` | mesh/src/m3_chunk_store.c:126-205 | the streaming loop returns the slice of the whole checked content; any other outcome reports zero bytes |
| `ChunkStoreCode.CasStore.PutBytes` | mesh/src/m3_chunk_store.c:299-390 | result, created flag and files of the in-place put are those of the step used in runs |
| `ChunkStoreCode.CasStore.ReadRange` | mesh/src/m3_chunk_store.c:392-410 | out-of-range requests are refused; others return the verified slice and never write past it |
| `ChunkStoreCode.CasStore.DeleteChunk` | mesh/src/m3_chunk_store.c:536-556 | a delete removes the named file or changes nothing |
| `ChunkRuns.PublishedBytesNeverChange` | mesh/src/m3_chunk_store.c:299-410 | with truthful `lstat` answers no run without a delete changes what is published, intact or not |
| `ChunkRuns.IntactBytesNeverChange` | mesh/src/m3_chunk_store.c:299-410 | under any failures at all, intact bytes are not replaced by others, unless a collision is at hand |
| `ChunkRuns.PutOkHasChunk` | mesh/src/m3_chunk_store.c:299-390 | a put that answered OK leaves an object of that digest and size |
| `ChunkRuns.PutThenRead` | mesh/src/m3_chunk_store.c:299-410 | after such a put, and any run without a delete, every range reads as that part of the bytes put |
| `ChunkRuns.CreatedIff` | mesh/src/m3_chunk_store.c:333-375 | exactly when a put reports a new publication |
| `ChunkRuns.OverwritesIff` | mesh/src/m3_chunk_store.c:333-375 | a step leaves published bytes alone exactly if it neither deletes them nor is a put of other bytes under that name whose `lstat` misses the file and whose rename succeeds |
| `ChunkRuns.UnchangedIff` | mesh/src/m3_chunk_store.c:299-410 | published bytes stay throughout a run exactly if no step of it deletes or overwrites them |
| `ChunkRuns.CorruptBytesOverwritten` | mesh/src/m3_chunk_store.c:333-375 | a concrete put that replaces a corrupt byte under the name of the empty chunk |
| `ChunkRuns.PutOkIff` | mesh/src/m3_chunk_store.c:314-381 | exactly when a put answers OK, including the move that fails over an intact copy |
| `ChunkAnswers.PutAnswers` | mesh/src/m3_chunk_store.c:314-390 | every answer of a put, in terms of what a read of the path would answer; only the move changes a file |
| `ChunkRuns.DeleteOkRemoves` | mesh/src/m3_chunk_store.c:536-556 | a deleted chunk is gone for every later range, and nothing else is |
| `ChunkAnswers.DeleteIff` | mesh/src/m3_chunk_store.c:536-556 | a delete succeeds exactly if the file is found with the CID's size and the unlink works; every other answer has its reason and changes nothing |
| `ChunkAnswers.IntactIsDeletable` | mesh/src/m3_chunk_store.c:536-556 | an intact chunk can be deleted with its own CID, and is then not found |
| `ChunkRuns.MissedStatCreatesTwice` | mesh/src/m3_chunk_store.c:333-375 | a concrete put that reports a new publication over a published chunk |
| `FetchService.FetchKeeps` | mesh/src/m3_chunk_fetch_service.c:222-284 | a fetch keeps the counter, the bound, distinct CIDs and the callback balance, and grants exactly if it answers OK |
| `FetchService.StepKeeps` | mesh/src/m3_chunk_fetch_service.c:82-284 | every event, including completions in any order and during the start, keeps that invariant |
| `FetchService.RunKeeps` | mesh/src/m3_chunk_fetch_service.c:82-284 | the invariant holds on every run over a store that starts with any files |
| `FetchService.ExactlyOnce` | mesh/src/m3_chunk_fetch_service.c:147-284 | over a store that starts with any files, at every later point a fetch that answered OK has been called back once or is still pending; a failed one never is |
| `FetchService.CloseIff` | mesh/src/m3_chunk_fetch_service.c:212-220 | close succeeds exactly when every granted fetch has been called back, and is BUSY exactly when something is pending |
| `FetchService.ImportOkHasChunk` | mesh/src/m3_chunk_fetch_service.c:82-109 | an import that answers OK leaves the object of the CID in the store |
| `FetchService.OkCallbackHasChunk` | mesh/src/m3_chunk_fetch_service.c:147-183 | every callback with OK finds the object of its CID in the store |
| `FetchAnswers.ImportOkIff` | mesh/src/m3_chunk_fetch_service.c:82-109 | an import answers OK exactly if the seed is found, plain, of the CID's size, within the limit, read in full and its bytes can be put |
| `FetchAnswers.ImportAnswers` | mesh/src/m3_chunk_fetch_service.c:56-109 | the other answers of an import, each with its reason |
| `FetchAnswers.TransferAnswers` | mesh/src/m3_chunk_fetch_service.c:147-183 | a transfer that ends adds exactly one callback for its own request, which leaves the list |
| `FetchAnswers.GoodTransferCallsBackOk` | mesh/src/m3_chunk_fetch_service.c:147-183 | end to end: a transfer that brings a good seed calls back with OK and the chunk is in the store |
| `FetchAnswers.FetchOkIff` | mesh/src/m3_chunk_fetch_service.c:222-284 | a fetch answers OK exactly if the object can be fetched and its seed can be imported and announced, or a transfer is started |
| `FetchAnswers.FinishedAtOnceAnswers` | mesh/src/m3_chunk_fetch_service.c:268-284 | a transfer that is over before the call returns is called back once and leaves the list as it was |
| `FetchAnswers.FetchRefusals` | mesh/src/m3_chunk_fetch_service.c:234-284 | the refusals of a fetch, each with its reason, and that none calls back |
| `FetchAnswers.StepsAreCalls` | mesh/src/m3_chunk_fetch_service.c:147-284 | the steps of a run are the service's operations |
| `FetchServiceCode.FetchServer.IsPending` | mesh/src/m3_chunk_fetch_service.c:111-125 | the list walk answers whether the CID is pending |
| `FetchServiceCode.FetchServer.Unlink` | mesh/src/m3_chunk_fetch_service.c:127-145 | one request leaves the list and the count, the others keep their order |
| `FetchServiceCode.FetchServer.ImportSeed` | mesh/src/m3_chunk_fetch_service.c:82-109 | result, created flag and files are those of the import step |
| `FetchServiceCode.FetchServer.OnTransferDone` | mesh/src/m3_chunk_fetch_service.c:147-183 | the seed of a failed transfer is removed, the request leaves the list before its callback; the whole is the completion step of a run |
| `FetchServiceCode.FetchServer.FetchChunk` | mesh/src/m3_chunk_fetch_service.c:222-284 | result and state are those of the fetch step of a run; a closed service refuses |
| `FetchServiceCode.FetchServer.CloseService` | mesh/src/m3_chunk_fetch_service.c:212-220 | the service closes exactly if nothing is pending |
| `ChunkMesh.ClaimsRoundTripIff` | mesh/src/m3_chunk_mesh.c:84-136 | claims survive the wire exactly if their operation fits its byte |
| `ChunkMesh.ClaimsReencode` | mesh/src/m3_chunk_mesh.c:108-174 | accepted claims re-encode to the bytes received, so the signature is checked over those bytes |
| `Layouts.ClaimsLayout` | mesh/src/m3_chunk_mesh.c:84-106 | claims are 168 bytes with each field at its offset and the reserved bytes zero |
| `ChunkMesh.FrameRoundTrip` | mesh/src/m3_chunk_mesh.c:176-276 | decoding an encoded frame gives the frame |
| `ChunkMesh.FrameReencodeIff` | mesh/src/m3_chunk_mesh.c:176-276 | an accepted frame re-encodes to itself exactly if its type and operation are known |
| `Layouts.FrameLayout` | mesh/src/m3_chunk_mesh.c:176-224 | a frame has its literal magic, version and sizes and each field at its offset, the payload at 336 |
| `Layouts.FrameEncodedIff` | mesh/src/m3_chunk_mesh.c:190-206 | exactly when each refusal of the encoder is given |
| `ChunkMesh.PayloadFitsFrame` | mesh/src/m3_chunk_mesh.h:14-20 | exactly the payloads within the cap fit a frame buffer |
| `ChunkMesh.WriteClaims` | mesh/src/m3_chunk_mesh.c:84-106 | the field writes produce the canonical claims |
| `ChunkMesh.WriteFrame` | mesh/src/m3_chunk_mesh.c:176-224 | the field writes produce the frame, or the refusal leaves the buffer alone |
| `Receipt.RoundTripIff` | mesh/src/m3_chunk_receipt.c:72-173 | a receipt survives encoding and decoding exactly if it is well formed |
| `Receipt.Reencode` | mesh/src/m3_chunk_receipt.c:72-173 | accepted bytes are the one encoding of their receipt, signed part included |
| `Receipt.BodyBinds` | mesh/src/m3_chunk_receipt.c:72-86 | receipts with one signed body agree in everything but the signature |
| `Layouts.ReceiptLayout` | mesh/src/m3_chunk_receipt.c:72-151 | a receipt is 176 bytes with its literal magic, each field at its offset and the signature at 112 |
| `Layouts.ReceiptWellFormedIff` | mesh/src/m3_chunk_receipt.c:62-70 | what a receipt must name to be encoded |
| `Receipt.BindingIsDetermined` | mesh/src/m3_chunk_receipt.c:236-265 | one signed body gets one binding answer and passes for one target only |
| `Receipt.BindingAnswer` | mesh/src/m3_chunk_receipt.c:236-265 | a binding check passes exactly for a well-formed receipt of this store, object and request that is neither from the future nor older than the limit |
| `Receipt.BindingRefusals` | mesh/src/m3_chunk_receipt.c:236-265 | exactly when each refusal of a binding check is given |
| `Receipt.WriteReceipt` | mesh/src/m3_chunk_receipt.c:131-151 | the field writes produce the encoding, or the refusal leaves the buffer alone |
| `Http.FeedKeeps` | mesh/examples/meshd.c:287-351 | whatever arrives, header and body stay inside their buffers |
| `Http.RunSplit` | mesh/examples/meshd.c:287-351 | a call on a concatenation is the call on its first part resumed with the second |
| `Http.SplitReachesSameStateIff` | mesh/examples/meshd.c:287-351 | two calls reach the state of one exactly if the first did not already complete the request, or nothing follows |
| `Http.SplitAfterNeedMore` | mesh/examples/meshd.c:287-351 | after NEED_MORE the second call reaches the same state and gives the same answer as one call |
| `HttpFraming.ParseLengthIff` | mesh/examples/meshd.c:174-211 | the overflow-guarded scan accepts exactly the trimmed decimals up to the body limit, with their value |
| `HttpFraming.FoldIff` | mesh/examples/meshd.c:213-285 | the line checks accept exactly the well-formed field lists, with the length they declare |
| `HttpFraming.ParseFieldsIsFold` | mesh/examples/meshd.c:213-285 | scanning by index is checking line by line |
| `HttpFraming.SplitBlock` | mesh/examples/meshd.c:310-318 | text that ends at its first CRLFCRLF is a request line and field lines |
| `HttpFraming.HeaderIsDelimited` | mesh/examples/meshd.c:299-318 | whatever is fed, the kept header ends at its first CRLFCRLF or holds none |
| `HttpFraming.UnreachableExits` | mesh/examples/meshd.c:213-330 | whatever is fed, completed or refused, a scanned header never leaves by the exits for a missing CRLF, trailing bytes or a missing empty line |
| `HttpFraming.RunBody` | mesh/examples/meshd.c:331-348 | byte by byte or in bulk, the body takes what is missing and only that |
| `HttpFraming.CompletesIffRequest` | mesh/examples/meshd.c:156-351 | a stream completes exactly if it is one well-framed request of the grammar |
| `HttpGrammar.SameNameIff` | mesh/examples/meshd.c:126-146 | names are the same exactly if they have one length and each pair of bytes is equal or a letter and its other case |
| `HttpGrammar.FieldIs` | mesh/examples/meshd.c:239-262 | a line of the literal grammar is accepted, and splits where the parser splits it |
| `HttpGrammar.TrimIsTrimmed` | mesh/examples/meshd.c:184-191 | trimming drops spaces and tabs from both ends and only those |
| `HttpGrammar.LinesIff` | mesh/examples/meshd.c:213-285 | the accepted field lists, stated with literal bytes, words and limits |
| `HttpGrammar.CompletesIffSpelled` | mesh/examples/meshd.c:126-351 | a stream completes exactly if it is a request of the literal grammar |
| `HttpAnswers.HeadAnswers` | mesh/examples/meshd.c:299-318 | before the head is complete: more is needed while it is short and free of NUL, too long a head exhausts, a NUL is invalid |
| `HttpAnswers.RequestAnswers` | mesh/examples/meshd.c:213-351 | after a complete head: exactly when more is needed, the request is complete, or its length exhausts; anything else is invalid |
| `HttpAnswers.FinishedAnswers` | mesh/examples/meshd.c:296-298 | a finished request repeats its result when given nothing, and is INVALID on any byte |
| `HttpFraming.PrefixNeedsMore` | mesh/examples/meshd.c:287-351 | every proper prefix of a request needs more |
| `HttpFraming.AnyFragmentation` | mesh/examples/meshd.c:287-351 | however a stream is cut and fed through NEED_MORE states, the last feed ends COMPLETE exactly on one well-framed request |
| `HttpFraming.ServesIffRequest` | mesh/examples/meshd.c:2965-2999 | the serving loop, with its deadline and failed receives, completes exactly if the bytes before the end of waiting are one well-framed request, however they are cut |
| `HttpFraming.StoppedIsInvalid` | mesh/examples/meshd.c:2970-2997 | a connection that ends before its request is complete is answered INVALID |
| `HttpToken.TokenOfBlock` | mesh/examples/meshd.c:1803-1866 | access is granted exactly if one field only is the token field and its trimmed value is the token |
| `HttpToken.TokenAgreesWithParser` | mesh/examples/meshd.c:1803-1866 | on every completed request the second pass judges the very fields that the parser accepted |
| `HttpGrammar.TokenIffCarried` | mesh/examples/meshd.c:1803-1866 | a completed request is let in exactly if no token is configured, or exactly one field spells the token's name, up to case, and its trimmed value is the token |
| `HttpCode.ScanCrlf` | mesh/examples/meshd.c:156-172 | the search finds the first CRLF or none |
| `HttpCode.TrimBounds` | mesh/examples/meshd.c:184-191 | the two index loops delimit the blank-trimmed text |
| `HttpCode.ScanLength` | mesh/examples/meshd.c:174-211 | the digit loop returns what the length function returns |
| `HttpCode.CheckLine` | mesh/examples/meshd.c:239-262 | the per-line loops accept exactly the well-formed field lines and find the colon |
| `HttpCode.HttpRequest.ScanHeaders` | mesh/examples/meshd.c:213-285 | the line loop gives the verdict and leaves the content length of the header function |
| `HttpCode.HttpRequest.FeedBytes` | mesh/examples/meshd.c:287-351 | feeding the fixed buffers gives the state and answer of the byte-by-byte machine, within bounds |
| `HttpCode.ServeRequest` | mesh/examples/meshd.c:2962-2999 | the loop over a fresh request answers as the serving function does |
| `HttpCode.TokenEqual` | mesh/examples/meshd.c:1787-1801 | the full-length comparison answers equality |
| `HttpCode.CheckTokenIn` | mesh/examples/meshd.c:1803-1866 | the scanning loop answers as the token function does |
| `Decimals.DecimalOfNumeral` | mesh/examples/meshd.c:552-553 | a printed value reads back |
| `Decimals.U64Length` | mesh/examples/meshd.c:541-557 | every printed 64-bit value fits the buffers of writer and reader |
| `Epoch.ReadPrinted` | mesh/examples/meshd.c:646-679 | what the allocator writes is what it reads; only the largest value is refused |
| `Epoch.NumberIsRead` | mesh/examples/meshd.c:646-679 | a decimal number between white space is read as itself, exactly if it is neither zero nor the largest and the file is short enough |
| `Epoch.TrailerIsRefused` | mesh/examples/meshd.c:671-678 | a number followed by anything else is refused |
| `Epoch.MinusNumber` | mesh/examples/meshd.c:664 | a minus sign negates modulo two to the 64, as `strtoull` does |
| `Epoch.PlusNumber` | mesh/examples/meshd.c:664 | a plus sign changes nothing |
| `Epoch.NoNumber` | mesh/examples/meshd.c:664-666 | what starts with neither a digit, a sign nor white space is refused |
| `Epoch.StepKeeps` | mesh/examples/meshd.c:539-706 | the file always reads as more than every epoch handed out, through every step |
| `Epoch.RunKeepsExact` | mesh/examples/meshd.c:600-706 | on honest runs the file is exactly one past the last epoch handed out |
| `Epoch.EpochsIncrease` | mesh/examples/meshd.c:600-706 | on every run with crashes, failed writes and restarts, epochs strictly increase and never wrap |
| `Epoch.OpenOkIff` | mesh/examples/meshd.c:600-685 | exactly when an open succeeds, and the number it continues from |
| `Epoch.AllocateOkIff` | mesh/examples/meshd.c:687-706 | exactly when an allocation succeeds, the number it hands out and the text it leaves in the file |
| `Epoch.RestartContinues` | mesh/examples/meshd.c:600-706 | after any honest run a restart continues with the next number, unless the numbers are used up |
| `Epoch.MisreportedFileIsSafeIff` | mesh/examples/meshd.c:639-645 | after any honest run that handed something out, a restart that misreports the file is safe for every continuation exactly if the configured first epoch is not below the number in the file |
| `Epoch.MisreportedFileRepeats` | mesh/examples/meshd.c:639-645 | a concrete run that hands out epoch 1 twice |
| `Epoch.EpochState.OpenState` | mesh/examples/meshd.c:600-685 | opening is the open step of a run |
| `Epoch.EpochState.AllocateEpoch` | mesh/examples/meshd.c:687-706 | the returned epoch is above every earlier one and the file has moved past it |
| `Epoch.EpochState.CloseState` | mesh/examples/meshd.c:585-598 | closing is the close step of a run |

## Left out

- Ed25519, SHA-256, OpenSSL contexts and random sources: digests are an abstract function that may fail to be computed; signatures are opaque bytes.
- File locking, path joining, directory creation, symbolic links, file types and Windows access lists: represented only by the outcomes they cause.
- The short-write loops of the chunk store and the epoch file, and the short-read loop of `read_exact_file`: represented by success or failure.
- The directory of a published chunk and of the epoch file is not synced by the code: there a returned rename is taken as durable and a failed one as no change.
- Null arguments and unopened stores, except where a state field decides; allocation failure beyond the result code it causes; `size_t` is 64 bits.
- The loops of `bytes_are_nonzero` and `bytes_are_zero`: modelled as one predicate.
- FetchServiceCode.FetchServer.Unlink: does not model the nodes and their pointers; the pending list is a sequence in list order, and a token stands for the address of a request.
- A callback that calls the fetch service again is a later event.
- FetchServiceCode.FetchServer.FetchChunk: does not track the contents of seed files from call to call, because the transfer layer owns them; each call is told what it finds.
- Snapshot decoding keeps stray fields in a slot that it refuses as corrupt; the model forgets them, because the open then discards the journal.
- The decoders of claims, frames and receipts are modelled as functions, because they only slice their input.
- Chunk enumeration and garbage collection, store nodes and object download: they would add easy members.
- The service, router and client parts of mesh/src/m3_chunk_mesh.c: network and polling code with no unique response matching to prove.
- The rest of mesh/examples/meshd.c, and the command-line tools, configuration and health code: argument parsing, printing and wiring.
- `isspace`, `isalnum` and `tolower` are those of the C locale.
