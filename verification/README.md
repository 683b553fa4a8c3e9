# Verified model of the di-log commit log

This project models the segmented commit log of `internal/log`, the Raft-facing layers built on it, the streaming
consumer of `internal/server`, and the in-memory log of `internal/server/log.go`, in Dafny, and proves properties of
the model. Source paths below are relative to the root of the repository.

One invariant carries the state from bytes up: a store file and its write buffer hold length-prefixed frames, an index
file holds one 12-byte entry per frame, a segment ties the two under a base offset, a log is a contiguous list of
segments, and the whole stands for a flat log: a lowest offset and a sequence of records.

## Layout

| file | models |
|---|---|
| `seqs.dfy` | equalities between sequences that proofs cite |
| `wire.dfy` | big-endian integers, frames, reading a frame, parsing a stream of frames |
| `records.dfy` | records, the protobuf codec as a law, the configuration |
| `spec.dfy` | the log as a list of segments and as a flat log, and what each operation does to both |
| `store.dfy`, `index.dfy`, `segment.dfy`, `log.dfy` | the classes of the same-named Go files, on files and a memory map |
| `names.dfy`, `directory.dfy` | file names, parsing them, the sorted directory scan |
| `recovery.dfy` | close and reopen, recovered offsets, executing any run on the real classes |
| `runs.dfy` | properties of whole runs |
| `readers.dfy`, `snapshots.dfy` | streaming a log, and doing so while appends go on |
| `catchup.dfy` | restoring such a copy and applying the commands that follow the snapshot |
| `fsm.dfy` | applying commands, restoring, replica determinism |
| `logstore.dfy` | the log as Raft's log store |
| `appendsteps.dfy` | `Append` as two atomic steps under overlap |
| `consume.dfy` | the `ConsumeStream` loop |
| `memlog.dfy` | the in-memory log |

The classes keep the fields of the Go structs and are proved against the functions of `spec.dfy`; what the log promises
is then proved of those functions. File operations succeed. Protobuf is a pair of functions for records and one for
produce requests whose only law is that what marshals unmarshals to the same message (`Records.Codec.Lawful`); a codec
that satisfies the law is exhibited. Offsets that stay below 2^64, index limits from 12 to 12 * 2^32 bytes and store
limits up to 2^62 bytes are hypotheses (`Records.Config.Valid` and the bounds on next offsets).

## Where the code does not do what it says

* `Reset` cannot succeed: it removes the log's directory and then reads it. Hence `Restore` fails on every snapshot that
  is not empty, after removing the follower's files (`Logs.Log.Reset`, `Fsms.Fsm.Restore`,
  `Fsms.SnapshotStartsWithFirstRecord`). `Restore` succeeds if and only if the stream is empty. The law that restoring
  inverts taking a snapshot is proved of the reading and appending loop on a log that really is fresh.
* The restore loop takes a length of 2^63 or more, which is negative once signed, for an empty payload and goes on
  (`Wire.HugeLengthIsEmpty`).
* The comment on `Truncate` says it removes segments whose highest offset is lower than its argument; the code also
  removes a segment whose highest offset equals it. Truncating at or above the highest offset empties the list
  (`Spec.TruncateKeepsSomeIff`).
* `DeleteRange` ignores its lower bound. It meets Raft's contract on the entries outside the range exactly when the
  lower bound is not above the first index, or the first segment reaches beyond the upper bound + 1 (on 64 bits), so
  that nothing is removed, or there are no entries (`LogStores.DeleteRangeKeepsOutsideIff`, for every range). Asked to
  drop a suffix it removes everything (`LogStores.DeleteSuffixRemovesAll`).
* Two overlapping appends can be given the same offset, so that the second one's record can never be read
  (`AppendSteps.OverlappingAppendsShareAnOffset`), or the second can fail with EOF and leave its frame in the store
  file of another segment, at a roll-over, because the highest offset is read before the write lock is taken
  (`AppendSteps.LockedSafeIff` gives the exact condition, `Logs.Log.LockedPart` what happens to the files).
* `Append` rolls over before it marshals, so an append that fails to marshal at a full segment leaves an empty segment
  behind others (`Runs.FailedAppendLeavesEmpty`). `Runs.EmptyBehindIff` says exactly when there is one: since such an
  append no other has succeeded.
* A snapshot that is copied while appends go on can take records that were appended after it, because its readers read
  the active segment to wherever it then ends. A replica that restores such a copy and then applies the commands that
  follow the snapshot appends these records again. No copy of a snapshot takes any if and only if the active segment was
  full when the snapshot was taken, or no record at all marshals at the next offset (`CatchingUp.CopiesItselfIff`;
  `CatchingUp.CopyCanTakeMore` gives a copy that does). So every such replica ends with the source's records if and only
  if the active segment was full (`CatchingUp.AlwaysCatchesUpIff`, for a codec whose marshalling does not depend on the
  offset, and when some command's record marshals); each one ends with as many records too many as its copy took
  (`CatchingUp.CaughtUpIff`).
* A consumer whose next record is truncated, or that asks for an offset below the lowest, gets no record and no error
  until its context is done (`Consumers.StreamStalls`, `Consumers.RequestBelowLowest`).
* `setup` steps over every other file it lists. It opens every base offset that has a file exactly when at most one of
  them misses one of its two files (`Names.ScanOpensAllIff`); otherwise it skips some.
* An index file that was not closed keeps its full size; the next offset recovered from it is right exactly for one
  record or a full index (`Recovery.UnclosedRecoversIff`). Reopening with an index limit below a file's size panics
  (`Segments.RecoverClosed`).
* The in-memory log's `Read` indexes out of bounds at an offset equal to its length (`MemoryLogs.ReadsAgreeIff`).
* Reading the offset just below a segment's base through the segment gives the segment's last record, since the distance
  wraps to -1 (`Segments.Segment.Read`); `Log.Read` never does so.

## Model

| member | source | states |
|---|---|---|
| Wire.ConversionsWrap | internal/log/segment.go:101-113 | conversions keep values modulo 2^32 and 2^64, and the signed one the value modulo 2^64 in the signed range |
| Wire.PayloadReadsBack | internal/log/store.go:80-104 | the position handed out for a payload reads back exactly that payload, whatever the file held before and was appended since |
| Wire.FrameLayout | internal/log/store.go:56-74 | a frame is 8 bytes of length, the most significant first, and then the payload |
| Wire.ReadFrameGives | internal/log/store.go:80-104 | what is read at any position: the bytes announced there, EOF when not all are there, an error when the position is negative once signed |
| Wire.ReadAtGives | internal/log/store.go:107-116 | as many of the bytes asked for as there are, EOF exactly when they are fewer, an error at a negative offset |
| Wire.ParseInvertsFrames | internal/log/distributed.go:340-381 | the restore loop's parser inverts the printer: the frames of any list of payloads parse to that list and end cleanly |
| Wire.ParseOfCut | internal/log/distributed.go:340-381 | a stream cut anywhere parses to its whole frames, and ends cleanly exactly at a frame boundary, with UnexpectedEOF inside a length and EOF inside a payload otherwise |
| Wire.HugeLengthIsEmpty | internal/log/distributed.go:342-358 | a length of 2^63 or more counts as no bytes, and parsing goes on after it |
| Records.LawfulCodecExists | internal/log/segment.go:88-92 | the codec law that every other theorem relies on can be met |
| Stores.Store.Append | internal/log/store.go:51-77 | one frame is added at the end of the store's bytes, wherever the buffer leaves them; the position is the old size |
| Stores.Store.Read | internal/log/store.go:80-104 | after a flush that changes no byte, the frame at the position, or the error the file gives |
| Stores.Store.ReadAt | internal/log/store.go:107-116 | the bytes there are, with EOF when they are fewer than asked for |
| Stores.Store.Close | internal/log/store.go:119-129 | every byte reaches the file |
| Stores.BufferingIsInvisible | internal/log/store.go:51-129 | in any run, with the buffer pushing any prefix at any time, file and buffer together are the frames appended so far |
| Stores.AppendThenReadLater | internal/log/store.go:33-104 | in any run of a store, on an empty file or one that holds bytes already, the position an append returned reads back its payload in every later state |
| Indexes.EntryAt | internal/log/index.go:109-115 | entry k of an index file decodes to the offset and position written as the k-th entry |
| Indexes.EntryLayout | internal/log/index.go:128-129 | an entry is 4 bytes of offset and 8 of position, the most significant first |
| Indexes.LookupGives | internal/log/index.go:88-117 | among entries: the last for -1, the one numbered by the low 32 bits otherwise, EOF when there is none |
| Indexes.Index.constructor | internal/log/index.go:25-64 | any file is resized to the limit and mapped and its old size remembered; if it held whole entries within the limit, they are the index's entries |
| Indexes.Index.Read | internal/log/index.go:88-117 | on any mapped file the last entry of the remembered size for -1, the entry of the low 32 bits otherwise, EOF beyond that size and a panic beyond the map; on encoded entries, the entry so numbered or EOF |
| Indexes.Index.Write | internal/log/index.go:120-134 | the entry's bytes follow those that count, in the map and in the shared file, or EOF and no change when there is no room |
| Indexes.Index.Close | internal/log/index.go:67-85 | the file holds exactly the entries |
| Segments.EntryOf | internal/log/segment.go:101-105 | entry k of a segment's index is k itself, not narrowed, and the total length of the k frames before it |
| Segments.LookupDecides | internal/log/segment.go:110-127 | following the index into the store and unmarshalling gives the record that SegmentRead names |
| Segments.SegmentReadOutside | internal/log/segment.go:110-127 | an offset just below the base gets the last record, one beyond the range the record of the low 32 bits of its distance, or EOF |
| Segments.Segment.constructor | internal/log/segment.go:21-80 | on any two files, the next offset is the one their index file gives; on the closed files of any records it is a segment of those records |
| Segments.RecoverClosed | internal/log/index.go:36-41 | the next offset is recovered from a closed index file exactly when the limit is not below its size; otherwise the read panics |
| Segments.RecoverAny | internal/log/segment.go:71-77 | from any index file within the limit: the base when it holds no whole entry, else one past the base and the offset in its last whole entry, on 64 bits |
| Segments.Segment.Append | internal/log/segment.go:83-108 | stamps the record; then Malformed and no change, or, with a full index, EOF after the frame was written, or the record added and its offset returned; the byte invariant holds in every case if it held before |
| Segments.Segment.Read | internal/log/segment.go:110-127 | the record of the offset for any 64-bit offset, with the wrap of the distance below the base and its narrowing |
| Segments.Segment.IsMaxed | internal/log/segment.go:130-134 | exactly when the frames of the segment's records take at least the store limit, or there are as many records as the index holds |
| Segments.Segment.Close | internal/log/segment.go:137-148 | both files hold exactly the segment's frames and entries |
| Segments.Segment.Remove | internal/log/segment.go:151-165 | closed, and exactly its two files gone from the directory |
| Names.ParseOfName | internal/log/log.go:94-98 | trimming the extension and parsing gives back the base offset from either file name |
| Names.DecimalExample | internal/log/segment.go:28-46 | the number in a file name is decimal |
| Names.NamesDiffer | internal/log/segment.go:28-47 | different base offsets or kinds have different file names |
| Names.ScanFindsBases | internal/log/log.go:92-114 | in whatever order the directory is listed, the sorted parsed offsets are the base offsets in ascending order, each twice |
| Names.ScanOpensAllIff | internal/log/log.go:92-114 | whatever files a directory lists, the scan opens no base offset twice, and opens every one listed exactly when at most one of them misses one of its two files |
| Logs.Log.constructor | internal/log/log.go:54-69 | a limit of 0 becomes 1024 and the rest of the configuration stays; opening a directory that holds the closed files of a log gives that log, segment by segment, and an empty directory gives an empty log at the initial offset |
| Logs.Log.Setup | internal/log/log.go:85-125 | the same for setup, opening every other parsed offset; an error and no change when the directory is gone |
| Logs.Log.NewSegment | internal/log/log.go:128-137 | the segment opened on whatever the files hold is added at the end and active; on closed files of some records it stands for them |
| Logs.Log.LowestOffset | internal/log/log.go:223-228 | the lowest offset of the flat log |
| Logs.Log.HighestOffset | internal/log/log.go:231-242 | one less than the next offset of the flat log, and 0 when that is 0 |
| Logs.Log.Append | internal/log/log.go:140-164 | the byte-level log changes and answers exactly as Spec.Append, and stays valid |
| Logs.Log.LockedPart | internal/log/log.go:147-163 | with the highest offset read earlier, the byte-level log changes and answers exactly as Spec.Locked; when the segment to roll to is open already, a second index on its files looks full and only a frame is added to its store file |
| Spec.LockedIsAppend | internal/log/log.go:142-163 | with the highest offset up to date, the locked part never meets an open segment and is the append |
| Logs.Log.Read | internal/log/log.go:167-188 | for any offset the record of the flat log, or out of range, and the log unchanged |
| Logs.Log.Truncate | internal/log/log.go:246-266 | exactly the segments Spec.Kept keeps remain, the directory lists exactly their files even when none remains, and the log is valid unless none remains |
| Logs.Log.Close | internal/log/log.go:191-202 | the directory holds the closed files of exactly these segments |
| Logs.Log.Remove | internal/log/log.go:205-211 | the directory is gone |
| Logs.Log.Reset | internal/log/log.go:214-220 | as written it always fails, with the directory gone |
| Logs.Log.SegmentFacts | internal/log/segment.go:94-107 | in a valid log every store holds exactly the frames of its segment's records and no orphan frame |
| Spec.EmptySegMaxedIff | internal/log/segment.go:130-134 | a new segment is maxed before its first record exactly when a limit leaves no room for one |
| Spec.RollIsSafe | internal/log/log.go:151-156 | rolling over keeps the segments contiguous and the flat log unchanged, and leaves room for a record |
| Spec.AppendRollsIff | internal/log/log.go:151-156 | an append opens one new segment exactly when the frames of the active one take at least the store limit or its index has no room for another 12 bytes, and none otherwise |
| Spec.DefaultLimitsRoll | internal/log/log.go:54-61 | a log made without limits opens a segment exactly when the active one stores at least 1024 bytes or 85 records |
| Spec.AppendRefines | internal/log/log.go:140-164 | an append adds the stamped record at the end of the flat log and returns its offset, low plus length, or fails to marshal and changes nothing readable |
| Spec.ReadRefines | internal/log/log.go:167-188 | the lookup over segments returns the flat log's record, and out of range exactly outside it |
| Spec.FlatStamped | internal/log/segment.go:84-85 | every readable record carries its own offset |
| Spec.KeptIsSuffix | internal/log/log.go:250-261 | truncation removes a prefix of the segments, those whose next offset is at most lowest + 1 on 64 bits, and no other |
| Spec.TruncateRefines | internal/log/log.go:246-266 | a legal truncation loses only records up to lowest, a prefix of the flat log, keeps every record above it and the next offset, and the new lowest offset is at most lowest + 1 if it changed |
| Spec.TruncateKeepsSomeIff | internal/log/log.go:246-266 | a usable log remains exactly when lowest + 1, on 64 bits, is below the next offset |
| Spec.StreamedIsEncoded | internal/log/log.go:269-277 | the reader of a quiet log streams exactly the frames of its flat records, however they are cut into segments |
| Runs.RunRefinesFlat | internal/log/log.go:140-266 | in any run of appends, reads, legal truncations and clean reopens with changing limits, every step is a step of the flat log with the same output |
| Runs.NeverRebound | internal/log/log.go:140-188 | once an append returned an offset, every later read of it gives that record, so stamped, or out of range |
| Runs.GoneStaysGone | internal/log/log.go:246-266 | an appended offset that is out of range stays out of range |
| Runs.OffsetsAscend | internal/log/log.go:158-163 | offsets are handed out once, in ascending order |
| Runs.StaysTight | internal/log/segment.go:130-134 | every operation, a clean reopen under the same limits included, keeps the capacity bounds |
| Runs.RunStaysTight | internal/log/log.go:151-156 | under the same limits, at any time of a run every segment but the last is maxed, none has more records than its index holds, and each store was within its limit before its last record |
| Runs.NewLogStaysTight | internal/log/log.go:116-156 | so they hold in every run of a log that starts in an empty directory |
| Runs.AppendLeavesEmptyIff | internal/log/log.go:151-161 | an append leaves an empty segment behind others exactly when its record does not marshal and the active segment was full or such a segment was there |
| Runs.EmptyBehindIff | internal/log/log.go:140-266 | at any time of a run there is an empty segment behind others exactly when there was one at the start or an append to a full segment failed to marshal, and no append has succeeded since |
| Runs.OnlyInitialEmpty | internal/log/log.go:140-266 | in a run whose appends all succeed an empty segment is the only one, and the initial one |
| Runs.FailedAppendLeavesEmpty | internal/log/log.go:151-161 | a log, a legal append that fails, and the empty segment it leaves behind another |
| Recovery.UnclosedRecoversIff | internal/log/segment.go:71-77 | from an index file that was not closed the right next offset is recovered exactly for one record or a full index |
| Recovery.Reopen | internal/log/log.go:54-125 | Close and then NewLog with any limits the files fit gives the same segments, offsets and records |
| Recovery.Execute | internal/log/log.go:140-266 | executing any legal run on the byte-level log, reopens included, returns the outputs of the run of segments one by one and ends in its last state |
| Readers.OriginReader.Read | internal/log/log.go:284-288 | the next bytes of its store, and the offset moves by what was read |
| Readers.MultiReader.constructor | internal/log/log.go:269-277 | one reader for each segment, nothing read yet |
| Readers.NextTaken | internal/log/log.go:284-288 | a read of any size continues the stream, and at the end of a store the next store follows |
| Readers.MultiReader.Read | internal/log/log.go:276 | what is read so far grows by the bytes returned; EOF means that the whole stream was read |
| Readers.Copy | internal/log/distributed.go:315-323 | copying a quiet log in chunks of any sizes yields exactly the frames of its records and leaves the log as it was |
| Snapshots.ReadKeepsCopy | internal/log/log.go:284-288 | a read keeps the copy a prefix of the stream of the log as it is now, across a change of store |
| Snapshots.AppendKeepsCopy | internal/log/log.go:140-164 | an append changes no byte that was already copied, rolling over included |
| Snapshots.SnapshotIsWholeFrames | internal/log/distributed.go:302-323 | a copy interleaved with appends ends with whole frames only, of a prefix of the log that contains the log as of the snapshot |
| Snapshots.RestoreOfConcurrentSnapshot | internal/log/distributed.go:302-382 | replaying such a copy into a fresh log gives a prefix of the log as the copy ended, containing the log as of the snapshot |
| Snapshots.Persist | internal/log/distributed.go:302-323 | on the log and its files, reads and appends in any order copy exactly the bytes that the run of the model says |
| CatchingUp.CaughtUpIff | internal/log/distributed.go:302-382 | a replica that restores a copy and applies the commands that follow the snapshot ends with the source's records if the copy took none of the records appended meanwhile, and otherwise with as many too many as it took, if marshalling does not depend on the offset |
| CatchingUp.SealedCopiesItself | internal/log/distributed.go:302-323 | a copy of a snapshot of a log whose active segment is full holds exactly the records as of the snapshot, whatever is appended meanwhile |
| CatchingUp.CopyCanTakeMore | internal/log/distributed.go:302-323 | from any log whose active segment has room, a copy that takes a record appended after the snapshot |
| CatchingUp.CopiesItselfIff | internal/log/distributed.go:302-323 | all copies of a snapshot hold just its records exactly when the active segment was full, or nothing marshals at the next offset |
| CatchingUp.AlwaysCatchesUpIff | internal/log/distributed.go:302-382 | all replicas that restore a copy of a snapshot and apply the commands that follow end with the source's records exactly when the active segment was full when the snapshot was taken |
| Fsms.Fsm.Apply | internal/log/distributed.go:270-281 | the response and the log are those of Fsms.ApplyOne, nil for another request type, a panic for an empty command |
| Fsms.Fsm.ApplyAppend | internal/log/distributed.go:284-297 | the unmarshalled record is appended and its offset or the error returned |
| Fsms.CommandAppends | internal/log/distributed.go:205-244 | applying the command submitted for a record appends that record |
| Fsms.CommandAnswers | internal/log/distributed.go:205-297 | the command starts with the byte 0; applying it answers the next offset, at which the record is then read, or that the record does not marshal |
| Fsms.OtherDataAnswers | internal/log/distributed.go:270-290 | any other data changes nothing: a panic for none, nil for another request type, an error for a request that does not unmarshal |
| Fsms.ApplyAllOne | internal/log/distributed.go:270-281 | applying one command in a run is applying it |
| Fsms.ApplyAllRefines | internal/log/distributed.go:270-297 | applying any commands to segments is applying them to the flat log, response by response |
| Fsms.ReplicasAgree | internal/log/distributed.go:270-297 | replicas with the same records, whatever their limits, answer the same commands alike and end with the same records |
| Fsms.Fsm.ReplayStream | internal/log/distributed.go:340-381 | the loop of Restore on a log that is not reset changes the log and ends exactly as Fsms.Replay |
| Fsms.ReplayParsed | internal/log/distributed.go:340-381 | a stream of consecutive records appends exactly those, and ends as its parsing does |
| Fsms.ReplayStopsAtMalformed | internal/log/distributed.go:360-378 | at the first frame whose payload does not unmarshal, or to a record that does not marshal at its offset, the replay stops with that error: the records before it are appended and nothing after it |
| Fsms.ReplayRebuilds | internal/log/distributed.go:302-382 | replaying the stream of any quiet log into a fresh log with the same base gives the same lowest offset and the same records, even under other limits |
| Fsms.RestoreInvertsSnapshot | internal/log/distributed.go:302-382 | for a log with records that base is its first record's offset, which Restore configures |
| Fsms.RestoreOfCutSnapshot | internal/log/distributed.go:340-381 | from a snapshot cut anywhere the whole records before the cut are restored, with an error exactly when the cut is inside a frame |
| Fsms.SnapshotReplacesPrefix | internal/log/distributed.go:302-382 | a replica restored from another's snapshot, empty or not, answers the commands that follow alike and ends with the same records |
| Fsms.ApplyAllSplit | internal/log/distributed.go:270-297 | applying commands in two stretches is applying them in one |
| Fsms.JoinBySnapshot | internal/log/distributed.go:270-382 | of two replicas that start empty, one that applies all commands and one that joins by a snapshot of the first answer alike and end with the same records, whatever their limits |
| Fsms.Fsm.Restore | internal/log/distributed.go:332-382 | as written it succeeds exactly on an empty stream, and at the first record fails with the directory gone |
| Fsms.SnapshotStartsWithFirstRecord | internal/log/distributed.go:332-382 | a log's stream is empty exactly when the log is, and otherwise starts with its first record, at which Restore as written fails |
| LogStores.LogStore.FirstIndex | internal/log/distributed.go:405-407 | the lowest offset |
| LogStores.LogStore.LastIndex | internal/log/distributed.go:409-412 | one less than the next offset, and 0 when that is 0 |
| LogStores.LogStore.GetLog | internal/log/distributed.go:414-425 | fills the entry from the record at the index, or leaves it and reports out of range |
| LogStores.LogStore.StoreLogs | internal/log/distributed.go:432-443 | one append after another, stopping at the first error |
| LogStores.StoreThenGet | internal/log/distributed.go:414-443 | entries that continue from the last index are all stored and read back with index, term, type and data, although the index is dropped when storing; earlier entries stay |
| LogStores.StoreStopsAtMalformed | internal/log/distributed.go:432-443 | at the first entry that does not marshal the entries before it are stored and read back, it and those after it are not, and the error is returned |
| LogStores.EmptyStore | internal/log/distributed.go:83-85 | an empty store based at 1 reports last index 0 and gives index 1 next |
| LogStores.LogStore.DeleteRange | internal/log/distributed.go:447-449 | truncates at the upper bound, in the directory too, and ignores the lower one |
| LogStores.DeleteRangeKeepsAbove | internal/log/distributed.go:447-449 | compacting below the last index keeps every entry above the range |
| LogStores.DeleteRangeKeepsOutsideIff | internal/log/distributed.go:447-449 | for every range, every entry outside it is kept exactly when it starts at or below the first index, or nothing is removed because the first segment reaches beyond the upper bound + 1 on 64 bits, or there are no entries |
| LogStores.DeleteSuffixRemovesAll | internal/log/distributed.go:447-449 | deleting up to the last index or beyond removes every segment |
| AppendSteps.LockedSafeIff | internal/log/log.go:142-163 | with the highest offset read earlier, the locked part keeps the segments contiguous and returns the next offset exactly when it does not roll over or the offset read is still the highest |
| AppendSteps.SerialisedAppendsAreSafe | internal/log/log.go:142-163 | in every run without overlapping appends, with any interleaved reads and legal truncations, every append is safe |
| AppendSteps.OverlappingAppendsShareAnOffset | internal/log/log.go:142-163 | two overlapping appends at a roll-over are given the same offset, and reading it gives the first one's record |
| AppendSteps.OverlappingAppendsCollide | internal/log/log.go:142-163 | with one record to a segment the second of two overlapping appends rolls to the segment just opened and fails with EOF |
| AppendSteps.AppendOverlapped | internal/log/log.go:142-163 | two appends on the byte-level log that both read the highest offset first answer as the two locked parts in turn |
| Consumers.ConsumeStream | internal/server/server.go:223-257 | for any schedule of turns, of what others do, of contexts ending and sends failing, it sends and returns exactly what StreamAfter says, the offset moves by the number sent, and it stops where the stream ends |
| Consumers.SentInOrder | internal/server/server.go:223-257 | whatever others append and truncate meanwhile, what is sent is exactly the records of the requested offset and those after it, in order and once each |
| Consumers.SlotOutcome | internal/server/server.go:237-254 | in a turn of a live stream nothing is sent once the context is done, even if the next record is there; otherwise the next record is sent if it is there, and failing to send it ends the stream with that error |
| Consumers.EndedIff | internal/server/server.go:237-254 | a stream has ended exactly when in some turn the context was done, or the next record was there and could not be sent |
| Consumers.StreamCatchesUp | internal/server/server.go:223-257 | a live stream whose next record is not truncated sends one record every turn until it has sent all that the log held |
| Consumers.StreamStalls | internal/server/server.go:241-247 | once its next record is truncated, a stream sends nothing more and ends without an error when its context is done, and not before |
| Consumers.RequestBelowLowest | internal/server/server.go:241-247 | so does a request below the lowest offset, from the start |
| Consumers.Consume | internal/server/server.go:179-191 | exactly what the flat log answers at that time, the record or out of range, and nothing changed |
| Consumers.ReadIsRecordOfOffset | internal/server/server.go:241-254 | a record read at some time is the only record its offset ever has |
| MemoryLogs.MemoryLog.Append | internal/server/log.go:24-32 | the record is added with the length as its offset |
| MemoryLogs.AppendedReadsBack | internal/server/log.go:24-41 | every value appended reads back at the offset its append returned, and what was there before stays |
| MemoryLogs.SameOffsetsSameContents | internal/server/log.go:24-32 | for any sequence of appends the segmented log based at 0 and the in-memory log return the same offsets and end with the same values at them |
| MemoryLogs.ReadsAgreeIff | internal/server/log.go:34-41 | the two answer a read alike, with the same record or out of range in one and not found in the other, exactly when the offset is not the length |

## Left out

- The Raft library itself, `Join`, `Leave`, `GetServers`, `WaitForLeader`, the stream layer: committed commands are taken to arrive in one order.
- I/O errors, running out of memory, and allocating a buffer for a corrupt length: file operations succeed.
- Crash recovery beyond the next offset of an unclosed index: which buffered bytes survive is not modelled.
- The protobuf wire format: only its round-trip law is used. Messages without a record, on which the code dereferences nil, do not occur.
- Two maps of the same file: a second index on it gets the bytes of the first, but no write through either would show in the other; the code writes no entry through either afterwards.
- Locks: one class method is one atomic step. `Append`'s two steps, reads of a snapshot between appends, and the turns of the streaming loop are modelled as interleavings of such steps.
- Logs.Log.LockedPart: does not model what a log does after such a collision, because two segments then write to the same files, each with its own idea of their size.
- Snapshots.CopyNext: does not model truncation during a copy, because it closes the files that the copy reads.
- Segments.Segment.constructor: does not model going on after the panic that reading an index file above the limit ends in; RecoverNext says when it does.
- Logs.Log.constructor: does not model directories that hold anything but one store file and one closed index file for each base offset, of contiguous segments.
- Logs.Log.Setup: the same.
- Consumers.ConsumeStream: does not model authorization, and runs for any finite schedule of turns.
- Fsms.Fsm.ReplayStream: does not model the reset inside the loop, because with it nothing is ever replayed.
- TLS, authorization, membership, load balancing, HTTP, the command line and deployment: plumbing or thin wrappers; the replicator is commented out.
