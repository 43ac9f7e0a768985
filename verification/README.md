# A verified model of the smartgo message store

smartgo is a message broker and client in Go. Its broker keeps every message in a
segmented, append-only commit log and, per queue, in an index of 20-byte units that point
into the log; it recovers both after a crash by parsing the log again, replicates the log
to a slave byte by byte, and serves pulls from the index. This project models that storage
engine and the three state machines around it, and proves what they promise:

- **Segmented log** (`Segments`, `MapedFiles`, `Expiry`, `Flush`, `References`). Files of a
  fixed size form one flat byte space. The lookup by division is exact, appends and cuts act
  on the flat bytes only, expiry removes a prefix exactly when the clock readings are
  orderly, everything below the flush frontier is on the disk as it is in memory, and the
  reference count counts the holders.
- **Commit log** (`Records`, `Parsing`, `Decoding`, `Log`, `Appending`, `CommitLogs`,
  `Recovery`, `Recovering`, `RoundTrip`, `Checkpoint`, `Restart`, `Durability`). Records
  round-trip through the writer and the parser, and through the writer and the clients'
  decoder in every field, no record spans two files, a put stores its message
  exactly when an empty file can hold it, recovery restores exactly the written log, the
  checkpoint selects a start file early enough for that, and a message acknowledged by a
  synchronous put is found again after a machine crash.
- **Index** (`ConsumeQueues`, `IndexRecovery`, `IndexFiles`, `Store`, `Visibility`, `Replay`,
  `Pull`, `PullBounds`, `TimeSearch`, `Delivery`). Over whole runs slot k of every queue is
  its k-th plain or committed message and the producer was told that slot; it is stated exactly when a restarted or
  crashed store is a running one again with every message indexed; a pull returns exactly
  the matching messages still stored, and a consumer that has caught up gets the new ones.
- **Replication** (`Reput`, `Framing`, `SlaveLog`, `Replication`, `CatchUp`, `SlaveIndex`,
  `Acknowledging`, `Sockets`). The slave's bytes are the master's bytes on one range in every
  run, it is stated exactly when a connection can bring the slave to the end of the log, de-framing and re-dispatching do not depend on how the stream is cut, the slave's
  indexes are the master's on the messages that arrived, and the acknowledged offset never
  exceeds what is stored.
- **Consumer and long polling** (`ProcessQueues`, `CommitSafety`, `Rebalance`,
  `LongPolling`). The committed offset never passes an unconsumed message and reaches the last
  one consumed, a message queue has at most one live process queue, which starts where the
  rebalance computed, and a held pull is neither lost nor woken twice.

Files and buffers that the Go code changes in place are classes with fields; each of their
methods is proved equal to a function on values, and the properties are proved about those
functions. Protocols are functions or relations from state to state, and their properties
are stated over every list of steps. Operations under one Go lock are one step.

## What the proofs found

Where the code does not do what its callers expect, the model keeps the code's behaviour,
a lemma shows the failing case, and another gives the condition under which it is right.

- `putMessage` does not look at the result of its second append: a message that does not
  fit an empty file leaves two blank records and reports PUT_OK (`Appending.PutStores`).
- Queue -1 of topic `a` and queue 1 of topic `a-` share one counter, and so does every such
  pair, but no other two queues (`QueueKeys.KeysCollideExactly`).
- `truncateDirtyLogicFiles` leaves the write position of the buffer behind the units it
  drops, and `maxPhysicOffset` at a dropped unit; it gives the right index exactly when it
  drops nothing, or only whole files and not all of them, and meets no zero unit where it
  cuts (`IndexRecovery.CutKeepsIndex`). It adds a unit of zeros to an empty last file
  (`IndexRecovery.EmptyFileGainsUnit`), and with one unit per file it returns only if it
  drops them all (`IndexRecovery.OneUnitFilesHang`). So abnormal recovery gives a running
  store exactly when every queue settles (`Replay.AbnormalRecovery`).
- A clean restart dispatches nothing: it gives a running store exactly when every message had
  been dispatched before (`Restart.CleanStoreRestart`).
- The parser does not compare the parts of a record with its length, and the CRC covers the
  body alone. A record that lost its topic or properties is accepted, and without the CRC
  check so is every record that kept its magic code (`Recovery.TornAccepted`); it ends the
  log exactly otherwise (`Recovery.TornExact`).
- A clean restart reads the last three files of an index and takes the first zero unit for
  its end. An index whose blank units are among them, as a slave's may be, is lost
  (`RoundTrip.PaddedIndexIsLost`), and one that is left with an empty file forgets its last
  offset (`RoundTrip.EmptyIndexForgets`); every other index is restored
  (`RoundTrip.CleanIndexRestart`, an if-and-only-if). An index torn before the last three
  files comes back too long (`IndexRecovery.RecoverExact`), and a torn unit of which a non-zero
  byte of the size was written is taken for a whole one (`RoundTrip.TornUnitExact`): it keeps
  its wrong size or tags, because the put that recovery repeats finds its offset indexed
  already (`RoundTrip.TornUnitStays`).
- An index put given up because its file could not be created makes every later unit of the
  queue land too low, unless the queue has no file at all (`ConsumeQueues.UnitAfterGap`).
- Offset 0 falls back to the first file. Once file 0 has expired, a pull that starts at the
  unit of offset 0 returns one message of somebody else in front of the right ones
  (`Pull.LostZeroGetsOther`), exactly when that unit matches and the first file left is
  readable and long enough (`Pull.PullAllExact`, `Delivery.ConsumerGetsQueue`); and a
  transfer that still stands at 0 sends other bytes under offset 0
  (`Replication.LostZeroIsMislabelled`).
- A slave with an empty first file stores the first frame at the start of that file: in the
  wrong place exactly when that start is 0 and the frame's offset is not; from any other
  wrong place it disconnects (`Replication.EmptyFileExact`).
- A connection brings the slave to the end of the log exactly when the byte it goes on with is
  still stored and is the first the slave lacks (`CatchUp.CatchUpExact`). It cannot if the
  eight zero bytes that a slave with data reports first are read by themselves and taken for
  its request (`CatchUp.ZeroReadFirst`), and a slave without data gets nothing as long as the log of a
  master that serves the last file only ends at a file boundary (`CatchUp.FreshConnection`).
- A pull for n messages returns fewer than n, except that one may always go out
  (`PullBounds.PullBounded`).
- A read of acknowledgements that starts inside an acknowledgement yields an offset nobody
  sent (`Acknowledging.MisalignedReadInvents`); only a read that starts where one starts is
  safe whatever the slave reports (`Acknowledging.ReadExact`).
- Expiry by time reads the clock once per file, so a newer file can go while an older one
  stays (`Expiry.TickingClockLeavesGap`); the rest is a chain of files exactly when that
  does not happen (`Expiry.ExpiryKeepsOrder`). Expiry by offset goes on after a delete that
  failed (`Expiry.FailedDeleteLeavesGap`), and leaves a chain exactly when no failed delete
  comes before a successful one (`Expiry.OffsetExpiryKeepsOrder`). A file that could not be
  deleted has been shut down, and if it is the first no later run by offset gets past it
  (`Expiry.FailedDeleteBlocks`). Pulls roll past shut index files; as these are dead, no stored
  message is missed (`Pull.ShutHidesNothing`, `Delivery.ExpiryKeepsServing`).
- The flush frontier steps back exactly when it stands at the end of the last of several
  files and that one is full (`Flush.FrontierStepsBack`). `doCommit` does not look at its
  second flush, so a put can report a timeout although its record is on the disk
  (`Flush.SyncFailsOnDisk`); it answers true exactly when one flush was enough
  (`Flush.SyncAnswers`). A file that has been shut down counts as flushed although it is not
  (`Flush.ShutIsNotFlushed`), and a process that restarts while the machine runs on takes all
  files it loads for flushed: rightly exactly if they were on the disk up to the end of the
  log (`Flush.RestartFlushed`).
- The time search does not find the first message of the log (`TimeSearch.PickupIsStoreTime`)
  and then answers 0, even if another message matches exactly (`TimeSearch.TwoUnitsGiveUp`):
  exactly when there is at most one unit behind it, or the last unit probed before it is newer
  than the searched time (`TimeSearch.SearchFile`). In every other case its answer is the
  nearest (`TimeSearch.NearestByTrueTime`).

## Model

| member | source | states |
|---|---|---|
| `Bytes.I32OfAsI32` | stgcommon/utils/byteutil/byte_util.go:15-59 | four bytes determine the int32 they encode and the int32 determines the bytes |
| `Bytes.I64OfAsI64` | stgcommon/utils/byteutil/byte_util.go:22-59 | the same for eight bytes and int64 |
| `Records.ParseOfEncode` | stgstorelog/default_append_message_callback.go:77-148 | parsing what doAppend wrote, with anything behind it, consumes exactly the record and rebuilds topic, queue id, physical offset, size, store time, queue offset and system flag, whether or not the body is read and its CRC checked |
| `Records.ParsedEqualsLive` | stgstorelog/commit_log.go:269-379 | parsing the record of a message, with anything behind it, gives exactly the request putMessage dispatched for it, if and only if the broker took tags and keys from the stored properties |
| `Records.ParseOfCut` | stgstorelog/commit_log.go:269-290 | every proper prefix of a record parses as "no record", so a reader retries |
| `Records.ParseOfBlank` | stgstorelog/commit_log.go:277-282 | a blank record is recognised from its first eight bytes |
| `Records.CutMagic` | stgstorelog/commit_log.go:273-286 | a magic code cut short by the end of the data is never taken for one |
| `Decoding.DecodeOfEncode` | stgcommon/message/message_decoder.go:92-252 | decoding what doAppend wrote, with anything behind it, gives every stored field back, among them flag, born and store time, both hosts and the reconsume count, the queue offset, the log offset and the message id made of store host and log offset, and leaves what follows; it fails only where a compressed body cannot be inflated |
| `Decoding.EncodeDecodes` | stgcommon/message/message_decoder.go:92-252 | the same for every way of decoding the record: bodies read or skipped, inflated or not |
| `Decoding.DecodeAllOfRecords` | stgcommon/message/message_decoder.go:65-80 | any number of records decodes into exactly their messages, in order, once every compressed body can be inflated, and into nothing at all otherwise |
| `Decoding.DecodesMessageExt` | stgcommon/message/message_decoder.go:65-80 | the loop over the buffer computes the decoding of all its records |
| `Parsing.CheckMessageAndReturnSize` | stgstorelog/commit_log.go:269-379 | the field-by-field reader answers what the parse of the unread bytes answers and moves the read position by exactly what it consumed |
| `MapedFiles.MappedByteBuffer.Write` | stgstorelog/mapped_bytebuffer.go:35-46 | writes all of the data at the write position or nothing |
| `MapedFiles.MappedByteBuffer.Read` | stgstorelog/mapped_bytebuffer.go:76-80 | reads what is there and leaves zeros for the rest |
| `Segments.LookupCovers` | stgstorelog/mapedfile_queue.go:442-470 | the lookup by division answers file i exactly when file i covers the offset |
| `Segments.LookupMisses` | stgstorelog/mapedfile_queue.go:442-470 | it answers nothing exactly when the offset is below the first file or at or past the end of the last |
| `Segments.LookupNegative` | stgstorelog/mapedfile_queue.go:448-460 | a negative offset is not rejected as long as truncating division takes it to file 0 |
| `Segments.EnsureLastKeeps` | stgstorelog/mapedfile_queue.go:223-271 | creating the next file keeps the files contiguous, all but the last full, and the flat bytes unchanged; the last file then has room |
| `Segments.AppendLast` | stgstorelog/maped_file.go:148-162 | an append to the last file appends to the flat bytes and changes nothing else |
| `Segments.TruncateKeeps` | stgstorelog/mapedfile_queue.go:101-120 | a cut inside file k keeps the files before k, drops the files behind it and leaves exactly the flat prefix |
| `MapedFiles.MapedFile.AppendMessage` | stgstorelog/maped_file.go:148-162 | appends the bytes and moves both positions, or does nothing when they do not fit |
| `MapedFiles.MapedFileQueue.FindMapedFileByOffset` | stgstorelog/mapedfile_queue.go:442-470 | the walk over the list returns the file at the computed place, the first file, or nothing |
| `MapedFiles.MapedFileQueue.GetLastMapedFile` | stgstorelog/mapedfile_queue.go:223-271 | the last file, or a new one behind it when it is full or missing; a failed creation changes nothing |
| `MapedFiles.MapedFileQueue.TruncateDirtyFiles` | stgstorelog/mapedfile_queue.go:101-120 | the loop over the files computes the cut |
| `Log.BoundaryIsStart` | stgstorelog/default_append_message_callback.go:96-115 | every multiple of the file size inside the log is the start of an item: no record spans two files |
| `Appending.RoomForBlank` | stgstorelog/default_append_message_callback.go:96-103 | the free space of the current file is never one to seven bytes |
| `Appending.IndexedBits` | stgcommon/sysflag/message_sys_flag.go:11-20 | a message is numbered and indexed exactly if bits 2 and 3 of its system flag hold 0 or 2 |
| `Appending.PutItemsFit` | stgstorelog/default_append_message_callback.go:83-148 | what a put adds keeps the layout of the log, and the message is among it exactly when an empty file can hold it with a blank record behind it |
| `Appending.RetryRoom` | stgstorelog/commit_log.go:89-102 | after END_OF_FILE the second append meets an empty file |
| `Appending.PutStores` | stgstorelog/commit_log.go:85-107 | a put reports success at the offset and queue offset under which the message is stored, exactly when the message fits an empty file |
| `Appending.AppendKeepsLayout` | stgstorelog/maped_file.go:124-141 | one append leaves a laid-out log and writes exactly the bytes of the item it adds |
| `CommitLogs.WriteRecord` | stgstorelog/default_append_message_callback.go:119-146 | the seventeen buffered writes produce the record, which the clients' decoder reads back field by field |
| `CommitLogs.WriteBlank` | stgstorelog/default_append_message_callback.go:99-103 | the buffered writes produce the blank record |
| `CommitLogs.CommitLog.DoAppend` | stgstorelog/default_append_message_callback.go:54-177 | result, bytes in the file and queue counters are those of the effect function |
| `CommitLogs.CommitLog.AppendMessageWithCallBack` | stgstorelog/maped_file.go:124-141 | the file position moves by exactly the bytes written and agrees with the buffer position |
| `CommitLogs.CommitLog.PutMessage` | stgstorelog/commit_log.go:65-125 | the files hold the items of the put, the counters and the queued request are those of the put function; failures queue nothing, and a failed creation leaves the log as it was or with the old file closed |
| `QueueKeys.KeyInjective` | stgstorelog/default_append_message_callback.go:67-72 | queues with non-negative ids never share a counter, whatever dashes their topics hold |
| `QueueKeys.KeysCollideExactly` | stgstorelog/default_append_message_callback.go:67-72 | two different queues share a counter exactly when one has a negative id and the other the positive id and the topic with a dash behind it |
| `Recovery.ScanLog` | stgstorelog/commit_log.go:203-225 | a scan that starts at any item reports every later record once and in order and then stands behind the log |
| `Recovery.ScanStops` | stgstorelog/commit_log.go:203-225 | a scan from any file the log reaches reports every record from there on and stops behind the last complete one, in whatever file the log is torn |
| `Recovery.NormalRecovery` | stgstorelog/commit_log.go:189-232 | recoverNormally over the last three files, loaded as full, finds the end of the last complete record if and only if the log reaches the first of them, wherever behind that it is torn; the cut then leaves files that hold exactly the log, at most a closing blank record shorter |
| `Recovery.DirtyExact` | stgstorelog/commit_log.go:269-318 | the parser answers -1 exactly on bytes with another magic code and on records longer than the data, with a body that fails its CRC, or of length -1 |
| `Recovery.TornExact` | stgstorelog/commit_log.go:269-318 | a record of which only the first bytes reached a file of zeros ends the log if and only if its magic code is cut or the CRC is checked and finds the body damaged |
| `Recovery.TornAccepted` | stgstorelog/commit_log.go:306-318 | a record that lost its topic or properties is accepted even with the CRC check, and without it any record that kept its magic code |
| `RoundTrip.CleanRestart` | stgstorelog/mapedfile_queue.go:148-198 | for every log that puts have written, with anything but a record behind it, loading all files as full and recovering restores the log and the maximum offset; only a blank record that closes the last file is cut off |
| `Recovery.AbnormalScan` | stgstorelog/commit_log.go:381-437 | recoverAbnormally reads a start file that ends with a blank record twice, and every record behind it once |
| `Recovering.Scanning` | stgstorelog/commit_log.go:203-225 | the loop over files and records computes the scan |
| `Recovering.RecoverNormally` | stgstorelog/commit_log.go:189-232 | committedWhere and the files become those of the scan and the cut; bytes that make the parser panic are reported |
| `Recovering.FindStartFile` | stgstorelog/commit_log.go:384-396 | the walk from the back finds the last file not newer than the checkpoint, with a number one too small |
| `Recovering.RecoverAbnormally` | stgstorelog/commit_log.go:398-441 | dispatches the records of the scan and cuts the files where it stopped |
| `Recovering.IsMapedFileMatchedRecover` | stgstorelog/commit_log.go:453-490 | a file matches when it starts with a record stored no later than the checkpoint |
| `ConsumeQueues.ReadOfUnit` | stgstorelog/consume_queue.go:303-306 | a unit reads back as written |
| `ConsumeQueues.PutNextUnit` | stgstorelog/consume_queue.go:298-337 | the next unit in line is appended at its own slot, across file rollovers, with room, without blank units and without the order warning |
| `Store.GrowOrIgnore` | stgstorelog/consume_queue.go:298-337 | over an index of the first n requests of a queue, dispatching request c <= n again leaves the index of the first max(n, c + 1), unwarned |
| `ConsumeQueues.PutFirstUnit` | stgstorelog/consume_queue.go:314-351 | a first unit that is not number 0 lands unwarned in its own slot behind zero units, its slot becomes the minimum, and the index is that of the zero units and the unit |
| `ConsumeQueues.UnitAfterGap` | stgstorelog/consume_queue.go:278-337 | after k units given up because their file could not be created, the next unit lands in its own slot if the queue has no file, and otherwise k slots too low, with the order warning |
| `ConsumeQueues.ExpireFiles` | stgstorelog/mapedfile_queue.go:354-396 | without its oldest files an index holds the same units |
| `ConsumeQueues.SlotOf` | stgstorelog/consume_queue.go:65-77 | unit k can be read at byte 20 k while its file is there |
| `IndexRecovery.RecoverExact` | stgstorelog/consume_queue.go:121-191 | recovery from files loaded as full restores the index and maxPhysicOffset wherever the index is torn, if and only if the units reach into the first of the files it reads (or there are none and that file starts at 0) and none from there on is a zero unit |
| `RoundTrip.CleanIndexRestart` | stgstorelog/consume_queue.go:121-191 | for every index written by puts, blank units included, with anything but a unit behind it, loading and recovering restores the index under exactly that condition |
| `RoundTrip.PaddedIndexIsLost` | stgstorelog/consume_queue.go:155-160 | an index that starts with blank units inside its file is cut to nothing by the next restart |
| `RoundTrip.EmptyIndexForgets` | stgstorelog/consume_queue.go:121-191 | an index left with one empty file restarts with maxPhysicOffset -1 |
| `RoundTrip.TornUnitExact` | stgstorelog/consume_queue.go:155-165 | a unit of which only the first bytes reached a file of zeros is taken for a whole one if and only if a non-zero byte of its size is among them; its offset is then the right one |
| `RoundTrip.TornUnitStays` | stgstorelog/consume_queue.go:298-301 | recovery restores the index with such a unit in it, and dispatching its message again changes nothing |
| `IndexRecovery.CutKeepsIndex` | stgstorelog/consume_queue.go:384-432 | after truncation the index is that of the units below the offset if and only if nothing had to be dropped, or only whole files and not all of them, and the last file kept has no zero unit but perhaps its first |
| `IndexRecovery.CutFalls` | stgstorelog/consume_queue.go:384-432 | which files truncation keeps, where it cuts the last of them and what maxPhysicOffset becomes |
| `IndexRecovery.OneUnitFilesHang` | stgstorelog/consume_queue.go:387-427 | with one unit per file the loop ends if and only if no file holds a unit below the offset; once it meets one that does, it repeats the same round for ever |
| `IndexRecovery.EmptyFileGainsUnit` | stgstorelog/consume_queue.go:399-408 | an empty last file gains a unit of zeros, and the queue ends one unit too high |
| `IndexRecovery.MinIsFirstStored` | stgstorelog/consume_queue.go:85-105 | the minimum becomes the first unit whose message is still stored, if the first file has one |
| `IndexFiles.ConsumeQueue.FillPreBlank` | stgstorelog/consume_queue.go:339-351 | the loop appends the zero units |
| `IndexFiles.ConsumeQueue.PutMessagePostionInfo` | stgstorelog/consume_queue.go:298-337 | the files and offsets become those of the put of one unit; a failed file creation changes nothing |
| `IndexFiles.ConsumeQueue.ReadUnits` | stgstorelog/consume_queue.go:136-165 | the loop over one file stops where the scan of its units stops |
| `IndexFiles.ConsumeQueue.Recover` | stgstorelog/consume_queue.go:121-191 | files and maxPhysicOffset become those of the recovery function |
| `IndexFiles.ConsumeQueue.TruncateDirtyLogicFiles` | stgstorelog/consume_queue.go:384-432 | files and maxPhysicOffset become those of the cut |
| `IndexFiles.ConsumeQueue.CorrectMinOffset` | stgstorelog/consume_queue.go:85-105 | the minimum becomes that of the first unit kept |
| `Store.DispatchOne` | stgstorelog/dispatch_message_service.go:74-90 | dispatching a request whose predecessors are indexed appends it or, if it is there already, ignores it, in every queue, without the order warning |
| `Visibility.DispatchAppends` | stgstorelog/dispatch_message_service.go:74-90 | dispatching the next request of a queue adds its unit to that queue's index and to no other if bits 2 and 3 of its flag hold 0 or 2 (plain, committed), and changes no index if they hold 1 or 3 (prepared, rolled back) |
| `Visibility.UnitsOfLog` | stgstorelog/default_append_message_callback.go:158-174 | the requests of a laid-out log that reach a queue's index are those of its records for that queue with bits 0 or 2, at their offsets, with their lengths and tags |
| `Visibility.DispatchedUnits` | stgstorelog/dispatch_message_service.go:74-90 | in every reachable state the units dispatched so far are the first of these, and all of them once nothing is pending |
| `Store.RunInv` | stgstorelog/default_append_message_callback.go:158-174 | after every run of puts, puts given up for want of a file, in-order dispatches and expiries each index holds exactly its messages dispatched so far, each counter counts the messages of its queue, requests are numbered in log order, and the order warning never occurred |
| `Visibility.RunShowsVisible` | stgstorelog/default_append_message_callback.go:158-174 | after every run each queue's counter is the number of its messages in the log whose flag bits 2 and 3 hold 0 or 2; once everything has been dispatched its index holds exactly one unit for each of them, in log order, with its offset, length and tags, and no other |
| `Store.FailedPutKeeps` | stgstorelog/commit_log.go:74-97 | a put whose file cannot be created, at once or after it closed the old file, issues no request and keeps the invariant of running stores |
| `Store.SlotInState` | stgstorelog/consume_queue.go:298-337 | in every reachable state each dispatched message with flag bits 0 or 2 stands in the slot its request names |
| `Store.ProducerFindsSlot` | stgstorelog/default_append_message_callback.go:150-156 | the offset, length and tags of a stored message with flag bits 0 or 2 stand in slot LogicsOffset of its queue, as returned to the producer, from its dispatch to the end of the run |
| `Replay.ReplayHolds` | stgstorelog/consume_queue.go:298-301 | re-dispatching requests in any order that never skips ahead, however often it goes back, leaves each index with what it had or everything up to the furthest request |
| `Replay.AbnormalRequests` | stgstorelog/commit_log.go:404-437 | recoverAbnormally dispatches the requests of the history from the start file on, skipping none and reaching the last |
| `Replay.AbnormalRecovery` | stgstorelog/commit_log.go:381-451 | over indexes that hold, per queue, any number of the history's messages, fewer or more than are left of the log, but all before the start file, the replay, the truncation and the rebuilt counters give a store that satisfies the invariant of running stores with every message indexed, if and only if every queue settles: it had fewer messages than the log, or exactly those, or more of which only whole files but not all have to go, and in the last two cases does not end with an empty file |
| `IndexRecovery.CutExact` | stgstorelog/consume_queue.go:384-432 | the same condition for one index and any cut, empty last files and a cut at 0 included |
| `RoundTrip.CrashRestart` | stgstorelog/default_message_store.go:161-186 | a running store that crashes and loses the end of its log, with its files loaded as full and each index holding some of its messages but all before the start file, is after abnormal recovery again a running store with every message left indexed and counted, if and only if every queue settles |
| `Restart.CrashRestartFromFiles` | stgstorelog/default_message_store.go:161-195 | the same from index files that are torn, too, in whichever file, as long as the units reach into the first file that recovery reads: they are recovered first, as far as they go |
| `Restart.CleanStoreRestart` | stgstorelog/default_message_store.go:161-195 | a clean restart of the whole store restores the log and every index, and gives a running store with every message indexed if and only if every message had been dispatched before |
| `Checkpoint.ChosenStartIsEarly` | stgstorelog/commit_log.go:384-396 | if store times do not fall and every unindexed message is newer than the checkpoint, the start file found from the checkpoint lies before every unindexed message |
| `Checkpoint.ChosenStartIsLatest` | stgstorelog/commit_log.go:384-396 | and it is not earlier than need be: no later file of the log starts with a record that has a store time no later than the checkpoint |
| `Checkpoint.CheckpointRestart` | stgstorelog/commit_log.go:381-451 | so a crashed store that recovers from the file its checkpoint selects is a running store again with every message left indexed, if and only if every queue settles |
| `Replay.CrashLeavesRecorded` | stgstorelog/commit_log.go:65-125 | every prefix of a running store's log is a log that recovery accepts |
| `Replay.RebuiltCounts` | stgstorelog/default_message_store.go:1057-1069 | counters rebuilt from the indexes count the messages of each queue if and only if the indexes are complete at that moment |
| `Replay.RecoverTopicQueueTable` | stgstorelog/default_message_store.go:1057-1069 | in whatever order the queues are visited, each counter becomes the number of units of its index and each minimum is corrected |
| `Pull.GetsOwnBytes` | stgstorelog/commit_log.go:166-181 | a unit gets its own bytes of the log if its file is stored and nothing otherwise, unless it points at offset 0 of an expired file |
| `Pull.LostZeroGetsOther` | stgstorelog/commit_log.go:167-170 | in that case it gets the first bytes left, exactly when the first file is readable and long enough |
| `Pull.SameFileLost` | stgstorelog/default_message_store.go:533-538 | entries skipped up to the next file start all lie in the lost file |
| `Pull.ScanExact` | stgstorelog/default_message_store.go:521-579 | the scan returns exactly the matching, still stored messages it passes, and passes at least one entry |
| `Pull.PullExact` | stgstorelog/default_message_store.go:464-618 | between minimum and maximum a pull moves on, is FOUND exactly when it returns something, and returns, in order, exactly the matching stored messages up to nextBeginOffset, if and only if its first unit is not the expired first message of the log, matching, with a readable and long enough file in its place |
| `Pull.GivenExact` | stgstorelog/default_message_store.go:521-579 | only the first unit of a pull can be misled so, and it then adds one message in front of the right ones |
| `Pull.PullExpiredIndex` | stgstorelog/default_message_store.go:586-591 | a pull into an index file that has expired, or that a failed delete has shut, moves on without passing an entry that can be read |
| `Pull.PullAllExact` | stgstorelog/default_message_store.go:581-591 | from any offset between minimum and maximum, pulling on from every nextBeginOffset delivers each matching stored message whose index entry can be read once and in order, if and only if the first such entry is not misled; otherwise exactly one message more |
| `Pull.PullAllSkips` | stgstorelog/default_message_store.go:586-591 | pulls into index files that have expired or been shut give nothing and end at the first entry that can be read |
| `Pull.ShutHidesNothing` | stgstorelog/consume_queue.go:65-77 | if the last unit of every shut index file points below the log, no stored message is behind an entry that cannot be read |
| `PullBounds.OutsideQueue` | stgstorelog/default_message_store.go:490-505 | an index with no unit answers NO_MESSAGE_IN_QUEUE and 0; below the minimum the next begin is the minimum and no entry passed over could be read; at the end it stays there; past the end it is the end, or 0 where the minimum is 0; each with its status and no message |
| `PullBounds.CaughtUpGetsNew` | stgstorelog/default_message_store.go:490-505 | a consumer at the end is told to stay there, and when further units have been put, pulling on from there delivers exactly the new matching stored messages, if and only if it is not the very first message of an empty queue that is misled |
| `PullBounds.MoreServes` | stgstorelog/consume_queue.go:298-337 | putting further units keeps the index readable from where it was, with the same minimum |
| `PullBounds.PullBounded` | stgstorelog/default_message_store.go:625-655 | a pull that returns two or more messages returns fewer than it asked for and stays within the count and bytes for disk or for memory; and it ends only at the end of the queue or of the index file, after 800 entries, or where the next message would break the limit that applies to it |
| `PullBounds.PullExplains` | stgstorelog/default_message_store.go:550-578 | a pull between minimum and maximum that finds nothing answers NO_MATCHED_MESSAGE if no entry it passed matches and MESSAGE_WAS_REMOVING if all do |
| `Delivery.ExpiryKeepsServing` | stgstorelog/mapedfile_queue.go:354-396 | expiry by offset, whichever deletes fail, shuts only files whose messages are all gone, and these come before all readable ones, if it leaves a chain of files at all |
| `Delivery.DeadFilesGo` | stgstorelog/mapedfile_queue.go:354-396 | if every delete succeeds exactly the oldest files go whose messages are all below the log: every unit that goes points below it, and the first file left, unless it is the last, holds one that does not |
| `Pull.SliceIsItem` | stgstorelog/maped_file.go:276-296 | the bytes handed out for a unit of a record are that record |
| `Delivery.ConsumerGetsQueue` | stgstorelog/default_message_store.go:464-618 | in every state a store can reach, whatever log and index files have expired or been shut, a consumer that pulls a queue from any k not below the minimum gets exactly its dispatched messages, from k or from the first index entry that can be read on, that match and are still stored, each once and in order, if and only if the first of them is not the misleading one; shut files that are dead hide none |
| `Delivery.UnitPoints` | stgstorelog/consume_queue.go:303-306 | the unit of a request points at the whole record it was issued for, inside one file |
| `Delivery.SliceIsRecord` | stgstorelog/maped_file.go:276-296 | the bytes handed out for a unit of a stored message are the record as it was written, and every client decodes them into that message, stored at that offset under its queue offset |
| `Delivery.ClientReads` | stgclient/process/pull_api_wrapper.go:106-110 | whatever a consumer of a queue gets decodes into exactly the stored plain and committed messages of that queue behind it, each of which matches the filter, every field as it was stored, unless a compressed body among them cannot be inflated: then into nothing |
| `Pulling.ScanIndexIn` | stgstorelog/default_message_store.go:521-579 | the loop computes the scan |
| `Pulling.GetMessageIn` | stgstorelog/default_message_store.go:464-618 | statuses, messages and next offset are those of the pull function, whose answers inside the queue PullExact, PullBounded and PullExplains state and whose answers outside it OutsideQueue states |
| `TimeSearch.SearchFile` | stgstorelog/consume_queue.go:193-261 | if the units behind the first are stored with non-decreasing times, the search gives up if and only if the first unit is not found in the log and there is at most one unit behind it or the last one probed before it is newer than the searched time; otherwise it ends at an entry of minimal distance, the earlier one on a tie |
| `TimeSearch.GetOffsetInQueueByTime` | stgstorelog/consume_queue.go:193-268 | the number of that entry is returned, and 0 exactly where the search gives up |
| `TimeSearch.TwoUnitsGiveUp` | stgstorelog/consume_queue.go:219-230 | with two units, of which the first is not found, the search gives up although the second is an exact match |
| `TimeSearch.PickupIsStoreTime` | stgstorelog/commit_log.go:234-246 | the time found for a stored record is its store time, except for the first message of the log |
| `TimeSearch.NearestByTrueTime` | stgstorelog/consume_queue.go:236-258 | an answer behind the first message of the log is nearest by its true store time too |
| `Reput.ReadFile` | stgstorelog/reput_message_service.go:52-74 | in one file the loop dispatches the complete records and stops at the first item not there, or goes on at the end of the data |
| `Reput.ReputReaches` | stgstorelog/reput_message_service.go:38-81 | a run ends, dispatches each complete record from its offset on once and in order, and stands at the first item that has not arrived |
| `Reput.ChunkingIndependent` | stgstorelog/reput_message_service.go:38-81 | however the log arrived and however many runs there were, the requests are those of the complete records, each once, in log order |
| `Reput.StopIsUnique` | stgstorelog/reput_message_service.go:68-73 | where a run stops depends only on what has arrived |
| `Reput.ReputFromZero` | stgstorelog/commit_log.go:500-515 | a fresh service at offset 0 starts at the first file, wherever it begins |
| `Reput.DataAt` | stgstorelog/commit_log.go:500-515 | getData finds all that is written from an offset to the end of its file |
| `Reputting.ReadData` | stgstorelog/reput_message_service.go:52-74 | the inner loop computes its function |
| `Reputting.DoReputLoop` | stgstorelog/reput_message_service.go:38-81 | the outer loop computes its function and ends |
| `Framing.DrainFollows` | stgstorelog/ha_client.go:169-185 | the inner loop hands over exactly the data frames it passes, each with its own offset and body, and keeps every other byte |
| `Framing.DeframingFollows` | stgstorelog/ha_client.go:140-189 | for every split of the frames into reads, heartbeats included, the bodies handled are a prefix of those sent and no byte is lost |
| `Framing.ProcessRead` | stgstorelog/ha_client.go:151-186 | the loops compute the function |
| `SlaveLog.AppendDataAppends` | stgstorelog/commit_log.go:517-540 | replicated bytes are appended to the flat bytes whole, wherever the file boundary falls |
| `SlaveLog.AppendDataIn` | stgstorelog/commit_log.go:517-540 | the files become those of the function |
| `Replication.PrefixSafety` | stgstorelog/write_socket_service.go:43-110 | over every run of appends, expiries, sends, deliveries, acknowledgements, disconnects and reconnects the slave, which may start with an empty file above offset 0, holds exactly the master's bytes on one range from a file boundary on, growing at its end; the pushed offset never falls and never exceeds what the slave stored |
| `CatchUp.SendExact` | stgstorelog/write_socket_service.go:73-110 | a step of the sender appends exactly one frame: from a position inside the stored log it carries the smaller of the batch size and what is written from there to the end of its file, never nothing, as the log has it, and the position grows by that; elsewhere the frame is empty and the position stays |
| `CatchUp.StandsAt` | stgstorelog/write_socket_service.go:43-71 | the position is where the last frame ended, else the offset asked for, else the start of the first file or the last file boundary in the log |
| `CatchUp.TidyAlways` | stgstorelog/ha_client.go:191-220 | in every run the data frames under way follow one another up to the next offset, and the newest report, under way or read, is the end of the slave's log |
| `CatchUp.CatchesUp` | stgstorelog/write_socket_service.go:73-110 | a connection on track, however its sends, deliveries and reports are ordered, has brought the slave to the end of the log when there have been as many sends as bytes were missing and every frame has been delivered; once every report has been read the pushed offset is there too |
| `CatchUp.CanCatchUp` | stgstorelog/write_socket_service.go:112-147 | such a run of sends, deliveries and one read of reports exists from every connection on track |
| `CatchUp.CatchUpExact` | stgstorelog/write_socket_service.go:43-110 | a connection whose request has been read can bring its slave to the end of the log without being disturbed if and only if the slave is there already, or the bytes it goes on with are still stored and are the first the slave lacks |
| `CatchUp.RunCatchesUp` | stgstorelog/write_socket_service.go:43-110 | the same for every connection of every run from any master log and any piece of it at the slave |
| `CatchUp.FreshConnection` | stgstorelog/write_socket_service.go:43-71 | a new connection whose newest report is read first is so if and only if the byte behind the slave's last one is still stored or, for a slave without data, a byte is logged behind the place it is served from |
| `CatchUp.ZeroReadFirst` | stgstorelog/ha_client.go:105-118 | a slave with data whose first report of eight zero bytes is read alone is so only if its log ends where one without data would be served from |
| `Replication.SafeFromStart` | stgstorelog/write_socket_service.go:43-110 | so a master with any log and a slave with nothing or a piece of it are safe in every run from the first connection on |
| `Replication.StepKeeps` | stgstorelog/ha_client.go:191-220 | each step keeps the invariant behind that |
| `Replication.DataIsHistory` | stgstorelog/commit_log.go:500-515 | the bytes sent for an offset are the log at that offset, at offset 0 only while file 0 is there |
| `Replication.LostZeroIsMislabelled` | stgstorelog/commit_log.go:500-515 | once file 0 has expired, offset 0 is sent the first bytes left |
| `Replication.StartAligned` | stgstorelog/write_socket_service.go:46-66 | a slave without data is served from a file boundary inside the log |
| `Replication.EmptyFileExact` | stgstorelog/ha_client.go:191-220 | a slave with one empty file at b accepts the first data frame exactly when b is 0 or the frame's offset and stores it at b, so the bytes are misplaced exactly when b is 0 and the frame's offset is not |
| `SlaveIndex.StreamArrives` | stgstorelog/commit_log.go:517-540 | appending the pieces of a log, however it is cut, gives files that hold a growing prefix of it |
| `SlaveIndex.SlaveIndexesMaster` | stgstorelog/reput_message_service.go:38-81 | a slave sent the master's log from a file boundary on, in any pieces, that runs doReput after each and dispatches what it finds has, for every queue, the master's units on the messages that arrived completely, in the master's slots and unwarned |
| `SlaveIndex.SlaveSlot` | stgstorelog/consume_queue.go:298-337 | every indexed message of that range stands in the slave's index in the slot its request names, as on the master |
| `Acknowledging.AlignedReadDecodes` | stgstorelog/read_socket_service.go:108-127 | a read that starts at a report yields the last report it holds completely |
| `Acknowledging.MisalignedReadInvents` | stgstorelog/read_socket_service.go:108-113 | a read that starts inside a report yields an offset nobody sent |
| `Acknowledging.ReadExact` | stgstorelog/read_socket_service.go:97-113 | a read is sure to yield a report the slave sent, whatever it sent, if and only if the read begins where a report begins |
| `Acknowledging.HAService.NotifyTransferSome` | stgstorelog/ha_service.go:71-81 | whatever other connections write meanwhile, the offset only grows, reaches the report and is always one that was reported |
| `Sockets.HAConnection.ProcessReadEvent` | stgstorelog/read_socket_service.go:83-141 | the acknowledged offset is the last one decoded and the request the first |
| `Sockets.HAConnection.UpdateNextTransferOffset` | stgstorelog/write_socket_service.go:43-71 | the transfer starts at the request, or at the first or last file for a slave without data |
| `Sockets.HAConnection.BuildFrame` | stgstorelog/write_socket_service.go:73-110 | the frame and the next offset are those of the function; whatever log the files hold, from a position inside it the frame carries its bytes from there, the smaller of the batch size and what is written to the end of the file, and the next offset is behind them |
| `Expiry.ExpiryKeepsOrder` | stgstorelog/mapedfile_queue.go:310-347 | what expiry by time leaves is a chain of files if and only if no live file was followed by a deleted one; it is then the queue without its oldest files, a file that could not be deleted being shut down |
| `Expiry.OneClockIsOrderly` | stgstorelog/mapedfile_queue.go:321-341 | one clock reading and non-decreasing file timestamps are enough for that |
| `Expiry.OldestGo` | stgstorelog/mapedfile_queue.go:319-341 | with one clock reading, file timestamps in order and deletes that succeed exactly the oldest files go: each is past its time, at most DeleteFilesBatchMax of them, never the last, and the next one stays only because it is not past its time, is the last, or as many have gone |
| `Expiry.TickingClockLeavesGap` | stgstorelog/mapedfile_queue.go:325-325 | a clock that ticks between two files is not |
| `Expiry.LastSurvives` | stgstorelog/mapedfile_queue.go:319-321 | the last file is never deleted |
| `Expiry.OffsetExpiryKeepsOrder` | stgstorelog/mapedfile_queue.go:354-396 | with rising units, what expiry by offset leaves is a chain of files if and only if, before the first file that cannot be read, no failed delete of a dead file precedes a successful one; it is then the index without its oldest files, never empty, of the same units |
| `Expiry.FailedDeleteBlocks` | stgstorelog/maped_file.go:228-256 | a first index file whose deletion failed has been shut down, and no later expiry by offset gets past it |
| `Expiry.FailedDeleteLeavesGap` | stgstorelog/mapedfile_queue.go:373-389 | three files, the first two dead: if only the first delete fails, the rest is no chain |
| `Expiry.AllDeadGo` | stgstorelog/mapedfile_queue.go:365-385 | if every delete succeeds no file but the last stays whose messages are all gone |
| `Expiry.DeleteExpiredFileByOffset` | stgstorelog/mapedfile_queue.go:354-396 | the loop leaves the survivors, shuts down those whose deletion failed, and counts the deleted files |
| `Expiry.DeleteExpiredFileByTime` | stgstorelog/mapedfile_queue.go:310-347 | the loop leaves the survivors, shuts down the one whose deletion failed, and counts the deleted files |
| `Flush.CommitKeepsFlushed` | stgstorelog/mapedfile_queue.go:398-415 | after a commit everything below the new frontier is on the disk, even when the frontier steps back |
| `Flush.FrontierStepsBack` | stgstorelog/mapedfile_queue.go:401-407 | in every flushed state a commit moves the frontier back if and only if there are several files, the last one is full and the frontier stands at its end |
| `Flush.CommitFlushesBacklog` | stgstorelog/maped_file.go:169-222 | a commit that asks for n pages leaves less than n times 4096 bytes of a file unflushed, none if the file is full or n is 0, and writes nothing out if at most n - 1 pages have gathered |
| `Flush.CommitLeavesLittle` | stgstorelog/mapedfile_queue.go:398-415 | so the file the frontier stands in is flushed up to that, the frontier is where it has been committed, and no other file changes |
| `Flush.AlwaysFlushed` | stgstorelog/maped_file.go:169-222 | in every state reached by appends, file creations, commits, pages the kernel writes by itself, expiries, failed deletes of files on the disk, machine crashes, and process restarts with files on the disk, every byte below committedWhere is on the disk as it is in memory, and some file has committed up to it |
| `Flush.RestartFlushed` | stgstorelog/mapedfile_queue.go:186-190 | load counts every file as committed to its end; after the cut at the end of the log everything below the frontier is on the disk if and only if the files were on the disk as far as that |
| `Flush.ShutIsNotFlushed` | stgstorelog/maped_file.go:169-186 | a commit moves the frontier to the end of a full file that has been shut down without flushing it, so what lies below is on the disk if and only if the file was |
| `Flush.SyncPutIsOnDisk` | stgstorelog/group_commit_service.go:35-51 | a group commit that answers true has the whole record on the disk |
| `Flush.SyncAnswers` | stgstorelog/group_commit_service.go:37-42 | a group commit answers true if and only if the frontier was past the record or stood in the file in which the record ends |
| `Flush.SyncFailsOnDisk` | stgstorelog/group_commit_service.go:37-44 | a record in the file behind the frontier: both commits run, the record is on the disk and the answer is false |
| `Flush.CommitIn` | stgstorelog/mapedfile_queue.go:398-415 | files, frontier and result are those of the function |
| `Flush.CommitFileIn` | stgstorelog/maped_file.go:169-222 | the file becomes that of the function |
| `Flush.DoCommitIn` | stgstorelog/group_commit_service.go:35-44 | the loop computes the function |
| `Durability.CrashKeepsItems` | stgstorelog/mapedfile_queue.go:148-198 | the files loaded after a machine crash begin with every item of the log that lies below committedWhere |
| `Durability.CrashKeepsRecords` | stgstorelog/commit_log.go:189-232 | after a machine crash, whatever the disk holds behind the frontier, either recovery that starts at a file not behind a record below committedWhere stops behind that record, reports every record from its start file up to it and keeps them all in the cut files; a recovery that reads the bodies never panics |
| `Durability.SyncPutSurvives` | stgstorelog/group_commit_service.go:35-51 | a message whose group commit answered true is found and kept by whichever recovery follows a machine crash |
| `References.CountsHolds` | stgstorelog/reference_resource.go:31-65 | over every run of selects, one-shot releases and shutdowns the count is the outstanding holds, plus one while available; the memory is unmapped at most once, never under a holder unless forced, and always once nobody holds it |
| `References.ShutdownExact` | stgstorelog/maped_file.go:245-256 | over every run a file can be held exactly until its first shutdown, whose time it keeps, and a shutdown is forced if and only if it is a later one, the interval since the first is over and someone still holds the file |
| `References.ReferenceResource.Hold` | stgstorelog/reference_resource.go:31-45 | one step of hold |
| `References.ReferenceResource.Release` | stgstorelog/maped_file.go:298-328 | one step of release and cleanup |
| `References.ReferenceResource.Shutdown` | stgstorelog/maped_file.go:245-256 | one step of shutdown, ordinary or forced |
| `References.SelectMapedBufferResult.Release` | stgstorelog/select_maped_buffer_result.go:28-36 | the release reaches the file once |
| `ProcessQueues.SortSorts` | stgclient/consumer/process_queue.go:45-45 | sorted, and the same members |
| `ProcessQueues.TreeMap.Put` | stgclient/consumer/process_queue.go:41-47 | the sorted keys stay the keys of the map |
| `ProcessQueues.TreeMap.Remove` | stgclient/consumer/process_queue.go:61-75 | the same after a removal, duplicates included |
| `ProcessQueues.ProcessQueue.PutMessage` | stgclient/consumer/process_queue.go:89-119 | pending offsets, message count and largest offset after a pull |
| `ProcessQueues.ProcessQueue.RemoveMessage` | stgclient/consumer/process_queue.go:121-141 | the answer is -1, the smallest offset still pending, or one past the largest; the count stays the size of the map |
| `ProcessQueues.ProcessQueue.GetMaxSpan` | stgclient/consumer/process_queue.go:143-150 | largest minus smallest pending offset |
| `CommitSafety.CommitIsSafe` | stgclient/process/consume_message_concurrently_service.go:144-148 | however in-order pulls, consumption, tag corrections and the offset store interleave, the stored offset never falls and never passes a message pulled and not yet consumed |
| `CommitSafety.SafeFromStart` | stgclient/process/consume_message_concurrently_service.go:144-148 | so a consumer is safe in every run from its first pull on |
| `CommitSafety.CommitCatchesUp` | stgclient/process/consume_message_concurrently_service.go:144-148 | once messages have been pulled, whenever all of them have been consumed and every result has reached the store, the stored offset is behind all of them |
| `CommitSafety.PutIsPulled` | stgclient/process/default_mq_push_consumer_impl.go:143-159 | an in-order put is the pull step of that machine |
| `CommitSafety.RemoteBrokerOffsetStore.UpdateOffset` | stgclient/process/remote_broker_offset_store.go:126-144 | an increase-only update never lowers the offset and touches no other queue |
| `Rebalance.OneLiveAlways` | stgclient/process/rebalance_impl.go:128-207 | across every sequence of rebalances, removals, illegal offsets and destroys every process queue ever dispatched is dropped unless it is the one in the table |
| `Rebalance.AtMostOneLive` | stgclient/process/rebalance_impl.go:128-207 | so a message queue has at most one live process queue |
| `Rebalance.GiveUpLeaves` | stgclient/process/rebalance_impl.go:135-173 | exactly the queues of the topic that are no longer allocated or have stalled leave the table |
| `Rebalance.GiveUpDrops` | stgclient/process/rebalance_impl.go:135-173 | exactly their process queues are dropped |
| `Rebalance.OnePullEach` | stgclient/process/rebalance_impl.go:174-198 | each queue newly added gets exactly one pull request, which starts at the offset computed for it, not below 0, and no other queue gets one |
| `Rebalance.StartsAlways` | stgclient/process/rebalance_impl.go:183-186 | over every run each pull request ever dispatched came from a rebalance that was given its queue and starts at the offset that rebalance computed for it |
| `Rebalance.GoneIsDropped` | stgclient/process/rebalance_impl.go:66-74 | after a removal no process queue of that queue is live and the others are as they were; after a destroy none is live and no queue is served |
| `Rebalance.RebalanceImpl.UpdateProcessQueueTableInRebalance` | stgclient/process/rebalance_impl.go:128-198 | the two loops compute the step and return the requests added, each of which starts at the offset computed for its queue |
| `Rebalance.RebalanceImpl.RemoveProcessQueue` | stgclient/process/rebalance_impl.go:66-74 | drops the process queue and its entry |
| `Rebalance.RebalanceImpl.Destroy` | stgclient/process/rebalance_impl.go:201-207 | drops every process queue and empties the table |
| `LongPolling.HeldPullsConserved` | stgbroker/pull_request_hold_service.go:51-145 | under every interleaving of pulls and notifiers the suspended requests are those held, in hand or woken, and whatever was woken had data or had timed out |
| `LongPolling.WaitingIsHeld` | stgbroker/pull_message_processor.go:275-288 | exactly the pulls that found nothing and came from a client that allows it are held, in hand or woken, each as often as it had to wait |
| `LongPolling.WokenAtMostOnce` | stgbroker/pull_message_processor.go:52-55 | a request suspended once is woken at most once and then neither held nor in hand |
| `LongPolling.NotifySplits` | stgbroker/pull_request_hold_service.go:115-143 | an uninterrupted notifier loses no request, wakes none twice and keeps none whose data has arrived |
| `LongPolling.KeptWasNotDue` | stgbroker/pull_request_hold_service.go:115-139 | each request kept was not due in its own round, by the offset given, the offset looked up or the clock |
| `LongPolling.WokenWasDue` | stgbroker/pull_request_hold_service.go:117-137 | each request woken was due in its own round |
| `LongPolling.ManyPullRequest.NotifyMessageArriving` | stgbroker/pull_request_hold_service.go:98-145 | the loop computes the split and puts the rest back |
| `LongPolling.ManyPullRequest.CloneListAndClear` | stgbroker/longpolling/many_pull_request.go:41-52 | hands out the list and empties it |
| `LongPolling.PullRequestHoldService.SuspendPullRequest` | stgbroker/pull_request_hold_service.go:50-73 | the request joins its own queue's list, created if it is the first, and no other queue's list changes |
| `LongPolling.PutBackKeeps` | stgbroker/longpolling/many_pull_request.go:30-36 | putting the requests of a notifier back, among those that came meanwhile, loses and duplicates none |
| `LongPolling.PullKeeps` | stgbroker/longpolling/many_pull_request.go:19-25 | suspending a pull, or answering it, loses and duplicates no request |

## Left out

- Memory mapping, file creation and deletion, directories, sockets, goroutines, sleeps and logging: byte sequences, results of creating or destroying a file, clock readings and socket reads are inputs.
- Concurrency below one locked section: operations are atomic. `putMessage` leaves its lock held on its error returns; `UpdateOffset` reads and writes the offset table in two steps, so two unlocked updates could lower it; `hold` and `shutdown` interleave only as whole calls.
- A mapped file's memory is a sequence field, not an array shared with the buffers handed out: a select result is a copy of what was written at that moment. The scratch buffer and the reader's buffer are arrays.
- Reference counts are modelled by themselves: a select asks only whether the file is available, and a handed-out slice is not tied to its hold.
- Integers are unbounded except where a width matters (record fields, counters, frame headers); logs are assumed to stay below 2^63 bytes and batch sums below 2^31.
- CRC, zlib, and the property string's tags and keys are uninterpreted functions; hosts are four address bytes and a port, not text; a decoded message keeps its properties as the bytes they were stored as, and its id as bytes, not in hexadecimal.
- CatchUp.CatchesUp: appends and expiries while the slave catches up are left out; every send carries at least a byte.
- Store.RunInv: index files can always be created; an index put given up after five failed creations leaves the numbering, as `ConsumeQueues.UnitAfterGap` shows, and sets a flag that stops the broker's writes, which is not modelled.
- Checkpoint.CheckpointRestart: the log goes on in the start file found, or that is the first file; a file beyond the log that happens to begin like an old record is left out.
- SlaveIndex.SlaveIndexesMaster: the slave starts without files and indexes, and its log does not expire meanwhile.
- Replay.AbnormalRecovery: assumes that the requests queued by recovery have been dispatched before the indexes are cut and the counters rebuilt, which the code does not wait for (`Replay.RebuiltCounts` says when that matters), that tags and keys were taken from the stored properties, that an index file holds at least two units, and that the log reaches the start file.
- Flush.AlwaysFlushed: its runs take a failed delete, or a restart of the process alone, only where the files are on the disk; `Flush.ShutIsNotFlushed` and `Flush.RestartFlushed` say what happens elsewhere. A flush is taken to write the whole mapping out.
- Pull.PullExact: leaves out the suggestion to pull from a slave and the statistics.
- TimeSearch.SearchFile: distances are exact, where the code compares them as float64; the choice of the file by modification time is an input.
- IndexFiles.ConsumeQueue.Recover: a buffer whose length is no whole number of units is read as units only as far as they are whole.
- Expiry.DeleteExpiredFileByTime: files are removed by identity, where the code compares names; the waiting time between two deletions is left out.
- Replication.PrefixSafety: master and slave use the same file size, reads of acknowledgements are aligned, expiry does not run while a transfer stands at offset 0, and a slave does not start with an empty file at offset 0 (`Replication.EmptyFileExact` says what it would do).
- CommitSafety.CommitIsSafe: the offset reset after OFFSET_ILLEGAL, which may lower the stored offset, is left out.
- Rebalance.OneLiveAlways: topic and broker names are compared exactly, where the code ignores case; allocation strategies are an input.
- LongPolling.HeldPullsConserved: one queue's hold list; lists of different queues are independent.
- RoundTrip.CleanRestart: `load` is modelled as a function on the files; file names, sizes on disk and the order of the directory listing are left out.
- ProcessQueues.ProcessQueue.PutMessage: the flag that starts consumption and the accumulated-message statistics are left out.
- The key hash index, the allocation service, transactions, scheduled messages, the transfer service for synchronous replication, rebalance locks, the local offset store, configuration, statistics and remoting: stubs, plumbing, or easy members only.
