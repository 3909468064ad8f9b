# Verified model of the nolan commitlog and the LucidMQ broker

LucidMQ keeps each topic in a nolan commitlog: one growing segment in memory, a list of flushed
segments on disk, a cleaner that deletes the oldest ones by a byte budget, a two-level lookup, and
recovery by scanning the directory. A broker serves one request at a time and keeps an offset per
consumer group. This project models that stack and proves what it promises, and exactly where the
promise ends.

There are two layers.

* The specification (`*Spec.dfy`) gives every operation as a function on values: `VSeg` and
  `Segment` (segments), `Log` (commitlog and its directory), `Topic`, and the broker's vector of
  topics. The theorems are about these: `LogInvariant`, `LogRefinement`, `LogRuns`, `LogLimits`,
  `Packing`, `Determined`, `Recovery`, `AnyDirectory`, `RestartAppend`, `Delivery`, `BrokerSpec`,
  `BrokerReplies`.
  Concrete inputs for the limits are in `Examples`.
* The objects (`VirtualIndex`, `VirtualSegment`, `IndexFile`, `Segment`, `Cleaner`, `Commitlog`,
  `Topic`, `Consumer`, `Broker`) are classes with the program's fields and loops. The methods ask
  nothing of what the log holds. Each is proved to do what the specification allows for some order
  of the directory (`AppendMay`, `PollMay`, `ServeMay`, `RunMay`), and where the log holds its
  history only one outcome is allowed (`AppendMayOnly`, `PollMayOnly`, `RunMayOnly`), so that a run
  of `Broker` in which no log is overfull inherits every theorem.

Conventions.

* Integers are unbounded; `u16` and `u32` arithmetic that can leave its type is written with the
  wrap-around of the release build (`images/Lucidmq.Dockerfile:21`). `NothingWraps` shows that it
  never happens on a log that holds its history; `RecordLimit` and `RecoversIff` show where it does.
* A directory is a map from file names to bytes. A listing is any sequence of the names, and may be
  another one at every reload: the functions of the specification fix one, the objects meet
  arbitrary ones, and `ReloadChangesNothing`, `SplitMoves`, `OpenOrderIrrelevant` and `RunMayOnly`
  show that the order does not matter. What the functions fix is always among what is allowed
  (`RunIsAllowed`).
* The clock is a function giving the time that passes before each reading, on top of the pauses
  of the polling loop.
* `Inv(log, hist)` says that a log holds the sequence of records `hist`; `RunInv` adds how they are
  packed and what is retained; `TopicInv` adds that the cursor is at the end and no group's offset
  passes it.

Where the promise ends, as exact conditions (with concrete inputs in `Examples`):

* The cursor of the segment in memory is moved by reads and used by writes. An append that stays
  in the segment while the cursor is not at the end overwrites a record, and cannot be read back
  (`AppendCorrectIffSafe`, `ReadsBackIff`, `LegalIffHeld`), although `nolan/README.md` calls the log append-only.
  Polls restore the cursor, so the broker is safe (`TopicRunHolds`, `EveryTopicHolds`).
* Once a log has split, a poll that enters its loop reads to the end and then fails, with the
  group's offset already moved: the records are lost to the group. Polling works if and only if the
  accepted bytes fit one segment (`PollDeliversIff`), although the comment at
  `lucidmq/src/consumer.rs:33-36` promises the messages.
* A log takes 65535 records; the next one is accepted and makes its segment unreadable (`RecordLimit`).
* A restart reads back everything flushed unless exactly one segment was flushed, or the last one
  starts below 32768 while its start and end add up to 65536 or more (`RecoversIff`). It goes on
  numbering where the flushed records end if and only if nothing was flushed (`RestartNumbers`).
  Its first append keeps everything flushed readable under the condition of `RestartKeepsIff`: with
  two or more segments, a record that fits the last segment overwrites that segment's start and so
  has to agree with it, and one that does not fit is harmless unless the new start wraps; with one
  segment the record has to be the one record flushed. Flushing over the files of that one segment
  leaves the old bytes behind the new ones (`FlushExact`, `RestartFlushesOver`).
* The number of bytes kept, which the comment at `lucidmq/src/consumer.rs:217` leaves open, is
  explained by `RetentionBounds`: the disk keeps the budget plus at most one segment, and memory
  at most one segment more.

## Model

| member | source | states |
|---|---|---|
| Names.StemExact | nolan/src/utils.rs:11-22 | The stem of an offset is the one string of five digits that denotes it, so every five digits below 65536 are the stem of exactly one offset. |
| Names.ParseStem | nolan/src/utils.rs:11-22 | The file stem of every 16-bit offset parses back to that offset. |
| Names.ParsesIff | nolan/src/segment.rs:41-44 | A stem is a 16-bit number exactly when it is one or more digits denoting one, after at most one plus sign. |
| Names.StemInjective | nolan/src/utils.rs:11-22 | Two segments with different starting offsets never share a file name. |
| Base.WriteByByte | nolan/src/virtual_segment.rs:135-138 | A write at the cursor puts its bytes there, keeps every other byte, and fills a hole with zeros. |
| Codec.EntryLayout | nolan/src/index.rs:55-86 | Byte i of an entry on disk is byte i of its start, counted from the least significant, and byte 4 + i that of its length. |
| Codec.IndexRoundTrip | nolan/src/index.rs:55-86 | Decoding the encoded entries gives back every entry list, also when a torn entry of fewer than 8 bytes follows. |
| IndexFile.Index.LoadIndex | nolan/src/index.rs:55-86 | The chunked loop finds exactly the entries encoded in the file and fails only when their number does not fit 16 bits. |
| VirtualIndexes.VirtualIndex.AddEntry | nolan/src/virtual_index.rs:28-46 | The entry list and its bytes are extended by the same entry, so that the bytes stay the encoding of the list. |
| VirtualIndexes.VirtualIndex.ReturnEntryDetailsByOffset | nolan/src/virtual_index.rs:49-63 | Start and length of the entry at the offset, or nothing past the last entry. |
| VirtualIndexes.VirtualIndex.LoadIndex | nolan/src/virtual_index.rs:86-138 | The in-memory loader decodes the same entries as the disk loader and keeps the bytes of the whole chunks, without the torn tail. |
| SegmentSpec.WriteHolds | nolan/src/virtual_segment.rs:121-153 | A fitting record written at the end is added after the held ones: entries go on tiling the bytes, sizes and counters agree, the answer is its index, the cursor is at the end again. |
| SegmentSpec.WriteFails | nolan/src/virtual_segment.rs:121-153 | Which error a write gives, exactly: for its size, for the room left, or for a length of 2^32 or more; only the last one moves anything. |
| SegmentSpec.VReadHolds | nolan/src/virtual_segment.rs:156-183 | Exactly the held records are read, the cursor ending after the one read; past the end it fails without moving the cursor, and says out of bounds only at start 0 or from start + count on. |
| SegmentSpec.SReadHolds | nolan/src/segment.rs:108-135 | A disk segment returns exactly the records it holds and is out of bounds at every other index. |
| SegmentSpec.FlushLoad | nolan/src/virtual_segment.rs:187-210 | Flushing under a fresh name and loading the stem gives a disk segment that holds the same records, with an absolute next offset, and leaves the directory as the flush made it. |
| SegmentSpec.FlushKeepsReads | nolan/src/segment.rs:36-135 | Reading the loaded segment agrees with reading the one in memory at every index, and its next offset is start plus number of entries. |
| SegmentSpec.LoadersAgree | nolan/src/virtual_segment.rs:47-117 | On every pair of files, well-formed or not, the memory and disk loaders succeed together with the same entries, next offset and size; the bytes kept in memory are the encoding of exactly those entries, ready for more, and the cursor of the records is at the start. |
| SegmentSpec.VLoadAnswers | nolan/src/virtual_segment.rs:47-117 | When loading a segment into memory fails, exactly, and with which error. |
| SegmentSpec.LoadAnswers | nolan/src/segment.rs:36-105 | For any stem that is a number and any directory: when loading succeeds, and start, next offset, size and entries of the result, a missing file counting as an empty one. |
| SegmentSpec.LoadKeepsFiles | nolan/src/segment.rs:52-78 | Loading changes no byte of any file; it only makes the two files of the segment if they are missing, empty, and the index file only after the log file was short enough. |
| SegmentSpec.LoadFiveDigits | nolan/src/segment.rs:36-105 | Loading a pair of files named by five digits leaves the directory as it was. |
| SegmentSpec.FlushExact | nolan/src/virtual_segment.rs:187-210 | For every segment and every directory: each of the two files is as long as the longer of old and new, begins with the new bytes and is the old file after them; no other file changes. |
| SegmentSpec.FlushOverReads | nolan/src/virtual_segment.rs:187-210 | When a segment is flushed over the files of a loaded one, a record of the loaded one reads as the flushed bytes as far as they go and as its own bytes after them. |
| VirtualSegments.VirtualSegment.constructor | nolan/src/virtual_segment.rs:26-44 | A new segment is empty, starts at the given offset, and owns a new index. |
| VirtualSegments.VirtualSegment.LoadSegment | nolan/src/virtual_segment.rs:47-117 | The loaded object has the value of LoadVSeg, and every failure is the one LoadVSeg gives. |
| VirtualSegments.VirtualSegment.Write | nolan/src/virtual_segment.rs:121-153 | New state and answer are those of the value, error cases included; what that means is WriteHolds. |
| VirtualSegments.VirtualSegment.ReadAt | nolan/src/virtual_segment.rs:156-183 | New cursor and answer are those of the value; what that means is VReadHolds. |
| VirtualSegments.VirtualSegment.Flush | nolan/src/virtual_segment.rs:187-210 | The directory afterwards is that of the value's flush; that it does not truncate is FlushExact. |
| Segments.LoadSegment | nolan/src/segment.rs:36-105 | Directory and answer are those of SegmentSpec.LoadSegment for every directory and stem. |
| Segments.ReadAt | nolan/src/segment.rs:108-135 | The answer is that of the value; what that means is SReadHolds. |
| Segments.Delete | nolan/src/segment.rs:138-149 | Both files are removed, or the first missing one stops the deletion. |
| CleanerSpec.CutUnique | nolan/src/cleaner.rs:20-34 | The kept suffix is the unique shortest one over the budget (all if none is), never leaves out the newest segment, and cutting it again changes nothing. |
| CleanerSpec.DeletePrefixExact | nolan/src/cleaner.rs:35-47 | When the segments' files are present and distinct, deletion cannot fail and removes exactly the files of the dropped prefix. |
| CleanerSpec.DeletePrefixStops | nolan/src/cleaner.rs:35-47 | In any directory, deletion goes on to the first segment that lacks a file, takes that one's log file if it is there, and keeps the rest of the list. |
| CleanerSpec.CleanFailsIff | nolan/src/cleaner.rs:35-47 | Cleaning fails if and only if a segment to be dropped lacks a file. |
| CleanerSpec.CleanExact | nolan/src/cleaner.rs:20-49 | Cleaning keeps exactly the shortest suffix over the budget, deletes exactly the files of the rest, and is idempotent. |
| Cleaners.Cleaner.Clean | nolan/src/cleaner.rs:20-49 | The backward scan and the forward deletion compute CleanerSpec.Clean, failures included. |
| ScanSpec.ScansAgree | nolan/src/commitlog.rs:85-110 | In whatever orders the directory is listed, the start-up scan and the reload scan both find exactly the stems with both files, each once, and the orphans are exactly the other segment files. |
| LogInvariant.NewLogHoldsNothing | nolan/src/commitlog.rs:27-47 | Opening an empty directory gives a log that holds the empty history. |
| LogInvariant.ReloadChangesNothing | nolan/src/commitlog.rs:172-232 | Between appends a reload leaves the log as it was, for every listing order. |
| LogInvariant.SplitMoves | nolan/src/commitlog.rs:247-263 | After the flush, for every listing order, the reload adds exactly the segment that was in memory, and it holds the same records. |
| LogInvariant.AfterSplitInv | nolan/src/commitlog.rs:247-263 | A split log holds the same history: segments contiguous, files matching the segment list, the new name free. |
| LogInvariant.NothingWraps | nolan/src/virtual_segment.rs:121-159 | With room for one more record no 16-bit or 32-bit sum or difference of the operations wraps. |
| LogRefinement.CleanKeepsInv | nolan/src/commitlog.rs:318-331 | Cleaning a log succeeds and the log goes on holding its history from a later oldest offset. |
| LogRefinement.AppendSplits | nolan/src/commitlog.rs:63-69 | A record that does not fit makes exactly one split; afterwards the current segment is empty and the record fits, so append recurses at most once. |
| LogRefinement.AppendRefines | nolan/src/commitlog.rs:51-75 | A safe append answers the number of records so far and adds the record to the held history; an oversize one is refused and changes nothing. |
| LogRefinement.AppendMayOnly | nolan/src/commitlog.rs:51-75 | On every log that holds its history, safe append or not, the order in which a split finds the directory listed leaves no trace in the log or the answer, and nothing panics. |
| LogRefinement.LookupFinds | nolan/src/commitlog.rs:284-291 | The scan stops at the one segment whose range contains the offset, and finds none exactly below the oldest offset. |
| LogRefinement.ReadRefines | nolan/src/commitlog.rs:266-315 | Reading returns exactly the record appended at the offset from the oldest to the last one, and the stated error at every other; only the cursor can move. |
| LogLimits.AppendCorrectIffSafe | nolan/src/virtual_segment.rs:135-149 | An append within the size limit is always accepted, but the new record reads back, and the log holds the longer history, if and only if it writes nothing, at the end, or into a new segment. |
| LogLimits.UnsafeAppendOverwrites | nolan/src/virtual_segment.rs:135-149 | An append with the cursor before an older record replaces that record's bytes by its own first bytes. |
| LogLimits.RecordLimit | nolan/src/virtual_segment.rs:149-163 | With 65535 records the next append is accepted at offset 65535, and then no offset of its segment can be read. |
| LogLimits.ReadsBackIff | nolan/src/virtual_segment.rs:121-163 | On every log that holds its history, a record within the size limit reads back at the offset it was given if and only if its append is safe and it is not the 65536th. |
| LogLimits.AppendStoresAnyway | nolan/src/commitlog.rs:51-75 | With room and the cursor at the end the record is stored and reads back even when append answers with the error of a failed cleaning. |
| LogRuns.RunRefines | nolan/src/commitlog.rs:51-75 | On every run from an empty directory with safe appends, every answer is that of the plain sequence of accepted records, across all splits and cleanings. |
| LogRuns.LegalIffHeld | nolan/src/virtual_segment.rs:121-183 | Every append of a run is safe if and only if the log holds the accepted records after every operation. |
| LogRuns.ReadsLeaveNoTrace | nolan/src/commitlog.rs:266-315 | On any log, in any state, each read of a sequence of reads is answered as it would be alone. |
| LogRuns.SplitsAreStarts | nolan/src/commitlog.rs:63-69 | A legal run splits the log exactly as often as next-fit packing of its accepted records closes a segment. |
| LogRuns.SegmentsCreated | nolan/src/commitlog.rs:63-69 | The first segment and one for each split of a legal run: at most 2 * (B / (M + 1)) + 1 after B accepted bytes. |
| Packing.NextStarts | nolan/src/commitlog.rs:63-69 | The log opens a segment exactly where next-fit packing of its history does. |
| Packing.AdjacentOverflow | nolan/src/virtual_segment.rs:125-134 | A segment together with the first record of the next one exceeds the size limit. |
| Packing.SegmentsEverCreated | nolan/src/commitlog.rs:63-69 | Next-fit packing of records of B bytes in all opens at most 2 * (B / (M + 1)) + 1 segments. |
| Packing.AppendKeepsRunInv | nolan/src/commitlog.rs:51-75 | Every safe append keeps the history, the packing and the retention bound. |
| Packing.RetentionBounds | nolan/src/cleaner.rs:20-49 | At most 2 * (R / (M + 1)) + 2 segments on disk; at most R bytes there without the oldest one, R + M with it, R + 2M with memory; more than R once anything was deleted. |
| Determined.HistoryDetermines | nolan/src/commitlog.rs:51-75 | Two logs with the same limits and history agree on every segment, file and byte; only the cursors can differ. |
| Recovery.OpenRecovers | nolan/src/commitlog.rs:80-147 | A new commitlog on the directory of a log has the same segment list and files, for every listing order, and the current segment the code chooses. |
| Recovery.SortStable | nolan/src/commitlog.rs:122-125 | Sorting any list of segments is stable and drops none. |
| AnyDirectory.OpenOrderIrrelevant | nolan/src/commitlog.rs:80-147 | On every directory of canonically named pairs with any contents, the opened log does not depend on the listing order; the unpaired files are removed exactly when there is a segment. |
| AnyDirectory.OpenExact | nolan/src/commitlog.rs:80-147 | On every such directory, opening fails exactly when a pair is too long to be loaded and never panics; otherwise the segments are what the pairs load to, in increasing order. |
| AnyDirectory.ReloadExact | nolan/src/commitlog.rs:172-232 | On every log with such a directory, a reload panics exactly when a pair that is not loaded yet is too long; otherwise it adds exactly what those pairs load to and changes nothing else. |
| AnyDirectory.LoadAllSnoc | nolan/src/commitlog.rs:111-118 | Segments are loaded one after another, each from the directory the ones before left, and none after a failure. |
| AnyDirectory.UnparsablePair | nolan/src/commitlog.rs:205-221 | A pair of files whose stem is no 16-bit number keeps any directory from being opened and makes every reload and poll panic. |
| Recovery.RecoveredReads | nolan/src/commitlog.rs:266-315 | A restarted log answers with the record from before the restart at exactly the readable offsets, and with an error everywhere else. |
| Recovery.RecoversIff | nolan/src/commitlog.rs:119-138 | Everything flushed reads back if and only if not exactly one segment was flushed and the last one's 16-bit end test does not wrap below its size. |
| Recovery.RestartAfterRun | nolan/src/commitlog.rs:80-147 | After any legal run and for every listing order, the reopened log, in every sequence of reads, answers each readable offset with the record accepted there and every other with an error, and recovers everything flushed exactly under the condition of RecoversIff. |
| RestartAppend.RestartNumbers | nolan/src/virtual_segment.rs:100-114 | After a restart the first record within the size limit, whether it fits or splits the log, is answered with 0 for at most one flushed segment and otherwise with an offset too large by the start of the last one (modulo 65536); it is the next offset if and only if nothing was flushed. |
| RestartAppend.RestartKeepsIff | nolan/src/virtual_segment.rs:100-163 | Everything flushed still reads back after a restart and one append if and only if: nothing was flushed; or one segment, holding one record at offset 0, and the new record equals it; or, of two or more, the record fits the last one, is a prefix of its bytes or has them as a prefix, and the end test, one larger, reaches all its records; or it does not fit, and start plus end of the last segment do not wrap. |
| RestartAppend.RestartMayOnly | nolan/src/commitlog.rs:51-75 | The order in which the first append after a restart finds the directory listed leaves no trace in the log or the answer, and nothing panics. |
| RestartAppend.AppendAfterRestart | nolan/src/commitlog.rs:51-147 | After any legal run, and for every listing order of the restart and of the append after it, the conditions of RestartNumbers and RestartKeepsIff are exact. |
| RestartAppend.RestartOverwrites | nolan/src/virtual_segment.rs:100-163 | With two or more segments and an end test that is not empty, after a fitting append the first record of the last segment reads as the new record cut to its length, or, if that is shorter, as the new record followed by the rest of the old one. |
| RestartAppend.RestartFlushesOver | nolan/src/virtual_segment.rs:187-210 | After a restart with one flushed segment and two records that do not fit one segment together, offset 0 reads as the first new record followed by what is left of the old one, offset 1 as the second, and nothing else reads. |
| Examples.ReadThenAppend | nolan/src/virtual_segment.rs:135-181 | Append two records, read the first, append a third: it is accepted, cannot be read, and the second record reads as the third. |
| Examples.PollAfterSplit | lucidmq/src/consumer.rs:61-76 | Two messages that do not fit one segment: after any polls of any groups, every poll that enters its loop fails with the group's offset past both, so they are never delivered. |
| Examples.RestartWithOneSegment | nolan/src/commitlog.rs:119-138 | With one flushed segment a record that could be read before a restart cannot be read after it. |
| Examples.RestartWraps | nolan/src/virtual_segment.rs:100-163 | A log of 65535 records whose last flushed segment runs from 2 to 65534 does not recover. |
| Examples.OneRecordTooMany | nolan/src/virtual_segment.rs:149-163 | After 65535 empty records one more is accepted at offset 65535 and cannot be read. |
| Examples.RestartRepeatsOffset | nolan/src/commitlog.rs:119-138 | With one flushed record, the first append after a restart is answered with offset 0 again. |
| Examples.RestartSkipsOffset | nolan/src/virtual_segment.rs:100-114 | With two flushed records in two full segments, the first append after a restart is answered with 3 instead of 2, and both records survive it. |
| Examples.RestartLosesRecord | nolan/src/virtual_segment.rs:100-149 | With a second segment that has room, its record reads back after a restart, and reads as the new record after the first append. |
| Examples.RestartFlushesOverFile | nolan/src/virtual_segment.rs:187-210 | A byte flushed over a file of three leaves the last two: the read after the restart mixes both. |
| Commitlogs.Commitlog.New | nolan/src/commitlog.rs:27-47 | For every directory, the new object or the error is that of Open on the listing met. |
| Commitlogs.Commitlog.ScanDirectory | nolan/src/commitlog.rs:85-110 | The loop collects exactly the stems that have both files, each once, and exactly the segment files without a partner. |
| Commitlogs.Commitlog.LoadSegments | nolan/src/commitlog.rs:80-147 | State and error after scanning, loading, sorting and tidying are those of Open. |
| Commitlogs.Commitlog.FindPairs | nolan/src/commitlog.rs:174-203 | The loop with its map of stems finds exactly the stems that have both files, each once. |
| Commitlogs.Commitlog.FilterNew | nolan/src/commitlog.rs:205-221 | The filter keeps the stems whose offset no loaded segment starts at, and fails on a stem that is no 16-bit number. |
| Commitlogs.Commitlog.ReloadSegments | nolan/src/commitlog.rs:172-232 | State after a reload is that of Reload on the listing met, and it fails exactly where Reload does. |
| Commitlogs.Commitlog.Split | nolan/src/commitlog.rs:247-263 | On any log, the state and the failure are those of LogSpec.Split on the listing met; a log that holds its history and has a record in memory becomes AfterSplit of its value and goes on holding it. |
| Commitlogs.Commitlog.Clean | nolan/src/commitlog.rs:318-331 | Directory, segments and answer are those of CleanerSpec.Clean. |
| Commitlogs.Commitlog.Append | nolan/src/commitlog.rs:51-75 | On any log, state and answer are those of AppendWith for the listing met; where the log holds its history they are those of Append, and a safe append leaves an object that holds the history with the record added. |
| Commitlogs.Commitlog.Read | nolan/src/commitlog.rs:266-315 | State and answer are those of the value; what that means is ReadRefines. |
| Commitlogs.Commitlog.GetOldestOffset | nolan/src/commitlog.rs:334-342 | The oldest offset is readable and every smaller one is an error, on every log that holds at least one record. |
| ConsumerSpec.LoopDrains | lucidmq/src/consumer.rs:50-78 | Once entered, the loop reads every record up to the last, leaves the cursor at the end, and succeeds if and only if the current segment starts at 0. |
| ConsumerSpec.PollDrains | lucidmq/src/consumer.rs:37-83 | A poll with the cursor at the end leaves the log exactly as it was, moves the offset nowhere or to the end, and returns exactly the records in between, or fails once the log has split. |
| ConsumerSpec.PollMayOnly | lucidmq/src/consumer.rs:37-83 | On a log that holds its history the orders in which the reloads of a poll find the directory leave no trace, and no reload panics. |
| ConsumerSpec.ClockPrefix | lucidmq/src/consumer.rs:46-78 | On any log, a poll depends on the clock only through its first reading and one more for every started 100 milliseconds of the timeout. |
| TopicSpec.SetOffsetLocal | lucidmq/src/topic.rs:122-131 | Finding or making a group keeps names distinct; moving one offset leaves every other group's alone. |
| TopicSpec.ProduceAppends | lucidmq/src/broker.rs:440-453 | Of k messages the leading ones within the limit are appended in order; the answer is the old total + k - 1 if all are, and a failure if not. |
| TopicSpec.ConsumeDrains | lucidmq/src/broker.rs:379-399 | Consuming leaves the log as it was and moves only the group's own offset, to max(offset, oldest) or to the end; the answer is the records in between or the failure of a split log. |
| TopicSpec.ProduceMayOnly | lucidmq/src/broker.rs:440-453 | On a log that is ready and has room, producing has one outcome whatever the orders in which the directory is listed. |
| Delivery.SplitIff | nolan/src/virtual_segment.rs:125-134 | The log has split if and only if more bytes were accepted than one segment takes. |
| Delivery.TopicRunHolds | lucidmq/src/consumer.rs:50-78 | In every interleaving of produce and consume commands on a new topic the cursor is at the end after each, so the log holds exactly the accepted records. |
| Delivery.DeliveryAccounts | lucidmq/src/consumer.rs:37-157 | Over every run each offset below a group's was delivered once, in order and with its own record, or lost to a failed poll, or expired; only offsets that are no longer retained expire, and nothing is lost or expired while the records fit one segment. |
| Delivery.OffsetsNeverFall | lucidmq/src/consumer.rs:133-157 | Over every run, a group's offset after a part of the run is at most its offset after all of it. |
| Delivery.GroupsArePolled | lucidmq/src/topic.rs:122-131 | The groups of a topic are those that polled since it was new, in the order of their first polls. |
| Delivery.PolledGroupsOrder | lucidmq/src/topic.rs:122-131 | In that order no group is there twice, and each group polled at a time when those after it had not. |
| Delivery.PollDeliversIff | lucidmq/src/consumer.rs:61-76 | A poll that enters its loop returns the pending records if and only if the accepted bytes fit one segment; otherwise it fails, and in both cases the offset is at the end. |
| Topics.Topic.constructor | lucidmq/src/topic.rs:81-118 | For any sizes, a new topic has no groups and the empty log of those sizes on a directory of its own; that it is described with these sizes is TopicReply. |
| Topics.Topic.LoadConsumerGroup | lucidmq/src/topic.rs:122-131 | The first group of that name is returned, or a new one at offset 0 that is added at the end; no group object is shared. |
| Topics.Topic.GetConsumerGroups | lucidmq/src/topic.rs:148-155 | The names of the groups in the order they were made. |
| Topics.Producer.ProduceBytes | lucidmq/src/producer.rs:18-24 | On any log, one append and its answer; on a ready log with room the answer is the number of records before, the record is added and the log is ready for more, and an oversize message is an error and changes nothing. |
| Topics.Producer.ProduceBytesVector | lucidmq/src/producer.rs:26-33 | On any log, the messages are appended in order up to the first failure, where the source panics; on a ready log with room exactly the leading messages within the limit are added, and the answer is the offset of the last one, or none if one was too large. |
| Consumers.Consumer.ConsumerGroupInitialize | lucidmq/src/consumer.rs:133-150 | The group's offset stays when it is at or above the oldest offset, and becomes the oldest offset when it is below. |
| Consumers.Consumer.UpdateConsumerGroupOffset | lucidmq/src/consumer.rs:155-157 | The offset grows by one, in 32 bits. |
| Consumers.Consumer.Poll | lucidmq/src/consumer.rs:37-83 | The loop terminates, for every clock and on any log, with an outcome that PollMay allows; on a log that holds its history it is that of ConsumerSpec.Poll, whose meaning is PollDrains. |
| BrokerSpec.ServeIsLocal | lucidmq/src/broker.rs:221-460 | One command changes and answers for the topic it names as that topic would alone, keeps names unique, and leaves every other topic's log and groups as they were. |
| BrokerSpec.TopicsAreIndependent | lucidmq/src/broker.rs:82-187 | After any requests, a topic is as if only the requests that name it had been served. |
| BrokerSpec.RepliesAreIndependent | lucidmq/src/broker.rs:82-187 | Every reply goes to the connection of its request and is what the requests for that topic alone would give. |
| BrokerSpec.EveryTopicHolds | lucidmq/src/broker.rs:82-187 | On every run from no topics in which no log of the name ever takes 65536 records, a topic exists exactly when created and not deleted since, and its log holds exactly the records accepted since, cursor at the end. |
| BrokerSpec.ProduceReply | lucidmq/src/broker.rs:423-459 | On every run in which no log of the name takes 65536 records, k >= 1 fitting messages are answered with the number of records before + k - 1; one that does not fit gives an error, a missing topic a refusal. |
| BrokerSpec.GroupDelivery | lucidmq/src/broker.rs:353-408 | On every such run of the broker, every offset below a group's was delivered exactly once, or lost, or expired, only offsets that are no longer retained expired, and what was delivered is what the replies to the group's polls carried. |
| BrokerSpec.LedgerIsReplies | lucidmq/src/broker.rs:353-408 | On every run from no topics, within the record limit or not, the messages in the replies to a group's polls since its topic was created are, in order, what the ledger books as received. |
| BrokerSpec.RunMayOnly | lucidmq/src/broker.rs:82-187 | From no topics, as long as no log takes 65536 records, the broker has one outcome: the orders in which the directories are listed leave no trace in any topic or reply. |
| BrokerSpec.RunIsAllowed | lucidmq/src/broker.rs:82-187 | From any topics, full or broken logs included, the run that the functions fix is among the allowed ones. |
| BrokerReplies.TopicReply | lucidmq/src/broker.rs:221-329 | On every run from no topics: creation and deletion answer whether there was such a topic; a description gives 1000000 and 100000 bytes and the groups in the order of their first polls; produce and consume refuse a missing topic. |
| BrokerReplies.ConsumeReply | lucidmq/src/broker.rs:353-408 | On every run within the record limit, a poll of an existing topic is answered with nothing if its time is over, with the records from the group's offset on while the accepted ones fit 100000 bytes, and with an error after that; and where the group's offset then is. |
| BrokerReplies.AllTopicsReply | lucidmq/src/broker.rs:332-351 | On every run from no topics, the reply lists the live topics with their groups in the order of their first polls, and is an error exactly when there is no topic. |
| BrokerReplies.LiveNamesAre | lucidmq/src/broker.rs:332-351 | A name is listed exactly when it was created and not deleted since. |
| BrokerReplies.LiveNamesOrder | lucidmq/src/broker.rs:221-255 | No name is listed twice, and a name before another has been there since a time when the other was not. |
| BrokerReplies.OtherReply | lucidmq/src/broker.rs:82-187 | Every reply goes to the connection of its request; invalid and response messages are answered with their own errors. |
| Brokers.ProduceMessages | lucidmq/src/broker.rs:440-452 | On any log, the loop over the messages appends up to the first failure, as AppendsMay says. |
| Brokers.ConsumeFor | lucidmq/src/broker.rs:379-397 | On any topic, finding the group, initializing and polling give a topic and an answer that ConsumeMay allows; no other group moves. |
| Brokers.Broker.CheckTopics | lucidmq/src/broker.rs:467-492 | The position of the first topic of that name, and nothing exactly when no topic has it. |
| Brokers.Broker.HandleCreateTopic | lucidmq/src/broker.rs:221-255 | The vector and response are those of Serve: an existing name changes nothing, a new one adds an empty topic; the objects stay disjoint. What the response says is TopicReply. |
| Brokers.Broker.HandleDeleteTopic | lucidmq/src/broker.rs:292-329 | The vector and response are those of Serve: exactly the named topic is gone, its directory is emptied, and the others are untouched. |
| Brokers.Broker.HandleDescribeTopic | lucidmq/src/broker.rs:258-289 | The response is that of Serve and nothing changes; what it says is TopicReply. |
| Brokers.Broker.HandleAllTopic | lucidmq/src/broker.rs:332-351 | The response is that of Serve and nothing changes; what it says is AllTopicsReply. |
| Brokers.Broker.HandleProducer | lucidmq/src/broker.rs:410-460 | Vector and response are what ServeMay allows, for any topics and messages; no other topic changes. |
| Brokers.Broker.HandleConsumer | lucidmq/src/broker.rs:353-408 | Vector and response are what ServeMay allows, for any topics; no other topic changes. |
| Brokers.Broker.Run | lucidmq/src/broker.rs:82-187 | The loop serves any requests in order with an outcome RunMay allows; a new broker in which no log takes 65536 records ends with exactly the topics and replies of BrokerSpec.Run, so all theorems about it hold of the object. |

## Left out

- Cap'n Proto building and parsing (lucidmq/src/cap_n_proto_helper.rs): a message is an opaque byte sequence.
- The TCP, QUIC and WebSocket servers, the clients, the command line tool and the Go and Python libraries: network and user interface.
- Operating-system errors and crashes in the middle of a flush: file operations succeed and are atomic; only the errors decided by the code's own checks are modelled.
- An open file handle is looked up by name at each read; deleting the files of a loaded segment from outside is not modelled.
- Broker metadata (`lucidmq.meta`): flushing it is assumed to succeed, and reading it back is not modelled.
- The random directory name of a topic: each topic has a new directory of its own.
- Races on the locks: the broker serves one request at a time, so a command is one step.
- `get_latest_offset`, `_fetch`, the remaining underscore accessors and the components marked unused: not on the broker's path.
- Error texts are constructors named after them, with the text beside each in a comment; logging is dropped.
- Where the source panics (a failed `expect` on an unparsable or unloadable file) the model answers with a failure and says nothing of the log after it; AppendMayOnly and PollMayOnly show that a log that holds its history does not get there.
- Appends after a restart, beyond the first one: the reloaded segment does not hold records in the sense of `VHolds`. Objects of such logs still do what AppendMay and PollMay say.
- The cursor position after a short read, which the standard library leaves unspecified: the model leaves it where the seek put it, and no log that holds its history gets there.
- LogRuns.RunRefines: fewer than 65536 accepted records, the limit RecordLimit and ReadsBackIff show to be exact; likewise Delivery.TopicRunHolds and Delivery.DeliveryAccounts.
- BrokerSpec.EveryTopicHolds: no log of the name ever holds 65536 records, counted from each creation of the topic and without refused messages; likewise BrokerSpec.ProduceReply, BrokerSpec.GroupDelivery, BrokerSpec.RunMayOnly and the second half of Brokers.Broker.Run.
