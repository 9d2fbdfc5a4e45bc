# A verified model of MiniOB's storage and execution core

MiniOB is a teaching database. This project models the parts of it whose behaviour rests on invariants
that span several functions, and proves those invariants in Dafny. `dafny verify dfyconfig.toml` checks
all of it.

| files | component |
|---|---|
| `Common` | options, return codes, SQL values and how they compare |
| `Bytes`, `LsmKeys` | numbers and keys as bytes, the internal-key order |
| `LsmBlock`, `LsmTable` | block builder and block bytes, cursors over a block and over a table |
| `LsmMerge`, `LsmUser`, `LsmView`, `LsmRead` | the k-way merge, the snapshot iterator, what a reader of a snapshot must see, scan and point lookup |
| `LsmStore` | runs of writes, freezes and flushes, and reads at a snapshot |
| `Md5Block`, `Md5` | the block transform and the streaming digest |
| `Calendar` | Julian day numbers, times of day, adding durations |
| `SharedMutex`, `LockTrace` | the recursive reader/writer lock as a state machine, the deadlock check |
| `RingBuffer`, `BufferedWriter` | a FIFO in wrapped storage, a writer over a descriptor that writes partially |
| `LruCache` | a doubly linked list with an index as a recency list |
| `GroupBy` | hash aggregation |
| `Expr`, `ExprColumn` | row evaluation, constant folding, column evaluation |
| `Manifest` | the manifest log and recovery |
| `Crc` | table-driven CRC-32 |

## How to read it

Each operation that changes an object in the source is a method of a class here, with the source's
fields, and is specified by an abstract value: the merged remainder of a cursor, the message an MD5 context has seen, the
queue in a ring buffer, the recency list of a cache, the rows a group-by table represents, the tables a
manifest log means. The abstract values are defined without reference to the code, and the lemmas about
them say what the source promises.

The central result is about the LSM store. `LsmRead.Scan` and `LsmRead.Get` show that the stack of user
iterator, merging iterator, table iterator, block iterator and block bytes refines a plain statement: a read
at a snapshot shows, for each user key, its newest version at or below the snapshot, unless that version is
a deletion. `LsmStore` carries this up to the store: after any run of writes, freezes and flushes, `LsmStore.GetAt`
and `LsmStore.ScanAt` return the last write of each key up to the snapshot (`LsmStore.RunHolds`, `LsmStore.RunReads`).

Sources of a merge are a datatype with two cases, a memtable cursor and a table cursor. The file descriptor
of the writer is an object driven by an arbitrary finite script of partial writes, retries and failures, after
which it accepts everything. MD5's block transform is a parameter of the streaming proof, so that the proof holds for every
transform; it is applied to the transform of section 3.4 of RFC 1321 in `Md5.DigestOfBuffer` and
`Md5.DigestOfFile`. The data types other than integers enter expression evaluation as the record `Types`.

## Main results

- LSM store: `LsmStore.RunReads`, `LsmStore.GetAt`, `LsmStore.ScanAt`, `LsmStore.RunRepeats`, `LsmStore.ReadsRightIff`
- LSM iterators: `LsmRead.Scan`, `LsmUser.UserIterator.Seek`, `LsmRead.SeekRightIffFirst`, `LsmTable.TableIterator.Seek`
- Blocks: `LsmBlock.BlockBuilder.Finish`, `LsmBlock.MetaRoundTrip`
- MD5: `Md5.DigestOfChunks`, `Md5.Context.Update`, `Md5.GuardExact`
- Calendar: `Calendar.DateRoundTrip`, `Calendar.DayRoundTrip`, `Calendar.GetYmdFitsExactly`, `Calendar.DateTime.AddDuration`
- Locks: `SharedMutex.RunIsSafe`, `SharedMutex.UpgradeNeverEnds`, `LockTrace.Trace.CheckAndExplain`, `LockTrace.RunTrace`
- Network output: `BufferedWriter.BufferedWriter.WriteN`, `RingBuffer.RingBuffer.Write`, `RingBuffer.RingBuffer.Read`
- Cache: `LruCache.LruCache.Get`, `LruCache.LruCache.Put`, `LruCache.LruCache.Remove`
- Aggregation: `GroupBy.AggregateTable.AddChunk`, `GroupBy.ChunkingDoesNotMatter`, `GroupBy.ExactGroups`, `GroupBy.TableConserves`, `GroupBy.ScanAll`
- Expressions: `Expr.FoldingSound`, `ExprColumn.Eval`
- Manifest: `Manifest.RunStore`, `Manifest.FilesRightIff`
- CRC-32: `Crc.Crc32`

## Where the code does less than it seems to promise

Each of these has a lemma or a contract with the exact condition.

- `ObUserIterator::seek` appends to its lookup key, so only the first seek of an iterator is right for
  every store (`LsmRead.SeekRightIffFirst`).
- `ObLsmImpl::new_iterator` reads only the last of the frozen memtables. It covers every write exactly
  while at most one is frozen (`LsmStore.ReadsAllIff`); `put` waits for that, but without checking again. With two,
  reads are right exactly when what is left out is redundant (`LsmStore.ReadsRightIff`), and `LsmStore.FrozenTwice` is a
  run where they are not.
- The default snapshot is the number the next write will get, so that write becomes visible to a reader that
  started before it (`LsmStore.RepeatableIff`).
- The MD5 loop guard is computed in 32 bits and wraps for inputs within 63 bytes of 2^32 at some
  buffer positions; the update then reads past its input (`Md5.GuardExact`, `Md5.LongestInputWraps`).
- `DateTime::operator+=` compares with `>`, so a sum that lands on midnight is left at hour 24
  (`Calendar.DateTime.AddSeconds`).
- `julian_date` and `get_ymd` are inverse from March 1 of the year -4800 on and not before
  (`Calendar.DateRoundTrip`, `Calendar.DayRoundTrip`).
- An arithmetic node without a right operand folds, but its evaluation on a tuple dereferences the missing operand
  (`Expr.FoldingSound`).
- A comparison with no operator fails row by row, but keeps every row in column evaluation
  (`ExprColumn.Eval`).
- Manifest records keep table ids as 32-bit `int`, tables and snapshots as `uint32_t`, and the store counts in 64 bits. From
  2^31 builds on a restart can open wrong files, from 2^32 on `sst_id()`s repeat (`Manifest.FilesRightIff`,
  `Manifest.SstIdsRightIff`, with the runs `Manifest.WrongFileOnce` and `Manifest.SstIdTwice`).
- Deletions in manifest records do not reach the tables of the snapshot, nor ids from 2^31 on
  (`Manifest.DeletionDefinedIff`, `Manifest.SnapshotTableCannotBeDeleted`, `Manifest.HighIdCannotBeDeleted`).
- Float group-by keys within 1e-6 of each other are taken for one key when they hash alike (`GroupBy.DecidesEqualityIff`,
  `GroupBy.NearFloatsAreOneKey`).
- In the SIMD build, column subtraction and multiplication end the process from eight rows on (`ExprColumn.Eval`).
- A thread that holds the recursive lock in one mode and asks for the other never gets it
  (`SharedMutex.UpgradeNeverEnds`, `SharedMutex.DowngradeNeverEnds`).
- `writen` never returns on a writer without capacity (`BufferedWriter.BufferedWriter.WriteN`), and scanning groups into a
  chunk without columns never ends (`GroupBy.ScanAll`).
- A mutex recorded while another thread is still recorded as its owner makes the deadlock records
  inconsistent (`LockTrace.Trace.InsertLock`). An inner release of a recursive mutex is recorded as if it were free
  (`LockTrace.RunTrace`, `LockTrace.InnerReleaseHidesDeadlock`).

Further differences between code and documentation, where the model follows the code: an empty
conjunction is true even under OR; `add_duration_date_time` drops the milliseconds of the start time;
`crc32` does not complement its result.

## Model

| member | source | states |
|---|---|---|
| `LsmStore.RunReads` | src/oblsm/ob_lsm_impl.cpp:103-211 | In every run of writes, freezes and flushes, at every moment with at most one frozen memtable, what an iterator reads for a key at a snapshot is the last write of that key up to the snapshot, unless that write was a deletion |
| `LsmStore.RunHolds` | src/oblsm/ob_lsm_impl.cpp:103-211 | Every store of every run of writes, failed writes, freezes and flushes holds exactly the versions written so far, each in one place, under distinct internal keys; a write the write-ahead log refuses uses up its number and stores nothing |
| `LsmStore.GetAt` | src/oblsm/ob_lsm_impl.cpp:315-358 | Building the iterator stack over the memtables and table bytes of a store and looking a key up finds exactly what the lists read show; with at most one frozen memtable that is the last write of the key up to the snapshot |
| `LsmStore.ScanAt` | src/oblsm/ob_lsm_impl.cpp:333-358 | Building the iterator stack and scanning returns, ascending and once each, exactly what the lists read show; with at most one frozen memtable that is every key whose last write up to the snapshot was not a deletion, with that value |
| `LsmStore.NewIterator` | src/oblsm/ob_lsm_impl.cpp:333-358 | The iterator is over the memtable, the last frozen memtable if any, and all tables, at the given snapshot, with nothing sought yet |
| `LsmStore.ReadsAllIff` | src/oblsm/ob_lsm_impl.cpp:338-341 | The iterator covers every version written if and only if at most one memtable is frozen: of several, only the last is read |
| `LsmStore.ReadsRightIff` | src/oblsm/ob_lsm_impl.cpp:333-358 | Reads of every key at every snapshot agree with the history if and only if each version in a frozen memtable before the last is redundant: the versions read say the same at its number |
| `LsmStore.FrozenTwice` | src/oblsm/ob_lsm_impl.cpp:132-141 | The run that writes k, freezes, writes anything, freezes again: the history has k at its number, a read at that number does not find it |
| `LsmStore.RepeatableIff` | src/oblsm/ob_lsm_impl.cpp:356-360 | What is read at a snapshot never changes by later writes if and only if its number was used by a write; the default snapshot, the next sequence number, is one too high |
| `LsmStore.RunRepeats` | src/oblsm/ob_lsm_impl.cpp:103-211 | In every run, a snapshot below the next sequence number reads the same at every later moment, whatever is written, frozen or flushed in between |
| `LsmStore.PutKeeps` | src/oblsm/ob_lsm_impl.cpp:112-127 | A write adds exactly its version under a new internal key |
| `LsmStore.FailedPutKeeps` | src/oblsm/ob_lsm_impl.cpp:113-126 | A write that fails in the write-ahead log keeps all versions and uses up its number |
| `LsmStore.FreezeKeeps` | src/oblsm/ob_lsm_impl.cpp:155-181 | Freezing the memtable loses and duplicates no version |
| `LsmStore.FlushKeeps` | src/oblsm/ob_lsm_impl.cpp:183-197 | Building the last frozen memtable into a table, at any place of the levels, and dropping it loses and duplicates no version |
| `LsmStore.VersionsRead` | src/oblsm/ob_lsm_impl.cpp:315-331 | Reading the versions of a history is reading the history |
| `LsmRead.Scan` | src/oblsm/ob_user_iterator.cpp:30-94 | Seeking to the first entry and stepping until invalid returns, in strictly ascending user-key order, exactly the pairs (k, v) where v is the non-empty value of the newest version of k at or below the iterator's sequence, over any set of sorted memtable and table sources with no internal key in common |
| `LsmRead.Get` | src/oblsm/ob_lsm_impl.cpp:315-331 | A point lookup on a fresh iterator finds v if and only if the newest version of the key at or below the snapshot is v and is not a deletion; otherwise it reports that the key does not exist |
| `LsmRead.OutputMeaning` | src/oblsm/ob_user_iterator.cpp:70-94 | The reference list of a snapshot is ascending and holds (k, v) if and only if v is the newest visible, non-deleted value of k |
| `LsmRead.SeekRightIffFirst` | src/oblsm/ob_user_iterator.cpp:43-54 | A seek shows the right entries for every store if and only if no earlier seek left bytes in `lookup_key_`: the code appends to that field without clearing it |
| `LsmRead.SeekAgainGoesWrong` | src/oblsm/ob_user_iterator.cpp:45-47 | Whatever was sought before, there is a store of an empty memtable and one table on which the second seek shows something else than the entries from the target on |
| `LsmRead.SeekSameKeyTwice` | src/oblsm/ob_user_iterator.cpp:45-47 | Seeking a present key finds it, seeking the same key again on the same iterator passes it by |
| `LsmUser.UserIterator.Search` | src/oblsm/ob_user_iterator.cpp:70-94 | The search loop stops at the first entry of the reference view of what the merged stream still holds, or reports that this view is empty |
| `LsmUser.UserIterator.FindNextUserEntry` | src/oblsm/ob_user_iterator.cpp:70-94 | What is left to show becomes the view of the rest of the merged stream, skipping the saved key when asked to |
| `LsmUser.UserIterator.SeekToFirst` | src/oblsm/ob_user_iterator.cpp:30-39 | What is left to show is the whole snapshot of all sources |
| `LsmUser.UserIterator.Next` | src/oblsm/ob_user_iterator.cpp:56-66 | Exactly the first entry of what was left to show is dropped |
| `LsmUser.UserIterator.Seek` | src/oblsm/ob_user_iterator.cpp:43-54 | The lookup key grows by the encoded target; the entries shown are those of the sources positioned by the grown key; on a first seek they are the snapshot from the first user key at or after the target |
| `LsmUser.FirstSeekShowsSuffix` | src/oblsm/ob_user_iterator.cpp:43-54 | Sources positioned by the first lookup key, memtables by (key, sequence) and tables by user key only, show together exactly the suffix of the snapshot from the target on |
| `LsmUser.EitherReading` | src/oblsm/util/ob_coding.h:107-115 | Whether a source reads the lookup key as a user key or as an internal key, it never drops a version of the target that the snapshot may see |
| `LsmUser.SourceKeeps` | src/oblsm/table/ob_sstable.cpp:69-85 | A source positioned by either reading keeps every later user key and every visible version of the target, and no smaller user key |
| `LsmView.SnapshotIsNewestPerKey` | src/oblsm/ob_user_iterator.cpp:70-94 | The view of a whole sorted store has strictly ascending user keys and holds exactly the newest visible non-deleted version of each |
| `LsmView.SnapshotIgnoresNewer` | src/oblsm/ob_user_iterator.cpp:73-76 | Versions above the iterator's sequence, however many, never change what it shows |
| `LsmView.ViewMembers` | src/oblsm/ob_user_iterator.cpp:70-94 | An entry is in the view of a sorted stream if and only if it is the newest visible version of its key, is not a deletion, and is not skipped |
| `LsmView.ViewAscending` | src/oblsm/ob_user_iterator.cpp:70-94 | The view of a sorted stream has strictly ascending user keys |
| `LsmView.SeekShowsSuffix` | src/oblsm/ob_user_iterator.cpp:43-54 | Any set of kept versions between two stated bounds shows the same suffix of the snapshot |
| `LsmMerge.MergingIterator.Smallest` | src/oblsm/table/ob_merger.cpp:76-88 | The scan picks a child whose head is at or below all other heads, and none exactly when all children are exhausted |
| `LsmMerge.MergingIterator.AtHead` | src/oblsm/table/ob_merger.cpp:28 | The iterator is valid exactly when the merged remainder is not empty, and then stands on its first entry |
| `LsmMerge.MergingIterator.Next` | src/oblsm/table/ob_merger.cpp:54-58 | The merged remainder loses exactly its first entry |
| `LsmMerge.MergingIterator.SeekToFirst` | src/oblsm/table/ob_merger.cpp:30-36 | Every child is back at its start, and the remainder is the whole merge |
| `LsmMerge.MergingIterator.Seek` | src/oblsm/table/ob_merger.cpp:46-52 | Every child is at its own lower bound for the lookup key, and the smallest head is chosen |
| `LsmMerge.Source.Seek` | src/oblsm/table/ob_merger.cpp:48-50 | A memtable source stops at its lower bound by (user key, sequence), a table source at its lower bound by user key only |
| `LsmMerge.SmallestIsLeast` | src/oblsm/table/ob_merger.cpp:76-88 | The smallest head of sorted children is the least of everything left in all of them |
| `LsmTable.TableIterator.SeekToFirst` | src/oblsm/table/ob_sstable.cpp:44-49 | The cursor is at position 0 of the concatenation of all blocks |
| `LsmTable.TableIterator.Next` | src/oblsm/table/ob_sstable.cpp:58-67 | The position in the concatenation of all blocks grows by exactly one, also across a block boundary |
| `LsmTable.TableIterator.Seek` | src/oblsm/table/ob_sstable.cpp:69-85 | The cursor stops at the first entry of the whole table whose user key is at or after the target, or at the end when there is none |
| `LsmTable.TableIterator.FindBlock` | src/oblsm/table/ob_sstable.cpp:71-78 | The scan of the block metadata finds the first block whose last user key is at or after the target |
| `LsmTable.TableIterator.AtPosition` | src/oblsm/table/ob_sstable.h:153-155 | The cursor is valid exactly before the end of the concatenation, and its key and value are those of the entry at its position |
| `LsmTable.MemIterator.Seek` | src/oblsm/memtable/ob_memtable.cpp:65-69 | Stands for the documented skip-list search: the first entry whose internal key is at or after the target |
| `LsmBlock.BlockBuilder.Add` | src/oblsm/table/ob_block_builder.cpp:24-43 | A pair is accepted if and only if the size estimate with it stays within 4096 bytes; then exactly that pair is appended and can be read back, otherwise nothing changes, and the error tells an empty block from a full one |
| `LsmBlock.BlockBuilder.LastKey` | src/oblsm/table/ob_block_builder.cpp:45-50 | The key of the last accepted pair |
| `LsmBlock.BlockBuilder.Finish` | src/oblsm/table/ob_block_builder.cpp:52-61 | The finished bytes are at most 4096 + 12, and reading their layout back gives a block that holds exactly the accepted pairs in order |
| `LsmBlock.LargestBlock` | src/oblsm/table/ob_block_builder.h:35-38 | The bound of 4096 + 12 bytes is attained |
| `LsmBlock.ReadBack` | src/oblsm/table/ob_block.cpp:22-39 | `get_entry` and `parse_entry` return the i-th accepted pair |
| `LsmBlock.LayoutRoundTrip` | src/oblsm/table/ob_block.h:20-39 | Reading the trailer of a finished block gives back its data and all its offsets |
| `LsmBlock.MetaRoundTrip` | src/oblsm/table/ob_block.cpp:41-69 | Decoding encoded block metadata gives it back |
| `LsmBlock.BlockIterator.Next` | src/oblsm/table/ob_block.h:107-113 | The block cursor advances by one, and is on that entry when there is one |
| `LsmBlock.BlockIterator.Seek` | src/oblsm/table/ob_block.cpp:71-81 | The block cursor stops at the first entry whose user key is at or after the target |
| `LsmKeys.InternalKeyParts` | src/oblsm/util/ob_coding.h:64-81 | The user key and the sequence number of a built internal key are the ones it was built from |
| `LsmKeys.InternalCompareReflects` | src/oblsm/util/ob_comparator.cpp:18-33 | The internal-key comparison is zero only on equal keys and is antisymmetric |
| `LsmKeys.InternalCompareTransitive` | src/oblsm/util/ob_comparator.cpp:18-33 | The internal-key comparison is transitive, strictly when one step is strict |
| `LsmKeys.LookupParts` | src/oblsm/util/ob_coding.h:93-115 | The internal key and the user key read from a lookup key are those it was built from; the internal key also when bytes follow |
| `Bytes.GetAfterPut` | src/oblsm/util/ob_coding.h:31-52 | A number of a given width is read back as written, whatever follows it |
| `Bytes.CompareReflects` | src/oblsm/util/ob_comparator.cpp:16 | The byte-wise comparison is zero only on equal strings and is antisymmetric |
| `Bytes.CompareTransitive` | src/oblsm/util/ob_comparator.cpp:16 | The byte-wise comparison is transitive, strictly when one step is strict |
| `Md5.DigestOfChunks` | src/common/math/md5.cpp:170-230 | The digest of any sequence of updates, each of at most 2^32 - 64 bytes, is the digest of the concatenated message under the padding of sections 3.1 and 3.2 of RFC 1321 |
| `Md5.DigestOfFile` | src/common/math/md5.cpp:401-420 | The 1024-byte chunk loop computes the digest of the whole contents |
| `Md5.DigestOfBuffer` | src/common/math/md5.cpp:391-399 | One update and a final step compute the digest of the buffer, for every length that fits `unsigned int` |
| `Md5.Context.Update` | src/common/math/md5.cpp:170-200 | The input is read past its end exactly when the 32-bit loop guard wraps; otherwise the state is the fold of the transform over all full blocks seen, the buffer holds the tail, and the two counter words are 8 times the length mod 2^64, for the message extended by the input |
| `Md5.Context.Final` | src/common/math/md5.cpp:206-230 | The result is the digest of everything seen, and the context is cleared |
| `Md5.GuardExact` | src/common/math/md5.cpp:191 | The guard `i + 63 < inputLen` in 32 bits stops the loop at the right place if and only if the stopping position plus 63 fits 32 bits |
| `Md5.FirstUpdateIsSafe` | src/common/math/md5.cpp:191 | On an empty buffer no input wraps the guard |
| `Md5.LongestInputWraps` | src/common/math/md5.cpp:191 | With one byte buffered, an input of 2^32 - 1 bytes does: the loop goes on at the stopping position |
| `Md5.CounterStep` | src/common/math/md5.cpp:178-180 | Adding a length with the carry the code computes keeps the counter words exact mod 2^64 |
| `Md5.PadInjective` | src/common/math/md5.cpp:217-222 | Different messages of fewer than 2^61 bytes have different padded forms |
| `Calendar.DateRoundTrip` | src/common/time/datetime.h:232-252 | A valid Gregorian date survives `julian_date` and `get_ymd` if and only if it is on or after March 1 of the year -4800 |
| `Calendar.DayRoundTrip` | src/common/time/datetime.h:232-252 | A day number decodes to a valid date that encodes back to it if and only if it is at least -32044 |
| `Calendar.NextDayIsNextNumber` | src/common/time/datetime.h:232-252 | The next calendar day has the next day number, in both directions |
| `Calendar.MonthAdvance` | src/common/time/datetime.h:232-238 | Consecutive month starts differ by `max_day_in_month_for`, and the formula is linear in the day |
| `Calendar.GetYmdFitsExactly` | src/common/time/datetime.h:241-252 | From -32044 on, no intermediate of `get_ymd` leaves 32 bits if and only if the day number is at most 536838867 |
| `Calendar.MillionYearsFit` | src/common/time/datetime.h:232-252 | For every valid date in range up to the year 1,000,000 no intermediate of either formula leaves 32 bits |
| `Calendar.MaxDayIsMonthLength` | src/common/time/datetime.cpp:233-251 | `max_day_in_month_for` is the month length of the Gregorian calendar, for negative years too |
| `Calendar.TimeRoundTrip` | src/common/time/datetime.h:204-207 | A valid time of day survives `make_hms` and `get_hms` |
| `Calendar.MillisRoundTrip` | src/common/time/datetime.h:109-116 | A millisecond of the day survives `get_hms` and `make_hms` |
| `Calendar.DateTime.AddSeconds` | src/common/time/datetime.h:170-185 | From any time of day, hour 24 included, the instant moves by exactly the given seconds; the new time is hour 24 exactly when the sum lands on midnight, where the code's `>` leaves it |
| `Calendar.DateTime.AddAll` | src/common/time/datetime.h:170-185 | After any run of `+=` the instant has moved by the total; away from midnight date and time are those of the instant, at midnight the time is 0 or hour 24 |
| `Calendar.DateTime.NormalizeDays` | src/common/time/datetime.cpp:210-227 | The day-carry loop ends with a day within its month, for every start; from a day of at least 1 it keeps the Julian day |
| `Calendar.DateTime.AddDuration` | src/common/time/datetime.cpp:159-231 | For non-negative durations the new date is the Julian day of the month-shifted, day-clamped start plus the days and the hour carry, and the new time the rest of the clock seconds, as in appendix E of XML Schema Part 2: Datatypes, milliseconds dropped |
| `Calendar.Carries` | src/common/time/datetime.cpp:185-199 | Carrying seconds, minutes and hours one after the other splits the total seconds into days and time of day |
| `SharedMutex.RunIsSafe` | src/common/lang/mutex.cpp:376-433 | At every moment of every run in which threads release only locks they hold: no reader together with a writer, no two writers, counters and recursion depth equal the outstanding calls, and no wake-up is lost |
| `SharedMutex.StepKeeps` | src/common/lang/mutex.cpp:376-433 | Every step, spurious wake-ups included, keeps the invariant |
| `SharedMutex.FreeLockIsTaken` | src/common/lang/mutex.cpp:404-417 | In every run, when nobody holds the lock and somebody waits, an exclusive waiter was notified and takes the lock when it resumes |
| `SharedMutex.RecursiveEntry` | src/common/lang/mutex.cpp:404-417 | In every run, the owner enters again without waiting, and the recursion depth counts it |
| `SharedMutex.OtherModeWaits` | src/common/lang/mutex.cpp:376-417 | In every run, a reader that calls `lock` and the writer that calls `lock_shared` wait |
| `SharedMutex.UpgradeNeverEnds` | src/common/lang/mutex.cpp:404-417 | In every run, a reader waiting for the write lock waits at every later moment, and nobody ever writes again |
| `SharedMutex.DowngradeNeverEnds` | src/common/lang/mutex.cpp:376-383 | In every run, the writer waiting for the read lock waits at every later moment, and nobody ever reads again |
| `LockTrace.Trace.CheckAndExplain` | src/common/lang/mutex.cpp:93-125 | On consistent records, the check reports a deadlock if and only if the recorded wait-for graph has a cycle through the requester of at most `mMaxBlockTids` threads |
| `LockTrace.Trace.DeadlockCheck` | src/common/lang/mutex.cpp:93-125 | The wait is recorded; for a mutex held by another thread the answer is true if and only if a chain of recorded waits of at most `mMaxBlockTids` - 1 threads leads to one of the requester's own mutexes; the unheld and self-held cases are exact too |
| `LockTrace.WalkExact` | src/common/lang/mutex.cpp:65-91 | The bounded walk answers true if and only if such a chain exists within its bound |
| `LockTrace.ChainClosesCycle` | src/common/lang/mutex.cpp:65-125 | A chain from the holder into the requester's own mutexes closes a cycle of waiting threads |
| `LockTrace.CycleIsFound` | src/common/lang/mutex.cpp:65-125 | Every cycle through the requester within the bound is found |
| `LockTrace.Trace.InsertLock` | src/common/lang/mutex.cpp:170-189 | The new records; owner map and owned sets stay consistent if and only if the mutex was free or already the caller's |
| `LockTrace.Trace.Unlock` | src/common/lang/mutex.cpp:211-221 | The new records; they stay consistent if and only if the mutex was free or the caller's |
| `LockTrace.RunTrace` | src/common/lang/mutex.cpp:170-221 | After any legal run of taking and releasing, recursive locks included, a mutex is recorded exactly when its last event took it; the records name its real holder if and only if it is free or was last taken |
| `LockTrace.NamesHolderIff` | src/common/lang/mutex.cpp:170-221 | The same for one mutex: an inner release of a mutex that stays held is what the records get wrong |
| `LockTrace.InnerReleaseHidesDeadlock` | src/common/lang/mutex.cpp:211-221 | A mutex taken twice and released once, a second mutex, and two threads waiting for each other: a deadlock that neither check reports |
| `RingBuffer.RingBuffer.ReadPos` | src/observer/net/ring_buffer.h:89 | The read position is the one from which the stored bytes lead to the write position, and up to a capacity of 2^30 its sum fits `int32_t` |
| `RingBuffer.ReadSumFitsIff` | src/observer/net/ring_buffer.h:89 | The `int32_t` sum of the read position never overflows if and only if the capacity is at most 2^30 |
| `RingBuffer.RingBuffer.Write` | src/observer/net/ring_buffer.cpp:85-106 | As many bytes as fit are appended to the queue, wrapping included; a negative size is refused |
| `RingBuffer.RingBuffer.Read` | src/observer/net/ring_buffer.cpp:27-49 | The oldest bytes, as many as asked for or stored, leave the queue in order |
| `RingBuffer.RingBuffer.Front` | src/observer/net/ring_buffer.cpp:51-68 | The exposed run is a prefix of the queue, empty only when the queue is |
| `RingBuffer.RingBuffer.Forward` | src/observer/net/ring_buffer.cpp:70-83 | Exactly the given number of oldest bytes is dropped, and sizes out of range are refused |
| `BufferedWriter.BufferedWriter.WriteN` | src/observer/net/buffered_writer.cpp:62-81 | For every device behaviour, bytes delivered followed by bytes buffered stay the accepted bytes; success accepts all of the request, an error a proper prefix of it, a closed writer nothing; the loop goes on forever exactly for an open writer without capacity and a non-empty request |
| `BufferedWriter.BufferedWriter.Write` | src/observer/net/buffered_writer.cpp:46-60 | A prefix of the request is accepted, non-empty exactly when the capacity is positive; an error accepts nothing; conservation is kept |
| `BufferedWriter.BufferedWriter.Flush` | src/observer/net/buffered_writer.cpp:83-94 | Success leaves the buffer empty and everything accepted delivered; conservation holds on error too |
| `BufferedWriter.BufferedWriter.FlushInternal` | src/observer/net/buffered_writer.cpp:96-131 | At least the requested number of bytes leaves, or the buffer is empty, or the device failed; nothing is lost or reordered |
| `BufferedWriter.BufferedWriter.Close` | src/observer/net/buffered_writer.cpp:30-44 | Closing delivers everything accepted and gives up the descriptor, or fails and keeps it; closing twice is harmless |
| `BufferedWriter.Device.Write` | src/observer/net/buffered_writer.cpp:112 | The descriptor: delivers a prefix, delivers nothing and asks for a retry, or fails, in any pattern |
| `LruCache.LruCache.Get` | src/common/lang/lru_cache.h:97-107 | Returns the cached value, moves the key to the front and keeps all other entries in order; a miss changes nothing |
| `LruCache.LruCache.Put` | src/common/lang/lru_cache.h:109-121 | The pair is first, and all other entries keep their order |
| `LruCache.LruCache.Remove` | src/common/lang/lru_cache.h:123-129 | Exactly the entry of the key is gone |
| `LruCache.LruCache.ForEach` | src/common/lang/lru_cache.h:137-145 | Visits the entries from most to least recent until the callback stops it |
| `LruCache.LruCache.ForEachReverse` | src/common/lang/lru_cache.h:147-155 | Visits the entries from least to most recent until the callback stops it |
| `LruCache.LruCache.LruTouch` | src/common/lang/lru_cache.h:158-179 | Forward links, backward links and both ends describe the same list with the node moved to the front |
| `LruCache.LruCache.LruPush` | src/common/lang/lru_cache.h:181-196 | Forward links, backward links and both ends describe the same list with the node added at the front |
| `LruCache.LruCache.LruRemove` | src/common/lang/lru_cache.h:198-217 | Forward links, backward links and both ends describe the same list without the node |
| `LruCache.LruCache.ContentsDistinct` | src/common/lang/lru_cache.h:54-72 | No key is twice in the recency list |
| `LruCache.PutThenLookup` | src/common/lang/lru_cache.h:109-121 | After a put, the key has the new value and every other key its old one; keys stay distinct |
| `LruCache.GetKeepsLookups` | src/common/lang/lru_cache.h:97-107 | A get changes no key's value, only the order |
| `Crc.Crc32` | src/common/math/crc.cpp:272-279 | For every message the table loop equals the bit-serial division by 0xEDB88320 of section 8 of RFC 1952, started at all ones and without the final complement |
| `Crc.EntryExact` | src/common/math/crc.cpp:15-270 | Each of the 256 table entries is eight bit-serial steps of its index |
| `Crc.TableStep` | src/common/math/crc.cpp:276 | One table step is eight bit-serial steps of the register with the byte mixed in |
| `Crc.DivideInParts` | src/common/math/crc.cpp:272-279 | The division of a message continues from the register left by its first part |
| `GroupBy.AggregateTable.AddChunk` | src/observer/sql/expr/aggregate_hash_table.cpp:16-52 | For keys of INTS, FLOATS and CHARS columns, success adds the chunk's rows: each row goes to the entry the lookup takes its key for, or to a new one, and each state is the fold of its entry's arguments in arrival order; both error cases are exact and change nothing |
| `GroupBy.AggregateTable.AddRow` | src/observer/sql/expr/aggregate_hash_table.cpp:22-50 | One row goes to the entry the lookup takes its key for, new or existing, and to no other |
| `GroupBy.ChunkingDoesNotMatter` | src/observer/sql/expr/aggregate_hash_table.cpp:16-52 | Two sequences of chunks with the same rows in the same order, fed to two new tables, give equal tables and the same answer, for all key types |
| `GroupBy.GroupChunks` | src/observer/sql/expr/aggregate_hash_table.cpp:16-52 | A new table fed with chunks represents all their rows, or stops at an unsupported aggregate with nothing added |
| `GroupBy.ExactGroups` | src/observer/sql/expr/aggregate_hash_table.cpp:22-50 | For INTS and CHARS keys the table has one entry per distinct key, with the fold of exactly that key's rows |
| `GroupBy.PlacedWell` | src/observer/sql/expr/aggregate_hash_table.cpp:22-50 | For all key types and all hash functions, every row compares equal to the key of its entry, and no two entries are taken for one another |
| `GroupBy.GroupsConserve` | src/observer/sql/expr/aggregate_state.cpp:80-108 | The COUNT states of all groups sum to the number of rows, and integer SUM states to the total of the argument |
| `GroupBy.TableConserves` | src/observer/sql/expr/aggregate_state.cpp:80-108 | For keys of every type, the COUNT states of a table's entries sum to its rows, and integer SUM states to the total of the argument |
| `GroupBy.RepresentsUnique` | src/observer/sql/expr/aggregate_hash_table.cpp:22-50 | The rows determine the table |
| `GroupBy.UpdateByColumn` | src/observer/sql/expr/aggregate_state.cpp:148-184 | Updating by a column equals updating by its values one at a time |
| `GroupBy.ScanAll` | src/observer/sql/expr/aggregate_hash_table.cpp:54-93 | Repeated scans into empty chunks give each group of the table exactly once, as many rows as groups, in iteration order; they go on forever exactly when there are groups and the chunk has no columns or no capacity |
| `GroupBy.Scanner.Next` | src/observer/sql/expr/aggregate_hash_table.cpp:60-93 | A scan appends the next groups up to the chunk's capacity, and reports the end exactly when none was left |
| `GroupBy.EnumeratedOnce` | src/observer/sql/expr/aggregate_hash_table.cpp:54-58 | An enumeration of the table is as long as the table |
| `GroupBy.VectorEqual` | src/observer/sql/expr/aggregate_hash_table.cpp:104-115 | The loop answers whether no position compares different, where floats compare equal within 1e-6 and strings up to a NUL |
| `GroupBy.DecidesEqualityIff` | src/observer/sql/expr/aggregate_hash_table.cpp:104-115 | Comparing key vectors decides equality for all keys of given column types if and only if no column is FLOATS |
| `GroupBy.NearFloatsAreOneKey` | src/common/lang/comparator.cpp:48-60 | The keys 0.0 and 0.0000001 are one key for the table; of 0.0, 0.000001 and 0.000002 only neighbours are, so float groups would depend on arrival order |
| `GroupBy.AggregateTable.Find` | src/observer/sql/expr/aggregate_hash_table.cpp:30 | The lookup finds the first entry visited whose hash and key compare equal, and nothing only when no entry does; without float columns that is the entry of the equal key |
| `Common.CompareStringZero` | src/common/lang/comparator.cpp:62-81 | Strings compare equal if and only if they are equally long and agree up to the first NUL |
| `Expr.FoldingSound` | src/observer/sql/expr/expression.cpp:464-553 | When folding succeeds, evaluation on every tuple gives the folded value if and only if no arithmetic operand is missing |
| `Expr.FoldedValue` | src/observer/sql/expr/expression.cpp:531-553 | When folding succeeds, evaluation gives the folded value or, with an operand missing, dereferences it |
| `Expr.NegationFoldsButDoesNotEvaluate` | src/observer/sql/expr/expression.cpp:476 | The folded negation of 5 is -5, but its evaluation on a tuple dereferences the missing operand |
| `ExprColumn.Eval` | src/observer/sql/expr/expression.cpp:223-290 | For comparisons over INTS trees, column evaluation ends the process if and only if it is the SIMD build, the chunk has at least eight rows and a tree has SUB or MUL; otherwise a row's select byte is cleared exactly when evaluating that row gives false, and an undefined operator fails on rows but keeps all select bytes |
| `ExprColumn.SubtractionExits` | src/observer/sql/expr/arithmetic_operator.hpp:154-156 | `a - 1 = 0` over eight rows: every row evaluates and the scalar build returns, the SIMD build exits |
| `ExprColumn.GetColumn` | src/observer/sql/expr/expression.cpp:484-505 | The evaluation exits under the same exact condition; otherwise the i-th value of the column is the value of the tree on row i |
| `ExprColumn.CalcColumn` | src/observer/sql/expr/expression.cpp:507-529 | SUB and MUL exit in the SIMD build from eight rows on; otherwise, for all four constant and normal combinations, the i-th result is the operation on the i-th operands |
| `ExprColumn.BinaryOperator` | src/observer/sql/expr/arithmetic_operator.hpp:273-332 | The width-8 loop with its tail, or the scalar loop: exits exactly for SUB and MUL on a full block, otherwise the i-th result is the wrapping operation on the i-th operands |
| `ExprColumn.CompareBlocked` | src/observer/sql/expr/arithmetic_operator.hpp:210-263 | The width-8 loop with its scalar tail computes the same selection as the scalar loop |
| `ExprColumn.CompareResult` | src/observer/sql/expr/arithmetic_operator.hpp:344-373 | Both builds keep a row if and only if it was selected and compares true; without an operator nothing changes |
| `ExprColumn.MaskIsComparison` | src/observer/sql/expr/arithmetic_operator.hpp:18-127 | The vector operators, put together from lane-wise equality, greater-than, or and xor, have a non-zero mask in exactly the lanes where the scalar operator holds |
| `ExprColumn.CompareBlock` | src/observer/sql/expr/arithmetic_operator.hpp:236-256 | One block compares its eight rows and touches no other |
| `ExprColumn.CompareScalar` | src/observer/sql/expr/arithmetic_operator.hpp:259-269 | The scalar loop compares its rows and touches no other |
| `Manifest.RunStore` | src/oblsm/ob_lsm_impl.cpp:43-92 | After any run of builds and restarts the next id is the number of builds, every smaller id was issued once, and level 0 lists the tables in order of building, each with its `uint32_t` `sst_id()` and the file id its reloads left it: its own number when never reloaded, what a 32-bit signed record kept when reloaded once, its low 32 bits when reloaded more often; the log lists the ids the next restart will open |
| `Manifest.SstIdAlways` | src/oblsm/table/ob_sstable.h:68-91 | Whatever happened to a table, its `sst_id()` is its build number cut to 32 bits |
| `Manifest.SstIdsRightIff` | src/oblsm/table/ob_sstable.h:134 | The `sst_id()`s are the build numbers, and are distinct, if and only if there are at most 2^32 tables |
| `Manifest.FileRightIff` | src/oblsm/ob_lsm_impl.cpp:420-457 | A table is looked for in its own file if and only if it was never reloaded, or was reloaded once and its id survives a record, or was reloaded more often and its id is below 2^32 |
| `Manifest.FilesRightIff` | src/oblsm/ob_lsm_impl.cpp:420-457 | All tables are, if and only if at most 2^32 were reloaded twice, and at most 2^31 were reloaded or none just once |
| `Manifest.WrongFileOnce` | src/oblsm/ob_lsm_impl.cpp:427-448 | After 2^31 + 1 builds one restart opens the wrong file for the last table, and the next restart the right one |
| `Manifest.SstIdTwice` | src/oblsm/table/ob_sstable_builder.h:48 | After 2^32 + 1 builds and no restart the first and the last table have the same `sst_id()` |
| `Manifest.Store.constructor` | src/oblsm/ob_lsm_impl.cpp:43-92 | Opening opens exactly the tables the log means and takes over its counter; when there were records to replay, the new manifest lists the tables by their 32-bit `sst_id()`, otherwise the log stays as it was |
| `Manifest.Store.BuildTable` | src/oblsm/ob_lsm_impl.cpp:280-303 | A build appends the table of a never issued id to level 0 of memory, with `sst_id()` cut to 32 bits, and what its record makes of the id to level 0 of the log; a restart would open the same files as before if and only if the record keeps the id |
| `Manifest.Store.WriteSnapshot` | src/oblsm/ob_lsm_impl.cpp:436-457 | Redirecting to a new manifest changes neither memory nor the counter, makes the log mean the `sst_id()`s of the tables, and removes the old file |
| `Manifest.Store.OpenManifest` | src/oblsm/ob_manifest.cpp:175-237 | Opening an existing or a first manifest changes nothing of what the log means |
| `Manifest.Store.ReadLog` | src/oblsm/ob_manifest.cpp:239-301 | Reading gives the last snapshot and the compaction records, as many as there are, that replay to the same tables and counter, or are as undefined |
| `Manifest.Store.ReplayRecords` | src/oblsm/ob_lsm_impl.cpp:377-410 | Replaying the records, additions and deletions, gives their tables per level and the last counter, or is undefined exactly when a deletion is |
| `Manifest.Store.ApplyRecord` | src/oblsm/ob_lsm_impl.cpp:383-402 | One record adds its tables, then erases its deleted ones one by one |
| `Manifest.DeleteTakesOne` | src/oblsm/ob_lsm_impl.cpp:395-401 | A deletion is defined if and only if its level holds the id, and then removes one occurrence and nothing else |
| `Manifest.DeletionDefinedIff` | src/oblsm/ob_lsm_impl.cpp:394-401 | A deletion can be replayed after any log if and only if the log can and leaves the id on that level |
| `Manifest.HighIdCannotBeDeleted` | src/oblsm/ob_lsm_impl.cpp:386-401 | The deletion of a table whose id does not fit a non-negative `int` is never defined, not even right after the record that added it |
| `Manifest.SnapshotTableCannotBeDeleted` | src/oblsm/ob_lsm_impl.cpp:377-410 | In a log that starts with a snapshot, the deletion of a table of which the records leave no entry on its level makes the log unreadable, whatever the snapshot and the records hold |
| `Manifest.BuildRecorded` | src/oblsm/ob_lsm_impl.cpp:298-301 | A build record adds what an `int` keeps of its id to level 0 of what the log means, and moves the counter |
| `Manifest.IdRoundTrip` | src/oblsm/ob_manifest.h:112-123 | An id survives storing as `int` and loading as `uint64_t` if and only if it is below 2^31 or at least 2^64 - 2^31 |
| `Manifest.SnapshotLog` | src/oblsm/ob_manifest.cpp:303-348 | A new manifest with a snapshot and a memtable record means that snapshot |

## Left out

- Unfinished parts of oblsm: skip-list insertion and search, block decoding, reading blocks and tables from files, the table builder, compaction, the write-ahead log, transactions, the bloom filter and the block cache. Only what they are documented to return is used.
- LsmTable.MemIterator.Seek: represents the skip-list search by a scan of the sorted list with the documented result, because the search is not implemented in the source.
- `seek_to_last` and `find_largest`: `ObUserIterator::seek_to_last` only invalidates the iterator, so nothing above uses them.
- `new_merging_iterator` returns a single child unwrapped; a merge over one child behaves the same.
- LsmStore.RunHolds: each write, freeze and flush is one step, as under the store's mutex; the locking itself, the waiting of `put` and restarts are not modelled (what a restart leaves depends on the missing write-ahead log), and 64-bit sequence numbers do not wrap.
- LsmStore.FlushKeeps: takes the table as one that holds the memtable's versions in order, the documented result of the unfinished table builder; the levels are one list of tables, as `new_iterator` flattens them.
- LsmRead.Get: models the lookup on a given fresh iterator; `get` takes the store's mutex twice, which is not modelled.
- LsmUser.UserIterator.Seek: requires the target length plus 8 to fit the 64-bit length prefix, which every C++ string does.
- The recovered sequence number and memtable ids: they depend on the missing write-ahead log.
- Manifest.RunStore: the 64-bit id counter does not wrap.
- Runs with compactions: runs have builds and restarts only, and assume the unfinished compaction code to be finished. As it stands, `ObCompactionPicker::create` returns null for a LEVELED store, on which `try_major_compaction` calls `pick` after every build, and for a TIRED store the empty `do_compaction` drops every picked table. No operation writes deletions; replay itself handles them. The TIRED store writes no records.
- The JSON text and the bytes of the manifest, the parsing of CURRENT, failing file operations and crashes inside an operation: the manifest is a sequence of records and restarts come between operations.
- The 64 written-out lines of the MD5 transform: `Md5Block` has the table form of section 3.4 of RFC 1321, and its constants are not derived.
- Md5.DigestOfFile: takes the contents of the file; a file that cannot be opened is not modelled.
- Calendar.DateTime.AddDuration: for negative durations only termination is proved, because C remainders there leave the month outside 1..12; 32-bit overflow of the sums is not modelled.
- `parse_duration` and all other text parsing of dates.
- SharedMutex: fairness and the order in which woken threads run are not assumed, so no thread is shown to be served eventually.
- LockTrace: logging, `checkLockTimes`, and races between the pthread calls and their recording.
- RingBuffer.RingBuffer.ReadPos: computes in unbounded integers; RingBuffer.ReadSumFitsIff says for which capacities `int32_t` is enough.
- BufferedWriter.Device.Write: a descriptor that asks for retries forever is left out, because flushing then never ends; every finite pattern of partial writes, retries and failures is covered.
- LruCache: the cast of a key to a node for the index lookup (the index is a map by key), `destroy`, `pop`, `reserve` and freeing of nodes.
- GroupBy: the hash function and the order in which a bucket is visited are parameters; the order may depend on the keys inserted and the key looked up. VECTORS and BOOLEANS keys, rounding of floats (they are reals), overflow of integer sums, and the linear-probing table are left out.
- GroupBy.ScanAll: takes the iteration order of the hash map as a parameter that lists every entry once.
- ExprColumn.BinaryOperator: returns the result as a value instead of filling the result column in place; signed overflow is taken as two's-complement wrap-around in row and column evaluation alike. Only ADD, SUB and MUL are integer column operators: DIV always gives floats, and negation has its own loop.
- ExprColumn.Eval: INTS columns only; FLOATS columns compare exactly while rows compare with an epsilon, and CHARS and VECTORS columns compare row by row with the row comparison itself. References to precomputed columns and `CastExpr::get_column` are not modelled.
- Crc.Crc32: bytes are unsigned; the source's `char` may be signed, which the mask with 0xff makes irrelevant.
- The SQL front end, planner and executors, records, indexes and the buffer pool, network protocols, configuration and command-line clients: easier members or real input and output.
