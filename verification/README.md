# zrtools verification

A Dafny model of the stateful and arithmetic cores of zrtools, with proofs of what they promise.
`dafny verify dfyconfig.toml` checks all of it.

| part | files |
|---|---|
| checksum and log entry | `Common`, `Bits`, `Bytes`, `CrcTable`, `Folds`, `Crc32`, `WalEntry` |
| shared-memory ring | `Positions`, `RingSpec`, `RingLemmas`, `RingReaders`, `ShmRing`, `RingDamage`, `RingProtocol`, `RingSafety`, `RingRuns`, `RingSteps` |
| double-buffered checkpoint | `Checkpoint`, `CheckpointSafety`, `ShmCheckpoint` |
| byte buffer and message queue | `BlockList`, `UltraBuf`, `UltraQ` |
| identifier generator | `BitNat`, `Snowflake`, `SnowflakeProtocol`, `SnowflakeGenerator` |
| calendar and time | `Calendar`, `EpochTime`, `DateTime` |
| log files | `WalNames`, `WalFormat`, `WalDirectory`, `WalFile`, `WalRuns` |

## How the parts fit

**Ring.** `ShmRing` is the class over a byte array; its methods are proved against functions on the
`Ring` value of `RingSpec` and on the cells that `Parse` decodes from the bytes alone. `RingProtocol`
lets the producer store its bytes in any order, next to one consumer; either side may stop anywhere and
be started again on the ring as it stands. `RingSafety` states what every step keeps, `RingRuns` what
holds in every run, and `RingSteps` shows that the undisturbed operations are such runs. `RingDamage`
is about readers of a ring in which bytes of a stored entry were damaged.

- In every run the distance of the cursors is bounded, unconfirmed bytes are stable and the numbers are
  accounted for, those included that a stopped producer had taken.
- Three flags record what the source does not prevent. A wrap with 8 or 16 bytes left writes no marker
  although readers decode a header there. A confirmation that starts at such a gap may end behind the
  write position, which `RingRuns.GuardedInPlace` rules out while confirmations walk over cells that
  decode. And the test for room looks at the confirmed position, so an entry may take the place of
  unread ones that were confirmed.
- While every wrap is marked, the window decodes and a recovery finds exactly what no confirmation has
  passed. Delivery is first-in first-out when moreover every place ends by one buffer behind the read
  position, for which reading before confirming is enough. `RingSteps.LapExactly` shows for a place that
  starts there that the order is then lost. A place that starts before it and ends behind it puts bytes
  of the new entry where the next header is read, and it depends on those bytes what is delivered.

**Checkpoint.** `Checkpoint` has one step per atomic access and per copied word, in any order of words,
for one writer and any number of readers. The class `ShmCheckpoint` performs the undisturbed operations
and `WriteAsSteps`, `ReadAsSteps` and `ReadOfReachable` place them in the protocol.

**UltraBuf and UltraQ.** Both are classes over linked blocks of a symbolic size. Ghost sequences name
the used and the free blocks; the invariants say that the lists are disjoint and without repetition,
that the counters are their lengths, that inner blocks are full (UltraBuf) or hold whole frames
(UltraQ), and that the content size is the sum. `UltraBuf.Run` and `UltraQ.Interleave` make calls in
any sequence and in any interleaving of the two locked sections of each call.

**Snowflake.** Field widths, thresholds, server and epoch are parameters. Shifts, masks and bitwise or
are defined on naturals in `BitNat` and shown to place fields beside each other. The protocol has any
number of threads, arbitrary clock readings and an exchange that may fail spuriously.

**Calendar.** The three conversions are functions with the rounding of C division and 32-bit unsigned
wrap-around; `NextDay`, `IsLeap` and `DaysInMonth` are the reference they are compared with.

**WAL files.** A directory maps names to bytes. The writer adds bytes; the reader and the scan parse
them. Ghost parts name the records of each file. `WalRuns.Run` restarts, appends, closes and truncates
in any sequence.

## What a caller may not expect

- Entry 111 of the checksum table differs from the polynomial (`Crc32.TableIsPolynomial`,
  `Crc32.StandardExactly`).
- A wrap that leaves 8 or 16 bytes writes no marker (`RingLemmas.UnmarkedWrapExample`), and a
  confirmation across such a gap can pass the write position (`RingSteps.ConfirmedPastWrite`).
- An entry of type 0 is accepted and numbered and never delivered (`RingSafety.TypedEntry`).
- An entry confirmed before it is read may be replaced unread (`RingSteps.ConfirmedUnread`).
- `copy_content` stops at a drained head block (`UltraBuf.CopyOfDrainedHead`).
- The cap on blocks is looked at once per push (`UltraBuf.CapExceeded`), and the error code of a rejected
  push is also a length (`UltraBuf.RejectionOrLength`).
- An empty message pushed to UltraQ is accepted with the answer 0, which also means full; pulled, it
  answers 0, which also means empty (`UltraQ.ZeroAnswers`).
- Before 1970 and off midnight the clock fields are negative and the way back loses a day
  (`EpochTime.EpochRecovered`); epoch -1 is also the mark of an empty cache (`DateTime.StaleCache`).
- A log file without records counts as holding its first number, so a restart right after a start
  skips a number (`WalRuns.NextAfterRestart`).
- A log writer that was not initialised has no current file to spare (`WalRuns.ReusedNumber`,
  `WalRuns.NextAfterTruncation`); one that is initialised while its file is open hands out numbers and
  stores nothing (`WalRuns.OpenedTwice`).
- Log files are read in the order of their names, so file 10 before file 9 (`WalNames.TenBeforeNine`).

## Model

| member | source | states |
|---|---|---|
| `Crc32.Calc` | src/zrtools/zrt_crc32.h:33-42 | The loop over the table computes the checksum that all properties below are about, with the values of the next rows. |
| `Crc32.OneByteValues` | src/zrtools/zrt_crc32.h:33-42 | The checksums of the one-byte messages 0x00, 0x61 and 0x90 as numbers, which fix the start of the register and the final inversion. |
| `Crc32.CheckValue` | src/zrtools/zrt_crc32.h:33-42 | The checksum of the nine digits "123456789" is 0xCBF43926. |
| `Crc32.Update` | src/zrtools/zrt_crc32.h:52-62 | Feeding a message in pieces, starting from 0, gives the checksum of the whole message; a first piece with checksum 0 is no exception. |
| `Crc32.TopBytesDistinct` | src/zrtools/zrt_crc32.h:78-122 | The 256 top bytes of the table are distinct, the one fact about the table that error detection needs. |
| `Crc32.DetectsWindow` | src/zrtools/zrt_crc32.h:33-42 | Two strings of equal length that differ, and only inside four consecutive bytes, have different checksums. |
| `Crc32.TableIsPolynomial` | src/zrtools/zrt_crc32.h:78-122 | Every table entry but number 111 is that of the reflected polynomial of IEEE 802.3; entry 111 is not. |
| `Crc32.StandardExactly` | src/zrtools/zrt_crc32.h:33-42 | The checksum is the bit-serial one of RFC 1952, section 8, with its register started at and inverted with 0xFFFFFFFF, exactly when the accumulated defects of entry 111 cancel: always when the entry is not looked up, never when it is looked up once. |
| `Crc32.StandardCheckValue` | src/zrtools/zrt_crc32.h:19-24 | The standard it is compared with has the published check value, 0xCBF43926 for "123456789". |
| `Crc32.NotStandard` | src/zrtools/zrt_crc32.h:97 | A one-byte message on which the two checksums differ. |
| `WalEntry.DecodeEncode` | src/zrtools/zrt_wal_entry.h:24-32 | A header whose fields fit their widths is read back from its 24 bytes unchanged. |
| `WalEntry.HeaderLayout` | src/zrtools/zrt_wal_entry.h:24-32 | Byte by byte: the number, the time, the type and the length lie at bytes 0, 8, 16 and 18 of the header, each as its digits to the base 256, lowest first. |
| `WalEntry.CrcLayout` | src/zrtools/zrt_wal_entry.h:24-32 | The checksum lies at bytes 20 to 23, lowest byte first. |
| `WalEntry.DamageDetected` | src/zrtools/zrt_wal_entry.h:73-89 | Damage to the data of a valid entry, confined to four consecutive bytes, fails ValidateCrc. |
| `ShmRing.ShmRing.Reset` | src/zrtools/zrt_shm_ring.h:411-426 | Cursors, counters and the buffer are back in the state the protocol starts from. |
| `ShmRing.ShmRing.Append` | src/zrtools/zrt_shm_ring.h:107-184 | The method on the byte array, recursion and 64-bit arithmetic included, has exactly the outcome of the ring function, whose properties are the next rows, also when the confirmed position has passed the write position. |
| `RingSpec.FullExactly` | src/zrtools/zrt_shm_ring.h:114-131 | The test for room, with its wrap-around in 64-bit words, is the test on the positions; when the confirmed position has passed the write position, an entry is accepted exactly when it reaches past it. |
| `ShmRing.ShmRing.WriteEntry` | src/zrtools/zrt_shm_ring.h:166-176 | Fields, data, then the checksum of the data in the buffer: together the bytes of one encoded entry. |
| `RingSpec.WrapShape` | src/zrtools/zrt_shm_ring.h:143-162 | With the confirmed position in place, a wrap keeps the cursors aligned and the unconfirmed bytes within the buffer, and starts from an offset above 0, so that Append calls itself at most once. |
| `RingLemmas.AppendKeepsWindow` | src/zrtools/zrt_shm_ring.h:107-184 | Append never changes a byte between the confirmed and the write position and never exceeds the buffer, also when a marker is written and the retry then finds the buffer full, and also when the confirmed position has passed the write position. |
| `RingLemmas.AppendParses` | src/zrtools/zrt_shm_ring.h:107-184 | Readers decode after an Append what they decoded before, a skip cell if it wrapped, and the new entry if it was stored. The window can be decoded exactly when the Append did not wrap without room for a marker. |
| `RingLemmas.AppendAccounts` | src/zrtools/zrt_shm_ring.h:134-183 | next_seq is 1 + total_entries + wrap_count; a returned number is new, 0 is returned exactly when nothing was stored, and a wrap costs one number even when the retry fails. |
| `RingLemmas.AppendExactly` | src/zrtools/zrt_shm_ring.h:107-184 | Every outcome of Append on literal numbers and bytes: rejected and unchanged; stored at the write position when the aligned size fits before the end; otherwise a marker if 24 bytes are left, and then stored at offset 0 or rejected. All cursors and counters, the decoded header with the checksum of the data, the data behind it, and every other byte unchanged. |
| `RingLemmas.StoredCell` | src/zrtools/zrt_shm_ring.h:166-176 | The bytes of a stored entry decode to its header and data. |
| `RingLemmas.MarkerCell` | src/zrtools/zrt_shm_ring.h:146-154 | A skip marker decodes to a cell without number that reaches exactly the end of the buffer. |
| `RingLemmas.UnmarkedWrapExample` | src/zrtools/zrt_shm_ring.h:143-162 | A wrap 16 bytes before the end writes no marker; the entry behind it is stored and cannot be reached. |
| `ShmRing.ShmRing.ReadNext` | src/zrtools/zrt_shm_ring.h:204-252 | Delivers the first cell from the read position on that has a number, a type and the checksum of its whole data, cut to the caller's room; every cell passed over lacks one of these; the others stay; false exactly when no such cell is left. |
| `RingReaders.EntriesSealed` | src/zrtools/zrt_shm_ring.h:218-236 | The cells the readers deliver, as the protocol counts them, are exactly those with a number, a type and the checksum of their data, in order. |
| `RingReaders.ThroughSealed` | src/zrtools/zrt_shm_ring.h:218-236 | Each cell passed over before the delivered one lacks a number, a type or the checksum of its data. |
| `RingReaders.ThroughFirst` | src/zrtools/zrt_shm_ring.h:220-251 | Passing cells up to the first entry delivers that entry and leaves exactly the entries after it. |
| `ShmRing.ShmRing.ReadUnconfirmed` | src/zrtools/zrt_shm_ring.h:261-304 | Returns, up to the limit, the first cells of the unconfirmed window that have a number, a type and the checksum of their whole data, and no other cell. |
| `RingDamage.DamagedParse` | src/zrtools/zrt_shm_ring.h:218-236 | Any change to up to four consecutive bytes of the data of a stored entry: the window decodes to the same cells but one, which keeps its header and loses its checksum. |
| `RingDamage.AppendedDamaged` | src/zrtools/zrt_shm_ring.h:107-236 | After an Append that stored an entry, such damage to its bytes leaves readers everywhere in the window exactly the entries they found before the Append. |
| `RingDamage.ReadNextDamaged` | src/zrtools/zrt_shm_ring.h:204-252 | On the byte array: after the damage ReadNext passes over the entry and delivers the next intact one, and leaves the others. |
| `RingDamage.ReadUnconfirmedDamaged` | src/zrtools/zrt_shm_ring.h:261-304 | On the byte array: after the damage ReadUnconfirmed returns the other entries, up to the limit, and not the damaged one. |
| `RingDamage.DamagedByte` | src/zrtools/zrt_shm_ring.h:107-304 | A byte 5 is stored and damaged to 4: ReadUnconfirmed is empty and ReadNext false; a byte 7 stored afterwards is what ReadNext delivers. |
| `ShmRing.ShmRing.Confirm` | src/zrtools/zrt_shm_ring.h:311-337 | Leaves ReadUnconfirmed exactly the entries numbered above s if s occurs in the window, and changes nothing otherwise. |
| `RingReaders.ConfirmLeaves` | src/zrtools/zrt_shm_ring.h:319-336 | The early exit on a larger number is right across skip markers because numbers grow along the window. |
| `ShmRing.ShmRing.ConfirmBatch` | src/zrtools/zrt_shm_ring.h:344-370 | Drops exactly the first k entries of a window of valid entries and markers. |
| `RingReaders.BatchDrops` | src/zrtools/zrt_shm_ring.h:353-369 | Counting cells with a number and a type passes exactly the first k entries. |
| `RingSafety.WindowStable` | src/zrtools/zrt_shm_ring.h:107-370 | No step of producer or consumer changes an unconfirmed byte, whatever the wraps, the order of confirming and reading, and the path of the confirmed position. |
| `RingSafety.CoreKept` | src/zrtools/zrt_shm_ring.h:107-370 | Every step, a restart of either side included, keeps write_pos at most a buffer ahead of confirmed_pos, the exact account of numbers, the growth of the numbers and the cells appended under them. |
| `RingSafety.Kept` | src/zrtools/zrt_shm_ring.h:107-370 | Every step keeps the chain of the unconfirmed window, what is confirmed and what is left, and what is delivered and what is unread. |
| `RingRuns.NeverOverwritten` | src/zrtools/zrt_shm_ring.h:113-179 | In every run, write_pos is at most a buffer ahead of confirmed_pos and no unconfirmed byte is overwritten. |
| `RingRuns.OccupancyExactly` | src/zrtools/zrt_shm_ring.h:311-370 | Bookkeeping for the next row: the flag that records a confirmation behind write_pos is down exactly when confirmed_pos stays behind write_pos in all states, so that their difference is the space used. |
| `RingRuns.GuardedInPlace` | src/zrtools/zrt_shm_ring.h:311-370 | confirmed_pos stays behind write_pos when every confirmation walks over cells that decode, and whenever every wrap had room for a marker. |
| `RingSteps.ConfirmedPastWrite` | src/zrtools/zrt_shm_ring.h:143-162 | A run on a ring of 64 bytes: behind an unmarked wrap a confirmation ends at 96 while write_pos is 88. |
| `RingRuns.NumbersAccounted` | src/zrtools/zrt_shm_ring.h:134-183 | In every run, the numbers of the cells appended strictly increase and their data and checksums are intact; the numbers returned strictly increase and are numbers of such cells; between calls next_seq = 1 + total_entries + wrap_count + the numbers that stopped producers had taken and not counted. |
| `RingRuns.WindowParses` | src/zrtools/zrt_shm_ring.h:107-226 | In every run whose wraps had room for a marker, the bytes from confirmed_pos to write_pos decode as one chain of markers and checksum-valid entries with growing numbers, ending exactly at write_pos. |
| `RingRuns.FirstInFirstOut` | src/zrtools/zrt_shm_ring.h:204-252 | When moreover no place was taken that ends more than one buffer behind the read position, the consumer has received exactly the first entries among the cells appended, in order, once each, with their bytes, over any number of wraps and whatever was confirmed; all of them when it has caught up. The entries are all the cells exactly when no type is 0. |
| `RingRuns.ReadFirstInOrder` | src/zrtools/zrt_shm_ring.h:204-370 | A run in which nothing is confirmed before it is read takes no such place, so that delivery is in order. |
| `RingSteps.LapExactly` | src/zrtools/zrt_shm_ring.h:113-131 | For an Append that does not wrap, while an entry waits, and whose place ends by one buffer behind the read position or starts there: the next ReadNext keeps the order exactly when the place ends by then; otherwise it delivers the new entry before the one that waits. |
| `RingRuns.DisorderStays` | src/zrtools/zrt_shm_ring.h:204-252 | An entry delivered in the place of another one stays there in every later state. |
| `RingSafety.TypedEntry` | src/zrtools/zrt_shm_ring.h:220-230 | A stored entry is delivered exactly when its type is not 0. |
| `RingSteps.ConfirmedUnread` | src/zrtools/zrt_shm_ring.h:126-131 | A run on a ring of one entry: an entry confirmed unread is replaced, and the consumer receives the second entry twice and the first one never. |
| `RingRuns.RecoveryFinds` | src/zrtools/zrt_shm_ring.h:261-304 | In every run whose wraps had room for a marker, what was confirmed and what a recovery finds are together exactly the entries appended, in order and once each: no unconfirmed entry is missing, wherever either side stopped or was started again. |
| `RingSafety.StoppedProducer` | src/zrtools/zrt_shm_ring.h:107-184 | Only the publication of an entry changes what a recovery finds, and it adds exactly that entry, unless its type is 0; a producer that stops before it or is started again leaves the visible log as it was. |
| `RingSteps.AppendAsSteps` | src/zrtools/zrt_shm_ring.h:107-184 | An undisturbed Append is a run of the protocol that ends in the state of the ring function, so method and protocol agree. |
| `RingSteps.ReadNextAsSteps` | src/zrtools/zrt_shm_ring.h:204-252 | An undisturbed ReadNext is a run that copies cell by cell through the first entry, as the contract of the method says. |
| `RingSteps.ConfirmsAsSteps` | src/zrtools/zrt_shm_ring.h:311-370 | Undisturbed Confirm and ConfirmBatch are steps to the positions their contracts name, and confirm the entries on the way. |
| `CheckpointSafety.Kept` | src/zrtools/zrt_shm_checkpoint.h:126-181 | Every step of the writer or of any reader keeps the invariant, for words copied in any order. |
| `CheckpointSafety.ReadReturnsOneWrite` | src/zrtools/zrt_shm_checkpoint.h:165-181 | A Read that succeeds returns, word for word, the argument of Write number k with n <= k <= m + 1, for n Writes published when it began and m when it ended, the fallback to the other slot included. |
| `CheckpointSafety.ReadOfStoppedWriter` | src/zrtools/zrt_shm_checkpoint.h:165-181 | A Read during which no Write is published succeeds once one was published before, and returns the last published one, wherever the writer stopped. |
| `CheckpointSafety.FailedRead` | src/zrtools/zrt_shm_checkpoint.h:165-181 | A Read that fails although something was published when it loaded active has seen at least two publications. |
| `CheckpointSafety.VersionCounts` | src/zrtools/zrt_shm_checkpoint.h:188-194 | After n published Writes active is n mod 2 and the version 2 * ((n + 1) / 2). |
| `CheckpointSafety.ReadEnds` | src/zrtools/zrt_shm_checkpoint.h:278-306 | A reader in the middle of a Read can always move, and every move it has uses up a rank: each Read ends. |
| `ShmCheckpoint.ShmCheckpoint.Write` | src/zrtools/zrt_shm_checkpoint.h:126-149 | The inactive slot takes the words and two steps of its counter and becomes active; the other slot stays, field by field. |
| `ShmCheckpoint.ShmCheckpoint.Read` | src/zrtools/zrt_shm_checkpoint.h:165-181 | The active slot if its counter is even and above 0, else the other one on the same condition, else nothing. |
| `ShmCheckpoint.ShmCheckpoint.TryReadSlot` | src/zrtools/zrt_shm_checkpoint.h:278-306 | Succeeds exactly on an even counter above 0 and then returns the words of the slot. |
| `ShmCheckpoint.ShmCheckpoint.Reset` | src/zrtools/zrt_shm_checkpoint.h:206-216 | Both slots and active are zero, the state the runs start from. |
| `ShmCheckpoint.ReadOfReachable` | src/zrtools/zrt_shm_checkpoint.h:126-181 | In every reachable state with a published Write, an undisturbed Read finds the last published one. |
| `ShmCheckpoint.WriteAsSteps` | src/zrtools/zrt_shm_checkpoint.h:126-149 | An undisturbed Write is a run of the protocol that ends in the state of the method. |
| `ShmCheckpoint.ReadAsSteps` | src/zrtools/zrt_shm_checkpoint.h:165-181 | An undisturbed Read is a run of one reader from any reachable state, which returns what the contract of the method names. |
| `ShmCheckpoint.AttemptAsSteps` | src/zrtools/zrt_shm_checkpoint.h:278-306 | An attempt on a slot under an odd counter loads the counter exactly three times and gives up; an unused slot is given up at once; any other one is copied and returned. |
| `UltraBuf.UltraBuf.constructor` | src/zrtools/ultrabuf.cpp:12-18 | One empty block, nothing free, no content. |
| `UltraBuf.UltraBuf.Push` | src/zrtools/ultrabuf.cpp:35-68 | Rejected with 11 and without any change exactly when there is a cap, it is reached, and the bytes fill the last block; otherwise appends exactly the bytes and answers their number; the blocks in use grow by the number of blocks that fill up, recycled ones first; the list invariants hold; the cap on blocks is kept exactly when that number leaves room, so by every push of at most one block. |
| `UltraBuf.OneByteAccepted` | src/zrtools/ultrabuf.cpp:35-68 | One byte pushed to an empty buffer with a cap of one block of 4096 bytes is stored. |
| `UltraBuf.UltraBuf.FillBlocks` | src/zrtools/ultrabuf.cpp:43-66 | The loop fills whole blocks until the rest leaves room in the tail; the number of rounds is the quotient by the block size. |
| `UltraBuf.UltraBuf.Pull` | src/zrtools/ultrabuf.cpp:95-123 | Removes and returns the first bytes, as many as asked for and there are; drained blocks join the free list and the number of blocks stays the same. |
| `UltraBuf.UltraBuf.Read` | src/zrtools/ultrabuf.cpp:70-93 | Copies the first min(size, length) bytes and changes nothing. |
| `UltraBuf.UltraBuf.CopyContent` | src/zrtools/ultrabuf.cpp:182-192 | Returns the whole content exactly when the head holds unread bytes or there is no content; otherwise the empty string. |
| `UltraBuf.CopyOfDrainedHead` | src/zrtools/ultrabuf.cpp:187 | One byte waits behind a drained head and the copy is empty. |
| `UltraBuf.UltraBuf.ShrinkToFit` | src/zrtools/ultrabuf.cpp:169-176 | Every free block goes; the content stays. |
| `UltraBuf.CapKept` | src/zrtools/ultrabuf.cpp:137-143 | A push of at most one block that is not rejected keeps the number of blocks within the cap. |
| `UltraBuf.CapExceeded` | src/zrtools/ultrabuf.cpp:35-43 | A push of two blocks exceeds a cap of two. |
| `UltraBuf.RejectionOrLength` | src/zrtools/ultrabuf.cpp:36-38 | Of two pushes of the same 11 bytes the first stores them and the second stores nothing, and both return 11. |
| `UltraBuf.Run` | src/zrtools/ultrabuf.cpp:35-123 | Over any sequence of calls, what was there and what was accepted is what was taken and what is left, in order; without a cap everything is accepted. |
| `UltraQ.FirstFrame` | src/zrtools/ultraq.h:183-187 | The length field alone cuts the first message off a run of frames. |
| `UltraQ.UltraQ.EmptyMeansEmpty` | src/zrtools/ultraq.h:199-203 | The test on head, tail and two indices holds exactly when no message waits. |
| `UltraQ.UltraQ.Push` | src/zrtools/ultraq.h:117-150 | Answers 0 exactly when full (a cap that is reached, and a frame of 8 bytes and the message that fills the last block) or for a message without bytes, -1 when it is not full and the frame never fits a block, and otherwise the length; a rejected message changes nothing, an accepted one goes to the end of the queue. |
| `UltraQ.UltraQ.PushLocked` | src/zrtools/ultraq.h:127-149 | The section under the second lock appends the message within one block, keeps the cap, and links a block exactly when the tail is full. |
| `UltraQ.UltraQ.PushImpl` | src/zrtools/ultraq.h:153-163 | The 8 bytes of the length, lowest first, and then the message follow the bytes of the last block; the body is counted. |
| `UltraQ.UltraQ.Pull` | src/zrtools/ultraq.h:166-190 | Removes and returns the first message; an empty queue answers 0 and is left alone; 0 is the answer exactly for an empty queue or a first message without bytes. |
| `UltraQ.ZeroAnswers` | src/zrtools/ultraq.h:117-190 | Concrete queues: a rejected message, an accepted one without bytes, that message pulled, and an empty queue all answer 0, and only the accepted one was stored. |
| `UltraQ.UltraQ.PullLocked` | src/zrtools/ultraq.h:172-189 | The section under the second lock skips at most one block, never runs off the list, and leaves a queue that is not full not full. |
| `UltraQ.Interleave` | src/zrtools/ultraq.h:117-190 | One producer and one consumer, each call in two locked sections, in any interleaving: the negative answers of the tests stay valid until the second lock, and what was sent is what was received and what waits, in order. |
| `Snowflake.DecideAdvances` | src/zrtools/zrt_snowflake.h:111-172 | For any clock reading: an attempt that goes on has a stamp after the one in the state, refusal starts exactly at the error threshold, the next millisecond is awaited exactly when the sequence numbers of the last timestamp are used up and the reading is at it or behind within the tolerance, and the timestamp is the later of the two. |
| `Snowflake.DecideExactly` | src/zrtools/zrt_snowflake.h:111-172 | The whole decision on quotient and remainder of the state word: a reading past the last timestamp is used at once with sequence number 0; one at it or behind within the tolerance counts on, or waits when the numbers are used up; from the tolerance on it is retried, and from the error threshold on refused. |
| `Snowflake.StateFields` | src/zrtools/zrt_snowflake.h:112-113 | Timestamp and sequence number are read back from the state word. |
| `Snowflake.StateOrder` | src/zrtools/zrt_snowflake.h:175 | State words are ordered as their stamps. |
| `Snowflake.PackValue` | src/zrtools/zrt_snowflake.h:195-197 | The three fields lie beside each other and the identifier stays below 2^63, for every legal split of the bits. |
| `Snowflake.ParsePacked` | src/zrtools/zrt_snowflake.h:212-219 | parseId recovers timestamp, server and sequence number, also when the offset from the epoch wraps. |
| `Snowflake.PackOrder` | src/zrtools/zrt_snowflake.h:183-197 | Identifiers are ordered as their stamps. |
| `Snowflake.ServersDiffer` | src/zrtools/zrt_snowflake.h:195-197 | Identifiers of different servers differ, whatever their epochs. |
| `SnowflakeProtocol.StepKept` | src/zrtools/zrt_snowflake.h:106-203 | Every step of any thread keeps the invariant, for any clock reading and spurious failures of the exchange. |
| `SnowflakeProtocol.IdsIncrease` | src/zrtools/zrt_snowflake.h:106-203 | In every run, the identifiers of all threads are distinct and increase in the order of the successful exchanges. |
| `SnowflakeProtocol.PerTimestamp` | src/zrtools/zrt_snowflake.h:151-172 | The stamps of one timestamp lie together, at most MAX_SEQUENCE + 1 of them. |
| `SnowflakeProtocol.IdsParse` | src/zrtools/zrt_snowflake.h:182-219 | Every identifier returned is below 2^63 and parses to its stamp and server; its timestamp is a reading some thread has taken. |
| `SnowflakeProtocol.ServersApart` | src/zrtools/zrt_snowflake.h:195-197 | In any two runs, generators of different servers return different identifiers. |
| `SnowflakeProtocol.LogKept` | src/zrtools/zrt_snowflake.h:178-197 | A successful exchange keeps its place, and a result once returned stays. |
| `SnowflakeGenerator.Generator.Create` | src/zrtools/zrt_snowflake.h:80-87 | A server id that does not fit its field is refused, and only then. |
| `SnowflakeGenerator.IdExactly` | src/zrtools/zrt_snowflake.h:106-203 | Without failures of the exchange, a call returns an identifier exactly when the first clock reading that does not ask for a retry leads to a stamp, at once or after waiting, whose offset from the epoch fits. |
| `SnowflakeGenerator.EndExactly` | src/zrtools/zrt_snowflake.h:182-197 | An identifier is packed exactly when the offset from the epoch, modulo 2^64, fits its field; it is the weighted sum of its fields and is parsed back to them. |
| `SnowflakeGenerator.FirstReading` | src/zrtools/zrt_snowflake.h:111-197 | Without failures, a first reading past the last timestamp decides the call at once: an identifier exactly when the offset fits, and it parses to that reading and sequence number 0. |
| `SnowflakeGenerator.Generator.NextId` | src/zrtools/zrt_snowflake.h:106-203 | The method reads a script of clock values in order and is a run of one thread of the protocol; when the first reading is past the last timestamp and nothing fails, it reads the clock once and its identifier parses to that reading and sequence number 0; it adds its identifier to the log exactly when it returns one, and how it ends is the function of the state word and the script that the previous rows are about. |
| `SnowflakeGenerator.Generator.WaitNextMillis` | src/zrtools/zrt_snowflake.h:280-286 | Ends with the first reading above the timestamp, if there is one; every reading before it is not above. |
| `Calendar.SuccessorDay` | src/zrtools/zrt_time.h:189-196 | The day number of the next date is one more, for every date of the proleptic Gregorian calendar. |
| `Calendar.DaysIncrease` | src/zrtools/zrt_time.h:189-196 | Day numbers are ordered as the dates and equal only for equal dates. |
| `Calendar.YearOfDay` | src/zrtools/zrt_time.h:238-241 | The division with its corrections finds the year within an era and a day of that year. |
| `Calendar.CivilRight` | src/zrtools/zrt_time.h:227-246 | Every day number, negative ones too, gives a valid date with that number. |
| `Calendar.CivilOfDays` | src/zrtools/zrt_time.h:189-246 | Every valid date is recovered from its day number. |
| `Calendar.KnownDays` | src/zrtools/zrt_time.h:189-196 | The day numbers of seven dates: leap days, a century without one, dates before 1970. |
| `EpochTime.CivilClock` | src/zrtools/zrt_time.h:222-225 | The clock fields are valid exactly from 1970 on and at midnights before. |
| `EpochTime.EpochRecovered` | src/zrtools/zrt_time.h:199-269 | fast_timegm recovers the epoch from civil_from_epoch_utc exactly from 1970 on and at midnights before; elsewhere it loses a day. |
| `EpochTime.OneSecondBefore` | src/zrtools/zrt_time.h:222-231 | At epoch -1 the seconds are -1 and the way back gives -86401. |
| `EpochTime.TmRecovered` | src/zrtools/zrt_time.h:199-269 | A valid date and time is recovered from its epoch exactly when that epoch is regular, so for every year from 1970 on. |
| `EpochTime.EpochSign` | src/zrtools/zrt_time.h:199-214 | Valid dates with a nonnegative epoch are those from 1970 on. |
| `EpochTime.WeekdayRight` | src/zrtools/zrt_time.h:250-252 | tm_wday is the right weekday exactly from 1970 on and at midnights before. |
| `EpochTime.DayOfYearRight` | src/zrtools/zrt_time.h:256-259 | tm_yday is the number of days since the first of January of the same year. |
| `EpochTime.SecondsSinceTheEpoch` | src/zrtools/zrt_time.h:217-269 | For every epoch from 0 on the fields satisfy the formula of section 4.16 of POSIX.1-2017 XBD. |
| `EpochTime.DayShift` | src/zrtools/zrt_time.h:217-246 | Adding whole days to any epoch moves the date by as many calendar days. |
| `DateTime.DateTime.UpdateTM` | src/zrtools/zrt_time.h:475-489 | After it the cached fields are those of the epoch, unless the epoch is -1 and the cache is empty. |
| `DateTime.DateTime.GetHMS` | src/zrtools/zrt_time.h:337-340 | Hour, minute and second in decimal, of the broken-down time of any epoch; from 1970 on and at midnights before they are those of the day. |
| `DateTime.DateTime.GetYmd` | src/zrtools/zrt_time.h:342-345 | Year, month and day in decimal; they are the date of the epoch, before 1970 as well. |
| `DateTime.SetterReadsBack` | src/zrtools/zrt_time.h:353-393 | When the date and time a setter aims at exist, the new epoch stands for that date, and for that time of day exactly when the new epoch is regular, so always from 1970 on; whatever the old epoch was. |
| `DateTime.TmStandsFor` | src/zrtools/zrt_time.h:199-269 | For any fields whose date exists, the epoch is the day number in seconds plus the time of day, and both are read back from it. |
| `DateTime.DateTime.SetDay` | src/zrtools/zrt_time.h:367-372 | The day of the old fields is replaced, and nothing else: when the date exists the new epoch is the second of that date and time of day, which are read back from it; the nanoseconds stay. The other setters have the same contract for their fields. |
| `DateTime.DateTime.OffsetDay` | src/zrtools/zrt_time.h:400-404 | The date moves by whole days across months and years, the time of day stays, and the cache is dropped. |
| `DateTime.DateTime.OffsetNano` | src/zrtools/zrt_time.h:432-438 | The sum is exact, with nanoseconds of the sign of the whole time. |
| `DateTime.StaleCache` | src/zrtools/zrt_time.h:308-345 | A fresh object at epoch -1 answers 19000100 for 1969-12-31. |
| `WalNames.ParseName` | src/zrtools/zrt_wal_file.h:212-255 | The number in a file name is read back when the prefix holds neither underscore nor dot. |
| `WalNames.NameText` | src/zrtools/zrt_wal_file.h:212-213 | The text of two names: "wal_907.wal" and "log_0.wal". |
| `WalNames.NameOrder` | src/zrtools/zrt_wal_file.h:319 | The order of two file names, for any numbers: with equally many digits that of the numbers; otherwise the shorter number is compared with as many leading digits of the longer one, and comes first when they are equal. |
| `WalNames.TenBeforeNine` | src/zrtools/zrt_wal_file.h:319 | File 10 is sorted before file 9. |
| `WalFormat.ScanEncoded` | src/zrtools/zrt_wal_file.h:332-350 | Records written back to back are found again, all of them and unchanged. |
| `WalFormat.ScanTorn` | src/zrtools/zrt_wal_file.h:332-350 | Behind whole records, less than a header is ignored, a header with number 0 ends the scan, and a header whose data is cut off is taken with zeros for the rest. |
| `WalFormat.FileHeaderRead` | src/zrtools/zrt_wal_file.h:26-33 | The first number is read back from the file header behind an accepted mark. |
| `WalFormat.HeaderValues` | src/zrtools/zrt_wal_file.h:26-33 | What stands in each field of a written header: mark, version 1, first number, number of records, time, and 32 zeros. |
| `WalFormat.MagicExactly` | src/zrtools/zrt_wal_file.h:264-265 | Exactly two beginnings of a file are accepted: the bytes of 0x5A524657 and those of 0x57414C46. |
| `WalFormat.RecordsExactly` | src/zrtools/zrt_wal_file.h:325-350 | The records of a file are those of the scan behind its 64 bytes of header when it begins with one of the two marks, and none otherwise. |
| `WalFormat.GetLastSeqInFile` | src/zrtools/zrt_wal_file.h:257-278 | The scan returns the last number found behind either of the two marks, the first number of a file without records, 0 with another beginning; for any bytes. |
| `WalFile.WalFileWriter.LastNumber` | src/zrtools/zrt_wal_file.h:78-88 | The scan of Init finds the last number of the last file in whatever order the directory lists its files. |
| `WalFile.WalFileWriter.Init` | src/zrtools/zrt_wal_file.h:68-91 | A new file is started behind the last number, under a name that does not exist, so no file is truncated; it holds a header with the mark, that number, no records and the time. When a file is open, the second opening fails, nothing changes in the directory, and the writer refuses records from then on. |
| `WalFile.WalFileWriter.Append` | src/zrtools/zrt_wal_file.h:96-131 | Returns a number above all numbers handed out for stored records before and adds to the current file 24 bytes that decode to the number, the time, the type, the length and the checksum of the data, and then the data; 0 and no change when no file is open; a number and no change when a second opening has failed. |
| `WalFile.WholeRecord` | src/zrtools/zrt_wal_file.h:108-113 | The record that Append writes consists of the number, the time, the type, the length and the checksum of the data, and the data itself; it fits its header and passes ValidateCrc, without data as well. |
| `WalFile.RecordBytes` | src/zrtools/zrt_wal_file.h:108-121 | The bytes of a record behind those of the file: what was there, a header that decodes to these fields, the data. |
| `WalFile.WalFileWriter.Close` | src/zrtools/zrt_wal_file.h:155-161 | Only the header of the current file is written again, now with the number of its records and the time; nothing after a failed second opening. |
| `WalFile.WalFileWriter.TruncateBefore` | src/zrtools/zrt_wal_file.h:190-208 | Deletes exactly the log files that end before the number, except the current one, and counts them; files with another extension stay. An initialised writer keeps the directory valid; another one does so exactly when no number was handed out or the last stored number is to be kept. |
| `WalFile.PartsDeleted` | src/zrtools/zrt_wal_file.h:190-208 | A stored part is deleted exactly when its last number is below the given one and it is not the current file. |
| `WalDirectory.SurvivorsHold` | src/zrtools/zrt_wal_file.h:194-206 | Every record numbered from the given number on is in a file that stays. |
| `WalFile.WalFileReader.ReadAfter` | src/zrtools/zrt_wal_file.h:307-354 | Returns the wanted records file by file in the order of the sorted names, the first ones up to the limit, for any contents of the directory; exactly the files with the extension .wal are listed, and those that begin with either mark are read. Without a limit, on a directory the writer keeps, exactly the stored records above the number, each once, and with rising numbers exactly when the names of the files that hold such records are in the order of the numbers. |
| `WalDirectory.ReadsEach` | src/zrtools/zrt_wal_file.h:307-354 | On a directory the writer keeps, each stored record above the number is returned, and once, in whatever order the files are read. |
| `WalDirectory.OneOrder` | src/zrtools/zrt_wal_file.h:313-319 | The sorted list of log files is the same for any order of the directory. |
| `WalRuns.Run` | src/zrtools/zrt_wal_file.h:68-208 | Over any run of restarts, appends, closings and truncations, the records appended are those of the accepted calls, one for each in order, with their type, bytes, checksum and time; numbers strictly increase and are never used again, and every appended record that no truncation may drop is stored. |
| `WalRuns.RunAndRead` | src/zrtools/zrt_wal_file.h:68-354 | A reader after such a run returns every appended record above its number that no truncation may have dropped, with the bytes that were put. |
| `WalRuns.NextAfterRestart` | src/zrtools/zrt_wal_file.h:68-91 | The first number after a restart follows the last number of the directory; a record carries that one exactly when the last file has records, so a start without records costs a number. |
| `WalRuns.OpenedTwice` | src/zrtools/zrt_wal_file.h:68-131 | A number handed out after a second opening is handed out again after a restart. |
| `WalRuns.NextAfterTruncation` | src/zrtools/zrt_wal_file.h:190-208 | After a truncation by a writer that was not initialised, the next number is above all numbers handed out exactly when there were none or the last stored number was to be kept. |
| `WalRuns.ReusedNumber` | src/zrtools/zrt_wal_file.h:190-208 | With one record stored, a truncation behind it by a writer that was not initialised hands its number out again. |

## Left out

- Weak memory: atomic operations are sequentially consistent steps, and the fences of the memory orders are not modelled.
- Shared-memory creation, mapping, locking in memory and the null checks of an object that failed to initialise; a ring or a checkpoint starts from its reset state.
- A checkpoint writer restarted after it stopped on an odd counter: the parity of the slot is then inverted and nothing repairs it, so runs have one writer that may stop for ever.
- Overflow of the 64-bit positions and counters of the ring, and of sequence numbers in log files; `Representable` and the bounds in the preconditions say so.
- RingProtocol: what a walk reads at an unmarked gap lies outside the buffer; its step is any length a header can announce.
- RingProtocol: the consumer copies an entry once and checks the copy, while the source reads the bytes of the header and the data more than once; unread bytes do not change under the condition for the order of delivery, so the readings agree.
- Damage to the header of a ring entry, or to its data beyond four consecutive bytes: the checksum covers the data alone and need not notice the latter.
- Null data pointers with a length above 0: data is a byte sequence. Output buffers of callers are result sequences.
- Append with an alignment other than 8 and the masking form of AlignUp, which is modelled by division.
- WalEntryBuilder: the same header, data and checksum as WriteEntry, in a buffer of its own.
- Destructors, GetTotalSize, capacities, printing, logging and counters of events.
- UltraBuf and UltraQ destructors and the memory that delete returns: released blocks only leave the free list.
- Two producers or two consumers on one UltraQ: the tests are made under an earlier lock and are not repeated, so the claims need one of each.
- Snowflake clock readings of 2^(64 - SequenceBits) or more, which lose bits in the state word; sleeping and yielding; progress, which depends on a clock that advances.
- The 32-bit fields of struct tm: years outside the range of int are not truncated. The time zone fields and local time are left out.
- OffsetHour, OffsetMin, OffsetSec, OffsetMSec, OffsetUSec, differences and comparisons of DateTime in the table: sums like OffsetNano.
- Flushing and partial writes of log files: bytes are in the directory at once, and a restart follows Close. Failures to create a directory or a file.
- File names of other writers in the log directory, signs and spaces before a number in a name, and prefixes with an underscore or a dot.
- The algorithm of std::sort: insertion stands for it; the sorted list is unique.
- io_pool_v2, BMIC macros, LockedHashMap, LockDeque, DirectShm, Bollinger bands, rounding, string formatting, hashing, random numbers and kronos: delegation, floating point or easy members.
