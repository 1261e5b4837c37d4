# TsunamiDB storage core: a verified model

TsunamiDB keeps a key-value table as one byte file, a sharded key index and a free list of byte
ranges, protects the index with a log and a snapshot, and offers incremental tables (files of
fixed-size records with a secondary key index), a pointer resolver over stored JSON objects, and a
subscription registry. This project models these parts and proves what they keep.

Code that works in place is modelled by classes, arrays and loops proved against specification
functions; the interleavings of concurrent parts are modelled by step machines, one for the value
store, one for the log, and one for both with restarts.

| files | part of the system |
|---|---|
| `Bytes`, `Files` | machine integers, little-endian fields, a file as a growable byte array |
| `Codec`, `IncEntry` | value frame, table metadata record, fixed-size record with marker byte |
| `FreeLists`, `KvFile`, `KvTable` | best-fit free list, batched writes, Save / Free / Read of one table |
| `ExtentMachine` | any number of savers interleaving: who owns each byte of the file |
| `Wal`, `Text`, `WalText` | log operations, replay, and their text lines |
| `Shards`, `TableIndex`, `WalMachine` | sharded index, log writer, snapshot, rotation, restart, import |
| `StoreRestart` | the two machines together: what a restart does to the value store |
| `IncFile`, `IncRows`, `IncWorker` | record files, their row-list meaning, batches and the worker loop |
| `IncIndex`, `KeyedRows`, `IncRead` | row key index, keys on rows, decoded reads |
| `IncMeta`, `IncTable` | table metadata as values of the key-value table, the handlers over all of it |
| `Pointers`, `Resolver` | traversal paths, pure expansion, the recursive resolver |
| `Subscriptions` | the two maps of subscriptions |

## What is proved

- **Value store.** A table refines a map from keys to byte strings over Save, Free and Read
  (`KvTable`). Underneath, no step of any saver gives a byte of the file two of the roles live, in
  flight, retired and free, except a batch of two or more writes at the end of the file, which
  always does (`ExtentMachine.StepKeepsInvExactly`). So over every interleaving of savers in which
  no two saves share such a batch, the check behind a write never changes the free list, and the
  branch that skips freeing an identical range is never taken; two saves that do share one can reach
  that branch (`ExtentMachine.CrowdReachesSameSpan`). In every step, such batches included, bytes
  get lost in exactly two ways, the unused tail of a block that was too large and a free block whose
  key is reused (`ExtentMachine.LostExactly`).
- **Log and snapshot.** Over every interleaving of clients, log writer, per-shard snapshot, rotation
  and restarts, as long as no rotation loses a line, replaying file, buffer and queue over the
  snapshot gives memory back. A step breaks this exactly when it is a rotation and some key changed
  after its shard was scanned, is no longer queued, and has another entry than the scanned one
  (`WalMachine.StepKeepsInvExactly`); a run that loses a flushed save this way is given in
  `WalMachine.LateSaveIsLost`. The log text reads back as itself exactly when all operations in it
  are clean.
- **Restart of the value store.** The free list is written at once, an index entry only with the
  log. For every save the model remembers what was saved under which key and extent, and what became
  of the extent. A restart leaves extents disjoint and holding what was saved under the recovered
  entries exactly when none of these extents is in the free list, and none was taken by a later
  write, unless it has the same bytes all the same, and no free block and no other recovered entry
  has any of them (`StoreRestart.RestartExactly`). Store and log stay consistent over every run,
  except that a shared batch at the end of the file, a rotation that loses a line and such a restart
  always break it (`StoreRestart.StepKeepsInvExactly`); and keys without an operation under way keep
  their extents and bytes (`StoreRestart.RunRestarts`).
- **Incremental tables.** The in-place record algorithms act as list operations on rows; a batch
  acts as these operations sorted by kind; deletion is a barrier in the worker loop. Keys stay on
  their rows over every run of appends, inserts and overwrites, and a single save breaks this
  exactly when it inserts a row without key in front of a row with key.
- **Resolver.** It terminates on cyclic databases, fetches the target of a pointer once at most (the
  root again if it is met), computes the pure expansion, and fails exactly when two different paths
  meet the same id.
- **Codecs.** Each round trip is stated with the exact condition under which it holds.
- **Subscriptions.** The two maps stay inverse, nothing of a closed connection stays behind, and
  counting by connection or by key gives the same total.

## Where the code and its own description differ

The model follows the code; each point is a lemma or a contract below.

- Decoding a frame of pointer width 8 (values of 4 GiB less two bytes and more) reads the start
  pointer but never assigns it, so the value comes back with two zero bytes behind it
  (`Codec.RoundTripExactly`).
- A metadata record with an empty file name does not parse, because a read of nothing at the end of
  the input is an error; the check of the name's length truncates to 32 bits
  (`Codec.MetaThroughFrameExactly`).
- Writes of one batch that go to the end of the file all get the same offset
  (`KvFile.BatchDisjointExactly`, `KvFile.SecondWriteWins`).
- Rotation removes log lines that were written after their shard was scanned
  (`WalMachine.LateSaveIsLost`).
- A restart can bring back an index entry whose extent has been freed, so that it is live and free
  at once (`StoreRestart.FreedEntryComesBack`), or given to another key, so that a read returns that
  key's bytes (`StoreRestart.ReusedExtentComesBack`).
- What a table imports from the old shared files is in none of its own files before its first
  snapshot, and the log file that exists from then on prevents a second import: a restart before the
  first snapshot loses every imported key that was not saved or deleted again in the meantime
  (`TableIndex.ImportLostExactly`; an import that is not empty is `TableIndex.OneImported`).
- The branch of `enqueueWal` that gives up after five seconds is never taken, because the default
  branch beside it is always ready.
- A close request that reaches the file worker inside a batch is dropped without an answer, and the
  worker goes on; exactly which close ends it is `IncWorker.Worker.Loop` with
  `IncWorker.ClosedOnce`, a dropped one is `IncWorker.CloseBehindRequest`.
- A logged delete of a key that ends in a carriage return comes back without it
  (`WalText.LogRoundTripExactly`).
- A skip mark sets the pointer bit even when the record is too short to hold the pointer
  (`IncEntry.SkipRoundTripExactly`).
- An out-of-range id makes the save wrapper read an id from missing data and panic; exactly when a
  save panics is `KeyedRows.PanicsExactly`, a request that does `KeyedRows.BadIdPanics`.
- An overwrite with a key that another row has changes the row before it reports the conflict: which
  unsuccessful saves leave the rows alone is `KeyedRows.RefusedUnchangedExactly`, one that does not
  `KeyedRows.ConflictAfterWrite`.
- The resolver never takes an id off its visited set, so an object that two fields share counts as a
  loop (`Resolver.SharedTargetIsLoop`). Inside one `ReadPtrAll` its cache is asked for every id that
  was not visited, and never has an answer.
- A table name with a slash can give two stored targets one id; the cache that serves the traversals
  of one `ReadPtrSome` then answers with the wrong one's value (`Resolver.MistakenTarget`).
- `keysByRegex` panics on a negative maximum.
- The file worker counts from the bottom by default, the save handler passes "top" instead.

## Model

| member | source | states |
|---|---|---|
| Codec.Encode | encoding/v1/encoding.go:13-75 | every payload is encoded as its frame, and the two pointers are returned |
| Codec.FrameLayout | encoding/v1/encoding.go:17-66 | byte by byte: version 1, the smallest of the widths 1, 2, 4, 8 that can hold the end pointer, start pointer 2, the end pointer lowest byte first, the payload |
| Codec.Decode | encoding/v1/decoding.go:19-84 | decoding any input, truncated fields reading as zero and a negative length panicking |
| Codec.UnframePanicsExactly | encoding/v1/decoding.go:25-81 | decoding panics if and only if the end pointer is smaller than the start pointer or, in the widest frame, 2^63 or more |
| Codec.UnknownWidth | encoding/v1/decoding.go:25-66 | an input without one of the four widths decodes to its version and no data |
| Codec.CutFrame | encoding/v1/decoding.go:25-81 | what decoding makes of every prefix of a frame |
| Codec.UnframeFrame | encoding/v1/decoding.go:25-81 | what every encoded value decodes to: itself, or itself and two zero bytes from 4 GiB on |
| Codec.RoundTripExactly | encoding/v1/decoding.go:25-81 | decoding undoes encoding if and only if length plus 2 is below 2^32 |
| Codec.StructToBytes | servers/public-api/v1/routes/inc_save.go:24-46 | entry size, name length and name in order; names of 4 GiB and more are refused |
| Codec.MetaLayout | servers/public-api/v1/routes/inc_save.go:24-46 | byte by byte: eight of the entry size, four of the name's length, lowest first, the name |
| Codec.BytesToStruct | servers/public-api/v1/routes/inc_save.go:48-72 | parsing any input, with the 32-bit truncated length check and the error at the end of input |
| Codec.ParseMetaExactly | servers/public-api/v1/routes/inc_save.go:48-72 | an input parses to a record if and only if it begins with its bytes, is longer than twelve bytes and passes the truncated check |
| Codec.ParseMetaRefuses | servers/public-api/v1/routes/inc_save.go:48-72 | which inputs are too short and which names too long |
| Codec.MetaRoundTripExactly | servers/public-api/v1/routes/inc_save.go:24-72 | the record parses back to itself if and only if the file name is not empty |
| Codec.MetaThroughFrameExactly | servers/public-api/v1/routes/inc_save.go:191-243 | metadata survives the value frame if and only if the name is not empty and shorter than 2^32-2 |
| IncEntry.EncodeIncEntry | encoding/v1/encode_inc_entry.go:33-56 | padding, marker 1 and payload right-aligned in entrySize + 3 bytes, for any 64-bit entry size with its wrapped total; nil exactly when the payload or the total does not fit |
| IncEntry.SetSkipIncEntry | encoding/v1/encode_inc_entry.go:61-76 | marks a record in place: both control bits, the pointer bytes only in records of nine bytes and more |
| IncEntry.SkipLayout | encoding/v1/encode_inc_entry.go:61-76 | a mark changes the two lowest bits of the control byte and, from nine bytes on, the pointer bytes, lowest first, and nothing else |
| IncEntry.DecodeIncEntry | encoding/v1/encode_inc_entry.go:82-131 | decoding any input with any 64-bit entry size: length check, skip and pointer, payload behind the first marker, the panic of an index out of range |
| IncEntry.ParseAny | encoding/v1/encode_inc_entry.go:82-131 | for any input: what is refused, what the two control bits mean, and where payload and pointer come from |
| IncEntry.FirstMarker | encoding/v1/encode_inc_entry.go:109-123 | the payload is what follows the first byte 1 |
| IncEntry.NoMarker | encoding/v1/encode_inc_entry.go:109-123 | without a byte 1 the payload is empty |
| IncEntry.RecordRoundTrip | encoding/v1/encode_inc_entry.go:33-131 | every payload up to entrySize comes back, bytes equal to the marker included |
| IncEntry.RecordInjective | encoding/v1/encode_inc_entry.go:33-56 | different payloads have different records |
| IncEntry.SkipRoundTripExactly | encoding/v1/encode_inc_entry.go:61-131 | a marked record decodes as skipped, and the pointer comes back if and only if it is 0 or entrySize is at least 6 |
| IncEntry.ZerosAreEmpty | encoding/v1/encode_inc_entry.go:109-123 | a row of zero padding reads as an empty payload |
| FreeLists.FreeList.MarkAsFree | data/defragmentationManager/defragmentationManager.go:144-168 | the block replaces whatever was free under the same key |
| FreeLists.FreeList.GetBlock | data/defragmentationManager/defragmentationManager.go:170-215 | a smallest block that is large enough is taken whole; none is found exactly when none fits |
| FreeLists.FreeList.SaveBlockCheck | data/defragmentationManager/defragmentationManager.go:217-282 | some containing block is carved; nothing changes if and only if no block of the file contains the range |
| FreeLists.CarvedPieces | data/defragmentationManager/defragmentationManager.go:241-272 | the pieces that are left, with their ranges, sizes and keys, and no other change |
| FreeLists.UniqueContainer | data/defragmentationManager/defragmentationManager.go:234-275 | at most one block contains a range, so the map's order does not matter |
| FreeLists.CarvedWellFormed | data/defragmentationManager/defragmentationManager.go:241-272 | carving keeps blocks disjoint and their sizes right |
| FreeLists.CarvedFree | data/defragmentationManager/defragmentationManager.go:241-272 | which bytes are free after carving, byte by byte |
| FreeLists.CarveSubtractsExactly | data/defragmentationManager/defragmentationManager.go:241-272 | carving subtracts exactly the written range if and only if the split key was not in use |
| KvFile.WriteBatch | data/dataManager/v2/fileManager.go:425-462 | one batch of writes, empty ones included: the choice of the block, all offsets, the new file, the rest of the free list unchanged where blocks do not overlap |
| KvFile.WriteParts | data/dataManager/v2/fileManager.go:454-460 | the writes one by one, each check behind them changing nothing |
| KvFile.SpanInside | data/dataManager/v2/fileManager.go:454-460 | no free block contains a range that was just written |
| KvFile.SaveDataToFile | data/dataManager/v1/saveData.go:31-98 | the single-write path makes the same choice with the same result |
| KvFile.BatchDisjointExactly | data/dataManager/v2/fileManager.go:432-452 | the ranges of a batch are disjoint if and only if a block was found or there is one write |
| KvFile.SecondWriteWins | data/dataManager/v2/fileManager.go:441-451 | of two writes at the end of the file the second reads back as itself, the first as the second as far as that reaches |
| KvFile.WriteSurvivesExactly | data/dataManager/v2/fileManager.go:441-460 | of any number of writes at the end of the file, one reads back as itself if and only if every byte of it that is overwritten last gets the same value |
| KvFile.ReadRange | data/dataManager/v2/fileManager.go:575-589 | a read of an invalid range fails, others return the bytes, zero-filled behind the end |
| ExtentMachine.StepKeepsInvExactly | lib/export/save.go:20-35 | a step of a saver or a free keeps extents disjoint, in the file, and holding their values if and only if it is not a batch of several writes at the end of the file |
| ExtentMachine.CrowdReachesSameSpan | data/dataManager/v2/fileManager.go:441-451 | two saves of one key and length in one batch at the end of the file: the second finds its own range in the index, and the first one's entry names the second one's bytes |
| ExtentMachine.SameSpanUnreachable | lib/export/save.go:28-35 | where roles are disjoint, the range just written is never the one the key already has, so the skip branch is dead in runs without shared end-of-file batches |
| ExtentMachine.LostExactly | data/defragmentationManager/defragmentationManager.go:160-214 | any step, shared end-of-file batches included, loses exactly the unused tail of the block it takes and the free block whose key it reuses |
| ExtentMachine.RunKeepsInv | lib/export/save.go:13-38 | the invariant over every run of interleaved savers and frees in which no two saves share a batch at the end of the file |
| ExtentMachine.OneRolePerByte | data/fileSystem/v1/mapManager.go:308-320 | in every state such a run reaches, no byte has two of the roles live, in flight, retired, free |
| ExtentMachine.ExtentsHoldLastSaved | lib/export/read.go:20-47 | in every state such a run reaches, each indexed extent holds the bytes last swapped in for its key |
| KvTable.KvTable.Save | lib/export/save.go:13-38 | the map gains exactly the saved value; the state is the one the three steps produce; empty names change nothing |
| KvTable.SaveChanges | lib/export/save.go:13-38 | entry by entry and byte by byte what a save changes in file, index and free list, and what it leaves |
| KvTable.KvTable.Put | servers/public-api/v1/routes/inc_save.go:191-227 | a value saved without the check of the names, as metadata is: the same new state |
| KvTable.SaveIsThreeSteps | lib/export/save.go:20-35 | an undisturbed save is write, swap and mark of the machine |
| KvTable.KvTable.Free | lib/export/free.go:11-20 | the map loses exactly the key, the state is the one of the machine's free step, a missing key changes nothing |
| KvTable.KvTable.Read | lib/export/read.go:20-47 | a read returns the value of the key in the map, or not found |
| KvTable.ReadBack | lib/export/read.go:33-47 | the indexed extent is inside the file and decodes to the value |
| KvTable.SaveThenRead | lib/export/read.go:20-47 | a saved value is read back if and only if it is below 4 GiB less 2 bytes; other keys are not affected |
| Text.AtoiItoa | data/fileSystem/v1/mapManager.go:220-221 | printed numbers parse back |
| Text.AtoiExactly | data/fileSystem/v1/mapManager.go:220-221 | a text is read as n if and only if n is a 64-bit integer and the text is its decimal digits, with zeros in front and a sign allowed |
| Text.ItoaCanonical | data/fileSystem/v1/mapManager.go:452-453 | printed numbers have no superfluous zero or sign |
| Wal.ReplayAt | data/fileSystem/v1/mapManager.go:247-275 | replaying a log leaves each key with its last operation |
| Wal.ReplaySuffixIdempotent | data/fileSystem/v1/mapManager.go:182-201 | replaying a log suffix over its own result changes nothing |
| WalText.ParseProper | data/fileSystem/v1/mapManager.go:247-276 | every log of clean names reads back, deleted keys without a final carriage return |
| WalText.LogFormat | data/fileSystem/v1/mapManager.go:449-457 | the text of the log, character by character |
| WalText.SnapFormat | data/fileSystem/v1/mapManager.go:555-561 | the text of the snapshot, character by character |
| WalText.ParseCons | data/fileSystem/v1/mapManager.go:212-276 | files are read line by line; a line that is not understood adds nothing |
| WalText.LastLine | data/fileSystem/v1/mapManager.go:212-276 | text behind the last newline is a line, too |
| WalText.ReadPutLine | data/fileSystem/v1/mapManager.go:254-271 | a log line with key, file and numbers counts if and only if they make a range |
| WalText.ReadSnapEntry | data/fileSystem/v1/mapManager.go:213-232 | the same for a line of the snapshot |
| WalText.ReadDelLine | data/fileSystem/v1/mapManager.go:272-274 | a deletion takes its first field and ignores further ones |
| WalText.OtherLines | data/fileSystem/v1/mapManager.go:247-276 | lines with another tag, another number of fields or without numbers are skipped |
| WalText.LogRoundTripExactly | data/fileSystem/v1/mapManager.go:449-465 | a printed log reads back as itself if and only if every operation is clean |
| WalText.SnapshotRoundTripExactly | data/fileSystem/v1/mapManager.go:555-561 | printed snapshot lines rebuild the map if and only if all its names are clean and ranges valid |
| TableIndex.TableIndex.StoreKey | data/fileSystem/v1/mapManager.go:308-320 | the shards change as one map does and the old entry is returned |
| TableIndex.TableIndex.DeleteKey | data/fileSystem/v1/mapManager.go:322-334 | the same for a removal |
| TableIndex.TableIndex.LoadEntry | data/fileSystem/v1/mapManager.go:336-343 | a lookup in one shard is a lookup in the union |
| Shards.FnvVector | data/fileSystem/v1/mapManager.go:302-306 | the hash of one published test string |
| TableIndex.TableIndex.SaveElement | data/fileSystem/v1/mapManager.go:345-358 | a range that is negative, empty or backward is an error and changes nothing; others are stored and become the last pending operation, and texts and recoverability are kept |
| TableIndex.TableIndex.RemoveElement | data/fileSystem/v1/mapManager.go:360-363 | the removal becomes the last pending operation; texts and recoverability are kept |
| TableIndex.TableIndex.EnqueueWal | data/fileSystem/v1/mapManager.go:403-415 | the operation becomes the last pending one; with 100000 queued the buffer is flushed and one is taken first; recoverable again behind the change of the shard |
| TableIndex.TableIndex.WriteOne | data/fileSystem/v1/mapManager.go:417-465 | the oldest queued operation becomes a buffered line; texts and pending operations stay the same |
| TableIndex.TableIndex.FlushWal | data/fileSystem/v1/mapManager.go:467-473 | the buffer moves to the file; the pending operations stay the same |
| TableIndex.TableIndex.ScanShards | data/fileSystem/v1/mapManager.go:554-561 | the snapshot text lists every entry of all shards |
| TableIndex.TableIndex.WriteSnapshot | data/fileSystem/v1/mapManager.go:546-591 | afterwards snapshot and queue alone rebuild the index, whatever the files held before, if redoing the queue changes nothing |
| TableIndex.QueueReplays | data/fileSystem/v1/mapManager.go:585-613 | redoing what is queued over the whole result changes nothing |
| TableIndex.TableIndex.RotateWal | data/fileSystem/v1/mapManager.go:593-613 | log and buffer may be dropped when the snapshot and the queue rebuild the index |
| TableIndex.TableIndex.Load | data/fileSystem/v1/mapManager.go:180-306 | loading replays the log over the snapshot, malformed lines skipped; with neither file, the entries of the table in the shared files are imported |
| TableIndex.FromFilesExactly | data/fileSystem/v1/mapManager.go:180-201 | what the two files give a key is its last operation, those of the log behind those of the snapshot |
| TableIndex.ImportedExactly | data/fileSystem/v1/mapManager.go:279-291 | an imported key has the effect of the last operation on it that is a deletion or an entry of the table's own file, the shared log behind the shared snapshot |
| TableIndex.ImportedHasOwn | data/fileSystem/v1/mapManager.go:279-291 | and no key is imported without such an entry |
| TableIndex.ImportedIsOwn | data/fileSystem/v1/mapManager.go:279-291 | no entry of another table's file is imported |
| TableIndex.FilesRebuild | data/fileSystem/v1/mapManager.go:182-277 | parsing both files of clean names gives what they were printed from |
| TableIndex.Restart | data/fileSystem/v1/mapManager.go:182-201 | a restart with empty queue and buffer rebuilds the same index |
| TableIndex.ImportLostExactly | data/fileSystem/v1/mapManager.go:180-306 | for every clean log, the files of a table without snapshot rebuild an imported index if and only if the log mentions every imported key |
| TableIndex.OneImported | data/fileSystem/v1/mapManager.go:279-291 | a clean entry of the table in the shared snapshot is imported |
| TableIndex.ImportIsLost | data/fileSystem/v1/mapManager.go:180-306 | import, any operations on clean names, flush, restart: the indexes before and after are the same if and only if every imported key was saved or deleted again |
| TableIndex.ImportThenSnapshot | data/fileSystem/v1/mapManager.go:546-591 | after the first snapshot the imported index is in the files |
| TableIndex.TableIndex.KeysByRegex | data/fileSystem/v1/mapManager.go:386-400 | distinct matching keys, all of them for 0, else the smaller of the maximum and the number of matches; a negative maximum panics |
| WalMachine.StepKeepsInvExactly | data/fileSystem/v1/mapManager.go:345-613 | a step of client, writer, snapshot worker or restart keeps memory recoverable if and only if it is not a rotation that loses a line |
| WalMachine.RotateExactly | data/fileSystem/v1/mapManager.go:593-613 | rotation keeps memory recoverable if and only if each key changed since its scan is still queued or back at its scanned entry |
| WalMachine.RunKeepsInv | data/fileSystem/v1/mapManager.go:546-613 | the invariant over every run whose rotations meet the exact condition |
| WalMachine.RunRecovers | data/fileSystem/v1/mapManager.go:182-277 | at every point of such a run replaying file, buffer and queue over the snapshot gives memory |
| WalMachine.RestartLosesOnlyUnflushed | data/fileSystem/v1/mapManager.go:182-201 | a restart loses exactly the operations not yet in the file, in flight ones included: redoing them gives memory back, other keys are untouched |
| WalMachine.DrainedRestartIsExact | data/fileSystem/v1/mapManager.go:467-482 | after drain and flush a restart rebuilds memory |
| WalMachine.LateSaveIsLost | data/fileSystem/v1/mapManager.go:585-613 | a concrete run that loses a flushed save for good |
| StoreRestart.RestartExactly | data/fileSystem/v1/mapManager.go:182-277 | after a restart extents are disjoint, in the file and hold what was saved under the recovered entries if and only if none is in the free list and none was taken by a write, unless it has the same bytes and no free block and no other recovered entry has any of them |
| StoreRestart.StepKeepsInvExactly | lib/export/save.go:28-35 | a step of store, log or restart keeps the two consistent if and only if it is no shared end-of-file batch, no rotation that loses a line and no restart that breaks that condition |
| StoreRestart.RunKeepsInv | data/defragmentationManager/defragmentationManager.go:144-168 | over every run of such steps, an extent that was not freed is live or about to be freed, a freed one is in the free list or nobody's, and all of these hold what was saved |
| StoreRestart.RunRestarts | data/fileSystem/v1/mapManager.go:449-482 | at every point of such a run a key without an operation under way keeps its extent and the bytes saved last through a restart |
| StoreRestart.FlushedKeyIsSafe | data/fileSystem/v1/mapManager.go:449-473 | the recovered extent of a key all of whose operations are in the log file was never freed |
| StoreRestart.FreedEntryComesBack | data/defragmentationManager/defragmentationManager.go:144-168 | two saves of a key, the second not yet logged: after a restart the first extent is live and free at once |
| StoreRestart.ReusedExtentComesBack | data/defragmentationManager/defragmentationManager.go:170-215 | the freed extent is given to another key before the restart: the recovered entry then names that key's bytes |
| IncFile.InsertRow | data/dataManager/v2/fileManager.go:287-325 | the reverse copy inserts one record and shifts the ones behind it, none overwritten before it is copied |
| IncFile.Pad | data/dataManager/v2/fileManager.go:247-257 | a file with an incomplete record is zero-filled to whole records |
| IncFile.DoPositional | data/dataManager/v2/fileManager.go:228-368 | insert and overwrite with their checks, top and bottom addressing, and the reply |
| IncFile.InsertPlaces | data/dataManager/v2/fileManager.go:258-326 | the bytes after an insert: from the bottom the id counts the rows in front of the new one, from the top the rows behind it; an id beyond that changes nothing |
| IncFile.OverwritePlaces | data/dataManager/v2/fileManager.go:329-362 | the bytes after an overwrite, with the row counted in the same way |
| IncFile.TopInAnyCase | data/dataManager/v2/fileManager.go:258-281 | which texts count from the top |
| IncFile.IdReplyLayout | data/dataManager/v2/fileManager.go:309-326 | the id in a reply is eight bytes, lowest first, beside the range of the row |
| IncFile.BadRequests | data/dataManager/v2/fileManager.go:228-572 | which requests are turned away, with which error |
| IncFile.DoInsert | data/dataManager/v2/fileManager.go:261-326 | an insert lands at id from the bottom or n - id from the top, or is refused |
| IncFile.DoOverwrite | data/dataManager/v2/fileManager.go:329-362 | an overwrite changes row id or n - 1 - id only, or is refused |
| IncFile.DoAppend | data/dataManager/v2/fileManager.go:371-422 | the record becomes the last one and its id is returned |
| IncFile.AppendPlaces | data/dataManager/v2/fileManager.go:371-422 | the bytes after an append, an incomplete record before it filled up with zeros |
| IncFile.DoRead | data/dataManager/v2/fileManager.go:465-572 | the three reads with their checks |
| IncFile.ReadOneRow | data/dataManager/v2/fileManager.go:488-511 | the bytes of row id, or out of range if there is none |
| IncFile.FirstCounted | data/dataManager/v2/fileManager.go:545-565 | the first N rows, or all there are, and none for zero or 2^63 and more |
| IncFile.LastCounted | data/dataManager/v2/fileManager.go:512-543 | how many of the last rows, and where they begin |
| IncFile.DoReadLast | data/dataManager/v2/fileManager.go:512-543 | the last n records, newest first, from one read in file order |
| IncRows.PerformOnRows | data/dataManager/v2/fileManager.go:211-572 | on whole records every request acts as the list operation: r[..e] + [new] + r[e..], one row replaced, one appended, none changed |
| IncRows.ReadOnRows | data/dataManager/v2/fileManager.go:465-572 | byte reads are reads of the row list |
| IncWorker.ExecuteBatch | data/dataManager/v2/fileManager.go:211-572 | a batch is carried out as all positional writes, all appends, all reads, each group in arrival order |
| IncWorker.OrderIsPermutation | data/dataManager/v2/fileManager.go:211-228 | sorting by kind keeps every request, once |
| IncWorker.OrderByKind | data/dataManager/v2/fileManager.go:211-228 | no append before a positional write, no read before either, and each kind in order of arrival |
| IncWorker.OneResponseEach | data/dataManager/v2/fileManager.go:211-572 | every request of a batch gets exactly one response |
| IncWorker.BatchOnRows | data/dataManager/v2/fileManager.go:211-572 | a batch of one record size equals the list operations in that order, responses included |
| IncWorker.Worker.DeleteTable | data/dataManager/v2/fileManager.go:142-150 | pending requests are carried out before the file is emptied |
| IncWorker.Worker.Collect | data/dataManager/v2/fileManager.go:153-170 | receives until the channel is empty without losing or repeating a request |
| IncWorker.ReceivedOneMore | data/dataManager/v2/fileManager.go:113-170 | each request and each delete is received once, in order, and nothing else |
| IncWorker.Worker.Loop | data/dataManager/v2/fileManager.go:113-184 | everything received is carried out once, in order of arrival between deletes, with one response each; the first close outside a batch ends the loop and is answered, those before it came inside batches and are dropped |
| IncWorker.ClosedOnce | data/dataManager/v2/fileManager.go:113-184 | the event that ends the loop is determined |
| IncWorker.CloseBehindRequest | data/dataManager/v2/fileManager.go:113-178 | a close alone is answered; one behind a request is dropped, with one response for the two |
| IncWorker.DeleteIsBarrier | data/dataManager/v2/fileManager.go:88-150 | whatever comes behind a delete acts on an empty table, whatever came before |
| IncWorker.AppendAfterDelete | data/dataManager/v2/fileManager.go:142-184 | in any history, the first append behind a delete gets id 0, whatever arrived before, if no positional insert comes between them or in its batch |
| IncIndex.IncIndex.Insert | data/incIndex/index.go:116-138 | the keys from the position on move up by one, a duplicate changes nothing, positions stay inverse |
| IncIndex.IncIndex.Set | data/incIndex/index.go:140-171 | the row's key is replaced; a key that another row has is refused |
| IncIndex.IncIndex.Lookup | data/incIndex/index.go:173-184 | the position of a key if and only if some row has it |
| IncIndex.IncIndex.Remove | data/incIndex/index.go:186-208 | the key and its position are removed, no other |
| IncIndex.IncIndex.EnsureLength | data/incIndex/index.go:97-101 | empty keys are added up to the length |
| IncIndex.IncIndex.ReindexFrom | data/incIndex/index.go:103-114 | the positions of exactly the keys behind are recorded anew, none for a position behind the end |
| IncIndex.IncIndex.Load | data/incIndex/index.go:51-81 | positions are each key's last place on disk |
| IncIndex.InsertShifts | data/incIndex/index.go:116-138 | an insert moves each key at or behind the position by exactly one, and no other |
| IncIndex.ShiftedInverse | data/incIndex/index.go:132-136 | recording anew from the position on restores the inverse |
| IncIndex.LatestIsInverse | data/incIndex/index.go:73-79 | loading gives an inverse if and only if no key repeats on disk |
| IncIndex.Reload | data/incIndex/index.go:51-95 | saving and loading rebuilds the same positions |
| KeyedRows.SaveKeepsBoundExactly | servers/public-api/v1/routes/inc_save.go:251-359 | a save keeps keys on their rows if and only if it does not insert a row without key in front of a row with key |
| KeyedRows.SavedId | servers/public-api/v1/routes/inc_save.go:145-359 | the answered id is the row written: counted from the bottom or else from the top, without an id the last; only an overwrite keeps the number of rows |
| KeyedRows.SavedRows | servers/public-api/v1/routes/inc_save.go:276-359 | every row after a save: the written one, and the others in their places |
| KeyedRows.SavedKeys | servers/public-api/v1/routes/inc_save.go:290-359 | every key of the index after a save |
| KeyedRows.SavedSize | servers/public-api/v1/routes/inc_save.go:174-249 | the first request fixes the entry size, and exactly who asks for another one later is warned |
| KeyedRows.ConflictExactly | servers/public-api/v1/routes/inc_save.go:251-359 | when a save answers with a conflict |
| KeyedRows.TooLongExactly | servers/public-api/v1/routes/inc_save.go:251-275 | when a save answers that the body is too long |
| KeyedRows.RunKeepsBound | servers/public-api/v1/routes/inc_save.go:251-359 | keys stay on their rows over every run without such an insert |
| KeyedRows.ByKeyFindsRow | servers/public-api/v1/routes/inc_read.go:130-167 | by_key answers with the current data of the one row that holds the key, else nothing |
| KeyedRows.SaveChangesOneKey | servers/public-api/v1/routes/inc_save.go:251-359 | a save changes the answer for no key but that of an overwritten row, however rows shift |
| KeyedRows.SavedKeyIsFound | servers/public-api/v1/routes/inc_save.go:251-359 | a saved row is found under its key |
| KeyedRows.RestartKeepsBound | data/incIndex/index.go:51-81 | a restart moves no key, though empty ones at the end may be missing on disk |
| KeyedRows.PanicsExactly | servers/public-api/v1/routes/inc_save.go:251-359 | a save panics if and only if it gets past the two checks and the entry size overflows or the row to write does not exist |
| KeyedRows.BadIdPanics | servers/public-api/v1/routes/inc_save.go:301-310 | an overwrite of the row behind the last one panics |
| KeyedRows.RefusedUnchangedExactly | servers/public-api/v1/routes/inc_save.go:251-359 | a save without success leaves the rows alone if and only if it was turned away before the write or wrote what was there |
| KeyedRows.ConflictAfterWrite | servers/public-api/v1/routes/inc_save.go:301-323 | an overwrite with another row's key reports a conflict, and the old data is gone |
| IncTable.IncTable.SaveIncremental | servers/public-api/v1/routes/inc_save.go:170-361 | file, stored metadata and index together do what the row-level save does, refusals and panics included; no other value changes |
| IncTable.IncTable.OpenOrCreate | servers/public-api/v1/routes/inc_save.go:171-250 | the first request fixes the entry size and stores the metadata as a value of the key-value table; later headers only warn |
| IncTable.IncTable.WriteEntry | servers/public-api/v1/routes/inc_save.go:276-325 | the record lands on its row and the returned id is the row's number |
| IncTable.IncTable.ReadByKey | servers/public-api/v1/routes/inc_read.go:130-167 | the data of the row that the index names for the key, or not found if it names none |
| IncTable.IncTable.ReadById | servers/public-api/v1/routes/inc_read.go:148-167 | the data of row id, else not found |
| IncTable.IncTable.ReadMany | servers/public-api/v1/routes/inc_read.go:169-297 | entry by entry the oldest or newest items; their number is N or all there are, and none for zero or 2^63 and more |
| IncTable.IncTable.DeleteIncremental | servers/public-api/v1/routes/inc_delete.go:34-73 | file, index and metadata are gone together, its extent is released, no other value changes |
| IncMeta.MetaStore.Create | servers/public-api/v1/routes/inc_save.go:174-227 | the metadata record, with the file name inc_table_, key, .tbl, becomes the value of the key, with the swap and release of any save |
| IncMeta.MetaStore.EntrySize | servers/public-api/v1/routes/inc_save.go:231-249 | the entry size read back through extent, frame and record is the one that was stored |
| IncMeta.MetaStore.Drop | servers/public-api/v1/routes/inc_delete.go:67-69 | the metadata is gone from the map, other values stay |
| IncRead.FirstEntries | servers/public-api/v1/routes/inc_read.go:169-232 | the oldest min(N, count) rows of any file, decoded, without the skipped ones |
| IncRead.Amount | data/dataManager/v2/fileManager.go:512-555 | the number asked for or all there are, and none for zero or 2^63 and more |
| IncRead.FirstRaw | data/dataManager/v2/fileManager.go:545-565 | what the first-N read returns, cut into rows |
| IncRead.LastRaw | data/dataManager/v2/fileManager.go:512-543 | what the last-N read returns, cut into rows, newest first |
| IncRead.LastEntries | servers/public-api/v1/routes/inc_read.go:233-297 | the newest min(N, count) rows, newest first |
| IncRead.ListEntries | servers/public-api/v1/routes/inc_read.go:184-225 | the decode loop over the chunks of what was read |
| IncRead.ListedExactly | servers/public-api/v1/routes/inc_read.go:204-225 | an entry is listed if and only if its row is not skipped, with the row's number and payload |
| IncRead.ListedAscends | servers/public-api/v1/routes/inc_read.go:204-225 | ids ascend and stay below the number of rows |
| Resolver.Manager.ResolveAll | data/fileSystem/v1/pointerManager.go:68-122 | terminates; success replaces every pointer by the one answer to its id, in a traversal with its own cache by the expansion; failure means an id is met twice, there also the converse |
| Resolver.Manager.ResolvePointer | data/fileSystem/v1/pointerManager.go:74-101 | one pointer: visited check, cache, missing target as null, recursion; answers are never replaced |
| Resolver.ReadPtrAll | data/fileSystem/v1/pointerManager.go:138-153 | fails if and only if two different paths meet one id; otherwise the expansion, pointer fields without their prefix; each pointer target is fetched once, and no id twice if and only if the root is not met |
| Resolver.FieldExpands | data/fileSystem/v1/pointerManager.go:68-131 | the value of one field of the result: the target of the pointer expanded, null for none |
| Resolver.ReadPtrSome | data/fileSystem/v1/pointerManager.go:156-194 | below a wanted pointer every pointer is replaced by one answer for its id, that of a stored target with the id; the expansion where no two share an id; all other fields copied; fails only if a wanted target meets an id twice, and always if all of them do |
| Resolver.FieldFollowed | data/fileSystem/v1/pointerManager.go:171-190 | the value of one wanted pointer field, and its name |
| Resolver.FieldCopied | data/fileSystem/v1/pointerManager.go:171-193 | all other fields are copied under their names |
| Resolver.IdInjective | data/fileSystem/v1/pointerManager.go:76 | without slashes in table names an id names one target |
| Resolver.SlashFreeIsOwn | data/fileSystem/v1/pointerManager.go:76 | if no table name has a slash, no pointer is mistaken for another |
| Resolver.IdsClash | data/fileSystem/v1/pointerManager.go:76 | with slashes two targets can share an id |
| Resolver.MistakenTarget | data/fileSystem/v1/pointerManager.go:156-194 | a database on which both wanted fields come back with the value of one of two targets that share an id |
| Resolver.AnswersExpand | data/fileSystem/v1/pointerManager.go:82-86 | where no pointer can be mistaken for another, cached answers are the expansions of what is asked for |
| Resolver.SharedTargetIsLoop | data/fileSystem/v1/pointerManager.go:75-80 | an object shared by two fields is reported as a loop though its expansion exists |
| Pointers.ExpansionUnique | data/fileSystem/v1/pointerManager.go:68-131 | without clashing field names the expansion is unique, so map order does not matter |
| Pointers.PointerShape | data/fileSystem/v1/pointerManager.go:53-65 | a pointer is an array of exactly two strings, key and table |
| Pointers.PrefixIsStripped | data/fileSystem/v1/pointerManager.go:124-131 | a pointer field loses the prefix $ptr_ |
| Pointers.OtherNamesStay | data/fileSystem/v1/pointerManager.go:68-131 | all other fields keep their names |
| Pointers.PointersInArraysStay | data/fileSystem/v1/pointerManager.go:102-119 | two strings inside an array are no pointer |
| Subscriptions.Registry.Enable | servers/subscriptions/subServer.go:192-219 | keys wait under the auth key; no keys is an error |
| Subscriptions.Registry.Expire | servers/subscriptions/subServer.go:207-216 | an auth key that nobody brought in time is forgotten, nothing else |
| Subscriptions.Registry.Connect | servers/subscriptions/subServer.go:303-322 | a new connection gets its lock and its done channel |
| Subscriptions.Registry.Join | servers/subscriptions/subServer.go:364-387 | the connection gains exactly the waiting keys, once, and the auth key is used up |
| Subscriptions.Registry.CleanupConn | servers/subscriptions/subServer.go:123-155 | no trace of the connection stays in the four maps, nothing else changes, no empty set stays |
| Subscriptions.Registry.TakeKey | servers/subscriptions/subServer.go:268-283 | the key leaves both maps and its subscribers are returned |
| Subscriptions.Registry.Disable | servers/subscriptions/subServer.go:263-300 | only the key's subscriptions and broken subscribers go; the number told is returned |
| Subscriptions.Registry.NotifyDeleteAndRemove | servers/subscriptions/subServer.go:468-496 | the same for a deleted key |
| Subscriptions.Registry.StatsSnapshot | servers/subscriptions/subServer.go:37-54 | the total is the number of pairs of key and connection; clients, keys and waiting auth keys are counted |
| Subscriptions.SameTotal | servers/subscriptions/subServer.go:48-52 | counting by connection or by key gives the same total in any order |

## Left out

- Operating system effects: errors of reads, writes, seeks and renames, torn lines, scanner line limits, and fsync; a flushed line counts as durable.
- `walSyncLoop` and `waitForWalSync`, whose request counter is read after the sync, so that waiting does not imply being synced.
- Lock timing counters, and a log writer that takes more than one operation while a full queue is waited for, which is the same as further rounds of it.
- Operations of one key that are enqueued in another order than they were stored; the machine has one operation in flight for each key.
- Concurrent Free, and reads that race with the reuse of an extent; Free and Read run alone.
- Runs that go on after two saves shared a batch at the end of the file: the machine has that step, but what it proves of runs ends there.
- A free list file that is older than the free list: its writes count as durable at once.
- Sizes and positions of 2^63 and more in files, and counts that overflow.
- Table names of incremental tables of 4 GiB less two bytes and more.
- Two key-value tables that share one record file.
- IncTable.IncTable.SaveIncremental: for keys that hold incremental metadata or nothing; a key that also gets an ordinary value by the plain save, whose bytes would be parsed as metadata and may name another file, or loses its metadata by the plain free, is not modelled.
- IncTable.IncTable.OpenOrCreate: for the same keys.
- IncTable.IncTable.ReadByKey: for the same keys.
- IncTable.IncTable.ReadMany: for the same keys.
- IncTable.IncTable.DeleteIncremental: for the same keys.
- Concurrent save requests to one incremental table between row and index; the handlers run one at a time.
- Start of the file worker, what happens to its channel behind a close, and the send timeout.
- Errors of the key index's file, and keys that JSON does not store faithfully.
- Compilation of regular expressions: a pattern is a predicate on keys.
- Database errors other than a missing key, and `CreatePtrObj`.
- Which of two fields wins when prefix stripping makes their names equal: the expansion relation allows both.
- HTTP parsing, WebSocket frames, timers, pings and TTL goroutines, except that a pending key can expire at any time.
- The peer network, encryption, metrics, configuration, SQL stubs, Lua scripts and web documents.
- Resolver.ReadPtrSome: whether it fails is open when some wanted targets meet an id twice and others do not, because with a shared cache that depends on the order in which a map is ranged over.
- IncEntry.EncodeIncEntry: `make` also panics above the runtime's limit on allocations, which is far below 2^63 and depends on the platform; the model has only the panic of a negative length.
- KeyedRows.PanicsExactly: exact up to the same limit.
- TableIndex.TableIndex.KeysByRegex: a maximum beyond the same limit panics too.
- Codec.Decode: a length beyond the same limit panics too.
- TableIndex.FilesRebuild: requires clean names, the exact condition of the two text round trips.
