# MiniKV storage engine in Dafny

This project models the storage engine of MiniKV, a small log-structured
key-value store written in C++, and proves properties of that model. It
covers four parts.

- **Write-ahead log** (`wal.cpp`; modules `WalFormat`, `WalLog`).
  - Records have the form `[op:1][keyLen:2][key][valLen:2][value]`. The value part is present only for PUT (0x01).
  - Records are appended to the log file through a stream that remembers a failed write.
  - `read_all` decodes records until the first incomplete one. `clear` truncates and reopens the file; `close` closes it.
- **SSTable** (`sstable.cpp`; modules `TableFormat`, `Table`).
  - `write` serialises an `std::map` in ascending key order and builds an (key, offset, size) index in the same loop.
  - `build_index` rebuilds the index by scanning the file and skipping value bytes.
  - `binary_search_key` is `std::lower_bound` over the index.
  - `get` decodes the record at the indexed offset and checks its key.
- **KVStore** (`kvstore.cpp`; modules `StoreModel`, `Store`).
  - The memtable, its size counter `current_memtable_size_` and the list of tables.
  - `put` and `remove` log to the WAL before changing the memtable. `put` flushes when the counter exceeds 1 MiB.
  - `get` looks in the memtable first, then in the tables from newest to oldest.
  - Recovery loads every `.sst` file of a directory listing, then replays the WAL.
  - Flush file names `<dir>/sstable_<n>.sst` come from a process-wide static counter.
- **String helpers** `trim` and `split` (`utils.cpp`; module `Utils`).

Each C++ class is a Dafny `class` with the same fields: `Wal`, `SSTable` and `KVStore`. Each method is proved against a step function over values. `WalLog.WriteStep`, `StoreModel.PutStep` and `StoreModel.FlushStep` are examples: a method's `ensures` says that the new state is the step function applied to the old state.

The properties are lemmas about those functions:
- the log round-trip and torn-tail behaviour;
- that the index `write` builds equals the one `build_index` rebuilds;
- that `get` after `write`, or after reopening, behaves like a map lookup;
- that `get` is a layered lookup, together with the counter bookkeeping, the effects of a flush and what recovery restores;
- the crisp postconditions of `trim` and `split`.

Modelling conventions:
- The disk is a `FileSystem` object holding `map<Path, Bytes>`. A file opens for reading exactly when it exists.
- The outcome of each write is a parameter:
  - whether a file opens for writing;
  - how many bytes of a WAL record or table file reach the disk;
  - whether the WAL reopens after a flush.
- The directory listing that `load_existing_sstables` walks is a parameter too.
- Keys and values are byte strings ordered as `std::string::operator<` orders them.
- Length prefixes are `uint16_t` written in host byte order, which the model fixes to little-endian.
- Lengths of 65536 or more are cut down modulo 2^16, as `static_cast<uint16_t>` does.

The model keeps these quirks of the code:
- An overwrite counts the key's length twice in the size counter.
- Replay adds sizes without subtracting an old value.
- SSTables have no tombstones, so a removed key can reappear from a table.
- The filename counter restarts with every process. After a restart a flush can therefore reuse the name of a table that was loaded (`FlushReusesLoadedName`). The old table keeps its index over the new bytes. A lookup through that stale index can miss (`OverwrittenTableMisses`), or can hit a record-shaped run of bytes inside another value (`StaleIndexHit`).
- A torn WAL record stays at the end of the log until the next clear. A record written after it can be lost to recovery, because the reader re-frames the bytes from the torn record on (`TornTailHidesPut` shows one such case; with other bytes the re-framing can also land on the new record).

## Model

| member | source | states |
|---|---|---|
| Bytes.Trunc16 | MiniKV/src/wal.cpp:33 | `static_cast<uint16_t>` of a length is below 2^16, never larger than the length, and the length itself when it fits |
| Bytes.EncodeU16 | MiniKV/src/wal.cpp:33-34 | a `uint16_t` as the two bytes `reinterpret_cast` writes on a little-endian host, low byte first (round trips: `DecodeEncodeU16`, `EncodeDecodeU16`) |
| Bytes.DecodeU16 | MiniKV/src/wal.cpp:71-74 | the `uint16_t` read back from two bytes, always below 65536 |
| Bytes.DecodeEncodeU16 | MiniKV/src/wal.cpp:33-34 | a `uint16_t` written as two bytes is read back as the same number, whatever follows it |
| Bytes.DecodeEncodeU16Exact | MiniKV/src/wal.cpp:71-72 | reading the two bytes written for a `uint16_t` yields that number |
| Bytes.EncodeDecodeU16 | MiniKV/src/wal.cpp:71-72 | every two bytes read as a `uint16_t` are exactly the bytes written for it |
| Bytes.Less | MiniKV/src/sstable.cpp:122-125 | `std::string::operator<`: lexicographic order on unsigned bytes, with a proper prefix first (a strict total order: `LessIrreflexive`, `LessTransitive`, `LessTotal`) |
| Bytes.LessIrreflexive | MiniKV/src/sstable.cpp:122-125 | no key is less than itself under `std::string` ordering |
| Bytes.LessTransitive | MiniKV/src/sstable.cpp:122-125 | the key ordering used by `lower_bound` and `std::map` is transitive |
| Bytes.LessTotal | MiniKV/src/sstable.cpp:122-125 | two keys differ exactly when one is less than the other, and never both ways |
| Files.NatToString | MiniKV/src/kvstore.cpp:121 | `std::to_string` of a counter value is a non-empty string of decimal digits |
| Files.NatToStringInjective | MiniKV/src/kvstore.cpp:121 | different counter values print as different strings |
| WalFormat.EncodeEntry | MiniKV/src/wal.cpp:29-42 | a record is 3 bytes plus the written key, plus 2 bytes and the written value for PUT only |
| WalFormat.EntryFields | MiniKV/src/wal.cpp:29-42 | byte 0 is the opcode, then the 2-byte key length and the key; for PUT, the 2-byte value length and the value follow |
| WalFormat.NormalizeStorable | MiniKV/src/wal.cpp:33-35 | cutting key and value to their 16-bit lengths yields a storable entry, and a storable entry is left as it is |
| WalFormat.NormalizeAll | MiniKV/src/wal.cpp:33-41 | each entry of a log is cut to its 16-bit lengths separately, keeping count and order |
| WalFormat.Normalize | MiniKV/src/wal.cpp:29-42 | what a record written for an entry carries: key and value cut to 16-bit lengths, and no value unless the opcode is PUT (`NormalizeStorable`) |
| WalFormat.DecodeEntry | MiniKV/src/wal.cpp:64-97 | a decoded record uses at least 3 and at most the available bytes; any opcode other than PUT decodes with an empty value |
| WalFormat.DecodeAll | MiniKV/src/wal.cpp:48-62 | `read_all` on the log's bytes: every record, in order, up to the first that does not read in full (`DecodeAllStep`, `ReadAllRoundTrip`, `TornTailDropped`) |
| WalFormat.EncodeLog | MiniKV/src/wal.cpp:22-46 | the log after `write_entry` has appended each entry's record in turn (`EncodeLogConcat`, `ReadAllRoundTrip`) |
| WalFormat.DecodeAllStep | MiniKV/src/wal.cpp:57-59 | `read_all` yields the first decodable record, then what decodes after it |
| WalFormat.DecodeEncodeEntry | MiniKV/src/wal.cpp:22-97 | reading an encoded record, whatever follows, yields the entry with lengths cut to 16 bits and the record's exact size |
| WalFormat.EncodeDecodedEntry | MiniKV/src/wal.cpp:64-97 | a decoded entry is storable, and writing it again reproduces exactly the bytes it was read from |
| WalFormat.DecodeAllAppend | MiniKV/src/wal.cpp:48-62 | reading a log of encoded records followed by any bytes yields those entries (cut) and then whatever the rest decodes to |
| WalFormat.ReadAllRoundTrip | MiniKV/src/wal.cpp:48-97 | `read_all` after a sequence of writes returns the entries in write order; entries under 65536 bytes come back unchanged |
| WalFormat.NormalizeAllStorable | MiniKV/src/wal.cpp:33-41 | a log of storable entries is unchanged by cutting to 16-bit lengths |
| WalFormat.TornTailDropped | MiniKV/src/wal.cpp:57-59 | whole records followed by bytes that do not form a record read back as just the whole records |
| WalFormat.PartialRecordIncomplete | MiniKV/src/wal.cpp:66-90 | any proper prefix of a record fails to decode |
| WalFormat.EncodeNormalized | MiniKV/src/wal.cpp:33-41 | writing entries cut to 16-bit lengths produces the same bytes as writing the originals |
| WalFormat.SplitWholeAndTorn | MiniKV/src/wal.cpp:57-59 | every log file is the re-encoding of what `read_all` returns, followed by a tail that does not decode |
| WalFormat.EncodeLogConcat | MiniKV/src/wal.cpp:5 | appending records to a log file concatenates their encodings |
| WalFormat.AppendToWhole | MiniKV/src/wal.cpp:22-46 | appending a whole record to a log of whole records adds exactly its (cut) entry at the end of `read_all` |
| WalFormat.DecodeSingle | MiniKV/src/wal.cpp:64-97 | a log with one record reads back as that one entry, cut to 16-bit lengths |
| WalFormat.StorableDecoded | MiniKV/src/wal.cpp:71-90 | every entry `read_all` returns has key and value shorter than 65536 bytes |
| WalFormat.TornAppendToWhole | MiniKV/src/wal.cpp:57-59 | a record cut short after a log of whole records leaves `read_all` unchanged |
| WalLog.OpenStep | MiniKV/src/wal.cpp:4-6 | `open` with `binary` and `app`: when it opens, the file exists with its old bytes and the stream is open and good; otherwise the files are unchanged and the stream is closed |
| WalLog.WriteStep | MiniKV/src/wal.cpp:22-46 | `write_entry`: false with nothing changed on a closed or failed stream; otherwise the landed prefix of the record is appended and the result is whether all of it landed (`WriteThenReadAll`) |
| WalLog.ClearStep | MiniKV/src/wal.cpp:99-103 | `clear`: the file emptied and the stream open and good, or, when reopening fails, the bytes left in place and the stream closed (`ClearEmptiesLog`) |
| WalLog.CloseStep | MiniKV/src/wal.cpp:105-109 | `close`: the stream closed, the files unchanged |
| WalLog.ReadAllSpec | MiniKV/src/wal.cpp:48-62 | `read_all`: the decoded records of the file, or none when the file does not exist |
| WalLog.WriteThenReadAll | MiniKV/src/wal.cpp:22-62 | for a log that holds only whole records (no torn tail): on a closed stream a write fails and changes nothing; a successful write adds its entry to `read_all`; and the log still holds only whole records; a failed one adds nothing and leaves the stream failed; other files are untouched |
| WalLog.ClearEmptiesLog | MiniKV/src/wal.cpp:99-103 | after a successful `clear` the log reads back empty, the stream is open and good, and no other file changes |
| WalLog.Wal.constructor | MiniKV/src/wal.cpp:4-6 | opening in append mode keeps an existing file's bytes and creates a missing file |
| WalLog.Wal.WritePut | MiniKV/src/wal.cpp:12-15 | writes a PUT entry of the key and value |
| WalLog.Wal.WriteDelete | MiniKV/src/wal.cpp:17-20 | writes a DELETE entry of the key with an empty value |
| WalLog.Wal.WriteEntry | MiniKV/src/wal.cpp:22-46 | appends the record's landed bytes and reports `good()`; on a closed stream returns false and changes nothing |
| WalLog.Wal.ReadAll | MiniKV/src/wal.cpp:48-62 | returns the records decoded up to the first incomplete one, or nothing when the file is missing |
| WalLog.Wal.ReadEntry | MiniKV/src/wal.cpp:64-97 | succeeds exactly when a whole record starts at the position, and then returns it and the position after it |
| WalLog.Wal.Clear | MiniKV/src/wal.cpp:99-103 | truncates and reopens the file, or leaves the stream closed when reopening fails |
| WalLog.Wal.Close | MiniKV/src/wal.cpp:105-109 | closes the stream and leaves the file as it is; closing twice is harmless |
| TableFormat.EncodeRecord | MiniKV/src/sstable.cpp:28-38 | a record is `entry_size` bytes: 4 plus the 16-bit key and value lengths |
| TableFormat.RecordFields | MiniKV/src/sstable.cpp:28-36 | a record is the 2-byte key length, the key cut to it, the 2-byte value length and the value cut to it |
| TableFormat.MinimumExists | MiniKV/src/sstable.cpp:25 | every non-empty key set has a least key |
| TableFormat.MinimumUnique | MiniKV/src/sstable.cpp:25 | the least key of a set is unique |
| TableFormat.SortedKeys | MiniKV/src/sstable.cpp:25 | the keys of a map in iteration order: as many as the map has, each one of them |
| TableFormat.SortedKeysMinimumFirst | MiniKV/src/sstable.cpp:25 | iteration starts at the least key and continues with the rest |
| TableFormat.SortedKeysAscending | MiniKV/src/sstable.cpp:25 | a map's keys are visited in strictly ascending order |
| TableFormat.SortedKeysComplete | MiniKV/src/sstable.cpp:25 | every key of the map is visited |
| TableFormat.IndexKeys | MiniKV/src/sstable.cpp:25-41 | the loop pushes one index entry per key written |
| TableFormat.SerializeSnoc | MiniKV/src/sstable.cpp:25-36 | one more loop iteration appends exactly that key's record to the file |
| TableFormat.IndexSnoc | MiniKV/src/sstable.cpp:26-40 | one more loop iteration pushes an entry at the current offset with that record's size |
| TableFormat.IndexKeysAt | MiniKV/src/sstable.cpp:26-39 | entry i has the i-th key, the offset where its record starts, and its record size |
| TableFormat.IndexKeysSizes | MiniKV/src/sstable.cpp:38-40 | the sizes of the first i entries add up to the bytes written for the first i keys |
| TableFormat.Serialize | MiniKV/src/sstable.cpp:15-41 | the bytes `write(m)` sends: the record of each key in ascending key order (`SerializeSnoc`, `WrittenRecord`, `SerializeOneEntry`) |
| TableFormat.WriteIndex | MiniKV/src/sstable.cpp:21-41 | the `index_` `write(m)` builds: one entry per key in ascending order, at its record's offset and with its record's size (`WriteIndexShape`, `WriteIndexLayout`) |
| TableFormat.WriteIndexKeys | MiniKV/src/sstable.cpp:21-41 | the index of `write(m)` has one entry per key of m, in iteration order |
| TableFormat.WriteIndexShape | MiniKV/src/sstable.cpp:21-41 | the index has one entry per key, its keys are all and only the map's keys, and they are strictly ascending |
| TableFormat.WriteIndexKeysInMap | MiniKV/src/sstable.cpp:21-41 | every indexed key is a key of the map |
| TableFormat.WriteIndexCoversMap | MiniKV/src/sstable.cpp:21-41 | every key of the map is indexed |
| TableFormat.WriteIndexSorted | MiniKV/src/sstable.cpp:21-41 | the index keys are strictly ascending |
| TableFormat.WriteIndexLayout | MiniKV/src/sstable.cpp:21-41 | offset i is the sum of earlier sizes; size i is 4 plus the 16-bit key and value lengths; the sizes add up to the file length |
| TableFormat.WriteIndexOffsets | MiniKV/src/sstable.cpp:22-40 | each offset is the sum of the sizes before it |
| TableFormat.WriteIndexSizes | MiniKV/src/sstable.cpp:38 | each size is 4 plus the 16-bit key and value lengths |
| TableFormat.WriteIndexTotal | MiniKV/src/sstable.cpp:38-40 | the sizes add up to the number of bytes written |
| TableFormat.WriteIndexEntry | MiniKV/src/sstable.cpp:26-39 | entry i holds the i-th key, the offset after the earlier records, and its record size |
| TableFormat.ScanIndex | MiniKV/src/sstable.cpp:84-119 | `build_index` from an offset: an entry for each record whose header reads in full, skipping its value, and stopping after a skip past the end of the file (`ScanIndexAt`, `ScanSerialized`, `RebuiltIndexMatches`) |
| TableFormat.ScanHeader | MiniKV/src/sstable.cpp:92-115 | an entry read by `build_index` starts at the current offset and is at least 4 bytes long |
| TableFormat.ScanIndexAt | MiniKV/src/sstable.cpp:91-118 | after a record header, the scan continues at offset + size, unless the skip passed the end of the file |
| TableFormat.StoredKeyLength | MiniKV/src/sstable.cpp:29-30 | the first two bytes of a written record hold the 16-bit key length |
| TableFormat.StoredKey | MiniKV/src/sstable.cpp:31 | the key bytes of a written record are the key cut to that length |
| TableFormat.StoredValueLength | MiniKV/src/sstable.cpp:34-35 | the value length follows the key |
| TableFormat.StoredValue | MiniKV/src/sstable.cpp:36 | the value bytes of a written record are the value cut to its 16-bit length |
| TableFormat.ScanRecordAt | MiniKV/src/sstable.cpp:91-118 | scanning a written record yields its (cut) key, offset and size, then continues after it |
| TableFormat.ScanSerialized | MiniKV/src/sstable.cpp:84-119 | scanning a run of written records with short keys yields exactly the entries `write` pushed for them |
| TableFormat.RebuiltIndexMatches | MiniKV/src/sstable.cpp:21-41 | `build_index` over a file produced by `write` with keys under 65536 bytes rebuilds exactly the index `write` built |
| TableFormat.ScanStopsAtIncompleteHeader | MiniKV/src/sstable.cpp:94-110 | the scan stops without error at a record whose length or key bytes are incomplete, keeping the earlier entries |
| TableFormat.ScanIndexesCutValue | MiniKV/src/sstable.cpp:112-117 | a record whose value bytes are cut short is still indexed, because the value is skipped with `seekg` and never read |
| TableFormat.LowerBound | MiniKV/src/sstable.cpp:122-125 | the position `lower_bound` returns lies within the range searched |
| TableFormat.LowerBoundSorted | MiniKV/src/sstable.cpp:122-125 | on a sorted index, all entries before the position are less than the key and none after it are |
| TableFormat.FindEntry | MiniKV/src/sstable.cpp:121-134 | `binary_search_key`: the entry `lower_bound` lands on, if its key is the one sought (`FindEntrySound`, `FindEntryComplete`) |
| TableFormat.ReadRecord | MiniKV/src/sstable.cpp:60-81 | the read `get` makes after `seekg(offset)`: the key length and key, which must equal the key sought, then the value length and value; a miss when any read comes up short (`ReadRecordAt`) |
| TableFormat.TableLookup | MiniKV/src/sstable.cpp:47-82 | `get` on a table: a miss when it is not valid, the key is not indexed or the file does not open, else the record read at the indexed offset (`GetAfterWrite`, `LookupStoredRecord`) |
| TableFormat.FindEntrySound | MiniKV/src/sstable.cpp:127-131 | on any index, a hit is an index entry with exactly the key sought |
| TableFormat.FindEntryComplete | MiniKV/src/sstable.cpp:121-134 | on a sorted index, `binary_search_key` succeeds iff the key is indexed, and then yields that entry |
| TableFormat.FindEntryAt | MiniKV/src/sstable.cpp:121-134 | on a sorted index, searching for entry i's key finds entry i |
| TableFormat.ReadRecordAt | MiniKV/src/sstable.cpp:60-81 | reading at a written record's offset yields its (cut) value iff the key sought is the stored key, else false |
| TableFormat.WrittenRecord | MiniKV/src/sstable.cpp:25-41 | at the offset of index entry i lies the record of the i-th key and its value |
| TableFormat.GetAfterWrite | MiniKV/src/sstable.cpp:15-82 | after `write(m)`, `get(k)` yields the first (length of m[k] modulo 65536) bytes of m[k] for every key of m under 65536 bytes, and false for any other key, including a key of m of 65536 bytes or more |
| TableFormat.GetWrittenKey | MiniKV/src/sstable.cpp:47-82 | after `write(m)`, `get` of the i-th key yields the first (length of its value modulo 65536) bytes of its value when the key is shorter than 65536 bytes, and false otherwise |
| TableFormat.LookupStoredRecord | MiniKV/src/sstable.cpp:47-82 | a sorted index entry pointing at the record of its key k and value v makes `get(k)` return the first (length of v modulo 65536) bytes of v when k is shorter than 65536 bytes, and false otherwise |
| TableFormat.GetAfterReopen | MiniKV/src/sstable.cpp:7-13 | when every key of m is shorter than 65536 bytes, reopening a written table and rebuilding its index, `get(k)` yields the first (length of m[k] modulo 65536) bytes of m[k] for every key of m, and false otherwise |
| Table.WriteLoopOrder | MiniKV/src/sstable.cpp:25 | taking the least remaining key extends the visited prefix of the map's ascending key order |
| Table.WriteLoopOutput | MiniKV/src/sstable.cpp:25-41 | one iteration appends the key's record and pushes its entry at the current offset |
| Table.SSTable.constructor | MiniKV/src/sstable.cpp:7-13 | the table is valid iff the file opens, and then its index is rebuilt from the file |
| Table.SSTable.BuildIndex | MiniKV/src/sstable.cpp:84-89 | replaces the index with the scan of the file when it opens, else changes nothing |
| Table.SSTable.ScanRecords | MiniKV/src/sstable.cpp:88-118 | the loop collects exactly the entries of the scan from offset 0 |
| Table.SSTable.ReadHeader | MiniKV/src/sstable.cpp:92-115 | reads key length, key and value length, failing exactly when they are incomplete |
| Table.SSTable.EncodeRecords | MiniKV/src/sstable.cpp:25-38 | the loop of `write` produces exactly the records of all keys in ascending order and the index entry of each at its record's offset |
| Table.SSTable.Write | MiniKV/src/sstable.cpp:15-45 | if the file fails to open: false, with `valid_`, index and disk unchanged; otherwise the file is the landed prefix of the records, the index is the written one, and `valid_` and the result say whether all of it landed |
| Table.SSTable.BinarySearchKey | MiniKV/src/sstable.cpp:121-134 | the bisection loop finds the `lower_bound` entry, and reports its offset and size iff its key matches |
| Table.SSTable.Get | MiniKV/src/sstable.cpp:47-82 | false when the table is invalid, the key is not indexed, the file is missing, the stored key differs or a read runs short; else the stored value |
| Table.SSTable.IsValid | MiniKV/src/sstable.cpp:136-138 | returns `valid_` |
| StoreModel.TableName | MiniKV/src/kvstore.cpp:119-122 | `<dir>/sstable_<n>.sst` for the n-th name the counter hands out (`TableNameSuffix`, `TableNameInjective`) |
| StoreModel.PutLogged | MiniKV/src/kvstore.cpp:25-36 | `put` up to the size check: the WAL record first, and only when it was written the memtable set and the counter raised by the new sizes less the old value's (`PutLogsFirst`, `PutCounter`) |
| StoreModel.PutStep | MiniKV/src/kvstore.cpp:25-44 | `put`: as above, then a flush when the counter exceeds 1048576 (`PutFlushesOverLimit`, `PutThenGet`) |
| StoreModel.RemoveStep | MiniKV/src/kvstore.cpp:66-82 | `remove`: the WAL record first, and only when it was written the key erased from the memtable and its sizes taken off the counter (`RemoveEffect`, `RemoveThenGet`) |
| StoreModel.FlushWrite | MiniKV/src/kvstore.cpp:105-111 | the first half of `flush_to_sstable`: the next name drawn and the memtable's table written to it, true when all of it landed |
| StoreModel.FlushAdopt | MiniKV/src/kvstore.cpp:111-116 | the second half: the table pushed, memtable and counter emptied, and the WAL cleared |
| StoreModel.FlushStep | MiniKV/src/kvstore.cpp:105-117 | `flush_to_sstable`: nothing on an empty memtable, else the write, and the adoption only when the write succeeded (`FlushEffect`) |
| StoreModel.ApplyEntry | MiniKV/src/kvstore.cpp:91-102 | one entry of `replay_wal`: PUT sets the key and adds key and value sizes, DELETE of a present key erases it and takes its sizes off, anything else is skipped (`ApplyEntryDrift`) |
| StoreModel.Replay | MiniKV/src/kvstore.cpp:89-103 | `replay_wal`: the entries applied in order, with no flush (`ReplaySnoc`, `ReplayKeepsSizeInv`) |
| StoreModel.LoadOne | MiniKV/src/kvstore.cpp:127-132 | one listed path: its table, with the index rebuilt from the file, when the path ends in `.sst` and the file opens; nothing otherwise |
| StoreModel.LoadTables | MiniKV/src/kvstore.cpp:124-134 | `load_existing_sstables`: the tables of the listing's paths, in listing order (`LoadTablesSound`, `LoadTablesComplete`, `LoadTablesFrame`) |
| StoreModel.RecoverStep | MiniKV/src/kvstore.cpp:84-87 | `recover`: the listing's tables appended, then the WAL replayed onto the memtable and counter |
| StoreModel.OpenEngine | MiniKV/src/kvstore.cpp:8-19 | the constructor: an empty store whose WAL is opened in append mode, then recovered (`OpenMirrors`, `OpenEstablishesSizeInv`) |
| StoreModel.CloseEngine | MiniKV/src/kvstore.cpp:21-23 | the destructor's `close`: the WAL stream closed, everything else unchanged |
| StoreModel.TableHit | MiniKV/src/kvstore.cpp:58 | one table's `get`, over that table's file as it is now |
| StoreModel.NewestHit | MiniKV/src/kvstore.cpp:56-63 | the tables asked from the last pushed to the first; the first hit answers (`NewestHitNone`, `NewestHitNewest`) |
| StoreModel.LayeredGet | MiniKV/src/kvstore.cpp:46-64 | `get`: the memtable's value, else the newest table's hit, else a miss (`PutThenGet`, `FlushPreservesGet`, `RestartPreservesGet`) |
| StoreModel.MemSize | MiniKV/src/kvstore.cpp:34-36 | the bytes the memtable holds, the key and value lengths of all its entries, against which the counter is measured (`MemSizeRemove`, `MemSizeUpdate`) |
| StoreModel.LoadTablesSnoc | MiniKV/src/kvstore.cpp:126-133 | one more listing entry appends at most that path's table, in listing order |
| StoreModel.MemSizeRemove | MiniKV/src/kvstore.cpp:75-79 | erasing a key removes its key and value bytes from the memtable's total |
| StoreModel.MemSizeUpdate | MiniKV/src/kvstore.cpp:34-35 | setting a key replaces its old key and value bytes in the total by the new ones |
| StoreModel.PutCounter | MiniKV/src/kvstore.cpp:34-36 | a `put` that logs and does not flush grows the counter by the value and key and shrinks it by the old value, so an overwrite adds the key length against the memtable total |
| StoreModel.PutFlushesOverLimit | MiniKV/src/kvstore.cpp:39-41 | a successful `put` flushes exactly when the new counter exceeds 1 MiB |
| StoreModel.PutLogsFirst | MiniKV/src/kvstore.cpp:28-31 | `put` succeeds iff its whole WAL record lands on an open, good stream; on failure memtable, counter, tables and other files are unchanged |
| StoreModel.RemoveEffect | MiniKV/src/kvstore.cpp:66-82 | `remove` succeeds iff its WAL record lands; it then erases the key from the memtable only and lowers the counter by key and value, so the counter's distance from the memtable's bytes does not change |
| StoreModel.RemoveKeepsSizeInv | MiniKV/src/kvstore.cpp:75-79 | after `remove` the counter is still at least the memtable's bytes, so it cannot wrap below zero |
| StoreModel.FlushKeepsSizeInv | MiniKV/src/kvstore.cpp:111-116 | after a flush the counter is still at least the memtable's bytes |
| StoreModel.PutKeepsSizeInv | MiniKV/src/kvstore.cpp:34-41 | after `put` the counter is still at least the memtable's bytes |
| StoreModel.ReplayKeepsSizeInv | MiniKV/src/kvstore.cpp:89-103 | replay keeps the counter at least the memtable's bytes |
| StoreModel.OpenEstablishesSizeInv | MiniKV/src/kvstore.cpp:8-19 | a freshly opened store's counter is at least its memtable's bytes |
| StoreModel.ApplyEntryDrift | MiniKV/src/kvstore.cpp:89-103 | one replayed entry moves the counter away from the memtable's bytes by the old entry's key and value sizes exactly when it is a PUT of a present key, and not otherwise |
| StoreModel.ReplayFreshPutsKeepDrift | MiniKV/src/kvstore.cpp:89-103 | when no replayed PUT names a key already present or PUT earlier, replay keeps the counter's distance from the memtable's bytes |
| StoreModel.OpenFreshPutsExactCounter | MiniKV/src/kvstore.cpp:8-19 | a WAL in which no key is PUT twice opens with the counter equal to the memtable's bytes |
| StoreModel.TableNameSuffix | MiniKV/src/kvstore.cpp:119-122 | every generated table name ends in `.sst` |
| StoreModel.NotWalPath | MiniKV/src/kvstore.cpp:15 | no `.sst` path is the WAL's path |
| StoreModel.NewestHitNone | MiniKV/src/kvstore.cpp:56-63 | the table scan misses iff every table misses |
| StoreModel.NewestHitNewest | MiniKV/src/kvstore.cpp:56-61 | when table i hits and every newer table misses, the scan returns table i's answer |
| StoreModel.NewestHitFrame | MiniKV/src/kvstore.cpp:56-63 | the scan depends only on the files of the tables |
| StoreModel.NewestHitIgnoresWal | MiniKV/src/kvstore.cpp:56-63 | changes to the WAL file do not change what the tables answer |
| StoreModel.NewestHitSnoc | MiniKV/src/kvstore.cpp:57-61 | a newly pushed table is asked first, and the older tables only if it misses |
| StoreModel.FlushEffect | MiniKV/src/kvstore.cpp:105-117 | no-op on an empty memtable; a full write appends one table, empties memtable and counter, writes its file and clears the WAL (or leaves it closed with its bytes when it cannot reopen), and changes no other file; a failed write changes only the name counter and, if it opened, the table file |
| StoreModel.FlushedTableAnswers | MiniKV/src/kvstore.cpp:111-112 | after a flush the tables answer with the flushed memtable's value for a short key it held, else as before |
| StoreModel.FlushPreservesGet | MiniKV/src/kvstore.cpp:105-117 | a successful flush of short keys and values to a new name leaves every `get` answer unchanged |
| StoreModel.TableNameInjective | MiniKV/src/kvstore.cpp:119-122 | different counter values give different table names in one directory |
| StoreModel.IssuedNameFresh | MiniKV/src/kvstore.cpp:119-122 | while every table's name was handed out by this process's counter, the name the next flush draws belongs to no table |
| StoreModel.FlushInRunPreservesGet | MiniKV/src/kvstore.cpp:105-122 | within one process, a successful flush of short keys and values leaves every `get` answer unchanged, the fresh name following from the counter |
| StoreModel.FlushKeepsNames | MiniKV/src/kvstore.cpp:105-122 | a flush keeps every table named `.sst`, and every table's name one the counter handed out |
| StoreModel.StepsKeepNames | MiniKV/src/kvstore.cpp:25-82 | `put` and `remove` keep every table named `.sst`, and every table's name one the counter handed out |
| StoreModel.OpenNamesTables | MiniKV/src/kvstore.cpp:8-19 | every table an opened store holds is named `.sst`; when the directory held no loadable table, every table name was handed out by the counter |
| StoreModel.PutThenGet | MiniKV/src/kvstore.cpp:25-54 | after a successful `put(k, v)` of short key and value, `get(k)` returns v |
| StoreModel.RemoveThenGet | MiniKV/src/kvstore.cpp:66-82 | after a successful `remove(k)`, `get(k)` returns whatever the tables hold for k |
| StoreModel.ReplaySnoc | MiniKV/src/kvstore.cpp:91-102 | replaying one more entry applies it to the replayed state |
| StoreModel.FlushKeepsMirror | MiniKV/src/kvstore.cpp:111-116 | a flush whose WAL clear succeeds keeps the memtable equal to the replay of the WAL |
| StoreModel.LogStep | MiniKV/src/kvstore.cpp:29 | logging a storable entry adds it to the WAL's read-back iff the write succeeds, and keeps the log on whole records while the stream is good |
| StoreModel.PutKeepsMirror | MiniKV/src/kvstore.cpp:25-44 | `put` of a key and value shorter than 65536 bytes keeps the memtable equal to the replay of the WAL, provided a flush it starts manages to clear the WAL (see `RestartAfterUnclearedFlush` for one that does not) |
| StoreModel.RemoveKeepsMirror | MiniKV/src/kvstore.cpp:66-82 | `remove` of a short key keeps the memtable equal to the replay of the WAL |
| StoreModel.OpenMirrors | MiniKV/src/kvstore.cpp:8-19 | a store opened on a log of whole records has the memtable the log replays to |
| StoreModel.RecoverRestoresMemtable | MiniKV/src/kvstore.cpp:84-103 | reopening a store whose memtable mirrors its WAL recovers exactly that memtable |
| StoreModel.LoadTablesSound | MiniKV/src/kvstore.cpp:124-134 | each loaded table is valid, comes from an existing listed `.sst` file, and has the index rebuilt from it; no more tables than paths |
| StoreModel.LoadTablesComplete | MiniKV/src/kvstore.cpp:124-134 | every existing listed `.sst` file is loaded |
| StoreModel.LoadTablesFrame | MiniKV/src/kvstore.cpp:124-134 | loading depends only on the `.sst` files |
| StoreModel.RestartPreservesGet | MiniKV/src/kvstore.cpp:84-103 | reopening a store whose WAL mirrors its memtable and whose listing yields its tables leaves every `get` answer unchanged |
| StoreModel.RestartAfterUnclearedFlush | MiniKV/src/kvstore.cpp:105-117 | after a flush whose table is written in full but whose WAL fails to reopen, the memtable is empty and the WAL closed; a restart replays the flushed entries back into the memtable, and every `get` answer stays the same (short keys and values, a listing that yields the tables) |
| StoreModel.LoadOwnTables | MiniKV/src/kvstore.cpp:124-134 | when each table is what loading its own file gives, listing the tables' file names in push order loads exactly those tables |
| StoreModel.OpenTablesOnDisk | MiniKV/src/kvstore.cpp:124-134 | every table a freshly opened store holds is what loading its own file gives |
| StoreModel.FlushKeepsOnDisk | MiniKV/src/kvstore.cpp:105-122 | while every table's name was issued by this process, a flush of keys shorter than 65536 bytes keeps every table what loading its own file gives: the new file rebuilds the written index and no older table's file is touched |
| StoreModel.PutKeepsOnDisk | MiniKV/src/kvstore.cpp:25-44 | under the same conditions, a `put` of a key shorter than 65536 bytes keeps every table what loading its own file gives, whether or not it flushes |
| StoreModel.RemoveKeepsOnDisk | MiniKV/src/kvstore.cpp:66-82 | `remove` touches only the WAL, so every table stays what loading its own file gives |
| StoreModel.RestartOwnTablesPreservesGet | MiniKV/src/kvstore.cpp:84-134 | a restart whose listing is the store's own table files in push order leaves every `get` answer unchanged, when the memtable mirrors the WAL and every table is what loading its file gives |
| StoreModel.SerializeOneEntry | MiniKV/src/sstable.cpp:25-36 | the table file of a one-entry memtable is that entry's record alone: 16-bit key length, key, 16-bit value length, value (each cut to 16 bits), with nothing cut when both are shorter than 65536 bytes |
| StoreModel.ReopenOverTable | MiniKV/src/kvstore.cpp:8-19 | a fresh process reopening a directory with one table loads that table, an empty memtable and an empty open WAL, and has issued no names |
| StoreModel.OverwrittenTableMisses | MiniKV/src/sstable.cpp:70-72 | for example, over the file written from {[2] := [8]}, every index misses the key [1]: no offset of that file holds a record of [1] |
| StoreModel.StaleIndexHit | MiniKV/src/sstable.cpp:60-81 | for example, a stale entry for key [7] at offset 5 hits in the file written from {[9] := [1,0,7,0,0]}: the bytes inside the value read as a record of [7] with an empty value |
| StoreModel.PutOtherKeyKeepsGet | MiniKV/src/kvstore.cpp:25-36 | logging `put` of one key does not change `get` of another |
| StoreModel.FlushReusesLoadedName | MiniKV/src/kvstore.cpp:119-122 | when the counter hands out the name of a loaded table, the flush overwrites its file and the store lists the same file twice; a key only the old table held is then lost whenever the old index misses in the new file (a hypothesis of the lemma) |
| StoreModel.TornTailHidesPut | MiniKV/src/kvstore.cpp:89-103 | for one concrete case: after a torn `[PUT]` byte, a successful `put` is visible to `get`, but recovery from the same files does not restore it |
| Store.KVStore.constructor | MiniKV/src/kvstore.cpp:8-19 | opens the WAL at `<dir>/wal.log`, then recovers |
| Store.KVStore.Recover | MiniKV/src/kvstore.cpp:84-87 | loads the tables, then replays the WAL |
| Store.KVStore.LoadExistingSSTables | MiniKV/src/kvstore.cpp:124-134 | appends the valid tables of the listing's `.sst` paths, in listing order, leaving memtable and counter alone |
| Store.KVStore.LoadSSTable | MiniKV/src/kvstore.cpp:127-132 | opens the path if it ends in `.sst` and keeps the table if it is valid |
| Store.KVStore.ReplayWal | MiniKV/src/kvstore.cpp:89-103 | applies the log in order: PUT sets and adds key and value sizes, DELETE erases a present key, other opcodes are ignored; no flush |
| Store.KVStore.Put | MiniKV/src/kvstore.cpp:25-44 | logs first, then updates memtable and counter and flushes over the limit |
| Store.KVStore.Get | MiniKV/src/kvstore.cpp:46-64 | the memtable's value, else the newest table's hit, else false |
| Store.KVStore.Remove | MiniKV/src/kvstore.cpp:66-82 | logs first, then erases the key from the memtable and lowers the counter |
| Store.KVStore.FlushToSSTable | MiniKV/src/kvstore.cpp:105-117 | flushes a non-empty memtable to a new table and adopts it when written in full |
| Store.KVStore.WriteNewTable | MiniKV/src/kvstore.cpp:108-111 | draws the next name, creates the table and writes the memtable to it |
| Store.KVStore.AdoptTable | MiniKV/src/kvstore.cpp:112-115 | pushes the table, empties the memtable, zeroes the counter and clears the WAL |
| Store.KVStore.FlushMemtable | MiniKV/src/kvstore.cpp:142-145 | a flush on demand, whatever the memtable's size |
| Store.KVStore.GenerateSSTableFilename | MiniKV/src/kvstore.cpp:119-122 | increments the process-wide counter and returns `<dir>/sstable_<n>.sst` for its new value |
| Store.KVStore.Close | MiniKV/src/kvstore.cpp:151-155 | closes the WAL and changes nothing else |
| Utils.Trim | MiniKV/src/utils.cpp:8-20 | the two iterator loops return the input without its maximal leading and trailing whitespace runs |
| Utils.TrimLeftDropsSpace | MiniKV/src/utils.cpp:9-12 | the leading loop leaves a suffix of the input, drops only whitespace, and stops at a non-space |
| Utils.TrimRightDropsSpace | MiniKV/src/utils.cpp:14-17 | the trailing loop leaves a prefix, drops only whitespace, and stops at a non-space |
| Utils.Trimmed | MiniKV/src/utils.cpp:8-20 | what `trim` returns: the string without its leading and trailing whitespace runs (`TrimmedIsInfix`, `TrimmedEmptyIffAllSpace`, `TrimmedIdempotent`) |
| Utils.TrimmedNoLeading | MiniKV/src/utils.cpp:9-12 | a trimmed string does not start with whitespace |
| Utils.TrimmedNoTrailing | MiniKV/src/utils.cpp:14-19 | a trimmed string is empty or ends in a non-space |
| Utils.TrimmedIsInfix | MiniKV/src/utils.cpp:8-20 | the result is a contiguous substring with only whitespace before and after it |
| Utils.TrimmedEmptyIffAllSpace | MiniKV/src/utils.cpp:9-19 | `trim` returns "" exactly for an all-whitespace string |
| Utils.TrimmedIdempotent | MiniKV/src/utils.cpp:8-20 | trimming twice is trimming once |
| Utils.IndexOf | MiniKV/src/utils.cpp:27 | `getline` stops at the first delimiter, or at the end when there is none |
| Utils.Split | MiniKV/src/utils.cpp:22-32 | the loop collects exactly the `getline` tokens of the input |
| Utils.GetLine | MiniKV/src/utils.cpp:27 | one `getline`: the text up to the next delimiter, resuming after it |
| Utils.Tokens | MiniKV/src/utils.cpp:22-32 | what the `getline` loop of `split` collects: the text up to each delimiter, and the rest when it is not empty (`JoinTokens`, `TokensOfJoin`, `TokenCount`) |
| Utils.TokensHaveNoDelimiter | MiniKV/src/utils.cpp:27-29 | no token contains the delimiter |
| Utils.JoinTokens | MiniKV/src/utils.cpp:22-32 | joining the tokens with the delimiter gives the input, minus one trailing delimiter |
| Utils.TokenCount | MiniKV/src/utils.cpp:27-29 | there are as many tokens as delimiters, plus one when the input is non-empty and does not end with the delimiter; `split("")` is empty |
| Utils.TokensOfJoin | MiniKV/src/utils.cpp:22-32 | splitting delimiter-free tokens joined by the delimiter, the last one non-empty, gives the tokens back |

## Left out

- Mutexes and `lock_guard`s only serialise calls, so the model is single-threaded.
- `main.cpp` (a command loop over stdin and stdout) and `file_exists`/`file_size` (thin `std::filesystem` calls) are not part of this model.
- `create_snapshot` and `compact` are stubs that return true or do nothing, so they have no model.
- `create_directories` is not modelled. The directory is part of each path string.
- Stream details are reduced to "open" and "good":
  - `flush` and fsync durability are not modelled.
  - A `seekg` past the end of the file is modelled as making the next read fail.
  - A table or log file that exists always opens for reading.
- The order of `std::filesystem::directory_iterator` is unspecified, so the listing is an arbitrary input sequence. `extension() == ".sst"` is modelled as a suffix check, which also accepts any path whose file name is exactly `.sst`, such as `<dir>/.sst`, while `extension()` of such a path is empty.
- Host byte order is fixed to little-endian.
- `current_memtable_size_` (`size_t`) is an unbounded `int`. SizeInv shows that the counter never drops below the memtable's bytes, so the unsigned subtraction cannot wrap.
- Store.KVStore.GenerateSSTableFilename: the static `int` counter is unbounded, so signed overflow after 2^31 flushes in one process is not modelled.
- Store.KVStore.Get: when a table's `get` fails after it has resized or filled the `value` out-parameter, the C++ leaves those bytes in `value`. The model returns an empty value with false.
- Table.SSTable.Get: an unreadable key-length field leaves `key_len` uninitialised in C++. The model treats that read as a miss.
- Utils.Trim: requires a non-empty input, because `trim("")` decrements `end()` past `begin()`, which is undefined behaviour.
- Utils.IsSpace: follows `std::isspace` in the C locale only (space and `\t` through `\r`).
- Table.SSTable.BuildIndex: the C++ pushes onto `index_` as it scans. The model collects the entries in a local sequence (`ScanRecords`) and assigns the field once. No other code can observe the field during the scan.
