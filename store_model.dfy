/**
  The storage engine of MiniKV/src/kvstore.cpp as a state machine over values.

  An `Engine` is one `KVStore` object (its directory, memtable, size counter,
  tables and WAL stream) together with the disk it runs on and the value of the
  process-wide static counter of `generate_sstable_filename`. Every operation is
  a function from the old engine and the outcome of its I/O to the new engine:
  how much of a WAL record lands, whether the table file opens and how much of
  it lands, and whether the WAL reopens after a flush.
 */
module StoreModel {
  import opened Bytes
  import opened Wrappers
  import opened Files
  import opened WalFormat
  import opened WalLog
  import opened TableFormat
  import opened Table

  /** `memtable_size_limit_`: 1 MiB. */
  const MEMTABLE_LIMIT: nat := 1048576

  function WalPath(dir: Path): Path
  {
    dir + "/wal.log"
  }

  /** The name `generate_sstable_filename` builds from the `n`-th value of its counter. */
  function TableName(dir: Path, n: nat): Path
  {
    dir + "/sstable_" + NatToString(n) + ".sst"
  }

  datatype Engine = Engine(
    dir: Path,
    memtable: KVMap,
    counter: int,             // current_memtable_size_
    tables: seq<TableMeta>,   // sstables_, oldest first
    files: map<Path, Bytes>,
    walStream: Stream,
    issued: nat)              // the static counter: table names handed out so far in this process

  /** How the I/O of one `flush_to_sstable` turns out. */
  datatype FlushIo = FlushIo(tableOpenOk: bool, tableLanded: nat, walClearOk: bool)

  function WalOf(e: Engine): WalState
  {
    WalState(e.files, e.walStream)
  }

  /** The WAL as the engine would read it back. */
  function WalEntries(e: Engine): seq<LogEntry>
  {
    ReadAllSpec(e.files, WalPath(e.dir))
  }

  // ---------------------------------------------------------------------------
  // The operations

  /** The first half of `flush_to_sstable` on a non-empty memtable: a name is issued and the table file written; `true` when all of it landed. */
  ghost function FlushWrite(e: Engine, io: FlushIo): (Engine, bool)
  {
    var name := TableName(e.dir, e.issued + 1);
    if !io.tableOpenOk then (e.(issued := e.issued + 1), false)
    else
      var bytes := Serialize(e.memtable);
      (e.(issued := e.issued + 1, files := e.files[name := bytes[..Min(io.tableLanded, |bytes|)]]), io.tableLanded >= |bytes|)
  }

  /** The second half, once the table `t` is complete on disk: keep it, empty the memtable and clear the WAL. */
  function FlushAdopt(e: Engine, t: TableMeta, walClearOk: bool): Engine
  {
    var w := ClearStep(WalOf(e), WalPath(e.dir), walClearOk);
    e.(tables := e.tables + [t], memtable := map[], counter := 0, files := w.files, walStream := w.stream)
  }

  /** `flush_to_sstable`: write the memtable to a newly named table; on success keep the table, empty the memtable and clear the WAL. */
  ghost function FlushStep(e: Engine, io: FlushIo): Engine
  {
    if e.memtable == map[] then e
    else
      var (e1, ok) := FlushWrite(e, io);
      if ok then FlushAdopt(e1, TableMeta(TableName(e.dir, e.issued + 1), true, WriteIndex(e.memtable)), io.walClearOk)
      else e1
  }

  /** `put(key, value)` up to the size check: the WAL record first; only if it was written, the memtable and the counter. */
  function PutLogged(e: Engine, key: Bytes, value: Bytes, walLanded: nat): (Engine, bool)
  {
    var (w, ok) := WriteStep(WalOf(e), WalPath(e.dir), LogEntry(PUT, key, value), walLanded);
    var e0 := e.(files := w.files, walStream := w.stream);
    if !ok then (e0, false)
    else
      var oldSize := if key in e.memtable then |e.memtable[key]| else 0;
      (e0.(memtable := e.memtable[key := value], counter := e.counter + |value| + |key| - oldSize), true)
  }

  /** `put(key, value)`: as above, then a flush when the counter has passed the limit. */
  ghost function PutStep(e: Engine, key: Bytes, value: Bytes, walLanded: nat, io: FlushIo): (Engine, bool)
  {
    var (e1, ok) := PutLogged(e, key, value, walLanded);
    (if ok && e1.counter > MEMTABLE_LIMIT then FlushStep(e1, io) else e1, ok)
  }

  /** `remove(key)`: the WAL record first; only if it was written, the key leaves the memtable (tables are not touched). */
  function RemoveStep(e: Engine, key: Bytes, walLanded: nat): (Engine, bool)
  {
    var (w, ok) := WriteStep(WalOf(e), WalPath(e.dir), LogEntry(DELETE, key, []), walLanded);
    var e0 := e.(files := w.files, walStream := w.stream);
    if !ok then (e0, false)
    else if key in e.memtable then (e0.(memtable := e.memtable - {key}, counter := e.counter - (|key| + |e.memtable[key]|)), true)
    else (e0, true)
  }

  /** One entry of `replay_wal`: PUT overwrites and adds its sizes, DELETE erases a present key, any other opcode is skipped. */
  function ApplyEntry(mem: KVMap, counter: int, entry: LogEntry): (KVMap, int)
  {
    if entry.op == PUT then (mem[entry.key := entry.value], counter + |entry.key| + |entry.value|)
    else if entry.op == DELETE && entry.key in mem then (mem - {entry.key}, counter - (|entry.key| + |mem[entry.key]|))
    else (mem, counter)
  }

  /** `replay_wal`: the entries applied in order, with no flush however large the memtable grows. */
  function Replay(mem: KVMap, counter: int, entries: seq<LogEntry>): (KVMap, int)
    decreases |entries|
  {
    if entries == [] then (mem, counter)
    else
      var (m, c) := ApplyEntry(mem, counter, entries[0]);
      Replay(m, c, entries[1..])
  }

  /** One entry of the listing: a path ending in `.sst` whose table opens is loaded with the index rebuilt from its bytes. */
  function LoadOne(files: map<Path, Bytes>, p: Path): seq<TableMeta>
  {
    if HasSuffix(p, ".sst") && p in files then [TableMeta(p, true, BuiltIndex(files, p))] else []
  }

  /** `load_existing_sstables`: every listed path ending in `.sst` whose table opens, in listing order. */
  function LoadTables(files: map<Path, Bytes>, listing: seq<Path>): seq<TableMeta>
    decreases |listing|
  {
    if listing == [] then []
    else LoadTables(files, listing[..|listing| - 1]) + LoadOne(files, listing[|listing| - 1])
  }

  lemma LoadTablesSnoc(files: map<Path, Bytes>, listing: seq<Path>, i: nat)
    requires i < |listing|
    ensures LoadTables(files, listing[..i + 1]) == LoadTables(files, listing[..i]) + LoadOne(files, listing[i])
  {
    assert listing[..i + 1][..i] == listing[..i];
  }

  /** `recover`: load the tables of the listing, then replay the WAL onto the memtable. */
  function RecoverStep(e: Engine, listing: seq<Path>): Engine
  {
    var (mem, counter) := Replay(e.memtable, e.counter, WalEntries(e));
    e.(tables := e.tables + LoadTables(e.files, listing), memtable := mem, counter := counter)
  }

  /** The constructor: open the WAL in append mode, then recover. */
  function OpenEngine(files: map<Path, Bytes>, dir: Path, listing: seq<Path>, walOpenOk: bool, issued: nat): Engine
  {
    var w := OpenStep(files, WalPath(dir), walOpenOk);
    RecoverStep(Engine(dir, map[], 0, [], w.files, w.stream, issued), listing)
  }

  function CloseEngine(e: Engine): Engine
  {
    e.(walStream := CloseStep(WalOf(e)).stream)
  }

  // ---------------------------------------------------------------------------
  // Lookup

  /** `SSTable::get` on one table. */
  function TableHit(t: TableMeta, files: map<Path, Bytes>, key: Bytes): Option<Bytes>
  {
    TableLookup(t.valid, t.index, FileOf(files, t.filename), key)
  }

  /** The tables scanned from the last appended to the first; the first hit wins. */
  function NewestHit(tables: seq<TableMeta>, files: map<Path, Bytes>, key: Bytes): Option<Bytes>
    decreases |tables|
  {
    if tables == [] then None
    else
      match TableHit(tables[|tables| - 1], files, key)
      case Some(v) => Some(v)
      case None => NewestHit(tables[..|tables| - 1], files, key)
  }

  /** `get(key)`: the memtable first, then the tables newest first. */
  function LayeredGet(e: Engine, key: Bytes): Option<Bytes>
  {
    if key in e.memtable then Some(e.memtable[key]) else NewestHit(e.tables, e.files, key)
  }

  // ---------------------------------------------------------------------------
  // The size counter

  /** The bytes the memtable holds: the key and value lengths of all its entries. */
  ghost function MemSize(m: KVMap): nat
    decreases m.Keys
  {
    if m == map[] then 0
    else
      var k :| k in m;
      |k| + |m[k]| + MemSize(m - {k})
  }

  lemma {:induction false} MemSizeRemove(m: KVMap, k: Bytes)
    requires k in m
    ensures MemSize(m) == |k| + |m[k]| + MemSize(m - {k})
    decreases m.Keys
  {
    var j :| j in m && MemSize(m) == |j| + |m[j]| + MemSize(m - {j});
    if j != k {
      MemSizeRemove(m - {j}, k);
      MemSizeRemove(m - {k}, j);
      assert m - {j} - {k} == m - {k} - {j};
    }
  }

  /** Storing `v` under `k` replaces the sizes of the old entry, if any, by those of the new one. */
  lemma MemSizeUpdate(m: KVMap, k: Bytes, v: Bytes)
    ensures MemSize(m[k := v]) == MemSize(m) - (if k in m then |k| + |m[k]| else 0) + |k| + |v|
  {
    MemSizeRemove(m[k := v], k);
    assert m[k := v] - {k} == m - {k};
    if k in m {
      MemSizeRemove(m, k);
    } else {
      assert m - {k} == m;
    }
  }

  /** The counter never falls below the bytes the memtable holds. */
  ghost predicate SizeInv(e: Engine)
  {
    e.counter >= MemSize(e.memtable)
  }

  /**
    The counter after a `put` that wrote its record and did not flush: it grows
    by the new value and the key and shrinks by the old value, so against the
    bytes the memtable holds it drifts up by the key's length on an overwrite.
   */
  lemma PutCounter(e: Engine, key: Bytes, value: Bytes, walLanded: nat, io: FlushIo)
    requires var (e', ok) := PutStep(e, key, value, walLanded, io); ok && e'.issued == e.issued
    ensures var e' := PutStep(e, key, value, walLanded, io).0;
      && e'.memtable == e.memtable[key := value]
      && e'.counter == e.counter + |value| + |key| - (if key in e.memtable then |e.memtable[key]| else 0)
      && e'.counter - MemSize(e'.memtable) == e.counter - MemSize(e.memtable) + (if key in e.memtable then |key| else 0)
  {
    MemSizeUpdate(e.memtable, key, value);
  }

  /** A `put` whose record was written starts a flush, and so draws a table name, exactly when the counter passes 1 MiB. */
  lemma PutFlushesOverLimit(e: Engine, key: Bytes, value: Bytes, walLanded: nat, io: FlushIo)
    requires PutStep(e, key, value, walLanded, io).1
    ensures var counter := e.counter + |value| + |key| - (if key in e.memtable then |e.memtable[key]| else 0);
      PutStep(e, key, value, walLanded, io).0.issued == (if counter > MEMTABLE_LIMIT then e.issued + 1 else e.issued)
  {
    assert key in e.memtable[key := value];
  }

  /** `put` writes the WAL first: when its record is not written it returns false and the store is as before. */
  lemma PutLogsFirst(e: Engine, key: Bytes, value: Bytes, walLanded: nat, io: FlushIo)
    ensures var (e', ok) := PutStep(e, key, value, walLanded, io);
      && ok == (e.walStream.isOpen && e.walStream.good && walLanded >= |EncodeEntry(LogEntry(PUT, key, value))|)
      && (!ok ==> e'.memtable == e.memtable && e'.counter == e.counter && e'.tables == e.tables && e'.issued == e.issued)
      && (!ok ==> forall p :: p != WalPath(e.dir) ==> Contents(e'.files, p) == Contents(e.files, p))
  {
  }

  /**
    `remove` writes the WAL first; when the record is written it erases the key
    from the memtable only, taking its sizes off the counter, and leaves the
    tables as they are.
   */
  lemma RemoveEffect(e: Engine, key: Bytes, walLanded: nat)
    ensures var (e', ok) := RemoveStep(e, key, walLanded);
      && ok == (e.walStream.isOpen && e.walStream.good && walLanded >= |EncodeEntry(LogEntry(DELETE, key, []))|)
      && e'.tables == e.tables && e'.issued == e.issued
      && (forall p :: p != WalPath(e.dir) ==> Contents(e'.files, p) == Contents(e.files, p))
      && (!ok ==> e'.memtable == e.memtable && e'.counter == e.counter)
      && (ok ==> e'.memtable == e.memtable - {key}
                 && e'.counter == e.counter - (if key in e.memtable then |key| + |e.memtable[key]| else 0))
      && e'.counter - MemSize(e'.memtable) == e.counter - MemSize(e.memtable)
  {
    if key !in e.memtable {
      assert e.memtable - {key} == e.memtable;
    } else {
      MemSizeRemove(e.memtable, key);
    }
  }

  lemma RemoveKeepsSizeInv(e: Engine, key: Bytes, walLanded: nat)
    requires SizeInv(e)
    ensures SizeInv(RemoveStep(e, key, walLanded).0)
  {
    if key in e.memtable {
      MemSizeRemove(e.memtable, key);
    }
  }

  lemma FlushKeepsSizeInv(e: Engine, io: FlushIo)
    requires SizeInv(e)
    ensures SizeInv(FlushStep(e, io))
  {
  }

  lemma PutKeepsSizeInv(e: Engine, key: Bytes, value: Bytes, walLanded: nat, io: FlushIo)
    requires SizeInv(e)
    ensures SizeInv(PutStep(e, key, value, walLanded, io).0)
  {
    MemSizeUpdate(e.memtable, key, value);
    if key in e.memtable {
      MemSizeRemove(e.memtable, key);
    }
  }

  /** Replay keeps the counter at or above the memtable's bytes: a PUT adds its sizes without taking off the old value's. */
  lemma {:induction false} ReplayKeepsSizeInv(mem: KVMap, counter: int, entries: seq<LogEntry>)
    requires counter >= MemSize(mem)
    ensures var (m, c) := Replay(mem, counter, entries); c >= MemSize(m)
    decreases |entries|
  {
    if entries != [] {
      var x := entries[0];
      if x.op == PUT {
        MemSizeUpdate(mem, x.key, x.value);
        if x.key in mem {
          MemSizeRemove(mem, x.key);
        }
      } else if x.op == DELETE && x.key in mem {
        MemSizeRemove(mem, x.key);
      }
      var (m, c) := ApplyEntry(mem, counter, x);
      ReplayKeepsSizeInv(m, c, entries[1..]);
    }
  }

  /**
    One replayed entry moves the counter away from the memtable's bytes only
    when it is a PUT of a key already present: the old entry's sizes stay counted.
   */
  lemma ApplyEntryDrift(mem: KVMap, counter: int, entry: LogEntry)
    ensures var (m, c) := ApplyEntry(mem, counter, entry);
      c - MemSize(m) == counter - MemSize(mem) + (if entry.op == PUT && entry.key in mem then |entry.key| + |mem[entry.key]| else 0)
  {
    if entry.op == PUT {
      MemSizeUpdate(mem, entry.key, entry.value);
    } else if entry.op == DELETE && entry.key in mem {
      MemSizeRemove(mem, entry.key);
    }
  }

  /** No PUT of `entries` names a key of `mem`, and no two PUTs name the same key. */
  ghost predicate FreshPuts(mem: KVMap, entries: seq<LogEntry>)
  {
    forall i :: 0 <= i < |entries| && entries[i].op == PUT ==>
      entries[i].key !in mem
      && forall j :: i < j < |entries| && entries[j].op == PUT ==> entries[j].key != entries[i].key
  }

  /** When no replayed PUT overwrites a key, replay leaves the counter exactly as far from the memtable's bytes as it found it. */
  lemma {:induction false} ReplayFreshPutsKeepDrift(mem: KVMap, counter: int, entries: seq<LogEntry>)
    requires FreshPuts(mem, entries)
    ensures var (m, c) := Replay(mem, counter, entries); c - MemSize(m) == counter - MemSize(mem)
    decreases |entries|
  {
    if entries != [] {
      var x := entries[0];
      ApplyEntryDrift(mem, counter, x);
      var (m, c) := ApplyEntry(mem, counter, x);
      forall i | 0 <= i < |entries[1..]| && entries[1..][i].op == PUT
        ensures entries[1..][i].key !in m
      {
        assert entries[1..][i] == entries[i + 1];
      }
      assert FreshPuts(m, entries[1..]) by {
        forall i, j | 0 <= i < j < |entries[1..]| && entries[1..][i].op == PUT && entries[1..][j].op == PUT
          ensures entries[1..][j].key != entries[1..][i].key
        {
          assert entries[1..][i] == entries[i + 1] && entries[1..][j] == entries[j + 1];
        }
      }
      ReplayFreshPutsKeepDrift(m, c, entries[1..]);
    }
  }

  lemma OpenEstablishesSizeInv(files: map<Path, Bytes>, dir: Path, listing: seq<Path>, walOpenOk: bool, issued: nat)
    ensures SizeInv(OpenEngine(files, dir, listing, walOpenOk, issued))
  {
    var w := OpenStep(files, WalPath(dir), walOpenOk);
    ReplayKeepsSizeInv(map[], 0, ReadAllSpec(w.files, WalPath(dir)));
  }

  /** A WAL in which no key is PUT twice opens with the counter equal to the bytes the memtable holds. */
  lemma OpenFreshPutsExactCounter(files: map<Path, Bytes>, dir: Path, listing: seq<Path>, walOpenOk: bool, issued: nat)
    requires FreshPuts(map[], ReadAllSpec(OpenStep(files, WalPath(dir), walOpenOk).files, WalPath(dir)))
    ensures var e := OpenEngine(files, dir, listing, walOpenOk, issued); e.counter == MemSize(e.memtable)
  {
    var w := OpenStep(files, WalPath(dir), walOpenOk);
    ReplayFreshPutsKeepDrift(map[], 0, ReadAllSpec(w.files, WalPath(dir)));
  }

  // ---------------------------------------------------------------------------
  // File names

  lemma TableNameSuffix(dir: Path, n: nat)
    ensures HasSuffix(TableName(dir, n), ".sst")
  {
    var name := TableName(dir, n);
    assert name == (dir + "/sstable_" + NatToString(n)) + ".sst";
    assert name[|name| - 4..] == ".sst";
  }

  /** Within one process the counter only grows, so each name it hands out is new: different counter values give different names. */
  lemma TableNameInjective(dir: Path, a: nat, b: nat)
    requires TableName(dir, a) == TableName(dir, b)
    ensures a == b
  {
    var pre := dir + "/sstable_";
    var x, y := TableName(dir, a), TableName(dir, b);
    assert x == pre + NatToString(a) + ".sst";
    assert y == pre + NatToString(b) + ".sst";
    assert |NatToString(a)| == |NatToString(b)|;
    assert x[|pre|..|x| - 4] == NatToString(a);
    assert y[|pre|..|y| - 4] == NatToString(b);
    NatToStringInjective(a, b);
  }

  /** No table file, whose name ends in `.sst`, is the WAL file. */
  lemma NotWalPath(p: Path, dir: Path)
    requires HasSuffix(p, ".sst")
    ensures p != WalPath(dir)
  {
    var w := WalPath(dir);
    assert w == (dir + "/wal") + ".log";
    assert w[|w| - 4..] == ".log";
    DifferentSuffixes(p, w, ".sst", ".log");
  }

  predicate TablesNamed(tables: seq<TableMeta>)
  {
    forall i :: 0 <= i < |tables| ==> HasSuffix(tables[i].filename, ".sst")
  }

  // ---------------------------------------------------------------------------
  // Lookup properties

  /** The tables answer None exactly when no table has a hit for the key. */
  lemma {:induction false} NewestHitNone(tables: seq<TableMeta>, files: map<Path, Bytes>, key: Bytes)
    ensures NewestHit(tables, files, key).None? <==> forall i :: 0 <= i < |tables| ==> TableHit(tables[i], files, key).None?
    decreases |tables|
  {
    if tables != [] {
      var n := |tables| - 1;
      var front := tables[..n];
      NewestHitNone(front, files, key);
      forall i | 0 <= i < n
        ensures front[i] == tables[i]
      {
      }
    }
  }

  /** When table `i` has a hit and no later table has one, the tables answer with table `i`'s hit. */
  lemma {:induction false} NewestHitNewest(tables: seq<TableMeta>, files: map<Path, Bytes>, key: Bytes, i: nat)
    requires i < |tables| && TableHit(tables[i], files, key).Some?
    requires forall j :: i < j < |tables| ==> TableHit(tables[j], files, key).None?
    ensures NewestHit(tables, files, key) == TableHit(tables[i], files, key)
    decreases |tables|
  {
    var n := |tables| - 1;
    if i < n {
      var front := tables[..n];
      assert TableHit(tables[n], files, key).None?;
      forall j | i < j < n
        ensures TableHit(front[j], files, key).None?
      {
        assert front[j] == tables[j];
      }
      assert front[i] == tables[i];
      NewestHitNewest(front, files, key, i);
    }
  }

  /** The tables' answer depends only on their own files. */
  lemma {:induction false} NewestHitFrame(tables: seq<TableMeta>, files: map<Path, Bytes>, files': map<Path, Bytes>, key: Bytes)
    requires forall i :: 0 <= i < |tables| ==> FileOf(files, tables[i].filename) == FileOf(files', tables[i].filename)
    ensures NewestHit(tables, files, key) == NewestHit(tables, files', key)
    decreases |tables|
  {
    if tables != [] {
      var n := |tables| - 1;
      assert forall i :: 0 <= i < n ==> tables[..n][i] == tables[i];
      NewestHitFrame(tables[..n], files, files', key);
    }
  }

  /** The tables' answer is unchanged by a change to the WAL file alone. */
  lemma NewestHitIgnoresWal(tables: seq<TableMeta>, files: map<Path, Bytes>, files': map<Path, Bytes>, dir: Path, key: Bytes)
    requires TablesNamed(tables)
    requires forall p :: p != WalPath(dir) ==> FileOf(files, p) == FileOf(files', p)
    ensures NewestHit(tables, files, key) == NewestHit(tables, files', key)
  {
    forall i | 0 <= i < |tables|
      ensures FileOf(files, tables[i].filename) == FileOf(files', tables[i].filename)
    {
      NotWalPath(tables[i].filename, dir);
    }
    NewestHitFrame(tables, files, files', key);
  }

  /** A table appended last is asked first. */
  lemma NewestHitSnoc(tables: seq<TableMeta>, t: TableMeta, files: map<Path, Bytes>, key: Bytes)
    ensures NewestHit(tables + [t], files, key)
         == if TableHit(t, files, key).Some? then TableHit(t, files, key) else NewestHit(tables, files, key)
  {
    assert (tables + [t])[..|tables|] == tables;
  }

  // ---------------------------------------------------------------------------
  // Flush

  /** A flush that keeps its table: the memtable is not empty and every byte of the table reached the file. */
  ghost predicate FlushSucceeds(e: Engine, io: FlushIo)
  {
    e.memtable != map[] && io.tableOpenOk && io.tableLanded >= |Serialize(e.memtable)|
  }

  /**
    `flush_to_sstable` does nothing on an empty memtable. Otherwise it draws the
    next table name; if the table is written in full it is appended, the
    memtable and counter are emptied and the WAL is cleared (or, when it fails
    to reopen, left closed with its bytes); no other file changes. If the table
    is not written in full, only the name counter and the table file (when it
    opened) have changed.
   */
  lemma FlushEffect(e: Engine, io: FlushIo)
    ensures e.memtable == map[] ==> FlushStep(e, io) == e
    ensures var e', name := FlushStep(e, io), TableName(e.dir, e.issued + 1);
      FlushSucceeds(e, io) ==>
        && e'.tables == e.tables + [TableMeta(name, true, WriteIndex(e.memtable))]
        && e'.memtable == map[] && e'.counter == 0 && e'.issued == e.issued + 1
        && FileOf(e'.files, name) == Some(Serialize(e.memtable))
        && (io.walClearOk ==> WalEntries(e') == [] && e'.walStream == Stream(true, true))
        && (!io.walClearOk ==> FileOf(e'.files, WalPath(e.dir)) == FileOf(e.files, WalPath(e.dir)) && !e'.walStream.isOpen)
        && (forall p :: p != name && p != WalPath(e.dir) ==> FileOf(e'.files, p) == FileOf(e.files, p))
    ensures var e', name := FlushStep(e, io), TableName(e.dir, e.issued + 1);
      e.memtable != map[] && !FlushSucceeds(e, io) ==>
        && e'.memtable == e.memtable && e'.counter == e.counter && e'.tables == e.tables
        && e'.walStream == e.walStream && e'.issued == e.issued + 1
        && (forall p :: p != name ==> FileOf(e'.files, p) == FileOf(e.files, p))
        && (!io.tableOpenOk ==> e'.files == e.files)
  {
    var name := TableName(e.dir, e.issued + 1);
    TableNameSuffix(e.dir, e.issued + 1);
    NotWalPath(name, e.dir);
    if FlushSucceeds(e, io) {
      var bytes := Serialize(e.memtable);
      assert bytes[..Min(io.tableLanded, |bytes|)] == bytes;
      assert DecodeAll([]) == [];
    } else if e.memtable != map[] {
      assert FlushStep(e, io) == FlushWrite(e, io).0;
    }
  }

  /** After a flush that keeps its table, the new table answers as `get` on the table just written. */
  lemma FlushedTableAnswers(e: Engine, io: FlushIo, key: Bytes)
    requires FlushSucceeds(e, io)
    ensures var e' := FlushStep(e, io);
      NewestHit(e'.tables, e'.files, key)
        == if key in e.memtable && |key| < U16_LIMIT then Some(e.memtable[key][..Trunc16(|e.memtable[key]|)])
           else NewestHit(e.tables, e'.files, key)
  {
    var e' := FlushStep(e, io);
    var t := TableMeta(TableName(e.dir, e.issued + 1), true, WriteIndex(e.memtable));
    FlushEffect(e, io);
    NewestHitSnoc(e.tables, t, e'.files, key);
    GetAfterWrite(e.memtable, key);
  }

  /**
    A flush that keeps its table changes no answer of `get`, as long as the
    memtable's keys and values are shorter than 2^16 and no table already
    loaded uses the file name the flush draws.
   */
  lemma FlushPreservesGet(e: Engine, io: FlushIo, key: Bytes)
    requires FlushSucceeds(e, io) && TablesNamed(e.tables)
    requires forall k :: k in e.memtable ==> |k| < U16_LIMIT && |e.memtable[k]| < U16_LIMIT
    requires forall i :: 0 <= i < |e.tables| ==> e.tables[i].filename != TableName(e.dir, e.issued + 1)
    ensures LayeredGet(FlushStep(e, io), key) == LayeredGet(e, key)
  {
    var e' := FlushStep(e, io);
    var name := TableName(e.dir, e.issued + 1);
    FlushedTableAnswers(e, io, key);
    FlushEffect(e, io);
    if key in e.memtable {
      assert e.memtable[key][..Trunc16(|e.memtable[key]|)] == e.memtable[key];
    } else {
      forall i | 0 <= i < |e.tables|
        ensures FileOf(e.files, e.tables[i].filename) == FileOf(e'.files, e.tables[i].filename)
      {
        NotWalPath(e.tables[i].filename, e.dir);
      }
      NewestHitFrame(e.tables, e.files, e'.files, key);
    }
  }

  // ---------------------------------------------------------------------------
  // Table names along a run

  /** Every table of the store was flushed by this process: its name is one the counter has already handed out. */
  ghost predicate IssuedNames(e: Engine)
  {
    forall i :: 0 <= i < |e.tables| ==> IssuedName(e.dir, e.issued, e.tables[i].filename)
  }

  /** `name` is `TableName(dir, j)` for some `j` from 1 to `issued`. */
  ghost predicate IssuedName(dir: Path, issued: nat, name: Path)
  {
    exists j: nat :: 1 <= j <= issued && name == TableName(dir, j)
  }

  /** While every table was flushed by this process, the name the next flush draws belongs to no table. */
  lemma IssuedNameFresh(e: Engine)
    requires IssuedNames(e)
    ensures forall i :: 0 <= i < |e.tables| ==> e.tables[i].filename != TableName(e.dir, e.issued + 1)
  {
    forall i | 0 <= i < |e.tables|
      ensures e.tables[i].filename != TableName(e.dir, e.issued + 1)
    {
      var j: nat :| 1 <= j <= e.issued && e.tables[i].filename == TableName(e.dir, j);
      if e.tables[i].filename == TableName(e.dir, e.issued + 1) {
        TableNameInjective(e.dir, j, e.issued + 1);
      }
    }
  }

  /** Names stay issued when the counter does not go back and no table is added. */
  lemma IssuedNamesKept(e: Engine, e': Engine)
    requires IssuedNames(e)
    requires e'.dir == e.dir && e'.issued >= e.issued && e'.tables == e.tables
    ensures IssuedNames(e')
  {
    forall i | 0 <= i < |e'.tables|
      ensures IssuedName(e'.dir, e'.issued, e'.tables[i].filename)
    {
      assert e'.tables[i] == e.tables[i];
      var j: nat :| 1 <= j <= e.issued && e.tables[i].filename == TableName(e.dir, j);
    }
  }

  /** Names stay issued when the one table added carries the counter's current value. */
  lemma IssuedNamesAdd(e: Engine, e': Engine, t: TableMeta)
    requires IssuedNames(e)
    requires e'.dir == e.dir && e'.issued >= e.issued && e'.issued >= 1
    requires e'.tables == e.tables + [t] && t.filename == TableName(e.dir, e'.issued)
    ensures IssuedNames(e')
  {
    forall i | 0 <= i < |e'.tables|
      ensures IssuedName(e'.dir, e'.issued, e'.tables[i].filename)
    {
      if i < |e.tables| {
        assert e'.tables[i] == e.tables[i];
        var j: nat :| 1 <= j <= e.issued && e.tables[i].filename == TableName(e.dir, j);
      } else {
        assert e'.tables[i] == t;
      }
    }
  }

  /**
    Within one process, where every table was flushed by that process, a
    flush of short keys and values never answers `get` differently: the name
    it draws is new.
   */
  lemma FlushInRunPreservesGet(e: Engine, io: FlushIo, key: Bytes)
    requires FlushSucceeds(e, io) && TablesNamed(e.tables) && IssuedNames(e)
    requires forall k :: k in e.memtable ==> |k| < U16_LIMIT && |e.memtable[k]| < U16_LIMIT
    ensures LayeredGet(FlushStep(e, io), key) == LayeredGet(e, key)
  {
    IssuedNameFresh(e);
    FlushPreservesGet(e, io, key);
  }

  /** A flush keeps every table named `.sst`, and keeps every table's name one that this process handed out. */
  lemma FlushKeepsNames(e: Engine, io: FlushIo)
    ensures TablesNamed(e.tables) ==> TablesNamed(FlushStep(e, io).tables)
    ensures IssuedNames(e) ==> IssuedNames(FlushStep(e, io))
  {
    var e' := FlushStep(e, io);
    var t := TableMeta(TableName(e.dir, e.issued + 1), true, WriteIndex(e.memtable));
    TableNameSuffix(e.dir, e.issued + 1);
    assert e'.dir == e.dir && e'.issued >= e.issued;
    if e'.tables == e.tables {
      if IssuedNames(e) {
        IssuedNamesKept(e, e');
      }
    } else {
      FlushEffect(e, io);
      assert e'.tables == e.tables + [t] && e'.issued == e.issued + 1;
      if IssuedNames(e) {
        IssuedNamesAdd(e, e', t);
      }
    }
  }

  /** `put` and `remove` keep every table named `.sst`, and keep every table's name one that this process handed out. */
  lemma StepsKeepNames(e: Engine, key: Bytes, value: Bytes, walLanded: nat, io: FlushIo)
    ensures TablesNamed(e.tables) ==>
      TablesNamed(PutStep(e, key, value, walLanded, io).0.tables) && TablesNamed(RemoveStep(e, key, walLanded).0.tables)
    ensures IssuedNames(e) ==>
      IssuedNames(PutStep(e, key, value, walLanded, io).0) && IssuedNames(RemoveStep(e, key, walLanded).0)
  {
    var e1 := PutLogged(e, key, value, walLanded).0;
    assert e1.tables == e.tables && e1.dir == e.dir && e1.issued == e.issued;
    FlushKeepsNames(e1, io);
    var e2 := RemoveStep(e, key, walLanded).0;
    assert e2.tables == e.tables && e2.dir == e.dir && e2.issued == e.issued;
    if IssuedNames(e) {
      IssuedNamesKept(e, e1);
      IssuedNamesKept(e, e2);
    }
  }

  /**
    Opening a store loads only tables named `.sst`; when the listing holds no
    table, every table the store will hold is one this process flushed.
   */
  lemma OpenNamesTables(files: map<Path, Bytes>, dir: Path, listing: seq<Path>, walOpenOk: bool, issued: nat)
    ensures TablesNamed(OpenEngine(files, dir, listing, walOpenOk, issued).tables)
    ensures LoadTables(OpenStep(files, WalPath(dir), walOpenOk).files, listing) == [] ==>
      IssuedNames(OpenEngine(files, dir, listing, walOpenOk, issued))
  {
    var w := OpenStep(files, WalPath(dir), walOpenOk);
    LoadTablesSound(w.files, listing);
    var ts := OpenEngine(files, dir, listing, walOpenOk, issued).tables;
    assert ts == LoadTables(w.files, listing);
    forall i | 0 <= i < |ts|
      ensures HasSuffix(ts[i].filename, ".sst")
    {
      assert ts[i] in ts;
    }
  }

  // ---------------------------------------------------------------------------
  // Get after put and remove

  /** After a `put` that returned true, `get` of its key yields its value, whether or not the put flushed (lengths below 2^16). */
  lemma PutThenGet(e: Engine, key: Bytes, value: Bytes, walLanded: nat, io: FlushIo)
    requires PutStep(e, key, value, walLanded, io).1
    requires |key| < U16_LIMIT && |value| < U16_LIMIT
    ensures LayeredGet(PutStep(e, key, value, walLanded, io).0, key) == Some(value)
  {
    var e1 := PutLogged(e, key, value, walLanded).0;
    if e1.counter > MEMTABLE_LIMIT && FlushSucceeds(e1, io) {
      FlushedTableAnswers(e1, io, key);
      FlushEffect(e1, io);
      assert value[..Trunc16(|value|)] == value;
    } else if e1.counter > MEMTABLE_LIMIT {
      FlushEffect(e1, io);
    }
  }

  /**
    After a `remove` that returned true, `get` of the key answers from the
    tables alone: a value flushed earlier comes back.
   */
  lemma RemoveThenGet(e: Engine, key: Bytes, walLanded: nat)
    requires RemoveStep(e, key, walLanded).1 && TablesNamed(e.tables)
    ensures LayeredGet(RemoveStep(e, key, walLanded).0, key) == NewestHit(e.tables, e.files, key)
  {
    var e' := RemoveStep(e, key, walLanded).0;
    RemoveEffect(e, key, walLanded);
    forall p | p != WalPath(e.dir)
      ensures FileOf(e.files, p) == FileOf(e'.files, p)
    {
      assert p in e.files <==> p in e'.files;
    }
    NewestHitIgnoresWal(e.tables, e.files, e'.files, e.dir, key);
  }

  // ---------------------------------------------------------------------------
  // Recovery

  lemma ReadAllContents(files: map<Path, Bytes>, path: Path)
    ensures ReadAllSpec(files, path) == DecodeAll(Contents(files, path))
  {
    if path !in files {
      assert DecodeAll([]) == [];
    }
  }

  /** Replaying one more entry applies it to the result of replaying the others. */
  lemma {:induction false} ReplaySnoc(mem: KVMap, counter: int, entries: seq<LogEntry>, x: LogEntry)
    ensures Replay(mem, counter, entries + [x]) == var (m, c) := Replay(mem, counter, entries); ApplyEntry(m, c, x)
    decreases |entries|
  {
    if entries == [] {
      assert [x][1..] == [];
    } else {
      var (m, c) := ApplyEntry(mem, counter, entries[0]);
      assert (entries + [x])[1..] == entries[1..] + [x];
      ReplaySnoc(m, c, entries[1..], x);
    }
  }

  /**
    The memtable is what replaying the WAL from scratch rebuilds, and while the
    stream is good the log ends on a whole record.
   */
  ghost predicate WalMirrors(e: Engine)
  {
    && (e.walStream.good ==> WholeRecords(Contents(e.files, WalPath(e.dir))))
    && Replay(map[], 0, WalEntries(e)).0 == e.memtable
  }

  /** A flush keeps the WAL in step with the memtable, provided that when it empties the memtable it also manages to clear the WAL. */
  lemma FlushKeepsMirror(e: Engine, io: FlushIo)
    requires WalMirrors(e) && io.walClearOk
    ensures WalMirrors(FlushStep(e, io))
  {
    var e' := FlushStep(e, io);
    FlushEffect(e, io);
    ReadAllContents(e.files, WalPath(e.dir));
    ReadAllContents(e'.files, WalPath(e.dir));
    if FlushSucceeds(e, io) {
      assert DecodeAll([]) == [];
    }
  }

  /**
    Logging a storable entry: when the write succeeds the WAL reads back with
    the entry at its end, otherwise it reads back as before; while the stream
    stays good the log still ends on a whole record.
   */
  lemma LogStep(e: Engine, entry: LogEntry, walLanded: nat)
    requires Storable(entry)
    requires e.walStream.good ==> WholeRecords(Contents(e.files, WalPath(e.dir)))
    ensures var (w, ok) := WriteStep(WalOf(e), WalPath(e.dir), entry, walLanded);
      var e0 := e.(files := w.files, walStream := w.stream);
      && (e0.walStream.good ==> WholeRecords(Contents(e0.files, WalPath(e0.dir))))
      && WalEntries(e0) == (if ok then WalEntries(e) + [entry] else WalEntries(e))
  {
    if e.walStream.isOpen && e.walStream.good {
      WriteThenReadAll(WalOf(e), WalPath(e.dir), entry, walLanded);
      NormalizeStorable(entry);
    }
  }

  /** A `put` keeps the WAL in step with the memtable (lengths below 2^16, and a flush it starts clears the WAL). */
  lemma PutKeepsMirror(e: Engine, key: Bytes, value: Bytes, walLanded: nat, io: FlushIo)
    requires WalMirrors(e) && |key| < U16_LIMIT && |value| < U16_LIMIT && io.walClearOk
    ensures WalMirrors(PutStep(e, key, value, walLanded, io).0)
  {
    var entry := LogEntry(PUT, key, value);
    LogStep(e, entry, walLanded);
    var (e1, ok) := PutLogged(e, key, value, walLanded);
    if ok {
      ReplaySnoc(map[], 0, WalEntries(e), entry);
      assert WalMirrors(e1);
      if e1.counter > MEMTABLE_LIMIT {
        FlushKeepsMirror(e1, io);
      }
    }
  }

  /** A `remove` keeps the WAL in step with the memtable (keys below 2^16). */
  lemma RemoveKeepsMirror(e: Engine, key: Bytes, walLanded: nat)
    requires WalMirrors(e) && |key| < U16_LIMIT
    ensures WalMirrors(RemoveStep(e, key, walLanded).0)
  {
    var entry := LogEntry(DELETE, key, []);
    LogStep(e, entry, walLanded);
    ReplaySnoc(map[], 0, WalEntries(e), entry);
  }

  /** Opening a store over a log with no torn tail puts the memtable in step with the WAL. */
  lemma OpenMirrors(files: map<Path, Bytes>, dir: Path, listing: seq<Path>, walOpenOk: bool, issued: nat)
    requires WholeRecords(Contents(files, WalPath(dir)))
    ensures WalMirrors(OpenEngine(files, dir, listing, walOpenOk, issued))
  {
  }

  /** Reopening the store's files rebuilds the memtable it had, whenever the memtable was in step with the WAL. */
  lemma RecoverRestoresMemtable(e: Engine, listing: seq<Path>, walOpenOk: bool, issued: nat)
    requires WalMirrors(e)
    ensures OpenEngine(e.files, e.dir, listing, walOpenOk, issued).memtable == e.memtable
  {
    var path := WalPath(e.dir);
    var w := OpenStep(e.files, path, walOpenOk);
    ReadAllContents(e.files, path);
    ReadAllContents(w.files, path);
  }

  /** `load_existing_sstables` keeps at most one table per listed path: a listed `.sst` path that opens, with the index rebuilt from its file. */
  lemma {:induction false} LoadTablesSound(files: map<Path, Bytes>, listing: seq<Path>)
    ensures |LoadTables(files, listing)| <= |listing|
    ensures forall t :: t in LoadTables(files, listing) ==>
      && t.valid && t.filename in listing && HasSuffix(t.filename, ".sst")
      && t.filename in files && t.index == BuiltIndex(files, t.filename)
    decreases |listing|
  {
    if listing != [] {
      var n := |listing| - 1;
      LoadTablesSound(files, listing[..n]);
      assert listing == listing[..n] + [listing[n]];
    }
  }

  /** Every listed `.sst` path that opens is loaded, with the index rebuilt from its file. */
  lemma {:induction false} LoadTablesComplete(files: map<Path, Bytes>, listing: seq<Path>, p: Path)
    requires p in listing && HasSuffix(p, ".sst") && p in files
    ensures TableMeta(p, true, BuiltIndex(files, p)) in LoadTables(files, listing)
    decreases |listing|
  {
    var n := |listing| - 1;
    if p != listing[n] {
      assert listing == listing[..n] + [listing[n]];
      LoadTablesComplete(files, listing[..n], p);
    }
  }

  /** The tables loaded depend only on the `.sst` files. */
  lemma {:induction false} LoadTablesFrame(files: map<Path, Bytes>, files': map<Path, Bytes>, listing: seq<Path>)
    requires forall p :: HasSuffix(p, ".sst") ==> FileOf(files, p) == FileOf(files', p)
    ensures LoadTables(files, listing) == LoadTables(files', listing)
    decreases |listing|
  {
    if listing != [] {
      var n := |listing| - 1;
      LoadTablesFrame(files, files', listing[..n]);
      if HasSuffix(listing[n], ".sst") {
        assert FileOf(files, listing[n]) == FileOf(files', listing[n]);
      }
    }
  }

  /**
    A restart changes no answer of `get` when the memtable was in step with the
    WAL and the directory lists the tables in the order they were added.
   */
  lemma RestartPreservesGet(e: Engine, listing: seq<Path>, walOpenOk: bool, issued: nat, key: Bytes)
    requires WalMirrors(e) && TablesNamed(e.tables)
    requires LoadTables(e.files, listing) == e.tables
    ensures LayeredGet(OpenEngine(e.files, e.dir, listing, walOpenOk, issued), key) == LayeredGet(e, key)
  {
    var e' := OpenEngine(e.files, e.dir, listing, walOpenOk, issued);
    RecoverRestoresMemtable(e, listing, walOpenOk, issued);
    forall p | HasSuffix(p, ".sst")
      ensures FileOf(e.files, p) == FileOf(e'.files, p)
    {
      NotWalPath(p, e.dir);
    }
    LoadTablesFrame(e.files, e'.files, listing);
    assert e'.tables == e.tables;
    NewestHitIgnoresWal(e.tables, e.files, e'.files, e.dir, key);
  }

  /**
    A flush whose table is written but whose WAL fails to reopen leaves the WAL
    closed with the flushed entries still in it. A restart then replays them
    into the memtable, on top of the table that already holds them, and every
    answer of `get` stays the same (keys and values below 2^16).
   */
  lemma RestartAfterUnclearedFlush(e: Engine, io: FlushIo, listing: seq<Path>, walOpenOk: bool, issued: nat, key: Bytes)
    requires WalMirrors(e) && TablesNamed(e.tables) && FlushSucceeds(e, io) && !io.walClearOk
    requires forall k :: k in e.memtable ==> |k| < U16_LIMIT && |e.memtable[k]| < U16_LIMIT
    requires LoadTables(FlushStep(e, io).files, listing) == FlushStep(e, io).tables
    ensures var e2 := FlushStep(e, io);
      && e2.memtable == map[] && !e2.walStream.isOpen
      && OpenEngine(e2.files, e2.dir, listing, walOpenOk, issued).memtable == e.memtable
      && LayeredGet(OpenEngine(e2.files, e2.dir, listing, walOpenOk, issued), key) == LayeredGet(e2, key)
  {
    var e2 := FlushStep(e, io);
    FlushEffect(e, io);
    FlushKeepsNames(e, io);
    TableNameSuffix(e.dir, e.issued + 1);
    NotWalPath(TableName(e.dir, e.issued + 1), e.dir);
    assert WalEntries(e2) == WalEntries(e) by {
      ReadAllContents(e.files, WalPath(e.dir));
      ReadAllContents(e2.files, WalPath(e.dir));
    }
    var e1 := e2.(memtable := e.memtable);
    assert WalMirrors(e1);
    RestartPreservesGet(e1, listing, walOpenOk, issued, key);
    RecoverRestoresMemtable(e1, listing, walOpenOk, issued);
    FlushedTableAnswers(e, io, key);
    if key in e.memtable {
      assert e.memtable[key][..Trunc16(|e.memtable[key]|)] == e.memtable[key];
    }
  }

  // ---------------------------------------------------------------------------
  // Restart over the store's own tables

  /** Every table of the store is what loading its own file would give: the file ends in `.sst`, opens, and rebuilds the table's index. */
  ghost predicate TablesOnDisk(e: Engine)
  {
    forall i :: 0 <= i < |e.tables| ==> LoadOne(e.files, e.tables[i].filename) == [e.tables[i]]
  }

  /** The file names of `tables`, oldest first: the listing a directory gives when it lists them in push order. */
  function TableNames(tables: seq<TableMeta>): seq<Path>
  {
    seq(|tables|, i requires 0 <= i < |tables| => tables[i].filename)
  }

  /** Listing the store's own table files in push order loads exactly its tables. */
  lemma {:induction false} LoadOwnTables(files: map<Path, Bytes>, tables: seq<TableMeta>)
    requires forall i :: 0 <= i < |tables| ==> LoadOne(files, tables[i].filename) == [tables[i]]
    ensures LoadTables(files, TableNames(tables)) == tables
    decreases |tables|
  {
    if tables != [] {
      var n := |tables| - 1;
      assert TableNames(tables)[..n] == TableNames(tables[..n]);
      LoadOwnTables(files, tables[..n]);
      assert tables == tables[..n] + [tables[n]];
    }
  }

  /** A freshly opened store holds only tables it loaded from their files. */
  lemma OpenTablesOnDisk(files: map<Path, Bytes>, dir: Path, listing: seq<Path>, walOpenOk: bool, issued: nat)
    ensures TablesOnDisk(OpenEngine(files, dir, listing, walOpenOk, issued))
  {
    var w := OpenStep(files, WalPath(dir), walOpenOk);
    LoadTablesSound(w.files, listing);
    var ts := LoadTables(w.files, listing);
    forall i | 0 <= i < |ts|
      ensures LoadOne(w.files, ts[i].filename) == [ts[i]]
    {
      assert ts[i] in ts;
    }
  }

  /** The tables stay on disk when no file of theirs changes. */
  lemma OnDiskFrame(e: Engine, e': Engine)
    requires TablesOnDisk(e) && e'.tables == e.tables
    requires forall i :: 0 <= i < |e.tables| ==> FileOf(e'.files, e.tables[i].filename) == FileOf(e.files, e.tables[i].filename)
    ensures TablesOnDisk(e')
  {
    forall i | 0 <= i < |e'.tables|
      ensures LoadOne(e'.files, e'.tables[i].filename) == [e'.tables[i]]
    {
      assert e'.tables[i] == e.tables[i];
      assert FileOf(e'.files, e.tables[i].filename) == FileOf(e.files, e.tables[i].filename);
    }
  }

  /**
    While every table's name was issued by this process, a flush of short keys
    keeps every table on disk: the new table's file rebuilds the index `write`
    built, and no older table's file is touched.
   */
  lemma FlushKeepsOnDisk(e: Engine, io: FlushIo)
    requires TablesOnDisk(e) && TablesNamed(e.tables) && IssuedNames(e)
    requires forall k :: k in e.memtable ==> |k| < U16_LIMIT
    ensures TablesOnDisk(FlushStep(e, io))
  {
    var e' := FlushStep(e, io);
    var name := TableName(e.dir, e.issued + 1);
    FlushEffect(e, io);
    IssuedNameFresh(e);
    forall i | 0 <= i < |e.tables|
      ensures FileOf(e'.files, e.tables[i].filename) == FileOf(e.files, e.tables[i].filename)
    {
      NotWalPath(e.tables[i].filename, e.dir);
    }
    if FlushSucceeds(e, io) {
      var t := TableMeta(name, true, WriteIndex(e.memtable));
      var e0 := e'.(tables := e.tables);
      OnDiskFrame(e, e0);
      TableNameSuffix(e.dir, e.issued + 1);
      RebuiltIndexMatches(e.memtable);
      assert LoadOne(e'.files, name) == [t];
      forall i | 0 <= i < |e'.tables|
        ensures LoadOne(e'.files, e'.tables[i].filename) == [e'.tables[i]]
      {
        if i < |e.tables| {
          assert e'.tables[i] == e0.tables[i];
        } else {
          assert e'.tables[i] == t;
        }
      }
    } else if e.memtable != map[] {
      OnDiskFrame(e, e');
    }
  }

  /** `put` of a short key keeps every table on disk, while every table's name was issued by this process. */
  lemma PutKeepsOnDisk(e: Engine, key: Bytes, value: Bytes, walLanded: nat, io: FlushIo)
    requires TablesOnDisk(e) && TablesNamed(e.tables) && IssuedNames(e)
    requires |key| < U16_LIMIT && forall k :: k in e.memtable ==> |k| < U16_LIMIT
    ensures TablesOnDisk(PutStep(e, key, value, walLanded, io).0)
  {
    var e1 := PutLogged(e, key, value, walLanded).0;
    WalOnlyKeepsOnDisk(e, e1);
    IssuedNamesKept(e, e1);
    FlushKeepsOnDisk(e1, io);
  }

  /** `remove` keeps every table on disk. */
  lemma RemoveKeepsOnDisk(e: Engine, key: Bytes, walLanded: nat)
    requires TablesOnDisk(e) && TablesNamed(e.tables)
    ensures TablesOnDisk(RemoveStep(e, key, walLanded).0)
  {
    WalOnlyKeepsOnDisk(e, RemoveStep(e, key, walLanded).0);
  }

  /** A change to the WAL file alone keeps every `.sst` table on disk. */
  lemma WalOnlyKeepsOnDisk(e: Engine, e': Engine)
    requires TablesOnDisk(e) && TablesNamed(e.tables)
    requires e'.tables == e.tables && e'.dir == e.dir
    requires forall p :: p != WalPath(e.dir) ==> FileOf(e'.files, p) == FileOf(e.files, p)
    ensures TablesOnDisk(e')
  {
    forall i | 0 <= i < |e.tables|
      ensures FileOf(e'.files, e.tables[i].filename) == FileOf(e.files, e.tables[i].filename)
    {
      NotWalPath(e.tables[i].filename, e.dir);
    }
    OnDiskFrame(e, e');
  }

  /**
    A restart whose directory lists the store's own table files in push order
    changes no answer of `get`, when the memtable was in step with the WAL and
    every table is on disk.
   */
  lemma RestartOwnTablesPreservesGet(e: Engine, walOpenOk: bool, issued: nat, key: Bytes)
    requires WalMirrors(e) && TablesNamed(e.tables) && TablesOnDisk(e)
    ensures LayeredGet(OpenEngine(e.files, e.dir, TableNames(e.tables), walOpenOk, issued), key) == LayeredGet(e, key)
  {
    LoadOwnTables(e.files, e.tables);
    RestartPreservesGet(e, TableNames(e.tables), walOpenOk, issued, key);
  }

  // ---------------------------------------------------------------------------
  // Two consequences of the design, shown on concrete stores

  /**
    The table written from a memtable of one entry is that entry's record
    alone: the key's length and bytes, then the value's, each cut to 16 bits,
    and nothing cut when both are shorter than 2^16.
   */
  lemma SerializeOneEntry(k: Bytes, v: Bytes)
    ensures Serialize(map[k := v]) == EncodeRecord(k, v)
    ensures |k| < U16_LIMIT && |v| < U16_LIMIT ==>
      Serialize(map[k := v]) == EncodeU16(|k|) + k + EncodeU16(|v|) + v
  {
    var m: KVMap := map[k := v];
    var ks := SortedKeys(m.Keys);
    assert ks[0] in m.Keys;
    assert ks == [k];
    assert SerializeKeys(ks[1..], m) == [];
  }

  /**
    The store a process whose name counter stands at `n` (0 in a new process)
    opens over a directory holding only the table file `name`, written from `m`.
   */
  lemma ReopenOverTable(dir: Path, name: Path, m: KVMap, n: nat)
    requires HasSuffix(name, ".sst")
    requires forall k :: k in m ==> |k| < U16_LIMIT
    ensures var e := OpenEngine(map[name := Serialize(m)], dir, [name], true, n);
      && e.memtable == map[] && e.counter == 0 && e.issued == n && e.dir == dir
      && e.tables == [TableMeta(name, true, WriteIndex(m))]
      && e.walStream == Stream(true, true)
      && FileOf(e.files, name) == Some(Serialize(m))
      && Contents(e.files, WalPath(dir)) == []
  {
    var files := map[name := Serialize(m)];
    NotWalPath(name, dir);
    var w := OpenStep(files, WalPath(dir), true);
    assert ReadAllSpec(w.files, WalPath(dir)) == [] by {
      assert DecodeAll([]) == [];
    }
    RebuiltIndexMatches(m);
    assert LoadTables(w.files, [name]) == [TableMeta(name, true, WriteIndex(m))] by {
      assert [name][..0] == [];
    }
  }

  /** No offset of the table written from {[2] := [8]} holds a record with key [1], so any index misses [1] there. */
  lemma OverwrittenTableMisses(idx: seq<IndexEntry>)
    ensures TableLookup(true, idx, Some(Serialize(map[[2] := [8]])), [1]) == None
  {
    SerializeOneEntry([2], [8]);
    var file: Bytes := [1, 0, 2, 1, 0, 8];
    assert Serialize(map[[2] := [8]]) == file;
    forall o: nat
      ensures ReadRecord(file, o, [1]) == None
    {
      if o < 5 {
        assert o == 0 || o == 1 || o == 2 || o == 3 || o == 4;
      }
    }
  }

  /**
    An index entry left over from another table can also hit: its offset may
    land inside a value of the new file that happens to look like a record of
    its key. Here the entry for key [7] at offset 5 finds, inside the value of
    key [9], a record of [7] with an empty value.
   */
  lemma StaleIndexHit()
    ensures TableLookup(true, [IndexEntry([7], 5, 5)], Some(Serialize(map[[9] := [1, 0, 7, 0, 0]])), [7]) == Some([])
  {
    SerializeOneEntry([9], [1, 0, 7, 0, 0]);
    var file: Bytes := [1, 0, 9, 5, 0, 1, 0, 7, 0, 0];
    assert Serialize(map[[9] := [1, 0, 7, 0, 0]]) == file;
    assert FindEntry([IndexEntry([7], 5, 5)], [7]) == Some(IndexEntry([7], 5, 5)) by {
      FindEntryAt([IndexEntry([7], 5, 5)], 0);
    }
    assert file[5..7] == EncodeU16(1) && file[8..10] == EncodeU16(0);
    DecodeEncodeU16Exact(1);
    DecodeEncodeU16Exact(0);
  }

  /** A `put` of one key, whether or not its record lands, does not change what `get` answers for another key. */
  lemma PutOtherKeyKeepsGet(e: Engine, key: Bytes, k: Bytes, v: Bytes, walLanded: nat)
    requires k != key && TablesNamed(e.tables)
    ensures LayeredGet(PutLogged(e, k, v, walLanded).0, key) == LayeredGet(e, key)
  {
    var e1 := PutLogged(e, k, v, walLanded).0;
    assert e1.tables == e.tables;
    assert forall p :: p != WalPath(e.dir) ==> FileOf(e.files, p) == FileOf(e1.files, p);
    NewestHitIgnoresWal(e.tables, e.files, e1.files, e.dir, key);
  }

  /**
    The table-name counter lives in the process, not on disk. When the only
    table a store holds was loaded from the file its next flush draws, that
    flush overwrites the file while the old table stays in the list, with an
    index that no longer matches the bytes. A key only the old table held is
    then lost as soon as the old index misses in the new file
    (`OverwrittenTableMisses` gives such tables); puts of other keys before
    the flush do not matter (`PutOtherKeyKeepsGet`). A restart gives such a
    store: `ReopenOverTable` with `TableName(dir, n + 1)` as the name (it ends
    in `.sst` by `TableNameSuffix`) opens a store whose only table is that
    file and whose counter is `n`.
   */
  lemma FlushReusesLoadedName(e1: Engine, io: FlushIo, t: TableMeta, key: Bytes)
    requires e1.tables == [t] && t.filename == TableName(e1.dir, e1.issued + 1)
    requires e1.memtable != map[] && key !in e1.memtable
    requires io.tableOpenOk && io.tableLanded >= |Serialize(e1.memtable)|
    requires TableLookup(t.valid, t.index, Some(Serialize(e1.memtable)), key) == None
    ensures var e2 := FlushStep(e1, io);
      |e2.tables| == 2 && e2.tables[0].filename == e2.tables[1].filename == t.filename
    ensures LayeredGet(FlushStep(e1, io), key) == None
  {
    var e2 := FlushStep(e1, io);
    FlushEffect(e1, io);
    FlushedTableAnswers(e1, io, key);
    assert [t][..0] == [];
    assert NewestHit([t], e2.files, key) == TableHit(t, e2.files, key);
  }

  /**
    `read_all` stops at a torn record but the constructor appends after it: a
    `put` that returned true lands behind the torn bytes, and a later reopen
    no longer sees it.
   */
  lemma TornTailHidesPut(dir: Path, io: FlushIo)
    ensures var e0 := OpenEngine(map[WalPath(dir) := [PUT]], dir, [], true, 0);
      var (e1, ok) := PutStep(e0, [5], [6], 7, io);
      && ok && LayeredGet(e1, [5]) == Some([6])
      && OpenEngine(e1.files, dir, [], true, 0).memtable == map[]
  {
    var path := WalPath(dir);
    var e0 := OpenEngine(map[path := [PUT]], dir, [], true, 0);
    assert DecodeAll([PUT]) == [];
    var e1 := PutLogged(e0, [5], [6], 7).0;
    assert e1.counter == 2;
    var log: Bytes := [PUT, PUT, 1, 0, 5, 1, 0, 6];
    assert e1.files[path] == log;
    assert DecodeU16(log[1..3]) == 257;
    assert DecodeAll(log) == [];
  }
}
