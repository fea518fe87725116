/**
  The `KVStore` class of MiniKV/src/kvstore.cpp. Each method changes the
  object's fields the way the C++ method does, and its contract says that the
  store, read through `Model()`, moves exactly as the matching step function of
  `StoreModel` prescribes; the properties of those functions are proved there.

  The outcome of every I/O call is an argument: how many bytes of a WAL record
  land, whether a table file opens and how much of it lands, and whether the
  WAL reopens after a flush. The directory listing that `load_existing_sstables`
  walks is an argument too.
 */
module Store {
  import opened Bytes
  import opened Wrappers
  import opened Files
  import opened WalFormat
  import opened WalLog
  import opened TableFormat
  import opened Table
  import opened StoreModel

  /** The process that runs the store; it holds the static `counter` of `generate_sstable_filename`. */
  class Process {
    var tableCounter: nat

    constructor ()
      ensures tableCounter == 0
    {
      tableCounter := 0;
    }
  }

  /** What the tables of `sstables_` look like, oldest first. */
  ghost function Metas(ts: seq<SSTable>): (r: seq<TableMeta>)
    reads ts
    ensures |r| == |ts|
  {
    if ts == [] then [] else Metas(ts[..|ts| - 1]) + [ts[|ts| - 1].Meta()]
  }

  lemma {:induction false} MetasAt(ts: seq<SSTable>, i: nat)
    requires i < |ts|
    ensures Metas(ts)[i] == ts[i].Meta()
    decreases |ts|
  {
    if i < |ts| - 1 {
      MetasAt(ts[..|ts| - 1], i);
    }
  }

  /** Every table of `ts` works on the disk `fs`. */
  predicate AllOn(ts: seq<SSTable>, fs: FileSystem)
    decreases |ts|
  {
    ts == [] || (AllOn(ts[..|ts| - 1], fs) && ts[|ts| - 1].fs == fs)
  }

  lemma {:induction false} AllOnAt(ts: seq<SSTable>, fs: FileSystem, i: nat)
    requires AllOn(ts, fs) && i < |ts|
    ensures ts[i].fs == fs
    decreases |ts|
  {
    if i < |ts| - 1 {
      AllOnAt(ts[..|ts| - 1], fs, i);
    }
  }

  lemma AllOnSnoc(ts: seq<SSTable>, t: SSTable, fs: FileSystem)
    requires AllOn(ts, fs) && t.fs == fs
    ensures AllOn(ts + [t], fs)
  {
    assert (ts + [t])[..|ts|] == ts;
  }

  /** A table pushed onto `sstables_` shows up last. */
  lemma MetasSnoc(ts: seq<SSTable>, t: SSTable)
    ensures Metas(ts + [t]) == Metas(ts) + [t.Meta()]
  {
    assert (ts + [t])[..|ts|] == ts;
  }

  class KVStore {
    const dir: Path
    const fs: FileSystem
    const wal: Wal
    const process: Process
    var memtable: KVMap
    var counter: int
    var tables: seq<SSTable>

    /** The WAL and every table work on the store's own disk; the WAL is `<dir>/wal.log`. */
    ghost predicate Valid()
      reads this, wal
    {
      && wal.fs == fs && wal.filename == WalPath(dir)
      && AllOn(tables, fs)
    }

    ghost function Model(): Engine
      reads this, fs, wal, process, tables
    {
      Engine(dir, memtable, counter, Metas(tables), fs.files, wal.stream, process.tableCounter)
    }

    /** `KVStore(data_dir)`: open the WAL in append mode, then recover. */
    constructor (fs: FileSystem, dir: Path, listing: seq<Path>, walOpenOk: bool, process: Process)
      modifies fs
      ensures Valid()
      ensures this.fs == fs && this.dir == dir && this.process == process
      ensures Model() == OpenEngine(old(fs.files), dir, listing, walOpenOk, old(process.tableCounter))
    {
      this.dir := dir;
      this.fs := fs;
      this.process := process;
      memtable := map[];
      counter := 0;
      tables := [];
      wal := new Wal(fs, WalPath(dir), walOpenOk);
      new;
      Recover(listing);
    }

    method Recover(listing: seq<Path>)
      requires Valid()
      modifies this
      ensures Valid()
      ensures Model() == RecoverStep(old(Model()), listing)
    {
      LoadExistingSSTables(listing);
      ReplayWal();
    }

    /** Every listed path ending in `.sst` whose table opens is appended, in listing order. */
    method LoadExistingSSTables(listing: seq<Path>)
      requires Valid()
      modifies this
      ensures Valid()
      ensures Metas(tables) == old(Metas(tables)) + LoadTables(fs.files, listing)
      ensures memtable == old(memtable) && counter == old(counter)
    {
      ghost var start := Metas(tables);
      for i := 0 to |listing|
        invariant Valid()
        invariant Metas(tables) == start + LoadTables(fs.files, listing[..i])
        invariant memtable == old(memtable) && counter == old(counter)
      {
        LoadSSTable(listing[i]);
        LoadTablesSnoc(fs.files, listing, i);
        ConcatAssoc(start, LoadTables(fs.files, listing[..i]), LoadOne(fs.files, listing[i]));
      }
      assert listing[..|listing|] == listing;
    }

    /** One step of `load_existing_sstables`: open the table at `p` if it ends in `.sst`, and keep it if it is valid. */
    method LoadSSTable(p: Path)
      requires Valid()
      modifies this
      ensures Valid()
      ensures Metas(tables) == old(Metas(tables)) + LoadOne(fs.files, p)
      ensures memtable == old(memtable) && counter == old(counter)
    {
      if HasSuffix(p, ".sst") {
        var table := new SSTable(fs, p);
        var ok := table.IsValid();
        if ok {
          MetasSnoc(tables, table);
          AllOnSnoc(tables, table, fs);
          tables := tables + [table];
        }
      }
    }

    /** `replay_wal`: apply the log's entries to the memtable in order, with no flush. */
    method ReplayWal()
      requires Valid()
      modifies this
      ensures Valid()
      ensures (memtable, counter) == Replay(old(memtable), old(counter), WalEntries(old(Model())))
      ensures tables == old(tables)
    {
      var entries := wal.ReadAll();
      ghost var final := Replay(memtable, counter, entries);
      for i := 0 to |entries|
        invariant Replay(memtable, counter, entries[i..]) == final
        invariant tables == old(tables)
      {
        var entry := entries[i];
        assert entries[i..][1..] == entries[i + 1..];
        if entry.op == PUT {
          memtable := memtable[entry.key := entry.value];
          counter := counter + |entry.key| + |entry.value|;
        } else if entry.op == DELETE {
          if entry.key in memtable {
            counter := counter - (|entry.key| + |memtable[entry.key]|);
            memtable := memtable - {entry.key};
          }
        }
      }
    }

    method Put(key: Bytes, value: Bytes, walLanded: nat, io: FlushIo) returns (ok: bool)
      requires Valid()
      modifies this, fs, wal, process
      ensures Valid()
      ensures (Model(), ok) == PutStep(old(Model()), key, value, walLanded, io)
    {
      ok := wal.WritePut(key, value, walLanded);
      if !ok {
        return;
      }
      var oldSize := if key in memtable then |memtable[key]| else 0;
      memtable := memtable[key := value];
      counter := counter + |value| + |key| - oldSize;
      if counter > MEMTABLE_LIMIT {
        FlushToSSTable(io);
      }
    }

    /** `get`: the memtable, then the tables from the last appended to the first. */
    method Get(key: Bytes) returns (found: bool, value: Bytes)
      requires Valid()
      ensures (if found then Some(value) else None) == LayeredGet(Model(), key)
    {
      if key in memtable {
        return true, memtable[key];
      }
      ghost var metas := Metas(tables);
      var i := |tables|;
      assert metas[..i] == metas;
      while i > 0
        invariant 0 <= i <= |tables|
        invariant NewestHit(metas[..i], fs.files, key) == NewestHit(metas, fs.files, key)
        decreases i
      {
        MetasAt(tables, i - 1);
        AllOnAt(tables, fs, i - 1);
        found, value := tables[i - 1].Get(key);
        if found {
          return;
        }
        assert metas[..i][..i - 1] == metas[..i - 1];
        i := i - 1;
      }
      found, value := false, [];
    }

    method Remove(key: Bytes, walLanded: nat) returns (ok: bool)
      requires Valid()
      modifies this, fs, wal
      ensures Valid()
      ensures (Model(), ok) == RemoveStep(old(Model()), key, walLanded)
    {
      ok := wal.WriteDelete(key, walLanded);
      if !ok {
        return;
      }
      if key in memtable {
        counter := counter - (|key| + |memtable[key]|);
        memtable := memtable - {key};
      }
    }

    /** `flush_to_sstable`: on success keep the new table, empty the memtable and clear the WAL. */
    method FlushToSSTable(io: FlushIo)
      requires Valid()
      modifies this, fs, wal, process
      ensures Valid()
      ensures Model() == FlushStep(old(Model()), io)
    {
      if memtable == map[] {
        return;
      }
      var table, ok := WriteNewTable(io);
      if ok {
        AdoptTable(table, io.walClearOk);
      }
    }

    /** A fresh name from `generate_sstable_filename`, then `std::make_unique<SSTable>(filename)` and `write(memtable_)`. */
    method WriteNewTable(io: FlushIo) returns (table: SSTable, ok: bool)
      requires Valid()
      modifies fs, process
      ensures Valid()
      ensures (Model(), ok) == FlushWrite(old(Model()), io)
      ensures table.fs == fs
      ensures ok ==> table.Meta() == TableMeta(TableName(dir, process.tableCounter), true, WriteIndex(memtable))
    {
      var filename := GenerateSSTableFilename();
      table := new SSTable(fs, filename);
      ok := table.Write(memtable, io.tableOpenOk, io.tableLanded);
    }

    /** The success branch of `flush_to_sstable`: push the table, reset the memtable and its size, clear the WAL. */
    method AdoptTable(table: SSTable, walClearOk: bool)
      requires Valid() && table.fs == fs
      modifies this, fs, wal
      ensures Valid()
      ensures Model() == FlushAdopt(old(Model()), table.Meta(), walClearOk)
    {
      MetasSnoc(tables, table);
      AllOnSnoc(tables, table, fs);
      tables := tables + [table];
      memtable := map[];
      counter := 0;
      wal.Clear(walClearOk);
    }

    /** `flush_memtable`: a flush on demand, whatever the memtable's size. */
    method FlushMemtable(io: FlushIo)
      requires Valid()
      modifies this, fs, wal, process
      ensures Valid()
      ensures Model() == FlushStep(old(Model()), io)
    {
      FlushToSSTable(io);
    }

    /** The next value of the process-wide counter, as a table file name in the store's directory. */
    method GenerateSSTableFilename() returns (name: Path)
      modifies process
      ensures process.tableCounter == old(process.tableCounter) + 1
      ensures name == TableName(dir, process.tableCounter)
    {
      process.tableCounter := process.tableCounter + 1;
      name := dir + "/sstable_" + NatToString(process.tableCounter) + ".sst";
    }

    method Close()
      requires Valid()
      modifies wal
      ensures Valid()
      ensures Model() == CloseEngine(old(Model()))
    {
      wal.Close();
    }
  }
}
