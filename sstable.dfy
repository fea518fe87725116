/**
  The `SSTable` class of MiniKV/src/sstable.cpp: a table file together with the
  in-memory `index_` that either `write` or `build_index` fills, and the
  `valid_` flag that gates `get`.

  The output stream of `write` is reduced to whether it opens (`openOk`) and how
  many of the bytes written reach the file (`landed`); the stream stays good
  exactly when all of them do. A file opens for reading exactly when it exists.
 */
module Table {
  import opened Bytes
  import opened Wrappers
  import opened Files
  import opened TableFormat

  /** The table file as `get` finds it: its bytes, or None when it cannot be opened. */
  function FileOf(files: map<Path, Bytes>, path: Path): Option<Bytes>
  {
    if path in files then Some(files[path]) else None
  }

  /** What `build_index` yields for the file at `path`: nothing when the file cannot be opened. */
  function BuiltIndex(files: map<Path, Bytes>, path: Path): seq<IndexEntry>
  {
    if path in files then ScanIndex(files[path], 0) else []
  }

  /** One iteration of the loop in `write`: the least remaining key is the next in ascending order... */
  lemma WriteLoopOrder(data: KVMap, done: seq<Bytes>, remaining: set<Bytes>, key: Bytes)
    requires IsMinimum(key, remaining)
    requires SortedKeys(data.Keys) == done + SortedKeys(remaining)
    ensures SortedKeys(data.Keys) == done + [key] + SortedKeys(remaining - {key})
  {
    SortedKeysMinimumFirst(remaining, key);
    ConcatAssoc(done, [key], SortedKeys(remaining - {key}));
  }

  /** ...and its record and index entry extend those of the keys before it. */
  lemma WriteLoopOutput(data: KVMap, done: seq<Bytes>, key: Bytes)
    requires forall i :: 0 <= i < |done| ==> done[i] in data
    requires key in data
    ensures forall i :: 0 <= i < |done + [key]| ==> (done + [key])[i] in data
    ensures SerializeKeys(done + [key], data) == SerializeKeys(done, data) + EncodeRecord(key, data[key])
    ensures IndexKeys(done + [key], data, 0)
         == IndexKeys(done, data, 0) + [IndexEntry(key, |SerializeKeys(done, data)|, RecordSize(key, data[key]))]
  {
    var next := done + [key];
    assert forall i :: 0 <= i < |next| ==> next[i] in data by {
      forall i | 0 <= i < |next|
        ensures next[i] in data
      {
        if i < |done| {
          assert next[i] == done[i];
        }
      }
    }
    SerializeSnoc(done, key, data);
    IndexSnoc(done, key, data, 0);
  }

  function Min(a: nat, b: nat): nat
  {
    if a < b then a else b
  }

  /** A loop step of `build_index` that skips a whole record: the entry is kept and the scan goes on after the record. */
  lemma ScanAdvance(file: Bytes, pos: nat, entry: IndexEntry, entries: seq<IndexEntry>)
    requires pos <= |file| && ScanHeader(file, pos) == Some(entry) && |file| - pos >= entry.size
    ensures entries + ScanIndex(file, pos) == (entries + [entry]) + ScanIndex(file, pos + entry.size)
  {
    ScanIndexAt(file, pos, entry);
    ConcatAssoc(entries, [entry], ScanIndex(file, pos + entry.size));
  }

  /** The last loop step of `build_index`, whose skip runs past the end: the entry is kept and the scan stops. */
  lemma ScanLast(file: Bytes, pos: nat, entry: IndexEntry, entries: seq<IndexEntry>)
    requires pos <= |file| && ScanHeader(file, pos) == Some(entry) && |file| - pos < entry.size
    ensures entries + ScanIndex(file, pos) == entries + [entry]
  {
    ScanIndexAt(file, pos, entry);
  }

  class SSTable {
    const fs: FileSystem
    const filename: Path
    var valid: bool
    var index: seq<IndexEntry>

    /** The fields a `KVStore` holding this table depends on. */
    ghost function Meta(): TableMeta
      reads this
    {
      TableMeta(filename, valid, index)
    }

    /** Valid exactly when the file opens, in which case the index is rebuilt from its bytes. */
    constructor (fs: FileSystem, filename: Path)
      ensures this.fs == fs && this.filename == filename
      ensures valid == (filename in fs.files)
      ensures index == BuiltIndex(fs.files, filename)
    {
      this.fs := fs;
      this.filename := filename;
      valid := false;
      index := [];
      new;
      if filename in fs.files {
        BuildIndex();
        valid := true;
      }
    }

    /**
      `build_index`: reads key length, key and value length of one record after
      another, skipping each value. A skip past the end of the file makes the
      next read fail, so the record skipped is the last one indexed.
     */
    method BuildIndex()
      modifies this
      ensures filename in fs.files ==> index == ScanIndex(fs.files[filename], 0)
      ensures filename !in fs.files ==> index == old(index)
      ensures valid == old(valid)
    {
      if filename !in fs.files {
        return;
      }
      index := ScanRecords(fs.files[filename]);
    }

    /** The loop of `build_index` over the bytes of the file, collecting the entries it pushes. */
    method ScanRecords(file: Bytes) returns (entries: seq<IndexEntry>)
      ensures entries == ScanIndex(file, 0)
    {
      entries := [];
      var pos := 0;
      while true
        invariant pos <= |file|
        invariant entries + ScanIndex(file, pos) == ScanIndex(file, 0)
        decreases |file| - pos
      {
        var ok, entry := ReadHeader(file, pos);
        if !ok {
          assert entries + [] == entries;
          break;
        }
        if |file| - pos < entry.size {
          ScanLast(file, pos, entry, entries);
          entries := entries + [entry];
          break;
        }
        ScanAdvance(file, pos, entry, entries);
        entries := entries + [entry];
        pos := pos + entry.size;
      }
    }

    /**
      One iteration of `build_index`: the key length, the key and the value
      length of the record at `pos`, and the entry for it; false when one of
      these reads comes up short.
     */
    method ReadHeader(file: Bytes, pos: nat) returns (ok: bool, entry: IndexEntry)
      requires pos <= |file|
      ensures ok == ScanHeader(file, pos).Some?
      ensures ok ==> entry == ScanHeader(file, pos).value
    {
      entry := IndexEntry([], pos, 0);
      if |file| - pos < 2 {
        return false, entry;
      }
      var keyLen := DecodeU16(file[pos..pos + 2]);
      if |file| - pos < 2 + keyLen {
        return false, entry;
      }
      var key := file[pos + 2..pos + 2 + keyLen];
      if |file| - pos < 4 + keyLen {
        return false, entry;
      }
      var valLen := DecodeU16(file[pos + 2 + keyLen..pos + 4 + keyLen]);
      entry := IndexEntry(key, pos, 2 + keyLen + 2 + valLen);
      ok := true;
    }

    /**
      The loop of `write(data)`: the records of all keys in ascending order, and
      the index entry of each, at the offset where its record starts.
     */
    method EncodeRecords(data: KVMap) returns (written: Bytes, idx: seq<IndexEntry>)
      ensures written == Serialize(data) && idx == WriteIndex(data)
    {
      idx := [];
      var offset := 0;
      written := [];
      var remaining := data.Keys;
      ghost var done: seq<Bytes> := [];
      while remaining != {}
        invariant forall i :: 0 <= i < |done| ==> done[i] in data
        invariant remaining <= data.Keys
        invariant SortedKeys(data.Keys) == done + SortedKeys(remaining)
        invariant written == SerializeKeys(done, data)
        invariant idx == IndexKeys(done, data, 0)
        invariant offset == |written|
        decreases remaining
      {
        MinimumExists(remaining);
        var key :| IsMinimum(key, remaining);
        var value := data[key];
        var keyLen := Trunc16(|key|);
        var valLen := Trunc16(|value|);
        var rec := EncodeU16(keyLen) + key[..keyLen] + EncodeU16(valLen) + value[..valLen];
        var size := 2 + keyLen + 2 + valLen;
        assert rec == EncodeRecord(key, value);
        assert IndexEntry(key, offset, size) == IndexEntry(key, |SerializeKeys(done, data)|, RecordSize(key, data[key]));
        WriteLoopOrder(data, done, remaining, key);
        WriteLoopOutput(data, done, key);
        written := written + rec;
        idx := idx + [IndexEntry(key, offset, size)];
        offset := offset + size;
        done := done + [key];
        remaining := remaining - {key};
      }
      assert SortedKeys(remaining) == [];
      assert done == SortedKeys(data.Keys) by {
        assert done + [] == done;
      }
    }

    /**
      `write(data)`: truncates the file and writes one record per key in
      ascending order, pushing each record's index entry as it goes. When the
      file does not open, nothing changes and the result is false; otherwise the
      result and `valid_` are whether every byte reached the file.
     */
    method Write(data: KVMap, openOk: bool, landed: nat) returns (ok: bool)
      modifies this, fs
      ensures !openOk ==> !ok && valid == old(valid) && index == old(index) && fs.files == old(fs.files)
      ensures openOk ==> index == WriteIndex(data)
      ensures openOk ==> fs.files == old(fs.files)[filename := Serialize(data)[..Min(landed, |Serialize(data)|)]]
      ensures openOk ==> ok == valid == (landed >= |Serialize(data)|)
    {
      if !openOk {
        return false;
      }
      var written;
      written, index := EncodeRecords(data);
      var n := Min(landed, |written|);
      fs.files := fs.files[filename := written[..n]];
      valid := n == |written|;
      ok := valid;
    }

    /** `binary_search_key`: `std::lower_bound` over the index, then a check that the key found is the one sought. */
    method BinarySearchKey(key: Bytes) returns (found: bool, offset: nat, size: nat)
      ensures found == FindEntry(index, key).Some?
      ensures found ==> offset == FindEntry(index, key).value.offset && size == FindEntry(index, key).value.size
    {
      var lo, hi := 0, |index|;
      while lo < hi
        invariant 0 <= lo <= hi <= |index|
        invariant LowerBound(index, key, lo, hi) == LowerBound(index, key, 0, |index|)
        decreases hi - lo
      {
        var mid := lo + (hi - lo) / 2;
        if Less(index[mid].key, key) {
          lo := mid + 1;
        } else {
          hi := mid;
        }
      }
      found, offset, size := false, 0, 0;
      if lo < |index| && index[lo].key == key {
        found, offset, size := true, index[lo].offset, index[lo].size;
      }
    }

    /**
      `get(key)`: false when the table is not valid, the key is not in the
      index, the file cannot be opened, the key stored at the offset differs,
      or a read comes up short; otherwise the value stored there.
     */
    method Get(key: Bytes) returns (found: bool, value: Bytes)
      ensures (if found then Some(value) else None) == TableLookup(valid, index, FileOf(fs.files, filename), key)
    {
      found, value := false, [];
      if !valid {
        return;
      }
      var hit, offset, size := BinarySearchKey(key);
      if !hit {
        return;
      }
      if filename !in fs.files {
        return;
      }
      var file := fs.files[filename];
      if |file| < offset + 2 {
        return;
      }
      var keyLen := DecodeU16(file[offset..offset + 2]);
      if |file| < offset + 2 + keyLen || file[offset + 2..offset + 2 + keyLen] != key {
        return;
      }
      if |file| < offset + 4 + keyLen {
        return;
      }
      var valLen := DecodeU16(file[offset + 2 + keyLen..offset + 4 + keyLen]);
      if |file| < offset + 4 + keyLen + valLen {
        return;
      }
      found, value := true, file[offset + 4 + keyLen..offset + 4 + keyLen + valLen];
    }

    method IsValid() returns (v: bool)
      ensures v == valid
    {
      v := valid;
    }
  }
}
