/**
  The `WAL` class of MiniKV/src/wal.cpp: an append-only log file written through
  an `std::ofstream` that is opened in append mode by the constructor, truncated
  and reopened by `clear`, and closed by `close`.

  The stream is reduced to two flags: whether it is open, and whether every write
  so far succeeded (`good()`). As with a real stream, once a write fails the
  failure sticks: later writes send nothing and report failure, until `clear`
  reopens the file. How much of a record reaches the file is the `landed`
  argument of each write; the record is complete exactly when all of it landed.
 */
module WalLog {
  import opened Bytes
  import opened Files
  import opened WalFormat

  datatype Stream = Stream(isOpen: bool, good: bool)

  /** What a WAL operation reads and changes: the files on disk and the state of the write stream. */
  datatype WalState = WalState(files: map<Path, Bytes>, stream: Stream)

  /** The constructor: `open(path, binary | app)` creates a missing file and keeps an existing one's bytes. */
  function OpenStep(files: map<Path, Bytes>, path: Path, openOk: bool): WalState
  {
    if openOk then WalState(files[path := Contents(files, path)], Stream(true, true))
    else WalState(files, Stream(false, false))
  }

  /** `write_entry(e)` when the first `landed` bytes of its record reach the file. */
  function WriteStep(w: WalState, path: Path, e: LogEntry, landed: nat): (WalState, bool)
  {
    if !w.stream.isOpen || !w.stream.good then (w, false)
    else
      var rec := EncodeEntry(e);
      var n := if landed < |rec| then landed else |rec|;
      (WalState(w.files[path := Contents(w.files, path) + rec[..n]], Stream(true, n == |rec|)), n == |rec|)
  }

  /** `clear`: close, then reopen with `trunc`; if the reopening fails the stream stays closed. */
  function ClearStep(w: WalState, path: Path, openOk: bool): WalState
  {
    if openOk then WalState(w.files[path := []], Stream(true, true))
    else WalState(w.files, Stream(false, false))
  }

  function CloseStep(w: WalState): WalState
  {
    WalState(w.files, w.stream.(isOpen := false))
  }

  /** `read_all`: the decoded records of the file, or nothing when the file cannot be opened. */
  function ReadAllSpec(files: map<Path, Bytes>, path: Path): seq<LogEntry>
  {
    if path in files then DecodeAll(files[path]) else []
  }

  /**
    What a write does to a later `read_all`, for a log with no torn tail: a
    successful write adds its entry at the end; a failed one leaves the decoded
    log as it was (the partial record is a torn tail) and leaves the stream failed.
    On a closed stream nothing changes at all.
   */
  lemma WriteThenReadAll(w: WalState, path: Path, e: LogEntry, landed: nat)
    requires WholeRecords(Contents(w.files, path))
    ensures var (w', ok) := WriteStep(w, path, e, landed);
      && (!w.stream.isOpen ==> !ok && w' == w)
      && (ok ==> ReadAllSpec(w'.files, path) == ReadAllSpec(w.files, path) + [Normalize(e)]
                 && WholeRecords(Contents(w'.files, path)))
      && (!ok ==> ReadAllSpec(w'.files, path) == ReadAllSpec(w.files, path))
      && (w.stream.isOpen && !ok ==> !w'.stream.good)
      && (forall p :: p != path ==> Contents(w'.files, p) == Contents(w.files, p))
  {
    var old_ := Contents(w.files, path);
    var rec := EncodeEntry(e);
    if w.stream.isOpen && w.stream.good {
      if landed >= |rec| {
        assert rec[..|rec|] == rec;
        AppendToWhole(old_, e);
      } else {
        TornAppendToWhole(old_, e, landed);
      }
      if path !in w.files {
        assert old_ == [];
        assert ReadAllSpec(w.files, path) == [] == DecodeAll(old_);
      }
    }
  }

  /** After a successful `clear` the log reads back as empty and accepts writes; other files are untouched. */
  lemma ClearEmptiesLog(w: WalState, path: Path)
    ensures ReadAllSpec(ClearStep(w, path, true).files, path) == []
    ensures WholeRecords(Contents(ClearStep(w, path, true).files, path))
    ensures ClearStep(w, path, true).stream == Stream(true, true)
    ensures forall p :: p != path ==> Contents(ClearStep(w, path, true).files, p) == Contents(w.files, p)
  {
    assert DecodeAll([]) == [];
  }

  /** Decoding from `pos` on: the record found there, then everything after it. */
  lemma DecodeAllAt(bytes: Bytes, pos: nat)
    requires pos <= |bytes| && DecodeEntry(bytes[pos..]).Some?
    ensures var (e, n) := DecodeEntry(bytes[pos..]).value;
      pos + n <= |bytes| && DecodeAll(bytes[pos..]) == [e] + DecodeAll(bytes[pos + n..])
  {
    var n := DecodeEntry(bytes[pos..]).value.1;
    DecodeAllStep(bytes[pos..]);
    assert bytes[pos..][n..] == bytes[pos + n..];
  }

  class Wal {
    const fs: FileSystem
    const filename: Path
    var stream: Stream

    ghost function State(): WalState
      reads this, fs
    {
      WalState(fs.files, stream)
    }

    constructor (fs: FileSystem, filename: Path, openOk: bool)
      modifies fs
      ensures this.fs == fs && this.filename == filename
      ensures State() == OpenStep(old(fs.files), filename, openOk)
      ensures openOk ==> Contents(fs.files, filename) == Contents(old(fs.files), filename)
    {
      this.fs := fs;
      this.filename := filename;
      if openOk {
        fs.files := fs.files[filename := Contents(fs.files, filename)];
        stream := Stream(true, true);
      } else {
        stream := Stream(false, false);
      }
    }

    method WritePut(key: Bytes, value: Bytes, landed: nat) returns (ok: bool)
      modifies this, fs
      ensures (State(), ok) == WriteStep(old(State()), filename, LogEntry(PUT, key, value), landed)
    {
      ok := WriteEntry(LogEntry(PUT, key, value), landed);
    }

    method WriteDelete(key: Bytes, landed: nat) returns (ok: bool)
      modifies this, fs
      ensures (State(), ok) == WriteStep(old(State()), filename, LogEntry(DELETE, key, []), landed)
    {
      ok := WriteEntry(LogEntry(DELETE, key, []), landed);
    }

    /** Sends opcode, key length, key and, for PUT, value length and value to the stream. */
    method WriteEntry(e: LogEntry, landed: nat) returns (ok: bool)
      modifies this, fs
      ensures (State(), ok) == WriteStep(old(State()), filename, e, landed)
      ensures !old(stream).isOpen ==> !ok && fs.files == old(fs.files) && stream == old(stream)
    {
      if !stream.isOpen {
        return false;
      }
      var keyLen := Trunc16(|e.key|);
      var rec := [e.op] + EncodeU16(keyLen) + e.key[..keyLen];
      if e.op == PUT {
        var valLen := Trunc16(|e.value|);
        rec := rec + EncodeU16(valLen) + e.value[..valLen];
      }
      assert rec == EncodeEntry(e);
      if stream.good {
        var n := if landed < |rec| then landed else |rec|;
        fs.files := fs.files[filename := Contents(fs.files, filename) + rec[..n]];
        stream := Stream(true, n == |rec|);
      }
      ok := stream.good;
    }

    /** Every record of the log file in order, up to the first incomplete one; nothing if the file is missing. */
    method ReadAll() returns (entries: seq<LogEntry>)
      ensures entries == ReadAllSpec(fs.files, filename)
    {
      entries := [];
      if filename !in fs.files {
        return;
      }
      var bytes := fs.files[filename];
      var pos := 0;
      assert bytes[pos..] == bytes;
      while true
        invariant 0 <= pos <= |bytes|
        invariant entries + DecodeAll(bytes[pos..]) == DecodeAll(bytes)
        decreases |bytes| - pos
      {
        var ok, entry, next := ReadEntry(bytes, pos);
        if !ok {
          assert DecodeAll(bytes[pos..]) == [];
          assert entries + [] == entries;
          break;
        }
        DecodeAllAt(bytes, pos);
        ConcatAssoc(entries, [entry], DecodeAll(bytes[next..]));
        entries := entries + [entry];
        pos := next;
      }
    }

    /** `read_entry`: decodes the record at `pos`, reporting failure when the bytes run out. */
    method ReadEntry(bytes: Bytes, pos: nat) returns (ok: bool, entry: LogEntry, next: nat)
      requires pos <= |bytes|
      ensures ok == DecodeEntry(bytes[pos..]).Some?
      ensures ok ==> entry == DecodeEntry(bytes[pos..]).value.0
      ensures ok ==> pos < next <= |bytes| && next == pos + DecodeEntry(bytes[pos..]).value.1
    {
      entry, next := LogEntry(0, [], []), pos;
      ghost var b := bytes[pos..];
      if |bytes| - pos < 1 {
        return false, entry, next;
      }
      var op := bytes[pos];
      if |bytes| - pos < 3 {
        return false, entry, next;
      }
      SliceOfDrop(bytes, pos, 1, 3);
      var keyLen := DecodeU16(bytes[pos + 1..pos + 3]);
      if |bytes| - pos < 3 + keyLen {
        return false, entry, next;
      }
      var key := bytes[pos + 3..pos + 3 + keyLen];
      SliceOfDrop(bytes, pos, 3, 3 + keyLen);
      if op == PUT {
        if |bytes| - pos < 5 + keyLen {
          return false, entry, next;
        }
        SliceOfDrop(bytes, pos, 3 + keyLen, 5 + keyLen);
        var valLen := DecodeU16(bytes[pos + 3 + keyLen..pos + 5 + keyLen]);
        if |bytes| - pos < 5 + keyLen + valLen {
          return false, entry, next;
        }
        SliceOfDrop(bytes, pos, 5 + keyLen, 5 + keyLen + valLen);
        entry := LogEntry(op, key, bytes[pos + 5 + keyLen..pos + 5 + keyLen + valLen]);
        next := pos + 5 + keyLen + valLen;
      } else {
        entry := LogEntry(op, key, []);
        next := pos + 3 + keyLen;
      }
      ok := true;
    }

    method Clear(openOk: bool)
      modifies this, fs
      ensures State() == ClearStep(old(State()), filename, openOk)
    {
      stream := stream.(isOpen := false);
      if openOk {
        fs.files := fs.files[filename := []];
        stream := Stream(true, true);
      } else {
        stream := Stream(false, false);
      }
    }

    /** Closing is idempotent: a second close finds the stream closed and does nothing. */
    method Close()
      modifies this
      ensures State() == CloseStep(old(State()))
      ensures !stream.isOpen
    {
      if stream.isOpen {
        stream := stream.(isOpen := false);
      }
    }
  }
}
