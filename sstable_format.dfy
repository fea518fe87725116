/**
  The byte format and index of an SSTable (MiniKV/src/sstable.cpp, sstable.hpp).

  A table file is one `[keyLen:2][key][valLen:2][value]` record per key of an
  `std::map`, in ascending key order, with no opcode and no tombstones. The
  index is one (key, offset, size) entry per record. `write` builds the index
  while it writes; `build_index` rebuilds it by scanning the file, skipping the
  value bytes without reading them; `get` looks the key up with
  `std::lower_bound` and then decodes the record at the stored offset.
 */
module TableFormat {
  import opened Bytes
  import opened Wrappers

  /** The contents of an `std::map<std::string, std::string>`. */
  type KVMap = map<Bytes, Bytes>

  /** `SSTable::IndexEntry`. */
  datatype IndexEntry = IndexEntry(key: Bytes, offset: nat, size: nat)

  /** What a `KVStore` knows of one of its tables: the `filename_`, `valid_` and `index_` fields. */
  datatype TableMeta = TableMeta(filename: string, valid: bool, index: seq<IndexEntry>)

  function RecordSize(k: Bytes, v: Bytes): nat
  {
    4 + Trunc16(|k|) + Trunc16(|v|)
  }

  /** One record as `write` emits it: both lengths cast to `uint16_t`, that many bytes of each string. */
  function EncodeRecord(k: Bytes, v: Bytes): (r: Bytes)
    ensures |r| == RecordSize(k, v)
  {
    EncodeU16(Trunc16(|k|)) + k[..Trunc16(|k|)] + EncodeU16(Trunc16(|v|)) + v[..Trunc16(|v|)]
  }

  /** The whole record of `k` and `v` is stored in `file` from `pos` on. */
  predicate RecordAt(file: Bytes, pos: nat, k: Bytes, v: Bytes)
  {
    pos + RecordSize(k, v) <= |file| && file[pos..pos + RecordSize(k, v)] == EncodeRecord(k, v)
  }

  // ---------------------------------------------------------------------------
  // The ascending iteration order of std::map

  predicate StrictlyAscending(ks: seq<Bytes>)
  {
    forall i, j :: 0 <= i < j < |ks| ==> Less(ks[i], ks[j])
  }

  predicate IsMinimum(k: Bytes, s: set<Bytes>)
  {
    k in s && forall j :: j in s ==> j == k || Less(k, j)
  }

  lemma {:induction false} MinimumExists(s: set<Bytes>)
    requires s != {}
    ensures exists k :: IsMinimum(k, s)
    decreases s
  {
    var x :| x in s;
    if s - {x} == {} {
      assert s == {x};
      assert IsMinimum(x, s);
    } else {
      MinimumExists(s - {x});
      var m :| IsMinimum(m, s - {x});
      LessTotal(m, x);
      if Less(m, x) {
        assert IsMinimum(m, s);
      } else {
        forall j | j in s
          ensures j == x || Less(x, j)
        {
          if j != x {
            assert j == m || Less(m, j);
            if j != m {
              LessTransitive(x, m, j);
            }
          }
        }
        assert IsMinimum(x, s);
      }
    }
  }

  lemma MinimumUnique(a: Bytes, b: Bytes, s: set<Bytes>)
    requires IsMinimum(a, s) && IsMinimum(b, s)
    ensures a == b
  {
    LessTotal(a, b);
  }

  /** The keys of `s` in the order a range-for over `std::map` visits them. */
  ghost function SortedKeys(s: set<Bytes>): (ks: seq<Bytes>)
    ensures |ks| == |s|
    ensures forall i :: 0 <= i < |ks| ==> ks[i] in s
    decreases s
  {
    if s == {} then []
    else
      MinimumExists(s);
      var k :| IsMinimum(k, s);
      var rest := SortedKeys(s - {k});
      assert forall i :: 0 <= i < |rest| ==> rest[i] in s && rest[i] != k;
      [k] + rest
  }

  /** Taking the least key first, as the iteration does, leaves the ascending order of the rest. */
  lemma SortedKeysMinimumFirst(s: set<Bytes>, k: Bytes)
    requires IsMinimum(k, s)
    ensures SortedKeys(s) == [k] + SortedKeys(s - {k})
  {
    var k' :| IsMinimum(k', s) && SortedKeys(s) == [k'] + SortedKeys(s - {k'});
    MinimumUnique(k, k', s);
  }

  /** The keys come out in strictly ascending order... */
  lemma {:induction false} SortedKeysAscending(s: set<Bytes>)
    ensures StrictlyAscending(SortedKeys(s))
    decreases s
  {
    if s != {} {
      MinimumExists(s);
      var k :| IsMinimum(k, s);
      SortedKeysMinimumFirst(s, k);
      SortedKeysAscending(s - {k});
      var ks, rest := SortedKeys(s), SortedKeys(s - {k});
      forall i, j | 0 <= i < j < |ks|
        ensures Less(ks[i], ks[j])
      {
        assert ks[j] == rest[j - 1];
        if i > 0 {
          assert ks[i] == rest[i - 1];
        } else {
          assert rest[j - 1] in s - {k};
        }
      }
    }
  }

  /** ...and every key of the set is among them. */
  lemma {:induction false} SortedKeysComplete(s: set<Bytes>)
    ensures forall k :: k in s ==> k in SortedKeys(s)
    decreases s
  {
    if s != {} {
      MinimumExists(s);
      var k :| IsMinimum(k, s);
      SortedKeysMinimumFirst(s, k);
      SortedKeysComplete(s - {k});
      forall x | x in s
        ensures x in SortedKeys(s)
      {
        if x != k {
          assert x in SortedKeys(s - {k});
        }
      }
    }
  }

  // ---------------------------------------------------------------------------
  // What `write` produces

  function SerializeKeys(ks: seq<Bytes>, m: KVMap): Bytes
    requires forall i :: 0 <= i < |ks| ==> ks[i] in m
  {
    if ks == [] then [] else EncodeRecord(ks[0], m[ks[0]]) + SerializeKeys(ks[1..], m)
  }

  function IndexKeys(ks: seq<Bytes>, m: KVMap, offset: nat): (idx: seq<IndexEntry>)
    requires forall i :: 0 <= i < |ks| ==> ks[i] in m
    ensures |idx| == |ks|
  {
    if ks == [] then []
    else
      var size := RecordSize(ks[0], m[ks[0]]);
      [IndexEntry(ks[0], offset, size)] + IndexKeys(ks[1..], m, offset + size)
  }

  /** The bytes `write(m)` sends to the file. */
  ghost function Serialize(m: KVMap): Bytes
  {
    SerializeKeys(SortedKeys(m.Keys), m)
  }

  /** The `index_` that `write(m)` builds. */
  ghost function WriteIndex(m: KVMap): seq<IndexEntry>
  {
    IndexKeys(SortedKeys(m.Keys), m, 0)
  }

  lemma {:induction false} SerializeSnoc(ks: seq<Bytes>, k: Bytes, m: KVMap)
    requires forall i :: 0 <= i < |ks| ==> ks[i] in m
    requires k in m
    ensures SerializeKeys(ks + [k], m) == SerializeKeys(ks, m) + EncodeRecord(k, m[k])
  {
    if ks == [] {
      assert ks + [k] == [k];
    } else {
      assert (ks + [k])[1..] == ks[1..] + [k];
      SerializeSnoc(ks[1..], k, m);
    }
  }

  lemma IndexSnoc(ks: seq<Bytes>, k: Bytes, m: KVMap, offset: nat)
    requires forall i :: 0 <= i < |ks| ==> ks[i] in m
    requires k in m
    ensures IndexKeys(ks + [k], m, offset)
         == IndexKeys(ks, m, offset) + [IndexEntry(k, offset + |SerializeKeys(ks, m)|, RecordSize(k, m[k]))]
  {
    var all := ks + [k];
    var whole := IndexKeys(all, m, offset);
    var expected := IndexKeys(ks, m, offset) + [IndexEntry(k, offset + |SerializeKeys(ks, m)|, RecordSize(k, m[k]))];
    forall i | 0 <= i < |whole|
      ensures whole[i] == expected[i]
    {
      IndexKeysAt(all, m, offset, i);
      if i < |ks| {
        IndexKeysAt(ks, m, offset, i);
        assert all[..i] == ks[..i];
      } else {
        assert all[..i] == ks;
      }
    }
  }

  lemma {:induction false} SerializeConcat(xs: seq<Bytes>, ys: seq<Bytes>, m: KVMap)
    requires forall i :: 0 <= i < |xs| ==> xs[i] in m
    requires forall i :: 0 <= i < |ys| ==> ys[i] in m
    ensures SerializeKeys(xs + ys, m) == SerializeKeys(xs, m) + SerializeKeys(ys, m)
  {
    if xs == [] {
      assert xs + ys == ys;
    } else {
      assert (xs + ys)[1..] == xs[1..] + ys;
      SerializeConcat(xs[1..], ys, m);
      calc {
        SerializeKeys(xs + ys, m);
        EncodeRecord(xs[0], m[xs[0]]) + SerializeKeys(xs[1..] + ys, m);
        EncodeRecord(xs[0], m[xs[0]]) + (SerializeKeys(xs[1..], m) + SerializeKeys(ys, m));
        (EncodeRecord(xs[0], m[xs[0]]) + SerializeKeys(xs[1..], m)) + SerializeKeys(ys, m);
      }
    }
  }

  /** The bytes `write` emits are the records before key `i`, then record `i`, then the records after it. */
  lemma SerializeSplit(ks: seq<Bytes>, m: KVMap, i: nat)
    requires forall j :: 0 <= j < |ks| ==> ks[j] in m
    requires i < |ks|
    ensures SerializeKeys(ks, m)
         == SerializeKeys(ks[..i], m) + EncodeRecord(ks[i], m[ks[i]]) + SerializeKeys(ks[i + 1..], m)
  {
    assert ks == ks[..i] + ([ks[i]] + ks[i + 1..]);
    SerializeConcat(ks[..i], [ks[i]] + ks[i + 1..], m);
    assert ([ks[i]] + ks[i + 1..])[1..] == ks[i + 1..];
  }

  /** Entry `i` of the index points at record `i`: its offset is the length of the records before it. */
  lemma {:induction false} IndexKeysAt(ks: seq<Bytes>, m: KVMap, offset: nat, i: nat)
    requires forall j :: 0 <= j < |ks| ==> ks[j] in m
    requires i < |ks|
    ensures IndexKeys(ks, m, offset)[i]
         == IndexEntry(ks[i], offset + |SerializeKeys(ks[..i], m)|, RecordSize(ks[i], m[ks[i]]))
  {
    if i > 0 {
      var size := RecordSize(ks[0], m[ks[0]]);
      IndexKeysAt(ks[1..], m, offset + size, i - 1);
      assert ks[..i] == [ks[0]] + ks[1..][..i - 1];
      SerializeConcat([ks[0]], ks[1..][..i - 1], m);
      assert SerializeKeys([ks[0]], m) == EncodeRecord(ks[0], m[ks[0]]) + SerializeKeys([], m);
    }
  }

  function SumSizes(idx: seq<IndexEntry>): nat
  {
    if idx == [] then 0 else SumSizes(idx[..|idx| - 1]) + idx[|idx| - 1].size
  }

  lemma SumSizesSnoc(idx: seq<IndexEntry>)
    requires idx != []
    ensures SumSizes(idx) == SumSizes(idx[..|idx| - 1]) + idx[|idx| - 1].size
  {
  }

  lemma {:induction false} IndexKeysSizes(ks: seq<Bytes>, m: KVMap, offset: nat, i: nat)
    requires forall j :: 0 <= j < |ks| ==> ks[j] in m
    requires i <= |ks|
    ensures SumSizes(IndexKeys(ks, m, offset)[..i]) == |SerializeKeys(ks[..i], m)|
  {
    if i > 0 {
      IndexKeysSizes(ks, m, offset, i - 1);
      IndexKeysAt(ks, m, offset, i - 1);
      SumSizesSnoc(IndexKeys(ks, m, offset)[..i]);
      assert IndexKeys(ks, m, offset)[..i][..i - 1] == IndexKeys(ks, m, offset)[..i - 1];
      assert ks[..i] == ks[..i - 1] + [ks[i - 1]];
      SerializeSnoc(ks[..i - 1], ks[i - 1], m);
    }
  }

  /** Entry `i` of the index `write(m)` builds is for the `i`-th key in ascending order. */
  lemma WriteIndexKeys(m: KVMap)
    ensures |WriteIndex(m)| == |m|
    ensures forall i :: 0 <= i < |m| ==> WriteIndex(m)[i].key == SortedKeys(m.Keys)[i]
  {
    var ks := SortedKeys(m.Keys);
    forall i | 0 <= i < |ks|
      ensures WriteIndex(m)[i].key == ks[i]
    {
      IndexKeysAt(ks, m, 0, i);
    }
  }

  /** The index `write(m)` builds: one entry per key of `m`, keys strictly ascending. */
  lemma WriteIndexShape(m: KVMap)
    ensures var idx := WriteIndex(m);
      && |idx| == |m|
      && (forall i :: 0 <= i < |idx| ==> idx[i].key in m)
      && (forall k :: k in m ==> exists i :: 0 <= i < |idx| && idx[i].key == k)
      && SortedIndex(idx)
  {
    WriteIndexKeys(m);
    WriteIndexKeysInMap(m);
    WriteIndexCoversMap(m);
    WriteIndexSorted(m);
  }

  lemma WriteIndexKeysInMap(m: KVMap)
    ensures forall i :: 0 <= i < |WriteIndex(m)| ==> WriteIndex(m)[i].key in m
  {
    WriteIndexKeys(m);
  }

  lemma WriteIndexCoversMap(m: KVMap)
    ensures forall k :: k in m ==> exists i :: 0 <= i < |WriteIndex(m)| && WriteIndex(m)[i].key == k
  {
    var ks := SortedKeys(m.Keys);
    WriteIndexKeys(m);
    SortedKeysComplete(m.Keys);
    forall k | k in m
      ensures exists i :: 0 <= i < |WriteIndex(m)| && WriteIndex(m)[i].key == k
    {
      var i :| 0 <= i < |ks| && ks[i] == k;
      assert WriteIndex(m)[i].key == k;
    }
  }

  lemma WriteIndexSorted(m: KVMap)
    ensures SortedIndex(WriteIndex(m))
  {
    WriteIndexKeys(m);
    SortedKeysAscending(m.Keys);
  }

  /**
    Where `write(m)` puts each record: entry `i` at the sum of the sizes before
    it, with size 4 + keyLen + valLen, and the sizes adding up to the bytes written.
   */
  lemma WriteIndexLayout(m: KVMap)
    ensures var idx := WriteIndex(m);
      && (forall i :: 0 <= i < |idx| ==> idx[i].offset == SumSizes(idx[..i]))
      && (forall i :: 0 <= i < |idx| ==>
            idx[i].key in m && idx[i].size == 4 + Trunc16(|idx[i].key|) + Trunc16(|m[idx[i].key]|))
      && SumSizes(idx) == |Serialize(m)|
  {
    WriteIndexOffsets(m);
    WriteIndexSizes(m);
    WriteIndexTotal(m);
  }

  lemma WriteIndexOffsets(m: KVMap)
    ensures forall i :: 0 <= i < |WriteIndex(m)| ==> WriteIndex(m)[i].offset == SumSizes(WriteIndex(m)[..i])
  {
    WriteIndexKeys(m);
    forall i | 0 <= i < |WriteIndex(m)|
      ensures WriteIndex(m)[i].offset == SumSizes(WriteIndex(m)[..i])
    {
      WriteIndexEntry(m, i);
    }
  }

  lemma WriteIndexSizes(m: KVMap)
    ensures forall i :: 0 <= i < |WriteIndex(m)| ==>
      WriteIndex(m)[i].key in m
      && WriteIndex(m)[i].size == 4 + Trunc16(|WriteIndex(m)[i].key|) + Trunc16(|m[WriteIndex(m)[i].key]|)
  {
    WriteIndexKeys(m);
    forall i | 0 <= i < |WriteIndex(m)|
      ensures WriteIndex(m)[i].key in m
      ensures WriteIndex(m)[i].size == 4 + Trunc16(|WriteIndex(m)[i].key|) + Trunc16(|m[WriteIndex(m)[i].key]|)
    {
      WriteIndexEntry(m, i);
    }
  }

  lemma WriteIndexTotal(m: KVMap)
    ensures SumSizes(WriteIndex(m)) == |Serialize(m)|
  {
    var ks := SortedKeys(m.Keys);
    var idx := WriteIndex(m);
    IndexKeysSizes(ks, m, 0, |ks|);
    assert idx[..|idx|] == idx;
    assert ks[..|ks|] == ks;
  }

  lemma WriteIndexEntry(m: KVMap, i: nat)
    requires i < |m|
    ensures var ks, idx := SortedKeys(m.Keys), WriteIndex(m);
      idx[i] == IndexEntry(ks[i], SumSizes(idx[..i]), RecordSize(ks[i], m[ks[i]]))
  {
    var ks := SortedKeys(m.Keys);
    IndexKeysAt(ks, m, 0, i);
    IndexKeysSizes(ks, m, 0, i);
  }

  // ---------------------------------------------------------------------------
  // What `build_index` reads back

  /**
    The entry `build_index` makes for the record at offset `pos` of `file`, once
    its key length, key and value length have been read; None if one of those
    reads comes up short.
   */
  function ScanHeader(file: Bytes, pos: nat): (r: Option<IndexEntry>)
    requires pos <= |file|
    ensures r.Some? ==> r.value.offset == pos && r.value.size >= 4
  {
    if |file| - pos < 2 then None
    else
      var keyLen := DecodeU16(file[pos..pos + 2]);
      if |file| - pos < 4 + keyLen then None
      else
        var valLen := DecodeU16(file[pos + 2 + keyLen..pos + 4 + keyLen]);
        Some(IndexEntry(file[pos + 2..pos + 2 + keyLen], pos, 4 + keyLen + valLen))
  }

  /**
    `build_index` from offset `pos` of `file`: each record is indexed once its
    header has been read; its value is skipped, and a skip past the end of the
    file makes the next read fail.
   */
  function ScanIndex(file: Bytes, pos: nat): seq<IndexEntry>
    requires pos <= |file|
    decreases |file| - pos
  {
    match ScanHeader(file, pos)
    case None => []
    case Some(e) => if |file| - pos < e.size then [e] else [e] + ScanIndex(file, pos + e.size)
  }

  /** One step of `build_index`: the entry whose header is at `pos`, then the scan after its record. */
  lemma ScanIndexAt(file: Bytes, pos: nat, e: IndexEntry)
    requires pos <= |file| && ScanHeader(file, pos) == Some(e)
    ensures |file| - pos < e.size ==> ScanIndex(file, pos) == [e]
    ensures |file| - pos >= e.size ==> ScanIndex(file, pos) == [e] + ScanIndex(file, pos + e.size)
  {
  }

  /** Where the four fields of a record sit in its bytes. */
  lemma RecordFields(k: Bytes, v: Bytes)
    ensures var r, kl, vl := EncodeRecord(k, v), Trunc16(|k|), Trunc16(|v|);
      && r[..2] == EncodeU16(kl)
      && r[2..2 + kl] == k[..kl]
      && r[2 + kl..4 + kl] == EncodeU16(vl)
      && r[4 + kl..] == v[..vl]
  {
    var kl, vl := Trunc16(|k|), Trunc16(|v|);
    var a, b, c, d := EncodeU16(kl), k[..kl], EncodeU16(vl), v[..vl];
    var r := EncodeRecord(k, v);
    assert r == a + b + c + d;
    assert r[..2] == a;
    assert r[2..2 + kl] == b;
    assert r[2 + kl..4 + kl] == c;
    assert r[4 + kl..] == d;
  }

  /** A scan that meets a whole record indexes it and goes on right after it. */
  lemma ScanRecordAt(file: Bytes, pos: nat, k: Bytes, v: Bytes)
    requires RecordAt(file, pos, k, v)
    ensures ScanIndex(file, pos)
         == [IndexEntry(k[..Trunc16(|k|)], pos, RecordSize(k, v))] + ScanIndex(file, pos + RecordSize(k, v))
  {
    StoredKeyLength(file, pos, k, v);
    StoredKey(file, pos, k, v);
    StoredValueLength(file, pos, k, v);
  }

  /** The four fields of a stored record, read back from the file. */
  lemma StoredKeyLength(file: Bytes, pos: nat, k: Bytes, v: Bytes)
    requires RecordAt(file, pos, k, v)
    ensures pos + 2 <= |file| && DecodeU16(file[pos..pos + 2]) == Trunc16(|k|)
  {
    RecordFields(k, v);
    DecodeEncodeU16Exact(Trunc16(|k|));
    SliceOfSlice(file, pos, pos + RecordSize(k, v), 0, 2);
  }

  lemma StoredKey(file: Bytes, pos: nat, k: Bytes, v: Bytes)
    requires RecordAt(file, pos, k, v)
    ensures var kl := Trunc16(|k|); pos + 2 + kl <= |file| && file[pos + 2..pos + 2 + kl] == k[..kl]
  {
    RecordFields(k, v);
    SliceOfSlice(file, pos, pos + RecordSize(k, v), 2, 2 + Trunc16(|k|));
  }

  lemma StoredValueLength(file: Bytes, pos: nat, k: Bytes, v: Bytes)
    requires RecordAt(file, pos, k, v)
    ensures var kl := Trunc16(|k|);
      pos + 4 + kl <= |file| && DecodeU16(file[pos + 2 + kl..pos + 4 + kl]) == Trunc16(|v|)
  {
    var kl := Trunc16(|k|);
    RecordFields(k, v);
    DecodeEncodeU16Exact(Trunc16(|v|));
    SliceOfSlice(file, pos, pos + RecordSize(k, v), 2 + kl, 4 + kl);
  }

  lemma StoredValue(file: Bytes, pos: nat, k: Bytes, v: Bytes)
    requires RecordAt(file, pos, k, v)
    ensures var kl, vl := Trunc16(|k|), Trunc16(|v|);
      pos + 4 + kl + vl <= |file| && file[pos + 4 + kl..pos + 4 + kl + vl] == v[..vl]
  {
    var kl, vl := Trunc16(|k|), Trunc16(|v|);
    RecordFields(k, v);
    SliceOfSlice(file, pos, pos + RecordSize(k, v), 4 + kl, 4 + kl + vl);
  }

  /**
    Scanning whole records with keys shorter than 2^16, which end at `end`,
    gives the entries `write` built for them, then the scan from `end` on.
   */
  lemma {:induction false} ScanSerialized(file: Bytes, pos: nat, ks: seq<Bytes>, m: KVMap, end: nat)
    requires forall i :: 0 <= i < |ks| ==> ks[i] in m
    requires forall i :: 0 <= i < |ks| ==> |ks[i]| < U16_LIMIT
    requires end == pos + |SerializeKeys(ks, m)| <= |file|
    requires file[pos..end] == SerializeKeys(ks, m)
    ensures ScanIndex(file, pos) == IndexKeys(ks, m, pos) + ScanIndex(file, end)
    decreases |ks|
  {
    if ks == [] {
      assert IndexKeys(ks, m, pos) + ScanIndex(file, end) == ScanIndex(file, end);
    } else {
      var k := ks[0];
      var size := RecordSize(k, m[k]);
      var e := IndexEntry(k, pos, size);
      var entries := IndexKeys(ks[1..], m, pos + size);
      var here, next, after := ScanIndex(file, pos), ScanIndex(file, pos + size), ScanIndex(file, end);
      ScanFirstRecord(file, pos, ks, m, end);
      SerializedParts(file, pos, ks, m);
      assert next == entries + after by {
        ScanSerialized(file, pos + size, ks[1..], m, end);
      }
      Combine(here, next, after, e, entries, IndexKeys(ks, m, pos));
    }
  }

  /** Scanning a file holding `SerializeKeys(ks, m)` at `pos` finds the first key's record there, then goes on after it. */
  lemma ScanFirstRecord(file: Bytes, pos: nat, ks: seq<Bytes>, m: KVMap, end: nat)
    requires forall i :: 0 <= i < |ks| ==> ks[i] in m
    requires ks != [] && |ks[0]| < U16_LIMIT
    requires end == pos + |SerializeKeys(ks, m)| <= |file|
    requires file[pos..end] == SerializeKeys(ks, m)
    ensures var size := RecordSize(ks[0], m[ks[0]]);
      ScanIndex(file, pos) == [IndexEntry(ks[0], pos, size)] + ScanIndex(file, pos + size)
  {
    var k := ks[0];
    SerializedParts(file, pos, ks, m);
    ScanRecordAt(file, pos, k, m[k]);
    ShortKeyKept(k);
  }

  /** A key shorter than 2^16 is stored whole. */
  lemma ShortKeyKept(k: Bytes)
    requires |k| < U16_LIMIT
    ensures k[..Trunc16(|k|)] == k
  {
  }

  lemma Combine<T>(whole: seq<T>, next: seq<T>, after: seq<T>, x: T, entries: seq<T>, prefix: seq<T>)
    requires whole == [x] + next && next == entries + after && prefix == [x] + entries
    ensures whole == prefix + after
  {
  }

  /** The bytes of the first record and of the rest, inside a file holding `SerializeKeys(ks, m)` at `pos`. */
  lemma SerializedParts(file: Bytes, pos: nat, ks: seq<Bytes>, m: KVMap)
    requires forall i :: 0 <= i < |ks| ==> ks[i] in m
    requires ks != []
    requires pos + |SerializeKeys(ks, m)| <= |file|
    requires file[pos..pos + |SerializeKeys(ks, m)|] == SerializeKeys(ks, m)
    ensures var size, tail := RecordSize(ks[0], m[ks[0]]), SerializeKeys(ks[1..], m);
      && |SerializeKeys(ks, m)| == size + |tail|
      && RecordAt(file, pos, ks[0], m[ks[0]])
      && file[pos + size..pos + size + |tail|] == tail
  {
    var r, tail := EncodeRecord(ks[0], m[ks[0]]), SerializeKeys(ks[1..], m);
    var whole := SerializeKeys(ks, m);
    assert whole == r + tail;
    SliceOfSlice(file, pos, pos + |whole|, 0, |r|);
    assert whole[0..|r|] == r;
    SliceOfSlice(file, pos, pos + |whole|, |r|, |whole|);
    assert whole[|r|..|whole|] == tail;
  }

  /** `build_index` over a file that `write(m)` produced rebuilds exactly the index `write` built, keys being shorter than 2^16. */
  lemma RebuiltIndexMatches(m: KVMap)
    requires forall k :: k in m ==> |k| < U16_LIMIT
    ensures ScanIndex(Serialize(m), 0) == WriteIndex(m)
  {
    var ks := SortedKeys(m.Keys);
    var file := SerializeKeys(ks, m);
    assert file[0..|file|] == file;
    ScanSerialized(file, 0, ks, m, |file|);
    assert ScanIndex(file, |file|) == [];
    assert IndexKeys(ks, m, 0) + [] == IndexKeys(ks, m, 0);
  }

  /**
    A scan stops, keeping the entries before it, at a record whose key length,
    key or value length is incomplete.
   */
  lemma ScanStopsAtIncompleteHeader(file: Bytes, ks: seq<Bytes>, m: KVMap)
    requires forall i :: 0 <= i < |ks| ==> ks[i] in m
    requires forall i :: 0 <= i < |ks| ==> |ks[i]| < U16_LIMIT
    requires |SerializeKeys(ks, m)| <= |file| && file[..|SerializeKeys(ks, m)|] == SerializeKeys(ks, m)
    requires var torn := file[|SerializeKeys(ks, m)|..]; |torn| < 2 || |torn| < 4 + DecodeU16(torn)
    ensures ScanIndex(file, 0) == IndexKeys(ks, m, 0)
  {
    var n := |SerializeKeys(ks, m)|;
    assert file[0..n] == file[..n];
    ScanSerialized(file, 0, ks, m, n);
    if |file| - n >= 2 {
      assert file[n..n + 2] == file[n..][..2];
    }
    assert IndexKeys(ks, m, 0) + [] == IndexKeys(ks, m, 0);
  }

  /** A record whose value alone is cut short is still indexed, since `build_index` skips the value without reading it. */
  lemma ScanIndexesCutValue(k: Bytes, v: Bytes, n: nat)
    requires |k| < U16_LIMIT && 4 + |k| <= n < RecordSize(k, v)
    ensures ScanIndex(EncodeRecord(k, v)[..n], 0) == [IndexEntry(k, 0, RecordSize(k, v))]
  {
    var r, kl, vl := EncodeRecord(k, v), Trunc16(|k|), Trunc16(|v|);
    var file := r[..n];
    RecordFields(k, v);
    DecodeEncodeU16Exact(kl);
    DecodeEncodeU16Exact(vl);
    SliceOfSlice(r, 0, n, 0, 2);
    SliceOfSlice(r, 0, n, 2, 2 + kl);
    SliceOfSlice(r, 0, n, 2 + kl, 4 + kl);
    assert k[..kl] == k;
  }

  // ---------------------------------------------------------------------------
  // Lookup: binary_search_key and get

  predicate SortedIndex(idx: seq<IndexEntry>)
  {
    forall i, j :: 0 <= i < j < |idx| ==> Less(idx[i].key, idx[j].key)
  }

  /** `std::lower_bound` over `idx[lo..hi]` with `entry.key < k` as the comparison, bisecting as libstdc++ does. */
  function LowerBound(idx: seq<IndexEntry>, key: Bytes, lo: nat, hi: nat): (r: nat)
    requires lo <= hi <= |idx|
    ensures lo <= r <= hi
    decreases hi - lo
  {
    if lo == hi then lo
    else
      var mid := lo + (hi - lo) / 2;
      if Less(idx[mid].key, key) then LowerBound(idx, key, mid + 1, hi)
      else LowerBound(idx, key, lo, mid)
  }

  /** `binary_search_key`: the entry `lower_bound` lands on, if its key is the one sought. */
  function FindEntry(idx: seq<IndexEntry>, key: Bytes): Option<IndexEntry>
  {
    var i := LowerBound(idx, key, 0, |idx|);
    if i < |idx| && idx[i].key == key then Some(idx[i]) else None
  }

  /** On a sorted index, `lower_bound` returns the first position whose key is not less than `key`. */
  lemma {:induction false} LowerBoundSorted(idx: seq<IndexEntry>, key: Bytes, lo: nat, hi: nat)
    requires SortedIndex(idx) && lo <= hi <= |idx|
    requires forall j :: 0 <= j < lo ==> Less(idx[j].key, key)
    requires forall j :: hi <= j < |idx| ==> !Less(idx[j].key, key)
    ensures forall j :: 0 <= j < LowerBound(idx, key, lo, hi) ==> Less(idx[j].key, key)
    ensures forall j :: LowerBound(idx, key, lo, hi) <= j < |idx| ==> !Less(idx[j].key, key)
    decreases hi - lo
  {
    if lo < hi {
      var mid := lo + (hi - lo) / 2;
      if Less(idx[mid].key, key) {
        forall j | 0 <= j <= mid
          ensures Less(idx[j].key, key)
        {
          if j < mid {
            LessTransitive(idx[j].key, idx[mid].key, key);
          }
        }
        LowerBoundSorted(idx, key, mid + 1, hi);
      } else {
        forall j | mid <= j < |idx|
          ensures !Less(idx[j].key, key)
        {
          if j > mid {
            LessTotal(idx[j].key, key);
            LessTotal(idx[mid].key, key);
            if Less(idx[j].key, key) {
              if idx[mid].key != key {
                LessTransitive(key, idx[mid].key, idx[j].key);
              }
            }
          }
        }
        LowerBoundSorted(idx, key, lo, mid);
      }
    }
  }

  /** Whatever the index, a hit is an entry of the index with exactly the key sought. */
  lemma FindEntrySound(idx: seq<IndexEntry>, key: Bytes)
    ensures FindEntry(idx, key).Some? ==> FindEntry(idx, key).value in idx && FindEntry(idx, key).value.key == key
  {
  }

  /** On a sorted index, `binary_search_key` succeeds iff the key is in the index, and then yields that entry. */
  lemma FindEntryComplete(idx: seq<IndexEntry>, key: Bytes)
    requires SortedIndex(idx)
    ensures FindEntry(idx, key).Some? <==> exists i :: 0 <= i < |idx| && idx[i].key == key
    ensures forall i :: 0 <= i < |idx| && idx[i].key == key ==> FindEntry(idx, key) == Some(idx[i])
  {
    LowerBoundSorted(idx, key, 0, |idx|);
    var r := LowerBound(idx, key, 0, |idx|);
    LessIrreflexive(key);
    forall i | 0 <= i < |idx| && idx[i].key == key
      ensures r == i
    {
      if r < |idx| {
        assert !Less(idx[r].key, key);
      }
    }
  }

  /** On a sorted index, looking up the key of entry `i` finds entry `i`. */
  lemma FindEntryAt(idx: seq<IndexEntry>, i: nat)
    requires SortedIndex(idx) && i < |idx|
    ensures FindEntry(idx, idx[i].key) == Some(idx[i])
  {
    FindEntryComplete(idx, idx[i].key);
  }

  /**
    The read `get` performs after `seekg(offset)`: the key length and key, which
    must equal `key`, then the value length and value; None if any read comes up short.
   */
  function ReadRecord(file: Bytes, offset: nat, key: Bytes): Option<Bytes>
  {
    if |file| < offset + 2 then None
    else
      var keyLen := DecodeU16(file[offset..offset + 2]);
      if |file| < offset + 2 + keyLen || file[offset + 2..offset + 2 + keyLen] != key then None
      else if |file| < offset + 4 + keyLen then None
      else
        var valLen := DecodeU16(file[offset + 2 + keyLen..offset + 4 + keyLen]);
        if |file| < offset + 4 + keyLen + valLen then None
        else Some(file[offset + 4 + keyLen..offset + 4 + keyLen + valLen])
  }

  /** `get(key)` on a table with the given `valid_`, `index_` and file (None: the file cannot be opened). */
  function TableLookup(valid: bool, idx: seq<IndexEntry>, file: Option<Bytes>, key: Bytes): Option<Bytes>
  {
    if !valid then None
    else match FindEntry(idx, key)
      case None => None
      case Some(e) => if file.None? then None else ReadRecord(file.value, e.offset, key)
  }

  /** Reading at the offset of a whole record yields its value when the key matches the stored (16-bit cut) key. */
  lemma ReadRecordAt(file: Bytes, pos: nat, k: Bytes, v: Bytes, key: Bytes)
    requires RecordAt(file, pos, k, v)
    ensures ReadRecord(file, pos, key) == if key == k[..Trunc16(|k|)] then Some(v[..Trunc16(|v|)]) else None
  {
    StoredKeyLength(file, pos, k, v);
    StoredKey(file, pos, k, v);
    StoredValueLength(file, pos, k, v);
    StoredValue(file, pos, k, v);
  }

  /** The bytes at the offset `write(m)` recorded for entry `i` are the record of the `i`-th key. */
  lemma WrittenRecord(m: KVMap, i: nat)
    requires i < |m|
    ensures var ks := SortedKeys(m.Keys); RecordAt(Serialize(m), WriteIndex(m)[i].offset, ks[i], m[ks[i]])
  {
    var ks := SortedKeys(m.Keys);
    var pre, rec, post := SerializeKeys(ks[..i], m), EncodeRecord(ks[i], m[ks[i]]), SerializeKeys(ks[i + 1..], m);
    assert Serialize(m) == pre + rec + post by {
      SerializeSplit(ks, m, i);
    }
    assert WriteIndex(m)[i].offset == |pre| by {
      IndexKeysAt(ks, m, 0, i);
    }
    MiddleSlice(pre, rec, post);
  }

  /**
    `get` after a successful `write(m)`: a key of `m` shorter than 2^16 yields
    its value (cut to its 16-bit length), any other key is not found. Nothing
    is required of the other keys of `m`.
   */
  lemma GetAfterWrite(m: KVMap, key: Bytes)
    ensures TableLookup(true, WriteIndex(m), Some(Serialize(m)), key)
         == if key in m && |key| < U16_LIMIT then Some(m[key][..Trunc16(|m[key]|)]) else None
  {
    var ks := SortedKeys(m.Keys);
    if key in m {
      SortedKeysComplete(m.Keys);
      var i :| 0 <= i < |ks| && ks[i] == key;
      GetWrittenKey(m, i);
    } else {
      var idx := WriteIndex(m);
      WriteIndexKeys(m);
      FindEntrySound(idx, key);
    }
  }

  /** `get` of the `i`-th key in ascending order after `write(m)`. */
  lemma GetWrittenKey(m: KVMap, i: nat)
    requires i < |m|
    ensures var k := SortedKeys(m.Keys)[i];
      TableLookup(true, WriteIndex(m), Some(Serialize(m)), k)
        == if |k| < U16_LIMIT then Some(m[k][..Trunc16(|m[k]|)]) else None
  {
    var ks := SortedKeys(m.Keys);
    assert WriteIndex(m)[i].key == ks[i] by {
      WriteIndexKeys(m);
    }
    WriteIndexSorted(m);
    WrittenRecord(m, i);
    LookupStoredRecord(Serialize(m), WriteIndex(m), i, ks[i], m[ks[i]]);
  }

  /** `get` of the key of entry `i` of a sorted index, when the file holds that key's record at the entry's offset. */
  lemma LookupStoredRecord(file: Bytes, idx: seq<IndexEntry>, i: nat, k: Bytes, v: Bytes)
    requires SortedIndex(idx) && i < |idx| && idx[i].key == k
    requires RecordAt(file, idx[i].offset, k, v)
    ensures TableLookup(true, idx, Some(file), k) == if |k| < U16_LIMIT then Some(v[..Trunc16(|v|)]) else None
  {
    FindEntryAt(idx, i);
    ReadRecordAt(file, idx[i].offset, k, v, k);
    if |k| >= U16_LIMIT {
      assert |k[..Trunc16(|k|)]| < |k|;
    }
  }

  /** `get` on a table reopened from the file `write(m)` produced: the same answers, keys being shorter than 2^16. */
  lemma GetAfterReopen(m: KVMap, key: Bytes)
    requires forall k :: k in m ==> |k| < U16_LIMIT
    ensures TableLookup(true, ScanIndex(Serialize(m), 0), Some(Serialize(m)), key)
         == if key in m then Some(m[key][..Trunc16(|m[key]|)]) else None
  {
    RebuiltIndexMatches(m);
    GetAfterWrite(m, key);
  }
}
