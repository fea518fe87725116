/**
  The byte format of the write-ahead log (MiniKV/src/wal.cpp, wal.hpp).

  A record is `[op:1][keyLen:2][key][valLen:2][value]`, where the value length and
  the value are present only when the opcode is PUT (0x01). Both lengths are the
  string lengths cast to `uint16_t`, and exactly that many bytes of the string are
  written, so a key or value of 65536 bytes or more is silently cut down modulo
  2^16. Reading decodes records one after the other and stops, without error, at
  the first one whose bytes run out.
 */
module WalFormat {
  import opened Bytes
  import opened Wrappers

  const PUT: uint8 := 0x01
  const DELETE: uint8 := 0x02

  /** `WAL::LogEntry`; `op` holds whatever byte was read, not only PUT or DELETE. */
  datatype LogEntry = LogEntry(op: uint8, key: Bytes, value: Bytes)

  function KeyPart(e: LogEntry): Bytes
  {
    e.key[..Trunc16(|e.key|)]
  }

  function ValuePart(e: LogEntry): Bytes
  {
    e.value[..Trunc16(|e.value|)]
  }

  /** The bytes `write_entry` sends to the stream for `e`. */
  function EncodeEntry(e: LogEntry): (r: Bytes)
    ensures |r| == 3 + |KeyPart(e)| + (if e.op == PUT then 2 + |ValuePart(e)| else 0)
  {
    [e.op] + EncodeU16(|KeyPart(e)|) + KeyPart(e)
    + (if e.op == PUT then EncodeU16(|ValuePart(e)|) + ValuePart(e) else [])
  }

  /** What a record written for `e` reads back as: lengths cut to 16 bits, no value unless PUT. */
  function Normalize(e: LogEntry): LogEntry
  {
    LogEntry(e.op, KeyPart(e), if e.op == PUT then ValuePart(e) else [])
  }

  /** An entry the log carries unchanged: short enough key and value, and no value unless PUT. */
  predicate Storable(e: LogEntry)
  {
    |e.key| < U16_LIMIT && (if e.op == PUT then |e.value| < U16_LIMIT else e.value == [])
  }

  lemma NormalizeStorable(e: LogEntry)
    ensures Storable(Normalize(e))
    ensures Storable(e) <==> Normalize(e) == e
  {
  }

  /**
    `read_entry`: the record at the start of `b` and the number of bytes it takes,
    or None when `b` ends before the opcode, a length field, the key or the value
    is complete.
   */
  function DecodeEntry(b: Bytes): (r: Option<(LogEntry, nat)>)
    ensures r.Some? ==> 3 <= r.value.1 <= |b|
    ensures r.Some? && r.value.0.op != PUT ==> r.value.0.value == []
  {
    if |b| < 3 then None
    else
      var keyLen := DecodeU16(b[1..3]);
      if |b| < 3 + keyLen then None
      else
        var key := b[3..3 + keyLen];
        if b[0] != PUT then Some((LogEntry(b[0], key, []), 3 + keyLen))
        else if |b| < 5 + keyLen then None
        else
          var valLen := DecodeU16(b[3 + keyLen..5 + keyLen]);
          if |b| < 5 + keyLen + valLen then None
          else Some((LogEntry(PUT, key, b[5 + keyLen..5 + keyLen + valLen]), 5 + keyLen + valLen))
  }

  /** `read_all` on the bytes of the log: every record up to the first incomplete one. */
  function DecodeAll(b: Bytes): seq<LogEntry>
    decreases |b|
  {
    match DecodeEntry(b)
    case None => []
    case Some((e, n)) => [e] + DecodeAll(b[n..])
  }

  lemma DecodeAllStep(b: Bytes)
    requires DecodeEntry(b).Some?
    ensures DecodeAll(b) == [DecodeEntry(b).value.0] + DecodeAll(b[DecodeEntry(b).value.1..])
  {
  }

  /** The log after `write_entry` has appended each of `es` in turn. */
  function EncodeLog(es: seq<LogEntry>): Bytes
  {
    if es == [] then [] else EncodeEntry(es[0]) + EncodeLog(es[1..])
  }

  function NormalizeAll(es: seq<LogEntry>): (r: seq<LogEntry>)
    ensures |r| == |es|
    ensures forall i :: 0 <= i < |es| ==> r[i] == Normalize(es[i])
  {
    if es == [] then [] else [Normalize(es[0])] + NormalizeAll(es[1..])
  }

  /** A log with no torn tail: it is exactly the records `read_all` returns from it. */
  predicate WholeRecords(b: Bytes)
  {
    EncodeLog(DecodeAll(b)) == b
  }

  /** Where the fields of a record sit in its bytes. */
  lemma EntryFields(e: LogEntry)
    ensures var r, k, v := EncodeEntry(e), KeyPart(e), ValuePart(e);
      && r[0] == e.op
      && r[1..3] == EncodeU16(|k|)
      && r[3..3 + |k|] == k
      && (e.op == PUT ==> r[3 + |k|..5 + |k|] == EncodeU16(|v|) && r[5 + |k|..] == v)
  {
    var r, k, v := EncodeEntry(e), KeyPart(e), ValuePart(e);
    var head := [e.op] + EncodeU16(|k|) + k;
    if e.op == PUT {
      assert r == head + EncodeU16(|v|) + v;
    } else {
      assert r == head + [];
    }
    assert r[..3 + |k|] == head;
  }

  /** A record written for `e`, followed by anything, reads back as `Normalize(e)` and consumes exactly its own bytes. */
  lemma DecodeEncodeEntry(e: LogEntry, rest: Bytes)
    ensures DecodeEntry(EncodeEntry(e) + rest) == Some((Normalize(e), |EncodeEntry(e)|))
  {
    var r, k, v := EncodeEntry(e), KeyPart(e), ValuePart(e);
    var b := r + rest;
    EntryFields(e);
    SliceOfPrefix(r, rest, 1, 3);
    DecodeEncodeU16Exact(|k|);
    assert DecodeU16(b[1..3]) == |k|;
    SliceOfPrefix(r, rest, 3, 3 + |k|);
    assert b[3..3 + |k|] == k;
    if e.op == PUT {
      SliceOfPrefix(r, rest, 3 + |k|, 5 + |k|);
      DecodeEncodeU16Exact(|v|);
      assert DecodeU16(b[3 + |k|..5 + |k|]) == |v|;
      SliceOfPrefix(r, rest, 5 + |k|, 5 + |k| + |v|);
      assert r[5 + |k|..5 + |k| + |v|] == v;
    }
  }

  /** Conversely, whatever a record decodes to re-encodes to exactly the bytes it was read from. */
  lemma EncodeDecodedEntry(b: Bytes)
    requires DecodeEntry(b).Some?
    ensures Storable(DecodeEntry(b).value.0)
    ensures EncodeEntry(DecodeEntry(b).value.0) == b[..DecodeEntry(b).value.1]
  {
    var keyLen := DecodeU16(b[1..3]);
    EncodeDecodeU16(b[1..]);
    if b[0] == PUT {
      EncodeDecodeU16(b[3 + keyLen..]);
    }
  }

  /** Reading a log that starts with the records of `es` yields `es` (cut to 16-bit lengths) and then reads on. */
  lemma {:induction false} DecodeAllAppend(es: seq<LogEntry>, rest: Bytes)
    ensures DecodeAll(EncodeLog(es) + rest) == NormalizeAll(es) + DecodeAll(rest)
  {
    if es == [] {
      assert EncodeLog(es) + rest == rest;
    } else {
      var tail := EncodeLog(es[1..]) + rest;
      var one := EncodeEntry(es[0]);
      assert EncodeLog(es) + rest == one + tail;
      DecodeEncodeEntry(es[0], tail);
      DecodeAllStep(one + tail);
      assert (one + tail)[|one|..] == tail;
      DecodeAllAppend(es[1..], rest);
    }
  }

  /**
    Round trip of `write_put`/`write_delete` followed by `read_all`: every entry
    comes back in write order, a DELETE with an empty value. Entries whose key
    or value needs more than 16 bits of length come back cut down.
   */
  lemma ReadAllRoundTrip(es: seq<LogEntry>)
    ensures DecodeAll(EncodeLog(es)) == NormalizeAll(es)
    ensures (forall i :: 0 <= i < |es| ==> Storable(es[i])) ==> DecodeAll(EncodeLog(es)) == es
  {
    DecodeAllAppend(es, []);
    assert EncodeLog(es) + [] == EncodeLog(es);
    if forall i :: 0 <= i < |es| ==> Storable(es[i]) {
      NormalizeAllStorable(es);
    }
  }

  lemma {:induction false} NormalizeAllStorable(es: seq<LogEntry>)
    requires forall i :: 0 <= i < |es| ==> Storable(es[i])
    ensures NormalizeAll(es) == es
  {
    if es != [] {
      NormalizeStorable(es[0]);
      NormalizeAllStorable(es[1..]);
    }
  }

  /** Bytes that do not make up one whole record, appended after whole records, are dropped without error. */
  lemma TornTailDropped(es: seq<LogEntry>, torn: Bytes)
    requires DecodeEntry(torn).None?
    ensures DecodeAll(EncodeLog(es) + torn) == NormalizeAll(es)
  {
    DecodeAllAppend(es, torn);
  }

  /** Every proper prefix of a record is incomplete: a write that stops part-way leaves a torn tail. */
  lemma PartialRecordIncomplete(e: LogEntry, n: nat)
    requires n < |EncodeEntry(e)|
    ensures DecodeEntry(EncodeEntry(e)[..n]).None?
  {
    var r, k, v := EncodeEntry(e), KeyPart(e), ValuePart(e);
    var b := r[..n];
    EntryFields(e);
    if n >= 3 {
      SliceOfTake(r, n, 1, 3);
      DecodeEncodeU16Exact(|k|);
      assert DecodeU16(b[1..3]) == |k|;
      if e.op == PUT && n >= 5 + |k| {
        SliceOfTake(r, n, 3 + |k|, 5 + |k|);
        DecodeEncodeU16Exact(|v|);
        assert DecodeU16(b[3 + |k|..5 + |k|]) == |v|;
      }
    }
  }

  /** Re-encoding normalised entries gives back the same bytes. */
  lemma {:induction false} EncodeNormalized(es: seq<LogEntry>)
    ensures EncodeLog(NormalizeAll(es)) == EncodeLog(es)
  {
    if es != [] {
      EncodeNormalized(es[1..]);
      assert NormalizeAll(es)[1..] == NormalizeAll(es[1..]);
    }
  }

  /** Any byte string is the whole records `read_all` returns followed by an incomplete tail. */
  lemma {:induction false} SplitWholeAndTorn(b: Bytes)
    ensures |EncodeLog(DecodeAll(b))| <= |b|
    ensures b[..|EncodeLog(DecodeAll(b))|] == EncodeLog(DecodeAll(b))
    ensures DecodeEntry(b[|EncodeLog(DecodeAll(b))|..]).None?
    decreases |b|
  {
    match DecodeEntry(b)
    case None =>
    case Some((e, n)) =>
      EncodeDecodedEntry(b);
      var tail := b[n..];
      SplitWholeAndTorn(tail);
      var rest := DecodeAll(tail);
      var w := EncodeLog(rest);
      DecodeAllStep(b);
      EncodeLogCons(e, rest);
      assert EncodeLog(DecodeAll(b)) == b[..n] + w;
      TakeAfterDrop(b, n, |w|);
      assert tail[|w|..] == b[n + |w|..];
  }

  lemma EncodeLogCons(e: LogEntry, es: seq<LogEntry>)
    ensures EncodeLog([e] + es) == EncodeEntry(e) + EncodeLog(es)
  {
    assert ([e] + es)[1..] == es;
  }

  /** Appending one record to a log without a torn tail adds exactly that entry to what `read_all` returns. */
  lemma AppendToWhole(b: Bytes, e: LogEntry)
    requires WholeRecords(b)
    ensures DecodeAll(b + EncodeEntry(e)) == DecodeAll(b) + [Normalize(e)]
    ensures WholeRecords(b + EncodeEntry(e))
  {
    var es := DecodeAll(b);
    var one := EncodeEntry(e);
    DecodeAllAppend(es, one);
    forall i | 0 <= i < |es|
      ensures Storable(es[i])
    {
      StorableDecoded(b, i);
    }
    NormalizeAllStorable(es);
    DecodeSingle(e);
    assert DecodeAll(b + one) == es + [Normalize(e)];
    EncodeLogConcat(es, [Normalize(e)]);
    EncodeNormalized([e]);
    assert EncodeLog([e]) == one + [];
  }

  /** One record alone reads back as its one normalised entry. */
  lemma DecodeSingle(e: LogEntry)
    ensures DecodeAll(EncodeEntry(e)) == [Normalize(e)]
  {
    var one := EncodeEntry(e);
    DecodeEncodeEntry(e, []);
    assert one + [] == one;
    DecodeAllStep(one);
    assert one[|one|..] == [];
  }

  /** Every entry `read_all` returns is storable. */
  lemma {:induction false} StorableDecoded(b: Bytes, i: nat)
    requires i < |DecodeAll(b)|
    ensures Storable(DecodeAll(b)[i])
    decreases |b|
  {
    match DecodeEntry(b)
    case Some((e, n)) =>
      EncodeDecodedEntry(b);
      if i > 0 {
        StorableDecoded(b[n..], i - 1);
      }
  }

  lemma {:induction false} EncodeLogConcat(xs: seq<LogEntry>, ys: seq<LogEntry>)
    ensures EncodeLog(xs + ys) == EncodeLog(xs) + EncodeLog(ys)
  {
    if xs != [] {
      assert (xs + ys)[1..] == xs[1..] + ys;
      EncodeLogConcat(xs[1..], ys);
    } else {
      assert xs + ys == ys;
    }
  }

  /** A record that stopped part-way, after a log without a torn tail, leaves what `read_all` returns unchanged. */
  lemma TornAppendToWhole(b: Bytes, e: LogEntry, k: nat)
    requires WholeRecords(b) && k < |EncodeEntry(e)|
    ensures DecodeAll(b + EncodeEntry(e)[..k]) == DecodeAll(b)
  {
    PartialRecordIncomplete(e, k);
    TornTailDropped(DecodeAll(b), EncodeEntry(e)[..k]);
    forall i | 0 <= i < |DecodeAll(b)|
      ensures Storable(DecodeAll(b)[i])
    {
      StorableDecoded(b, i);
    }
    NormalizeAllStorable(DecodeAll(b));
  }
}
