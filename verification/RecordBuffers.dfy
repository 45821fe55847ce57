/** In-place rewriting of a record that a memtable node owns (src/memtable/record.rs), and
    what the stale `value` field does to reads from memory. */
module RecordBuffers {
  import opened Bytes
  import opened Records
  import Varint

  /** The blob and the key range are those of a fresh encoding of `e`. Nothing is said of the
      `value` field: rewriting leaves it stale. */
  ghost predicate Stores(r: Record, e: Entry)
  {
    r.blob == BlobOf(e) && r.key == KeyAt(e)
  }

  /** The guard that decides whether a data record can be written over `e`: the buffer is
      resized before the key is copied out, so the old key range must fit the new size. */
  predicate Fits(e: Entry, value: Blob)
  {
    KeyAt(e).0 + KeyAt(e).1 <= |BlobOf(Entry(e.key, Put(value)))|
  }

  class RecordBuffer {
    var blob: Blob
    var key: (nat, nat)
    var value: Option<(nat, nat)>

    constructor (r: Record)
      ensures View() == r
    {
      blob, key, value := r.blob, r.key, r.value;
    }

    function View(): (r: Record)
      reads this
    {
      Record(blob, key, value)
    }

    /** False is a panic, after which the record is not used. */
    method OverwriteData(newValue: Blob, ghost e: Entry) returns (ok: bool)
      requires Stores(View(), e)
      requires Encodable(e) && Encodable(Entry(e.key, Put(newValue)))
      modifies this
      ensures ok <==> Fits(e, newValue)
      ensures ok ==> Stores(View(), Entry(e.key, Put(newValue)))
      ensures value == old(value)
    {
      hide Varint.Encode, Splice, Resize, BlobOf, KeyAt, LogSize, HeadWritten;
      ghost var e' := Entry(e.key, Put(newValue));
      KeySlice(e);
      KeySlice(e');
      var keyLen := key.1;
      var keyVarintSize := Varint.VarintSizeFromLen(keyLen);
      var keyVarintLen := keyVarintSize.value;
      var valueVarint, valueVarintLen := Varint.EncodeVarint(|newValue|);
      var logSize := valueVarintLen + keyVarintLen + keyLen + |newValue|;
      var logVarint, logVarintLen := Varint.EncodeVarint(logSize);
      var bufferSize := logVarintLen + logSize + 1;

      var buffer := Resize(blob, bufferSize);
      ghost var resized := buffer;
      var currentLogVarintLen := key.0 - keyVarintLen - 1;
      var valueVarintOffset: nat;
      var newKey := key;
      if currentLogVarintLen != logVarintLen {
        if key.0 + key.1 > |buffer| {
          blob := buffer;
          return false;
        }
        var temp := buffer[key.0..key.0 + key.1];
        KeyAfterResize(blob, buffer, e);
        var keyVarint, _ := Varint.EncodeVarint(keyLen);
        var offset := 1;
        buffer := Splice(buffer, offset, logVarint[..logVarintLen]);
        offset := offset + logVarintLen;
        buffer := Splice(buffer, offset, keyVarint[..keyVarintLen]);
        offset := offset + keyVarintLen;
        buffer := Splice(buffer, offset, temp);
        newKey := (offset, keyLen);
        valueVarintOffset := offset + keyLen;
        WriteHead(resized, e');
      } else {
        KeepKey(blob, buffer, e, e');
        buffer := Splice(buffer, 1, logVarint[..logVarintLen]);
        valueVarintOffset := key.0 + keyLen;
      }
      WriteRest(buffer, e', valueVarintOffset);
      buffer := Splice(buffer, valueVarintOffset, valueVarint[..valueVarintLen]);
      var valueOffset := valueVarintOffset + valueVarintLen;
      buffer := Splice(buffer, valueOffset, newValue);
      buffer := Splice(buffer, 0, [DATA_LOG_HEADER]);
      blob, key := buffer, newKey;
      return true;
    }

    method UpdateDataToTombstone(ghost e: Entry)
      requires Stores(View(), e)
      requires Encodable(e) && Encodable(Entry(e.key, Delete))
      modifies this
      ensures View() == Fresh(Entry(e.key, Delete))
    {
      hide Varint.Encode, Splice, Resize, BlobOf, KeyAt, LogSize;
      KeySlice(e);
      KeySlice(Entry(e.key, Delete));
      var copy := blob[key.0..key.0 + key.1];
      var keyVarint, keyVarintLen := Varint.EncodeVarint(|copy|);
      var logSize := keyVarintLen + |copy|;
      var logVarint, logVarintLen := Varint.EncodeVarint(logSize);
      var buffer := Resize(blob, logSize + logVarintLen + 1);
      buffer := buffer[0 := TOMBSTONE_LOG_HEADER];
      WriteTombstone(buffer, Entry(e.key, Delete));
      var offset := 1;
      buffer := Splice(buffer, offset, logVarint[..logVarintLen]);
      offset := offset + logVarintLen;
      buffer := Splice(buffer, offset, keyVarint[..keyVarintLen]);
      offset := offset + keyVarintLen;
      key := (offset, |copy|);
      buffer := Splice(buffer, offset, copy);
      blob, value := buffer, None;
    }

    /** Data over data, data over tombstone, tombstone over either. */
    method UpdateFromRecord(record: Record, ghost e: Entry, ghost op: Op) returns (ok: bool)
      requires Stores(View(), e) && record == Fresh(Entry(e.key, op))
      requires Encodable(e) && Encodable(Entry(e.key, op))
      modifies this
      ensures ok <==> (op.Put? ==> Fits(e, op.value))
      ensures ok ==> Stores(View(), Entry(e.key, op))
      ensures ok ==> value == if op.Put? then old(value) else None
    {
      FreshReads(Entry(e.key, op));
      if record.value.Some? {
        var (offset, len) := record.value.value;
        ok := OverwriteData(record.blob[offset..offset + len], e);
      } else {
        UpdateDataToTombstone(e);
        ok := true;
      }
    }
  }

  // ------------------------------------------------ the key across a resize

  lemma KeyAfterResize(before: Blob, resized: Blob, e: Entry)
    requires before == BlobOf(e) && resized == Resize(before, |resized|)
    requires KeyAt(e).0 + |e.key| <= |resized|
    ensures resized[KeyAt(e).0..KeyAt(e).0 + |e.key|] == e.key
  {
    hide Varint.Encode, BlobOf, KeyAt, LogSize;
    KeySlice(e);
    ResizeKeeps(before, |resized|, KeyAt(e).0, KeyAt(e).0 + |e.key|);
  }

  lemma ResizeKeeps(b: Blob, size: nat, from: nat, to: nat)
    requires from <= to <= |b| && to <= size
    ensures Resize(b, size)[from..to] == b[from..to]
  {
  }

  /** The log-size length is unchanged: the key stays where it is. */
  lemma KeepKey(before: Blob, resized: Blob, e: Entry, e': Entry)
    requires before == BlobOf(e) && resized == Resize(before, |BlobOf(e')|)
    requires e'.key == e.key && e'.op.Put?
    requires |Varint.Encode(LogSize(e))| == |Varint.Encode(LogSize(e'))|
    ensures KeyAt(e) == KeyAt(e') && KeyAt(e).0 + |e.key| <= |resized|
    ensures HeadWritten(Splice(resized, 1, Varint.Encode(LogSize(e'))), e', KeyAt(e).0 + |e.key|)
  {
    hide Varint.Encode, Resize;
    var log, a, b := Varint.Encode(LogSize(e')), 1 + |Varint.Encode(LogSize(e))|, KeyAt(e).0 + |e.key|;
    assert before[a..b] == KeyPart(e) by {
      Layout(e);
      assert before[a..b] == before[a..KeyAt(e).0] + before[KeyAt(e).0..b];
    }
    ResizeKeeps(before, |resized|, a, b);
    assert Splice(resized, 1, log)[1..b] == log + resized[a..b];
  }

  // ------------------------------------------------- the history of one key

  /** What a memtable holds for a key: the operation its blob encodes, and the `value` field. */
  datatype Stored = Stored(op: Op, value: Option<(nat, nat)>)

  function RecordOf(key: Blob, st: Stored): (r: Record)
    ensures r.key.0 + r.key.1 <= |r.blob|
  {
    Record(BlobOf(Entry(key, st.op)), KeyAt(Entry(key, st.op)), st.value)
  }

  lemma RecordKey(key: Blob, st: Stored)
    ensures KeyOf(RecordOf(key, st)) == key
  {
    KeySlice(Entry(key, st.op));
  }

  function Created(key: Blob, op: Op): (st: Stored)
  {
    Stored(op, ValueAt(Entry(key, op)))
  }

  /** The effect of UpdateFromRecord; None is its panic. */
  function Updated(key: Blob, st: Stored, op: Op): (r: Option<Stored>)
  {
    if op.Delete? then Some(Stored(Delete, None))
    else if Fits(Entry(key, st.op), op.value) then Some(Stored(op, st.value))
    else None
  }

  /** The state of a key after its first write and all its later writes. */
  function After(key: Blob, ops: seq<Op>): (r: Option<Stored>)
    requires ops != []
  {
    if |ops| == 1 then Some(Created(key, ops[0]))
    else match After(key, ops[..|ops| - 1])
         case None => None
         case Some(st) => Updated(key, st, ops[|ops| - 1])
  }

  /** Whatever chain of rewrites ran, the blob is a fresh encoding of the last operation; the
      `value` field is the first record's, or None once the key was deleted. */
  lemma {:induction false} AfterChain(key: Blob, ops: seq<Op>)
    requires ops != [] && After(key, ops).Some?
    ensures After(key, ops).value.op == ops[|ops| - 1]
    ensures After(key, ops).value.value == if Delete in ops then None else ValueAt(Entry(key, ops[0]))
    decreases |ops|
  {
    if |ops| > 1 {
      var front := ops[..|ops| - 1];
      assert ops == front + [ops[|ops| - 1]];
      AfterChain(key, front);
    }
  }

  /** A blob read through the value range of another record of the same key gives the blob's own
      value exactly when the two values have the same length. */
  lemma ReadThrough(key: Blob, v: Blob, first: Blob)
    ensures ReadValue(RecordOf(key, Stored(Put(v), ValueAt(Entry(key, Put(first)))))) == Data(v)
       <==> |first| == |v|
  {
    hide Varint.Encode;
    var e, f := Entry(key, Put(v)), Entry(key, Put(first));
    if |first| == |v| {
      assert ValueAt(f) == ValueAt(e);
      FreshReads(e);
    }
  }

  /** The last write deleted the key, or the key was never deleted and its first and last values are
      equally long. */
  predicate InPlace(ops: seq<Op>)
    requires ops != []
  {
    || ops[|ops| - 1].Delete?
    || (Delete !in ops && ops[0].Put? && |ops[|ops| - 1].value| == |ops[0].value|)
  }

  /** Reading a key from memory returns its last write exactly when that write deleted the key,
      or when the key was never deleted and the last value is as long as the first one. */
  lemma MemoryReadExact(key: Blob, ops: seq<Op>)
    requires ops != [] && After(key, ops).Some?
    ensures ReadValue(RecordOf(key, After(key, ops).value)) == Meaning(ops[|ops| - 1]) <==> InPlace(ops)
  {
    hide BlobOf, ValueAt, KeyAt, After;
    AfterChain(key, ops);
    var last := ops[|ops| - 1];
    if last.Delete? {
      assert last in ops;
    } else if Delete !in ops {
      assert ops[0] in ops;
      ReadThrough(key, last.value, ops[0].value);
    }
  }

  /** The value ends its record. */
  lemma ValueEnd(key: Blob, v: Blob)
    ensures var e := Entry(key, Put(v));
            |v| <= |BlobOf(e)| && ValueAt(e) == Some((|BlobOf(e)| - |v|, |v|))
  {
    hide Varint.Encode;
  }

  /** A longer value makes a longer record. */
  lemma BlobGrows(key: Blob, v: Blob, w: Blob)
    requires |v| < |w|
    ensures |BlobOf(Entry(key, Put(v)))| < |BlobOf(Entry(key, Put(w)))|
  {
    hide Varint.Encode;
    Varint.EncodeMonotone(|v|, |w|);
    Varint.EncodeMonotone(LogSize(Entry(key, Put(v))), LogSize(Entry(key, Put(w))));
  }

  lemma SameLength(key: Blob, v: Blob, w: Blob)
    requires |v| == |w|
    ensures |BlobOf(Entry(key, Put(v)))| == |BlobOf(Entry(key, Put(w)))|
  {
    hide Varint.Encode;
  }

  lemma ReadRange(r: Record)
    requires r.value.Some?
    ensures var (from, len) := r.value.value;
            && (from + len > |r.blob| ==> ReadValue(r) == Crash)
            && (from + len <= |r.blob| ==> ReadValue(r) == Data(r.blob[from..from + len]))
  {
  }

  /** What a blob gives when it is read through the value range of another record of the same key:
      a panic if its own value is shorter, else as many bytes as the other value has, from where
      that value began. */
  lemma StaleRead(key: Blob, v: Blob, first: Blob)
    ensures var blob, end := BlobOf(Entry(key, Put(v))), |BlobOf(Entry(key, Put(first)))|;
            var q := ReadValue(RecordOf(key, Stored(Put(v), ValueAt(Entry(key, Put(first))))));
            && (|v| < |first| ==> q == Crash)
            && (|v| >= |first| ==> |first| <= end <= |blob| && q == Data(blob[end - |first|..end]))
  {
    hide BlobOf, ValueAt, KeyAt, ReadValue;
    ValueEnd(key, first);
    ReadRange(RecordOf(key, Stored(Put(v), ValueAt(Entry(key, Put(first))))));
    if |v| < |first| {
      BlobGrows(key, v, first);
    } else if |first| < |v| {
      BlobGrows(key, first, v);
    } else {
      SameLength(key, first, v);
    }
  }

  /** A read from memory panics exactly when the key was never deleted and its last value is
      shorter than its first. */
  lemma MemoryReadCrash(key: Blob, ops: seq<Op>)
    requires ops != [] && After(key, ops).Some?
    ensures ReadValue(RecordOf(key, After(key, ops).value)) == Crash <==>
              Delete !in ops && |ops[|ops| - 1].value| < |ops[0].value|
  {
    hide BlobOf, ValueAt, KeyAt, After;
    AfterChain(key, ops);
    if Delete !in ops {
      assert ops[0] in ops && ops[|ops| - 1] in ops;
      StaleRead(key, ops[|ops| - 1].value, ops[0].value);
    }
  }

  /** Deleting a key and setting it again leaves it reading as deleted. */
  lemma SetAfterDeleteIsLost(key: Blob, v: Blob, w: Blob)
    ensures After(key, [Put(v), Delete, Put(w)]).Some?
    ensures ReadValue(RecordOf(key, After(key, [Put(v), Delete, Put(w)]).value)) == Tombstone
  {
    var ops := [Put(v), Delete, Put(w)];
    TombstoneFits(key, w);
    assert ops[..2] == [Put(v), Delete];
    assert ops[..2][..1] == [Put(v)];
    assert After(key, ops[..2]) == Some(Stored(Delete, None));
  }

  /** The guard in numbers: a rewrite panics when the log size shrinks by more bytes than the
      new value part brings. */
  lemma FitsExact(e: Entry, value: Blob)
    ensures Fits(e, value) <==>
              |Varint.Encode(LogSize(e))|
              <= |Varint.Encode(LogSize(Entry(e.key, Put(value))))| + |ValuePart(Entry(e.key, Put(value)))|
  {
    hide Varint.Encode;
  }

  /** A tombstone can always be overwritten. */
  lemma TombstoneFits(key: Blob, value: Blob)
    ensures Fits(Entry(key, Delete), value)
  {
    Varint.EncodeMonotone(LogSize(Entry(key, Delete)), LogSize(Entry(key, Put(value))));
    FitsExact(Entry(key, Delete), value);
  }

  /** A 16 KB value overwritten by the empty value is such a case. */
  lemma OverwritePanics(value: Blob)
    requires |value| == 16384
    ensures !Fits(Entry([], Put(value)), [])
  {
    var e, e' := Entry([], Put(value)), Entry([], Put([]));
    assert Varint.Pow128(2) == 16384 by { assert Varint.Pow128(1) == 128; }
    assert Varint.Encode(0) == [0];
    Varint.EncodeLength(16384, 2);
    Varint.EncodeLength(LogSize(e), 2);
    assert LogSize(e') == 2 && Varint.Encode(2) == [2];
    FitsExact(e, []);
  }
}
