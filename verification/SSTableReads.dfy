/** Reading an SSTable back (src/ssindex/mod.rs, src/sstable/mod.rs, src/disk/mod.rs): opening
    the index, the indexed lookup, and the linear scan it must agree with. */
module SSTableReads {
  import opened Bytes
  import opened BloomFilters
  import opened Records
  import opened SSTableFiles
  import opened Tries
  import Varint

  const RECORD_READ_BUFFER_SIZE := 4096

  // ------------------------------------------------------ fields of one record

  /** Where the decoder finds the fields of a record that starts at `at`. */
  lemma FieldsAt(block: Blob, at: nat, e: Entry, tail: Blob)
    requires at <= |block| && block[at..] == BlobOf(e) + tail && Encodable(e)
    ensures var log, kv := Varint.Encode(LogSize(e)), Varint.Encode(|e.key|);
            var start := at + 1 + |log|;
            && at + |BlobOf(e)| <= |block| && block[at] == Header(e.op)
            && Varint.Decode(block[at + 1..]) == Some((LogSize(e), |log|))
            && Varint.Decode(block[start..]) == Some((|e.key|, |kv|))
            && start + |kv| + |e.key| <= |block| && block[start + |kv|..start + |kv| + |e.key|] == e.key
            && start + |kv| == at + KeyAt(e).0
            && start + LogSize(e) == at + |BlobOf(e)|
  {
    hide Varint.Encode, Varint.Decode, BlobOf, KeyAt, LogSize, Header;
    Shift(block, at, BlobOf(e), tail, 0);
    LogField(block, at, e, tail);
    KeyField(block, at, e, tail);
    KeySlice(e);
    Inside(block, at, BlobOf(e), tail, KeyAt(e).0, KeyAt(e).0 + |e.key|);
  }

  lemma LogField(block: Blob, at: nat, e: Entry, tail: Blob)
    requires at + |BlobOf(e)| <= |block| && block[at..] == BlobOf(e) + tail && Encodable(e)
    ensures block[at] == Header(e.op)
    ensures Varint.Decode(block[at + 1..]) == Some((LogSize(e), |Varint.Encode(LogSize(e))|))
  {
    hide Varint.Encode, Varint.Decode;
    var b, log := BlobOf(e), Varint.Encode(LogSize(e));
    Tail(e);
    assert block[at] == block[at..][0] == b[0];
    Shift(block, at, b, tail, 1);
    assert b[1..] + tail == log + (KeyPart(e) + ValuePart(e) + tail);
    Varint.RoundTrip(LogSize(e), KeyPart(e) + ValuePart(e) + tail);
  }

  lemma KeyField(block: Blob, at: nat, e: Entry, tail: Blob)
    requires at + |BlobOf(e)| <= |block| && block[at..] == BlobOf(e) + tail && Encodable(e)
    ensures var start := 1 + |Varint.Encode(LogSize(e))|;
            Varint.Decode(block[at + start..]) == Some((|e.key|, |Varint.Encode(|e.key|)|))
  {
    hide Varint.Encode, Varint.Decode;
    var b, start, kv := BlobOf(e), 1 + |Varint.Encode(LogSize(e))|, Varint.Encode(|e.key|);
    Layout(e);
    Shift(block, at, b, tail, start);
    assert b[start..] == kv + b[KeyAt(e).0..];
    assert b[start..] + tail == kv + (b[KeyAt(e).0..] + tail);
    Varint.RoundTrip(|e.key|, b[KeyAt(e).0..] + tail);
  }

  lemma Shift(block: Blob, at: nat, b: Blob, tail: Blob, n: nat)
    requires at <= |block| && block[at..] == b + tail && n <= |b|
    ensures at + |b| <= |block| && block[at + n..] == b[n..] + tail
  {
    assert block[at + n..] == block[at..][n..];
  }

  lemma Inside(block: Blob, at: nat, b: Blob, tail: Blob, from: nat, to: nat)
    requires at <= |block| && block[at..] == b + tail && from <= to <= |b|
    ensures at + |b| <= |block| && block[at + from..at + to] == b[from..to]
  {
    var s := block[at..];
    assert |s| == |b| + |tail|;
    forall i | from <= i < to
      ensures block[at + i] == b[i]
    {
      assert s[i] == b[i];
    }
  }

  lemma ValueFields(block: Blob, at: nat, e: Entry, tail: Blob)
    requires at <= |block| && block[at..] == BlobOf(e) + tail && Encodable(e) && e.op.Put?
    ensures var vv, end := Varint.Encode(|e.op.value|), at + KeyAt(e).0 + |e.key|;
            && end <= |block| && Varint.Decode(block[end..]) == Some((|e.op.value|, |vv|))
            && end + |vv| + |e.op.value| == at + |BlobOf(e)| <= |block|
            && block[end + |vv|..end + |vv| + |e.op.value|] == e.op.value
  {
    hide Varint.Encode, Varint.Decode;
    var vv, k := Varint.Encode(|e.op.value|), KeyAt(e).0 + |e.key|;
    var b := BlobOf(e);
    Layout(e);
    Shift(block, at, b, tail, k);
    assert b[k..] + tail == vv + (e.op.value + tail);
    Varint.RoundTrip(|e.op.value|, e.op.value + tail);
    assert b[k + |vv|..] == b[k..][|vv|..] == e.op.value;
    Inside(block, at, b, tail, k + |vv|, |b|);
  }

  // --------------------------------------------------------------- linear scan

  /** The scan over a data region: the first record of the key decides. */
  method SearchDataBlock(file: Blob, blockStart: nat, blockEnd: nat, key: Blob, ghost es: seq<Entry>)
    returns (q: Query)
    requires blockStart <= blockEnd <= |file|
    requires file[blockStart..blockEnd] == Stream(es) && AllEncodable(es)
    ensures q == Lookup(es, key)
  {
    hide Varint.Encode, Varint.Decode, BlobOf, KeyAt, LogSize, Encodable, Stream, Lookup;
    var block := file[blockStart..blockEnd];
    var offset := 0;
    ghost var k := 0;
    assert es[0..] == es && block[0..] == block;
    while offset < |block|
      invariant 0 <= k <= |es| && offset <= |block| && block[offset..] == Stream(es[k..])
      invariant Lookup(es, key) == Lookup(es[k..], key)
      decreases |block| - offset
    {
      ghost var at := offset;
      ghost var e, tail := ScanStep(block, at, es, k, key);
      var header := block[offset];
      offset := offset + 1;
      var log := Varint.DecodeVarint(block, offset);
      offset := offset + log.value.1;
      var logEnd := offset + log.value.0;
      var keySize := Varint.DecodeVarint(block, offset);
      offset := offset + keySize.value.1;
      if block[offset..offset + keySize.value.0] != key {
        offset := logEnd;
        k := k + 1;
        continue;
      }
      if header == TOMBSTONE_LOG_HEADER {
        return Tombstone;
      }
      ValueFields(block, at, e, tail);
      offset := offset + keySize.value.0;
      var dataSize := Varint.DecodeVarint(block, offset);
      offset := offset + dataSize.value.1;
      return Data(block[offset..offset + dataSize.value.0]);
    }
    StreamEmpty(es[k..]);
    LookupAbsent(es[k..], key);
    q := NotFound;
  }

  /** What one turn of the scan finds, and what it leaves to be scanned. */
  lemma ScanStep(block: Blob, at: nat, es: seq<Entry>, k: nat, key: Blob) returns (e: Entry, tail: Blob)
    requires k <= |es| && at < |block| && block[at..] == Stream(es[k..]) && AllEncodable(es)
    ensures k < |es| && e == es[k] && Encodable(e) && block[at..] == BlobOf(e) + tail
    ensures at + |BlobOf(e)| <= |block| && block[at + |BlobOf(e)|..] == Stream(es[k + 1..])
    ensures Lookup(es[k..], key) == if e.key == key then Meaning(e.op) else Lookup(es[k + 1..], key)
    ensures var log, kv := Varint.Encode(LogSize(e)), Varint.Encode(|e.key|);
            var start := at + 1 + |log|;
            && block[at] == Header(e.op)
            && Varint.Decode(block[at + 1..]) == Some((LogSize(e), |log|))
            && Varint.Decode(block[start..]) == Some((|e.key|, |kv|))
            && start + |kv| + |e.key| <= |block| && block[start + |kv|..start + |kv| + |e.key|] == e.key
            && start + |kv| == at + KeyAt(e).0
            && start + LogSize(e) == at + |BlobOf(e)|
  {
    hide Varint.Encode, Varint.Decode, BlobOf, KeyAt, LogSize, Encodable;
    StreamEmpty(es[k..]);
    e, tail := es[k], Stream(es[k + 1..]);
    assert es[k..][0] == e && es[k..][1..] == es[k + 1..];
    FieldsAt(block, at, e, tail);
    Shift(block, at, BlobOf(e), tail, |BlobOf(e)|);
  }

  // ------------------------------------------------------ read at a known offset

  /** The guard of the sized read: the value starts inside the first 4 KB, or the record ends
      there. */
  predicate Readable(e: Entry)
  {
    || e.op.Delete?
    || |BlobOf(e)| <= RECORD_READ_BUFFER_SIZE
    || ValueAt(e).value.0 <= RECORD_READ_BUFFER_SIZE
  }

  /** What the sized read makes of a record of the key with this meaning. */
  function SizedRead(k: Blob, q: Query): (r: Query)
  {
    if q.Data? && !Readable(Entry(k, Put(q.value))) then Crash else q
  }

  /** A key of 4 KB leaves no room for the value's length, whatever the value. */
  lemma LargeKeyIsNotReadable(key: Blob, value: Blob)
    requires |key| >= 4096
    ensures !Readable(Entry(key, Put(value)))
  {
    hide Varint.Encode;
  }

  /** The caller's bound: keys of at most 4000 bytes are always readable. */
  lemma SmallKeyIsReadable(e: Entry)
    requires |e.key| <= 4000 && Encodable(e)
    ensures Readable(e)
  {
    hide Varint.Encode;
    Varint.EncodeAtMostTen(LogSize(e));
    Varint.EncodeAtMostTen(|e.key|);
    if e.op.Put? {
      Varint.EncodeAtMostTen(|e.op.value|);
    }
  }

  /** Where the first read ends: after 4 KB, or at the end of the file. */
  function ReadEnd(file: Blob, offset: nat): (end: nat)
    ensures offset <= end <= offset + RECORD_READ_BUFFER_SIZE
    ensures offset <= |file| ==> end <= |file|
  {
    if offset > |file| then offset
    else if |file| - offset < RECORD_READ_BUFFER_SIZE then |file|
    else offset + RECORD_READ_BUFFER_SIZE
  }

  /** The first read: up to 4 KB of the file, the rest of the buffer stays zero. */
  function FirstRead(file: Blob, offset: nat): (buffer: Blob)
    ensures |buffer| == RECORD_READ_BUFFER_SIZE
  {
    var end := ReadEnd(file, offset);
    (if offset > |file| then [] else file[offset..end]) + Zeros(RECORD_READ_BUFFER_SIZE - (end - offset))
  }

  /** The read at an offset, of whatever bytes lie there. */
  function ReadAt(file: Blob, offset: nat, key: Blob): (q: Query)
  {
    var buffer := FirstRead(file, offset);
    if buffer[0] == TOMBSTONE_LOG_HEADER then Tombstone
    else match Varint.Decode(buffer[1..])
         case None => Crash
         case Some((logSize, n)) => ReadFields(file, ReadEnd(file, offset), key, buffer, logSize, 1 + n)
  }

  /** Behind the log size: the key must be there, and the value fits the buffer or does not. */
  function ReadFields(file: Blob, cursor: nat, key: Blob, buffer: Blob, logSize: nat, start: nat): (q: Query)
    requires |buffer| == RECORD_READ_BUFFER_SIZE
  {
    var keyBytes := |Varint.Encode(|key|)| + |key|;
    var end := start + keyBytes;
    if |key| >= U63_LIMIT || end > |buffer| || buffer[end - |key|..end] != key || logSize < keyBytes then Crash
    else if start + logSize > RECORD_READ_BUFFER_SIZE then ReadRest(file, cursor, end, buffer)
    else match Varint.Decode(buffer[end..])
         case None => Crash
         case Some((size, m)) => if end + m + size > |buffer| then Crash else Data(buffer[end + m..end + m + size])
  }

  /** The value runs past the first read. A file that ends too early is an error, which a search of
      the cache takes for a miss. */
  function ReadRest(file: Blob, cursor: nat, at: nat, buffer: Blob): (q: Query)
    requires at <= |buffer|
  {
    match Varint.Decode(buffer[at..])
    case None => Crash
    case Some((size, m)) =>
      var first := buffer[at + m..];
      if |first| >= size then Crash
      else if cursor + size - |first| > |file| then NotFound
      else Data(first + file[cursor..cursor + size - |first|])
  }

  /** A record that ends inside the first read is there as a whole. */
  lemma SmallRead(file: Blob, offset: nat, e: Entry, tail: Blob)
    requires offset <= |file| && file[offset..] == BlobOf(e) + tail
    requires |BlobOf(e)| <= RECORD_READ_BUFFER_SIZE
    ensures FirstRead(file, offset)[0..] == BlobOf(e) + FirstRead(file, offset)[|BlobOf(e)|..]
  {
    hide BlobOf;
    var b, buffer := BlobOf(e), FirstRead(file, offset);
    assert |file| - offset == |b| + |tail|;
    Inside(file, offset, b, tail, 0, |b|);
    var end := ReadEnd(file, offset);
    assert offset + |b| <= end;
    assert file[offset..end][..|b|] == file[offset..offset + |b|] == b[0..|b|] == b;
    assert buffer[..|b|] == file[offset..end][..|b|];
    assert buffer == buffer[..|b|] + buffer[|b|..];
  }

  /** Of a longer record the first read holds the first 4 KB. */
  lemma LargeRead(file: Blob, offset: nat, e: Entry, tail: Blob)
    requires offset <= |file| && file[offset..] == BlobOf(e) + tail
    requires |BlobOf(e)| > RECORD_READ_BUFFER_SIZE
    ensures offset + RECORD_READ_BUFFER_SIZE <= |file|
    ensures FirstRead(file, offset) == BlobOf(e)[..RECORD_READ_BUFFER_SIZE]
  {
    hide BlobOf;
    var b := BlobOf(e);
    assert |file| - offset == |b| + |tail|;
    Inside(file, offset, b, tail, 0, RECORD_READ_BUFFER_SIZE);
  }

  lemma LargeHead(e: Entry)
    requires |BlobOf(e)| > RECORD_READ_BUFFER_SIZE && Encodable(e)
    ensures var buffer, log := BlobOf(e)[..RECORD_READ_BUFFER_SIZE], Varint.Encode(LogSize(e));
            && buffer[0] == Header(e.op)
            && Varint.Decode(buffer[1..]) == Some((LogSize(e), |log|))
            && (KeyAt(e).0 + |e.key| <= RECORD_READ_BUFFER_SIZE ==>
                  buffer[KeyAt(e).0..KeyAt(e).0 + |e.key|] == e.key)
  {
    hide Varint.Encode, Varint.Decode;
    var b, log := BlobOf(e), Varint.Encode(LogSize(e));
    var buffer := b[..RECORD_READ_BUFFER_SIZE];
    Varint.EncodeAtMostTen(LogSize(e));
    Layout(e);
    assert buffer[1..] == log + b[1 + |log|..RECORD_READ_BUFFER_SIZE];
    Varint.RoundTrip(LogSize(e), b[1 + |log|..RECORD_READ_BUFFER_SIZE]);
    if KeyAt(e).0 + |e.key| <= RECORD_READ_BUFFER_SIZE {
      assert buffer[KeyAt(e).0..KeyAt(e).0 + |e.key|] == b[KeyAt(e).0..KeyAt(e).0 + |e.key|];
    }
  }

  /** The length of the value decodes from the first 4 KB exactly when it lies inside them. */
  lemma LargeValue(e: Entry)
    requires |BlobOf(e)| > RECORD_READ_BUFFER_SIZE && Encodable(e) && e.op.Put?
    requires KeyAt(e).0 + |e.key| <= RECORD_READ_BUFFER_SIZE
    ensures var k, vv := KeyAt(e).0 + |e.key|, Varint.Encode(|e.op.value|);
            var r := Varint.Decode(BlobOf(e)[..RECORD_READ_BUFFER_SIZE][k..]);
            && (k + |vv| <= RECORD_READ_BUFFER_SIZE ==>
                  && r == Some((|e.op.value|, |vv|))
                  && BlobOf(e)[k + |vv|..] == e.op.value)
            && (k + |vv| > RECORD_READ_BUFFER_SIZE ==> r.None?)
  {
    hide Varint.Encode, Varint.Decode;
    var b, k, vv := BlobOf(e), KeyAt(e).0 + |e.key|, Varint.Encode(|e.op.value|);
    Layout(e);
    assert b[k..] == vv + e.op.value;
    var n := RECORD_READ_BUFFER_SIZE - k;
    assert b[..RECORD_READ_BUFFER_SIZE][k..] == b[k..][..n];
    if |vv| <= n {
      assert b[k..][..n] == vv + e.op.value[..n - |vv|];
      Varint.RoundTrip(|e.op.value|, e.op.value[..n - |vv|]);
      assert b[k + |vv|..] == b[k..][|vv|..];
    } else {
      assert b[k..][..n] == vv[..n];
      Varint.EncodePrefix(|e.op.value|, n);
    }
  }

  method ReadOversizedRecord(file: Blob, cursor: nat, at: nat, buffer: Blob) returns (q: Query)
    requires at <= |buffer|
    ensures q == ReadRest(file, cursor, at, buffer)
  {
    hide Varint.Decode;
    var blobSize := Varint.DecodeVarint(buffer, at);
    if blobSize.None? { return Crash; }
    var offset := at + blobSize.value.1;
    var firstPart := buffer[offset..];
    if |firstPart| >= blobSize.value.0 { return Crash; }
    var result := Resize(firstPart, blobSize.value.0);
    var missing := blobSize.value.0 - |firstPart|;
    if cursor + missing > |file| { return NotFound; }
    result := Splice(result, |firstPart|, file[cursor..cursor + missing]);
    assert result == firstPart + file[cursor..cursor + missing];
    q := Data(result);
  }

  method ReadDataBlock(file: Blob, offset: nat, key: Blob) returns (q: Query)
    ensures q == ReadAt(file, offset, key)
  {
    hide Varint.Encode, Varint.Decode, FirstRead, ReadRest, ReadEnd;
    var buffer := FirstRead(file, offset);
    var header := buffer[0];
    if header == TOMBSTONE_LOG_HEADER { return Tombstone; }
    var log := Varint.DecodeVarint(buffer, 1);
    if log.None? { return Crash; }
    var bufferOffset := 1 + log.value.1;
    var keyVarintLen := Varint.VarintSizeFromLen(|key|);
    if keyVarintLen.None? { return Crash; }
    var keyStart := bufferOffset + keyVarintLen.value;
    if keyStart + |key| > |buffer| || buffer[keyStart..keyStart + |key|] != key { return Crash; }
    var totalKeyBytes := keyVarintLen.value + |key|;
    bufferOffset := bufferOffset + totalKeyBytes;
    if log.value.0 < totalKeyBytes { return Crash; }
    if bufferOffset + (log.value.0 - totalKeyBytes) > RECORD_READ_BUFFER_SIZE {
      q := ReadOversizedRecord(file, ReadEnd(file, offset), bufferOffset, buffer);
      return;
    }
    var blobSize := Varint.DecodeVarint(buffer, bufferOffset);
    if blobSize.None? { return Crash; }
    bufferOffset := bufferOffset + blobSize.value.1;
    if bufferOffset + blobSize.value.0 > |buffer| { return Crash; }
    q := Data(buffer[bufferOffset..bufferOffset + blobSize.value.0]);
  }

  /** At the first byte of a record the read gives its value or its tombstone exactly when the
      record is readable; otherwise it panics. */
  lemma ReadAtExact(file: Blob, offset: nat, e: Entry, tail: Blob)
    requires offset <= |file| && file[offset..] == BlobOf(e) + tail && Encodable(e)
    ensures ReadAt(file, offset, e.key) == if Readable(e) then Meaning(e.op) else Crash
  {
    if |BlobOf(e)| <= RECORD_READ_BUFFER_SIZE {
      SmallReadExact(file, offset, e, tail);
    } else {
      LargeReadExact(file, offset, e, tail);
    }
  }

  lemma SmallReadExact(file: Blob, offset: nat, e: Entry, tail: Blob)
    requires offset <= |file| && file[offset..] == BlobOf(e) + tail && Encodable(e)
    requires |BlobOf(e)| <= RECORD_READ_BUFFER_SIZE
    ensures ReadAt(file, offset, e.key) == Meaning(e.op)
  {
    hide Varint.Encode, Varint.Decode, BlobOf, FirstRead, KeyAt, LogSize, ReadRest, ReadEnd;
    var buffer := FirstRead(file, offset);
    KeySlice(e);
    SmallRead(file, offset, e, tail);
    FieldsAt(buffer, 0, e, buffer[|BlobOf(e)|..]);
    if e.op.Put? {
      ValueFields(buffer, 0, e, buffer[|BlobOf(e)|..]);
    }
  }

  lemma LargeReadExact(file: Blob, offset: nat, e: Entry, tail: Blob)
    requires offset <= |file| && file[offset..] == BlobOf(e) + tail && Encodable(e)
    requires |BlobOf(e)| > RECORD_READ_BUFFER_SIZE
    ensures ReadAt(file, offset, e.key) == if Readable(e) then Meaning(e.op) else Crash
  {
    hide Varint.Encode, Varint.Decode, BlobOf, FirstRead, KeyAt, LogSize;
    KeySlice(e);
    LargeRead(file, offset, e, tail);
    LargeHead(e);
    if e.op.Put? && KeyAt(e).0 + |e.key| <= RECORD_READ_BUFFER_SIZE {
      LargeValue(e);
      LargeRest(file, offset, e, tail);
    }
  }

  /** First part and rest of a long value join up. */
  lemma LargeRest(file: Blob, offset: nat, e: Entry, tail: Blob)
    requires offset <= |file| && file[offset..] == BlobOf(e) + tail && e.op.Put?
    requires |BlobOf(e)| > RECORD_READ_BUFFER_SIZE
    ensures var v := ValueAt(e).value.0;
            v <= RECORD_READ_BUFFER_SIZE ==>
              && offset + |BlobOf(e)| <= |file| && v + |e.op.value| == |BlobOf(e)|
              && BlobOf(e)[..RECORD_READ_BUFFER_SIZE][v..]
                 + file[offset + RECORD_READ_BUFFER_SIZE..offset + |BlobOf(e)|] == BlobOf(e)[v..]
  {
    hide Varint.Encode;
    var b, v := BlobOf(e), ValueAt(e).value.0;
    if v <= RECORD_READ_BUFFER_SIZE {
      Inside(file, offset, b, tail, RECORD_READ_BUFFER_SIZE, |b|);
      assert b[..RECORD_READ_BUFFER_SIZE][v..] == b[v..RECORD_READ_BUFFER_SIZE];
    }
  }

  /** At the record of another key of the same length the debug assertion on the key panics. */
  lemma OtherKeyPanics(file: Blob, offset: nat, e: Entry, tail: Blob, key: Blob)
    requires offset <= |file| && file[offset..] == BlobOf(e) + tail && Encodable(e) && e.op.Put?
    requires |key| == |e.key| && key != e.key
    ensures ReadAt(file, offset, key) == Crash
  {
    hide Varint.Encode, Varint.Decode, BlobOf, FirstRead, KeyAt, LogSize, ReadRest, ReadEnd;
    KeySlice(e);
    if |BlobOf(e)| <= RECORD_READ_BUFFER_SIZE {
      var buffer := FirstRead(file, offset);
      SmallRead(file, offset, e, tail);
      FieldsAt(buffer, 0, e, buffer[|BlobOf(e)|..]);
    } else {
      LargeRead(file, offset, e, tail);
      LargeHead(e);
    }
  }

  /** A file cut inside a long value: the read is an error, which counts as a miss. */
  lemma CutValueIsMissed(file: Blob, offset: nat, e: Entry, n: nat)
    requires Encodable(e) && e.op.Put? && ValueAt(e).value.0 <= 4096 <= n < |BlobOf(e)|
    requires offset <= |file| && file[offset..] == BlobOf(e)[..n]
    ensures ReadAt(file, offset, e.key) == NotFound
  {
    hide Varint.Encode, Varint.Decode, BlobOf, KeyAt, LogSize;
    KeySlice(e);
    LargeHead(e);
    LargeValue(e);
    assert |file| == offset + n;
    assert FirstRead(file, offset) == file[offset..][..4096] == BlobOf(e)[..4096];
    assert BlobOf(e)[..4096][ValueAt(e).value.0..] == BlobOf(e)[ValueAt(e).value.0..4096];
  }

  // ------------------------------------------------------------ opening a file

  /** The magic is checked; the version is read and kept. None is InvalidSSTableFile or a short
      file. Every file the writers produce passes, as version 0. */
  method ValidateHeader(file: Blob, ghost es: seq<Entry>, ghost p: Parts, ghost h: Hashes)
    returns (version: Option<nat>)
    ensures version.Some? <==> |file| >= 9 && file[..7] == [0x6C, 0x73, 0x6D, 0x6C, 0x69, 0x74, 0x65]
    ensures Built(file, es, p, h) ==> version == Some(0)
  {
    hide Stream, ArenaBytes, FilterBytes, FromBe, Built;
    if Built(file, es, p, h) {
      Sections(file, es, p, h);
      HeaderFields(file, Stream(es));
    }
    if |file| < HEADER_SIZE || file[..7] != FILE_HEADER[..7] { return None; }
    version := Some(FromBe(file[7..9]));
  }

  lemma HeaderFields(file: Blob, data: Blob)
    requires FILE_HEADER + data <= file
    ensures |file| >= HEADER_SIZE && file[..7] == FILE_HEADER[..7] && FromBe(file[7..9]) == 0
  {
    hide FromBe;
    assert file[..HEADER_SIZE] == (FILE_HEADER + data)[..HEADER_SIZE] == FILE_HEADER;
    assert file[..7] == file[..HEADER_SIZE][..7];
    assert file[7..9] == file[..HEADER_SIZE][7..9] == [0, 0] == BeBytes(0, 2);
    BeRoundTrip(0, 2);
  }

  datatype SstIndex = SstIndex(arena: TrieArena, bits: seq<nat>, hashes: nat, dataBlockEnd: nat)

  /** Where the sections of a built file lie. */
  lemma Sections(file: Blob, es: seq<Entry>, p: Parts, h: Hashes)
    requires Built(file, es, p, h)
    ensures var data, index, filter := FILE_HEADER + Stream(es), ArenaBytes(p.arena), FilterBytes(p.bits, p.hashes);
            var footer := |data| + |index| + |filter|;
            && footer + FOOTER_SIZE == |file|
            && FromBe(file[footer..footer + 8]) == |data|
            && FromBe(file[footer + 8..footer + 16]) == |index|
            && FromBe(file[footer + 16..footer + 24]) == |data| + |index|
            && file[|data|..|data| + |index|] == index
            && file[|data| + |index|..footer] == filter
            && file[..|data|] == data
  {
    hide Stream, ArenaBytes, FilterBytes, BeBytes, FromBe, PrefixTree, Entered, Supported, Words, Filled, OffsetMap,
      Bounded;
    var data, index, filter := FILE_HEADER + Stream(es), ArenaBytes(p.arena), FilterBytes(p.bits, p.hashes);
    var footer := |data| + |index| + |filter|;
    var a, b, c := BeBytes(|data|, 8), BeBytes(|index|, 8), BeBytes(|data| + |index|, 8);
    Pow256Widths();
    BeRoundTrip(|data|, 8);
    BeRoundTrip(|index|, 8);
    BeRoundTrip(|data| + |index|, 8);
    assert file == data + index + filter + (a + b + c);
    FooterFields(data + index + filter, a, b, c);
    assert file[..|data|] == data && file[|data|..|data| + |index|] == index;
    assert file[|data| + |index|..footer] == filter;
  }

  lemma FooterFields(front: Blob, a: Blob, b: Blob, c: Blob)
    requires |a| == |b| == |c| == 8
    ensures var s, n := front + (a + b + c), |front|;
            s[n..n + 8] == a && s[n + 8..n + 16] == b && s[n + 16..n + 24] == c
  {
  }

  /** Reads footer, trie and filter. Of a built file the filter comes back as it was written, and
      the trie is what the reader makes of its bytes. None is a panic or a failed read. */
  method OpenIndex(file: Blob, ghost es: seq<Entry>, ghost p: Parts, ghost h: Hashes) returns (r: Option<SstIndex>)
    ensures Built(file, es, p, h) ==>
              r == match ReadArena(ArenaBytes(p.arena))
                   case None => None
                   case Some(a) => Some(SstIndex(a, p.bits, p.hashes, HEADER_SIZE + |Stream(es)|))
    ensures Built(file, es, p, h) && Narrow(OffsetMap(es).Keys) ==> r.Some? && r.value.arena == p.arena
    ensures Built(file, es, p, h) && !Narrow(OffsetMap(es).Keys) && r.Some? ==>
              exists k :: k in OffsetMap(es) && Find(r.value.arena, k) == Absent
  {
    hide Stream, ArenaBytes, FilterBytes, FromBe, ReadArena, ReadFilter, Built, Narrow, OffsetMap, Find;
    if Built(file, es, p, h) {
      Sections(file, es, p, h);
      FilterSurvives(file, es, p, h);
      TrieSurvives(file, es, p, h);
    }
    if |file| < FOOTER_SIZE { return None; }
    var footer := |file| - FOOTER_SIZE;
    var indexStart := FromBe(file[footer..footer + 8]);
    var filterStart := FromBe(file[footer + 16..footer + 24]);
    if !(indexStart <= filterStart <= footer) { return None; }
    var arena := Tries.Deserialize(file[indexStart..filterStart]);
    if arena.None? { return None; }
    var filter := BloomFilters.FromBytes(file[filterStart..footer]);
    if filter.None? { return None; }
    r := Some(SstIndex(arena.value, filter.value.0, filter.value.1, indexStart));
  }

  lemma FilterSurvives(file: Blob, es: seq<Entry>, p: Parts, h: Hashes)
    requires Built(file, es, p, h)
    ensures ReadFilter(FilterBytes(p.bits, p.hashes)) == Some((p.bits, p.hashes))
    ensures |FILE_HEADER + Stream(es)| == HEADER_SIZE + |Stream(es)|
  {
    hide Stream, ReadFilter, OffsetMap, PrefixTree, Entered, Supported, Bounded, Words, ArenaBytes;
    ShortFilter(file, es, p);
    FilterRoundTrip(p.bits, p.hashes);
  }

  /** The trie comes back as it was for narrow keys; for others, if at all, without some key. */
  lemma TrieSurvives(file: Blob, es: seq<Entry>, p: Parts, h: Hashes)
    requires Built(file, es, p, h)
    ensures Narrow(OffsetMap(es).Keys) ==> ReadArena(ArenaBytes(p.arena)) == Some(p.arena)
    ensures !Narrow(OffsetMap(es).Keys) && ReadArena(ArenaBytes(p.arena)).Some? ==>
              exists k :: k in OffsetMap(es) && Find(ReadArena(ArenaBytes(p.arena)).value, k) == Absent
  {
    hide Stream, OffsetMap, PrefixTree, Entered, Supported, Narrow, Bounded, Words, ArenaBytes, FileBytes, ReadArena,
      Find;
    if Narrow(OffsetMap(es).Keys) {
      NarrowFits(p.arena, p.paths, OffsetMap(es));
    } else if ReadArena(ArenaBytes(p.arena)).Some? {
      var k := WideLoses(p.arena, p.paths, OffsetMap(es));
    }
  }

  lemma ShortFilter(file: Blob, es: seq<Entry>, p: Parts)
    requires file == FileBytes(es, p) && |file| < U64_LIMIT
    ensures |p.bits| < U64_LIMIT
  {
    hide Stream, ArenaBytes, BeBytes, Varint.Encode;
  }

  class SSTable {
    const file: Blob
    const trie: Trie
    const bloom: BloomFilter
    const dataBlockEnd: nat

    /** The filter of the open table knows the records `es` of its file; of the trie nothing is
        said. */
    ghost predicate Opened(es: seq<Entry>, p: Parts, h: Hashes)
      reads trie, bloom
    {
      && Built(file, es, p, h) && SortedEntries(es)
      && bloom.Valid(h) && bloom.keys == OffsetMap(es).Keys
      && dataBlockEnd == HEADER_SIZE + |Stream(es)|
    }

    /** The open table indexes exactly the records `es` of its file. */
    ghost predicate Serves(es: seq<Entry>, p: Parts, h: Hashes)
      reads trie, bloom
    {
      Opened(es, p, h) && trie.Shape() && trie.entries == OffsetMap(es)
    }

    constructor (file: Blob, index: SstIndex, ghost es: seq<Entry>, ghost p: Parts, ghost h: Hashes)
      requires Built(file, es, p, h) && SortedEntries(es)
      requires index.bits == p.bits && index.hashes == p.hashes && index.dataBlockEnd == HEADER_SIZE + |Stream(es)|
      ensures Opened(es, p, h) && trie.arena == index.arena && fresh(trie) && fresh(bloom)
      ensures index.arena == p.arena ==> Serves(es, p, h)
    {
      hide Stream, OffsetMap, PrefixTree, Entered, Supported, Bounded, Words, Filled, FileBytes, SortedEntries;
      this.file := file;
      trie := new Trie.FromArena(index.arena, p.paths, OffsetMap(es));
      bloom := new BloomFilter.FromParts(index.bits, index.hashes, h, OffsetMap(es).Keys);
      dataBlockEnd := index.dataBlockEnd;
    }

    method GetOffsetForKey(key: Blob, h: Hashes, ghost es: seq<Entry>, ghost p: Parts) returns (r: Found)
      requires Opened(es, p, h)
      ensures Serves(es, p, h) ==> r == if key in OffsetMap(es) then At(OffsetMap(es)[key]) else Absent
      ensures Find(trie.arena, key) == Absent ==> r == Absent
    {
      hide Stream, OffsetMap, PrefixTree, Entered, Bounded, Words, Filled, FileBytes, Built, SortedEntries, Find;
      var maybe := bloom.Contains(key, h);
      if !maybe { return Absent; }
      r := trie.Get(key);
    }

    /** The indexed lookup gives what the linear scan of the data region gives, for every key and
        every file, except that a record whose value starts beyond the first 4 KB crashes it. A
        key that the trie has lost is not found. */
    method Search(key: Blob, h: Hashes, ghost es: seq<Entry>, ghost p: Parts) returns (q: Query)
      requires Opened(es, p, h)
      ensures Serves(es, p, h) ==> q == SizedRead(key, Lookup(es, key))
      ensures Find(trie.arena, key) == Absent ==> q == NotFound
    {
      hide Stream, OffsetMap, Bounded, FileBytes, Built, SortedEntries, Readable, Lookup, BlobOf, Encodable, Trie.Shape,
        Find, BloomFilter.Valid, ReadAt;
      var found := GetOffsetForKey(key, h, es, p);
      if Serves(es, p, h) {
        FileAnswers(file, es, p, h, key);
        if Find(trie.arena, key) == Absent {
          LookupAbsentKey(es, key);
        }
      }
      match found {
        case Absent => q := NotFound;
        case Undetermined => q := Crash;
        case At(offset) => q := ReadDataBlock(file, offset, key);
      }
    }
  }

  lemma LookupAbsentKey(es: seq<Entry>, key: Blob)
    ensures key !in OffsetMap(es) ==> Lookup(es, key) == NotFound
  {
    OffsetKeys(es, key);
    if key !in OffsetMap(es) {
      LookupAbsent(es, key);
    }
  }

  /** What the bytes at a key's offset say is what the scan finds, but for the sized read. */
  lemma FileAnswers(file: Blob, es: seq<Entry>, p: Parts, h: Hashes, key: Blob)
    requires Built(file, es, p, h) && SortedEntries(es)
    ensures SizedRead(key, Lookup(es, key)) ==
              if key in OffsetMap(es) then ReadAt(file, OffsetMap(es)[key], key) else NotFound
  {
    hide Stream, OffsetMap, Bounded, FileBytes, Built, SortedEntries, Lookup, BlobOf, Encodable, ReadAt, Readable;
    LookupAbsentKey(es, key);
    OffsetKeys(es, key);
    if key in OffsetMap(es) {
      var i :| 0 <= i < |es| && es[i].key == key;
      var tail := RecordAt(file, es, p, h, i);
      LookupAt(es, i);
      ReadAtExact(file, OffsetMap(es)[key], es[i], tail);
      TombstoneReadable(es[i]);
    }
  }

  /** Opens a file that one of the writers produced. With narrow keys the open table serves all of
      the file; otherwise, if it opens at all, some key of the file is lost. */
  method FromFile(file: Blob, h: Hashes, ghost es: seq<Entry>, ghost p: Parts) returns (table: Option<SSTable>)
    requires Built(file, es, p, h) && SortedEntries(es)
    ensures table.Some? ==>
              && table.value.Opened(es, p, h)
              && fresh(table.value) && fresh(table.value.trie) && fresh(table.value.bloom)
    ensures Narrow(OffsetMap(es).Keys) ==> table.Some? && table.value.Serves(es, p, h)
    ensures !Narrow(OffsetMap(es).Keys) && table.Some? ==>
              exists k :: k in OffsetMap(es) && Find(table.value.trie.arena, k) == Absent
  {
    hide Built, Narrow, OffsetMap, SortedEntries, Stream, Find, ReadArena, ArenaBytes, Trie.Shape, BloomFilter.Valid;
    var version := ValidateHeader(file, es, p, h);
    if version.None? { return None; }
    var index := OpenIndex(file, es, p, h);
    if index.None? { return None; }
    var sst := new SSTable(file, index.value, es, p, h);
    table := Some(sst);
  }

  /** Where the data region ends, and what it holds. */
  method DataEnd(file: Blob, ghost es: seq<Entry>, ghost p: Parts, ghost h: Hashes) returns (end: nat)
    requires Built(file, es, p, h)
    ensures HEADER_SIZE <= end <= |file| && end == HEADER_SIZE + |Stream(es)|
    ensures file[HEADER_SIZE..end] == Stream(es) && AllEncodable(es)
  {
    hide Stream, OffsetMap, PrefixTree, Entered, Supported, Words, Filled, FileBytes, Encodable, ArenaBytes,
      FilterBytes, FromBe;
    Sections(file, es, p, h);
    end := FromBe(file[|file| - FOOTER_SIZE..|file| - FOOTER_SIZE + 8]);
    assert (FILE_HEADER + Stream(es))[HEADER_SIZE..] == Stream(es);
    assert file[HEADER_SIZE..end] == file[..end][HEADER_SIZE..];
  }

  /** The data region of an open table, as the merge reads it. */
  method DataRegion(table: SSTable, ghost es: seq<Entry>, ghost p: Parts, ghost h: Hashes) returns (buffer: Blob)
    requires table.Opened(es, p, h)
    ensures HEADER_SIZE <= table.dataBlockEnd <= |table.file|
    ensures buffer == table.file[HEADER_SIZE..table.dataBlockEnd] == Stream(es) && AllEncodable(es)
  {
    hide Stream, Built, SortedEntries, Encodable;
    var end := DataEnd(table.file, es, p, h);
    buffer := table.file[HEADER_SIZE..table.dataBlockEnd];
  }

  lemma TombstoneReadable(e: Entry)
    ensures e.op.Delete? ==> Readable(e)
  {
  }

  /** Each indexed offset is the first byte of its record. */
  lemma RecordAt(file: Blob, es: seq<Entry>, p: Parts, h: Hashes, i: nat) returns (tail: Blob)
    requires Built(file, es, p, h) && SortedEntries(es) && i < |es|
    ensures Encodable(es[i]) && es[i].key in OffsetMap(es) && OffsetMap(es)[es[i].key] <= |file|
    ensures file[OffsetMap(es)[es[i].key]..] == BlobOf(es[i]) + tail
  {
    hide BlobOf, Stream, OffsetMap, FileBytes, SortedEntries, Encodable, PrefixTree, Entered, Supported, Words, Filled;
    OffsetAt(es, i);
    Sections(file, es, p, h);
    StreamAt(es, i);
    var a, b, c := FILE_HEADER + Stream(es[..i]), BlobOf(es[i]), Stream(es[i + 1..]);
    Prepend(FILE_HEADER, Stream(es[..i]), b, c);
    SplitFile(file, a, b, c);
    tail := c + file[|a| + |b| + |c|..];
  }

  lemma StreamAt(es: seq<Entry>, i: nat)
    requires i < |es|
    ensures Stream(es) == Stream(es[..i]) + BlobOf(es[i]) + Stream(es[i + 1..])
  {
    hide BlobOf, Stream;
    var front, rest := es[..i], es[i + 1..];
    StreamSnoc(front, es[i]);
    StreamAppend(front + [es[i]], rest);
    Rejoin(es, i);
  }

  lemma Prepend<T>(h: seq<T>, x: seq<T>, y: seq<T>, z: seq<T>)
    ensures h + (x + y + z) == h + x + y + z
  {
  }

  lemma Rejoin<T>(s: seq<T>, i: nat)
    requires i < |s|
    ensures s[..i] + [s[i]] + s[i + 1..] == s
  {
  }

  lemma SplitFile(file: Blob, a: Blob, b: Blob, c: Blob)
    requires |a| + |b| + |c| <= |file| && file[..|a| + |b| + |c|] == a + b + c
    ensures file[|a|..] == b + (c + file[|a| + |b| + |c|..])
  {
    var n := |a| + |b| + |c|;
    assert file == file[..n] + file[n..];
    assert (a + b + c)[|a|..] == b + c;
  }
}
