/** The log record format shared by the memtable, the write-ahead log and the SSTable
    (src/disk/encode.rs, src/disk/decode.rs), and streams of such records. */
module Records {
  import opened Bytes
  import Varint

  const DATA_LOG_HEADER: Byte := 0
  const TOMBSTONE_LOG_HEADER: Byte := 1

  /** What a write does to its key. */
  datatype Op = Put(value: Blob) | Delete

  datatype Entry = Entry(key: Blob, op: Op)

  /** An encoded record: `key` and `value` are (offset, length) pairs into `blob`. */
  datatype Record = Record(blob: Blob, key: (nat, nat), value: Option<(nat, nat)>)

  /** The answer of a lookup; Crash is a panic. */
  datatype Query = Data(value: Blob) | Tombstone | NotFound | Crash

  function Meaning(op: Op): (q: Query)
  {
    if op.Put? then Data(op.value) else Tombstone
  }

  // ------------------------------------------------------------ record layout

  function Header(op: Op): (h: Byte)
  {
    if op.Put? then DATA_LOG_HEADER else TOMBSTONE_LOG_HEADER
  }

  function KeyPart(e: Entry): (r: Blob)
  {
    Varint.Encode(|e.key|) + e.key
  }

  function ValuePart(e: Entry): (r: Blob)
  {
    if e.op.Put? then Varint.Encode(|e.op.value|) + e.op.value else []
  }

  function LogSize(e: Entry): (n: nat)
  {
    |KeyPart(e)| + |ValuePart(e)|
  }

  /** `[header][log size][key length][key]`, then `[data length][data]` for a data record. */
  function BlobOf(e: Entry): (r: Blob)
    ensures |r| == 1 + |Varint.Encode(LogSize(e))| + LogSize(e)
  {
    [Header(e.op)] + Varint.Encode(LogSize(e)) + KeyPart(e) + ValuePart(e)
  }

  function KeyAt(e: Entry): (p: (nat, nat))
    ensures p.0 + p.1 <= |BlobOf(e)|
  {
    (1 + |Varint.Encode(LogSize(e))| + |Varint.Encode(|e.key|)|, |e.key|)
  }

  function ValueAt(e: Entry): (p: Option<(nat, nat)>)
  {
    if e.op.Put?
    then Some((KeyAt(e).0 + |e.key| + |Varint.Encode(|e.op.value|)|, |e.op.value|))
    else None
  }

  function Fresh(e: Entry): (r: Record)
  {
    Record(BlobOf(e), KeyAt(e), ValueAt(e))
  }

  /** A buffer never reaches 2^63 bytes: the allocator refuses it. */
  predicate Encodable(e: Entry)
  {
    |BlobOf(e)| < U63_LIMIT
  }

  /** So every key and value that fit into memory together are encodable: the lengths take at most
      31 bytes. */
  lemma EncodableBySize(e: Entry)
    requires |e.key| + (if e.op.Put? then |e.op.value| else 0) < U63_LIMIT - 31
    ensures Encodable(e)
  {
    hide Varint.Encode;
    Varint.EncodeAtMostTen(|e.key|);
    if e.op.Put? {
      Varint.EncodeAtMostTen(|e.op.value|);
    }
    Varint.EncodeAtMostTen(LogSize(e));
  }

  function KeyOf(r: Record): (k: Blob)
    requires r.key.0 + r.key.1 <= |r.blob|
  {
    r.blob[r.key.0..r.key.0 + r.key.1]
  }

  /** Reading a record in memory trusts its `value` field, not its blob. */
  function ReadValue(r: Record): (q: Query)
  {
    match r.value
    case None => Tombstone
    case Some((offset, len)) =>
      if offset + len <= |r.blob| then Data(r.blob[offset..offset + len]) else Crash
  }

  /** Where the pieces of an encoded record lie. */
  lemma Layout(e: Entry)
    ensures var b, (k, n) := BlobOf(e), KeyAt(e);
            && b[0] == Header(e.op)
            && b[1..1 + |Varint.Encode(LogSize(e))|] == Varint.Encode(LogSize(e))
            && b[1 + |Varint.Encode(LogSize(e))|..k] == Varint.Encode(|e.key|)
            && b[k..k + n] == e.key
            && b[k + n..] == ValuePart(e)
  {
  }

  /** The bytes of a record whose lengths take one byte each. */
  lemma ShortRecord(key: Blob, value: Blob)
    requires |key| + |value| < 126
    ensures BlobOf(Entry(key, Put(value))) == [0x00, |key| + |value| + 2, |key|] + key + [|value|] + value
    ensures BlobOf(Entry(key, Delete)) == [0x01, |key| + 1, |key|] + key
  {
  }

  lemma FreshReads(e: Entry)
    ensures KeyOf(Fresh(e)) == e.key
    ensures ReadValue(Fresh(e)) == Meaning(e.op)
  {
    Layout(e);
    if e.op.Put? {
      var v, b, end := Varint.Encode(|e.op.value|), BlobOf(e), KeyAt(e).0 + |e.key|;
      assert b[end..] == v + e.op.value;
      assert b[end + |v|..] == b[end..][|v|..];
    }
  }

  // ------------------------------------------- what buffer writes leave behind

  /** A record as its header byte, its log size, its key part and its value part. */
  lemma KeySlice(e: Entry)
    ensures KeyAt(e) == (1 + |Varint.Encode(LogSize(e))| + |Varint.Encode(|e.key|)|, |e.key|)
    ensures BlobOf(e)[KeyAt(e).0..KeyAt(e).0 + |e.key|] == e.key
    ensures LogSize(e) == |Varint.Encode(|e.key|)| + |e.key|
                          + if e.op.Put? then |Varint.Encode(|e.op.value|)| + |e.op.value| else 0
  {
    hide Varint.Encode;
    Layout(e);
  }

  /** The log size and the key are in place, up to `at`. */
  ghost predicate HeadWritten(head: Blob, e: Entry, at: nat)
  {
    && |head| == |BlobOf(e)|
    && at == KeyAt(e).0 + |e.key|
    && head[1..at] == Varint.Encode(LogSize(e)) + KeyPart(e)
  }

  /** Log size, key length and key written one behind the other. */
  lemma WriteHead(b: Blob, e: Entry)
    requires |b| == |BlobOf(e)|
    ensures var log, kv := Varint.Encode(LogSize(e)), Varint.Encode(|e.key|);
            var head := Splice(Splice(Splice(b, 1, log), 1 + |log|, kv), 1 + |log| + |kv|, e.key);
            HeadWritten(head, e, 1 + |log| + |kv| + |e.key|) && head[0] == b[0]
  {
    hide Varint.Encode;
    var log, kv := Varint.Encode(LogSize(e)), Varint.Encode(|e.key|);
    WriteThree(b, 1, log, kv, e.key);
    assert log + kv + e.key == log + KeyPart(e);
  }

  /** With log size and key in place, the value completes all but the header byte. */
  lemma WriteValue(head: Blob, e: Entry, at: nat)
    requires e.op.Put? && HeadWritten(head, e, at)
    ensures var vv := Varint.Encode(|e.op.value|);
            Splice(Splice(head, at, vv), at + |vv|, e.op.value) == [head[0]] + BlobOf(e)[1..]
  {
    hide Varint.Encode;
    var vv := Varint.Encode(|e.op.value|);
    WriteTwo(head, at, vv, e.op.value);
    assert head[..at] == [head[0]] + head[1..at];
    Tail(e);
  }

  lemma Tail(e: Entry)
    ensures BlobOf(e)[1..] == Varint.Encode(LogSize(e)) + KeyPart(e) + ValuePart(e)
    ensures BlobOf(e)[0] == Header(e.op)
  {
    hide Varint.Encode;
  }

  /** Value and header complete a record whose log size and key are in place. */
  lemma WriteRest(head: Blob, e: Entry, at: nat)
    requires e.op.Put? && HeadWritten(head, e, at)
    ensures var vv := Varint.Encode(|e.op.value|);
            && at + |vv| + |e.op.value| <= |head|
            && Splice(Splice(Splice(head, at, vv), at + |vv|, e.op.value), 0, [Header(e.op)]) == BlobOf(e)
  {
    hide Varint.Encode, Splice;
    WriteValue(head, e, at);
    var vv := Varint.Encode(|e.op.value|);
    WriteHeader(Splice(Splice(head, at, vv), at + |vv|, e.op.value), e);
  }

  /** The header byte is all that is missing. */
  lemma WriteHeader(b: Blob, e: Entry)
    requires |b| == |BlobOf(e)| && b[1..] == BlobOf(e)[1..]
    ensures Splice(b, 0, [Header(e.op)]) == BlobOf(e)
    ensures b[0] == Header(e.op) ==> b == BlobOf(e)
  {
    hide Varint.Encode;
    Tail(e);
    assert BlobOf(e) == [BlobOf(e)[0]] + BlobOf(e)[1..];
    assert b == [b[0]] + b[1..];
  }

  lemma WriteTombstone(b: Blob, e: Entry)
    requires e.op.Delete? && |b| == |BlobOf(e)| && b[0] == TOMBSTONE_LOG_HEADER
    ensures var log, kv := Varint.Encode(LogSize(e)), Varint.Encode(|e.key|);
            Splice(Splice(Splice(b, 1, log), 1 + |log|, kv), 1 + |log| + |kv|, e.key) == BlobOf(e)
  {
    hide Varint.Encode, Splice;
    var log, kv := Varint.Encode(LogSize(e)), Varint.Encode(|e.key|);
    var head := Splice(Splice(Splice(b, 1, log), 1 + |log|, kv), 1 + |log| + |kv|, e.key);
    WriteHead(b, e);
    Tail(e);
    assert head[1..] == head[1..|head|];
    WriteHeader(head, e);
  }

  // ----------------------------------------------------------------- encoding

  /** The buffer is filled slice by slice behind a running offset. */
  method EncodeDataRecord(key: Blob, value: Blob) returns (r: Record)
    requires Encodable(Entry(key, Put(value)))
    ensures r == Fresh(Entry(key, Put(value)))
  {
    hide Varint.Encode, Splice, BlobOf, KeyAt, LogSize, HeadWritten;
    ghost var e := Entry(key, Put(value));
    KeySlice(e);
    var keyVarint, keyVarintLen := Varint.EncodeVarint(|key|);
    var valueVarint, valueVarintLen := Varint.EncodeVarint(|value|);
    var logSize := keyVarintLen + valueVarintLen + |key| + |value|;
    var logVarint, logVarintLen := Varint.EncodeVarint(logSize);
    var buffer := Zeros(logVarintLen + logSize + 1);
    buffer := buffer[0 := DATA_LOG_HEADER];
    WriteHead(buffer, e);
    var offset := 1;
    buffer := Splice(buffer, offset, logVarint[..logVarintLen]);
    offset := offset + logVarintLen;
    buffer := Splice(buffer, offset, keyVarint[..keyVarintLen]);
    offset := offset + keyVarintLen;
    var keyOffset := (offset, |key|);
    buffer := Splice(buffer, offset, key);
    offset := offset + |key|;
    WriteValue(buffer, e, offset);
    buffer := Splice(buffer, offset, valueVarint[..valueVarintLen]);
    offset := offset + valueVarintLen;
    var valueOffset := Some((offset, |value|));
    buffer := Splice(buffer, offset, value);
    WriteHeader(buffer, e);
    r := Record(buffer, keyOffset, valueOffset);
  }

  method EncodeTombstoneRecord(key: Blob) returns (r: Record)
    requires Encodable(Entry(key, Delete))
    ensures r == Fresh(Entry(key, Delete))
  {
    hide Varint.Encode, Splice, BlobOf, KeyAt, LogSize, HeadWritten;
    ghost var e := Entry(key, Delete);
    KeySlice(e);
    var keyVarint, keyVarintLen := Varint.EncodeVarint(|key|);
    var logSize := keyVarintLen + |key|;
    var logVarint, logVarintLen := Varint.EncodeVarint(logSize);
    var buffer := Zeros(logVarintLen + logSize + 1);
    buffer := buffer[0 := TOMBSTONE_LOG_HEADER];
    WriteTombstone(buffer, e);
    var offset := 1;
    buffer := Splice(buffer, offset, logVarint[..logVarintLen]);
    offset := offset + logVarintLen;
    buffer := Splice(buffer, offset, keyVarint[..keyVarintLen]);
    offset := offset + keyVarintLen;
    var keyOffset := (offset, |key|);
    buffer := Splice(buffer, offset, key);
    r := Record(buffer, keyOffset, None);
  }

  // ----------------------------------------------------------------- decoding

  datatype Decoded = Panicked | BadHeader | Decoded(record: Record, len: nat)

  /** The record at the head of `s`, read as nested fields. */
  function Parse(s: Blob): (r: Decoded)
    ensures r.Decoded? ==> 1 <= r.len <= |s| && r.record.blob == s[..r.len]
  {
    if s == [] then Panicked
    else if s[0] != DATA_LOG_HEADER && s[0] != TOMBSTONE_LOG_HEADER then BadHeader
    else match Varint.Decode(s[1..])
         case None => Panicked
         case Some((logSize, n)) => ParseBody(s, 1 + n, logSize)
  }

  /** The fields behind the log size, whose last byte is before `start`. */
  function ParseBody(s: Blob, start: nat, logSize: nat): (r: Decoded)
    requires 1 <= start <= |s|
    ensures r.Decoded? ==> 1 <= r.len <= |s| && r.record.blob == s[..r.len]
  {
    match Varint.Decode(s[start..])
    case None => Panicked
    case Some((keyLen, n)) =>
      var keyStart := start + n;
      var keyEnd := keyStart + keyLen;
      if keyEnd > |s| then Panicked
      else if s[0] == TOMBSTONE_LOG_HEADER then
        if logSize != keyEnd - start then Panicked
        else Decoded(Record(s[..keyEnd], (keyStart, keyLen), None), keyEnd)
      else ParseData(s, start, logSize, keyStart, keyLen)
  }

  /** The value behind the key. */
  function ParseData(s: Blob, start: nat, logSize: nat, keyStart: nat, keyLen: nat): (r: Decoded)
    requires 1 <= start <= keyStart && keyStart + keyLen <= |s|
    ensures r.Decoded? ==> 1 <= r.len <= |s| && r.record.blob == s[..r.len]
  {
    var keyEnd := keyStart + keyLen;
    match Varint.Decode(s[keyEnd..])
    case None => Panicked
    case Some((dataLen, m)) =>
      var end := keyEnd + m + dataLen;
      if end > |s| || logSize != end - start then Panicked
      else Decoded(Record(s[..end], (keyStart, keyLen), Some((keyEnd + m, dataLen))), end)
  }

  /** Suffixes of a suffix are suffixes. */
  lemma Suffix(buffer: Blob, from: nat, n: nat)
    requires from + n <= |buffer|
    ensures buffer[from..][n..] == buffer[from + n..]
  {
  }

  lemma Prefix(buffer: Blob, from: nat, n: nat)
    requires from + n <= |buffer|
    ensures buffer[from..][..n] == buffer[from..from + n]
  {
  }

  /** The two shapes of a record body, unfolded one field at a time. */
  lemma ParseLog(s: Blob)
    requires s != [] && (s[0] == DATA_LOG_HEADER || s[0] == TOMBSTONE_LOG_HEADER)
    ensures var log := Varint.Decode(s[1..]);
            Parse(s) == if log.None? then Panicked else ParseBody(s, 1 + log.value.1, log.value.0)
  {
  }

  lemma ParseKey(s: Blob, start: nat, logSize: nat)
    requires 1 <= start <= |s|
    ensures var key := Varint.Decode(s[start..]);
            ParseBody(s, start, logSize) ==
              if key.None? then Panicked
              else
                var keyStart, keyLen := start + key.value.1, key.value.0;
                if keyStart + keyLen > |s| then Panicked
                else if s[0] != TOMBSTONE_LOG_HEADER then ParseData(s, start, logSize, keyStart, keyLen)
                else if logSize != keyStart + keyLen - start then Panicked
                else Decoded(Record(s[..keyStart + keyLen], (keyStart, keyLen), None), keyStart + keyLen)
  {
  }

  /** The imperative decoder walks an offset through the buffer; it starts behind the header
      byte, which its caller has already read. */
  method DecodeInsertRecord(buffer: Blob, from: nat) returns (r: Decoded, offset: nat)
    requires 1 <= from <= |buffer| && buffer[from - 1] == DATA_LOG_HEADER
    ensures r == Parse(buffer[from - 1..])
    ensures r.Decoded? ==> offset == from - 1 + r.len
  {
    hide Varint.Decode, Parse, ParseBody;
    var startOffset := from - 1;
    offset := from;
    ghost var s := buffer[startOffset..];
    ParseLog(s);
    Suffix(buffer, startOffset, 1);
    var log := Varint.DecodeVarint(buffer, offset);
    if log.None? { return Panicked, offset; }
    offset := offset + log.value.1;
    var start := offset;

    Suffix(buffer, startOffset, offset - startOffset);
    ParseKey(s, start - startOffset, log.value.0);
    var keyLength := Varint.DecodeVarint(buffer, offset);
    if keyLength.None? { return Panicked, offset; }
    offset := offset + keyLength.value.1;
    var key := (offset - startOffset, keyLength.value.0);
    offset := offset + keyLength.value.0;
    if offset > |buffer| { return Panicked, offset; }

    Suffix(buffer, startOffset, offset - startOffset);
    var dataLen := Varint.DecodeVarint(buffer, offset);
    if dataLen.None? { return Panicked, offset; }
    offset := offset + dataLen.value.1;
    var value := Some((offset - startOffset, dataLen.value.0));
    offset := offset + dataLen.value.0;
    if log.value.0 != offset - start || offset > |buffer| { return Panicked, offset; }
    Prefix(buffer, startOffset, offset - startOffset);
    r := Decoded(Record(buffer[startOffset..offset], key, value), offset - startOffset);
  }

  method DecodeTombstoneRecord(buffer: Blob, from: nat) returns (r: Decoded, offset: nat)
    requires 1 <= from <= |buffer| && buffer[from - 1] == TOMBSTONE_LOG_HEADER
    ensures r == Parse(buffer[from - 1..])
    ensures r.Decoded? ==> offset == from - 1 + r.len
  {
    hide Varint.Decode, Parse, ParseBody;
    var startOffset := from - 1;
    offset := from;
    ghost var s := buffer[startOffset..];
    ParseLog(s);
    Suffix(buffer, startOffset, 1);
    var log := Varint.DecodeVarint(buffer, offset);
    if log.None? { return Panicked, offset; }
    offset := offset + log.value.1;
    var start := offset;

    Suffix(buffer, startOffset, offset - startOffset);
    ParseKey(s, start - startOffset, log.value.0);
    var keyLength := Varint.DecodeVarint(buffer, offset);
    if keyLength.None? { return Panicked, offset; }
    offset := offset + keyLength.value.1;
    var key := (offset - startOffset, keyLength.value.0);
    offset := offset + keyLength.value.0;
    if log.value.0 != offset - start || offset > |buffer| { return Panicked, offset; }
    Prefix(buffer, startOffset, offset - startOffset);
    r := Decoded(Record(buffer[startOffset..offset], key, None), offset - startOffset);
  }

  method DecodeDiskRecord(buffer: Blob, from: nat) returns (r: Decoded, offset: nat)
    ensures from <= |buffer| ==> r == Parse(buffer[from..])
    ensures from > |buffer| ==> r == Panicked
    ensures r.Decoded? ==> offset == from + r.len
  {
    if from >= |buffer| { return Panicked, from; }
    var header := buffer[from];
    if header == DATA_LOG_HEADER {
      r, offset := DecodeInsertRecord(buffer, from + 1);
    } else if header == TOMBSTONE_LOG_HEADER {
      r, offset := DecodeTombstoneRecord(buffer, from + 1);
    } else {
      r, offset := BadHeader, from + 1;
    }
  }

  /** Only the first byte makes a bad header, and what decodes is as long as its log size says: the
      key lies inside it and a value, if it has one, ends it. */
  lemma DecodedShape(s: Blob)
    ensures Parse(s) == BadHeader <==> s != [] && s[0] > 0x01
    ensures Parse(s).Decoded? ==>
              var r, log := Parse(s).record, Varint.Decode(s[1..]);
              && log.Some? && Parse(s).len == 1 + log.value.1 + log.value.0
              && r.key.0 + r.key.1 <= Parse(s).len && r.key.0 > 1 + log.value.1
              && (s[0] == 0x01 ==> r.value == None && r.key.0 + r.key.1 == Parse(s).len)
              && (s[0] == 0x00 ==> r.value.Some? && r.value.value.0 + r.value.value.1 == Parse(s).len)
  {
    hide Varint.Decode;
  }

  lemma ParseBodyFresh(e: Entry, tail: Blob)
    requires Encodable(e)
    ensures ParseBody(BlobOf(e) + tail, 1 + |Varint.Encode(LogSize(e))|, LogSize(e))
         == Decoded(Fresh(e), |BlobOf(e)|)
  {
    hide Varint.Encode, Varint.Decode;
    var b := BlobOf(e);
    var s := b + tail;
    var start := 1 + |Varint.Encode(LogSize(e))|;
    var key := Varint.Encode(|e.key|);
    assert s[0] == Header(e.op);
    assert s[start..] == key + (e.key + ValuePart(e) + tail);
    Varint.RoundTrip(|e.key|, e.key + ValuePart(e) + tail);
    var keyEnd := start + |key| + |e.key|;
    assert s[..|b|] == b;
    if e.op.Put? {
      var data := Varint.Encode(|e.op.value|);
      assert s[keyEnd..] == data + (e.op.value + tail);
      Varint.RoundTrip(|e.op.value|, e.op.value + tail);
    }
  }

  /** One record, whatever follows it, decodes to the record that was encoded. */
  lemma ParseFresh(e: Entry, tail: Blob)
    requires Encodable(e)
    ensures Parse(BlobOf(e) + tail) == Decoded(Fresh(e), |BlobOf(e)|)
  {
    hide Varint.Encode, Varint.Decode;
    var s := BlobOf(e) + tail;
    assert s[0] == Header(e.op);
    assert s[1..] == Varint.Encode(LogSize(e)) + (KeyPart(e) + ValuePart(e) + tail);
    Varint.RoundTrip(LogSize(e), KeyPart(e) + ValuePart(e) + tail);
    ParseBodyFresh(e, tail);
  }

  /** A record cut short panics the decoder, wherever it is cut. */
  lemma TornRecord(e: Entry, n: nat)
    requires Encodable(e) && 0 < n < |BlobOf(e)|
    ensures Parse(BlobOf(e)[..n]) == Panicked
  {
    hide Varint.Encode, Varint.Decode;
    var s, log := BlobOf(e)[..n], Varint.Encode(LogSize(e));
    Tail(e);
    assert s[0] == Header(e.op);
    var body := KeyPart(e) + ValuePart(e);
    assert BlobOf(e)[1..] == log + body;
    assert s[1..] == (log + body)[..n - 1];
    TakeOf(log, body, n - 1);
    if n < 1 + |log| {
      Varint.EncodePrefix(LogSize(e), n - 1);
    } else {
      Varint.RoundTrip(LogSize(e), body[..n - 1 - |log|]);
      TornBody(e, n);
    }
  }

  lemma TakeOf<T>(a: seq<T>, b: seq<T>, n: nat)
    requires n <= |a| + |b|
    ensures (a + b)[..n] == if n <= |a| then a[..n] else a + b[..n - |a|]
    ensures n >= |a| ==> (a + b)[..n] == a + b[..n - |a|]
  {
  }

  lemma TornBody(e: Entry, n: nat)
    requires Encodable(e) && 1 + |Varint.Encode(LogSize(e))| <= n < |BlobOf(e)|
    ensures ParseBody(BlobOf(e)[..n], 1 + |Varint.Encode(LogSize(e))|, LogSize(e)) == Panicked
  {
    hide Varint.Encode, Varint.Decode;
    var s, start, kv := BlobOf(e)[..n], 1 + |Varint.Encode(LogSize(e))|, Varint.Encode(|e.key|);
    Tail(e);
    assert s[0] == Header(e.op);
    var body := KeyPart(e) + ValuePart(e);
    assert s[start..] == body[..n - start];
    assert body == kv + (e.key + ValuePart(e));
    TakeOf(kv, e.key + ValuePart(e), n - start);
    if n < start + |kv| {
      Varint.EncodePrefix(|e.key|, n - start);
    } else {
      Varint.RoundTrip(|e.key|, (e.key + ValuePart(e))[..n - start - |kv|]);
      var keyEnd := start + |kv| + |e.key|;
      if keyEnd <= n && e.op.Put? {
        TornValue(e, s, keyEnd, n);
      }
    }
  }

  lemma TornValue(e: Entry, s: Blob, keyEnd: nat, n: nat)
    requires Encodable(e) && e.op.Put? && keyEnd == KeyAt(e).0 + |e.key| <= n < |BlobOf(e)| && s == BlobOf(e)[..n]
    ensures var r := Varint.Decode(s[keyEnd..]);
            r.Some? ==> r.value.0 == |e.op.value| && keyEnd + r.value.1 + r.value.0 > n
  {
    hide Varint.Encode, Varint.Decode;
    var vv := Varint.Encode(|e.op.value|);
    Layout(e);
    assert s[keyEnd..] == (vv + e.op.value)[..n - keyEnd];
    TakeOf(vv, e.op.value, n - keyEnd);
    if n < keyEnd + |vv| {
      Varint.EncodePrefix(|e.op.value|, n - keyEnd);
    } else {
      Varint.RoundTrip(|e.op.value|, e.op.value[..n - keyEnd - |vv|]);
    }
  }

  // ------------------------------------------------------------------ streams

  ghost predicate AllEncodable(es: seq<Entry>)
  {
    forall i :: 0 <= i < |es| ==> Encodable(es[i])
  }

  /** Records packed one behind the other, as in the log and the data region. */
  function Stream(es: seq<Entry>): (r: Blob)
  {
    if es == [] then [] else BlobOf(es[0]) + Stream(es[1..])
  }

  lemma EmptyStream()
    ensures Stream([]) == []
  {
  }

  lemma {:induction false} StreamAppend(es: seq<Entry>, fs: seq<Entry>)
    ensures Stream(es + fs) == Stream(es) + Stream(fs)
  {
    if es == [] {
      assert es + fs == fs;
    } else {
      assert (es + fs)[1..] == es[1..] + fs;
      StreamAppend(es[1..], fs);
    }
  }

  lemma StreamSnoc(es: seq<Entry>, e: Entry)
    ensures Stream(es + [e]) == Stream(es) + BlobOf(e)
  {
    StreamAppend(es, [e]);
    assert Stream([e]) == BlobOf(e) + Stream([]);
  }

  /** A cursor over a loaded region: the log iterator and the SSTable iterator. */
  datatype Cursor = Cursor(buffer: Blob, offset: nat)

  /** `Iterator::next`: the record, or the end, or a panic. */
  datatype Item = Yield(record: Record, rest: Cursor) | End | Abort

  function Next(c: Cursor): (r: Item)
  {
    if c.offset >= |c.buffer| then End
    else match Parse(c.buffer[c.offset..])
         case Panicked => Abort
         case BadHeader => End
         case Decoded(record, len) => Yield(record, Cursor(c.buffer, c.offset + len))
  }

  ghost predicate Holds(c: Cursor, es: seq<Entry>)
  {
    c.offset <= |c.buffer| && c.buffer[c.offset..] == Stream(es) && AllEncodable(es)
  }

  /** A cursor over a stream yields its records in order, each equal to a fresh encoding,
      and ends exactly at the end of the buffer. */
  lemma NextInStream(c: Cursor, es: seq<Entry>)
    requires Holds(c, es)
    ensures es == [] ==> Next(c) == End && c.offset == |c.buffer|
    ensures es != [] ==>
              && Next(c).Yield?
              && Next(c).record == Fresh(es[0])
              && Holds(Next(c).rest, es[1..])
              && Next(c).rest.buffer == c.buffer
  {
    hide BlobOf, Fresh, Encodable, Parse;
    if es != [] {
      ParseFresh(es[0], Stream(es[1..]));
      var n := |BlobOf(es[0])|;
      assert c.buffer[c.offset + n..] == c.buffer[c.offset..][n..];
      assert c.buffer[c.offset..][n..] == Stream(es[1..]);
    }
  }

  /** A stream has one reading: two lists of entries with the same bytes are the same list. */
  lemma {:induction false} StreamInjective(es: seq<Entry>, fs: seq<Entry>)
    requires AllEncodable(es) && AllEncodable(fs)
    requires Stream(es) == Stream(fs)
    ensures es == fs
    decreases |es|
  {
    hide Stream, Encodable;
    StreamEmpty(es);
    StreamEmpty(fs);
    if es != [] {
      SameHead(es, fs);
      StreamInjective(es[1..], fs[1..]);
      assert es == [es[0]] + es[1..] && fs == [fs[0]] + fs[1..];
    }
  }

  lemma StreamEmpty(es: seq<Entry>)
    ensures Stream(es) == [] <==> es == []
  {
  }

  lemma SameHead(es: seq<Entry>, fs: seq<Entry>)
    requires AllEncodable(es) && AllEncodable(fs) && es != [] && fs != []
    requires Stream(es) == Stream(fs)
    ensures es[0] == fs[0] && Stream(es[1..]) == Stream(fs[1..])
  {
    hide BlobOf, KeyAt, ValueAt, Parse, ReadValue, KeyOf;
    ParseFresh(es[0], Stream(es[1..]));
    ParseFresh(fs[0], Stream(fs[1..]));
    FreshReads(es[0]);
    FreshReads(fs[0]);
    assert Fresh(es[0]) == Fresh(fs[0]);
    var n := |BlobOf(es[0])|;
    assert Stream(es)[n..] == Stream(es[1..]);
    assert Stream(fs)[n..] == Stream(fs[1..]);
  }

  /** What a read at an offset finds in records followed by something else. */
  lemma StreamStep(file: Blob, offset: nat, es: seq<Entry>, k: nat, rest: Blob)
    requires offset <= |file| && k <= |es| && file[offset..] == Stream(es[k..]) + rest && AllEncodable(es)
    ensures k == |es| ==> file[offset..] == rest
    ensures k < |es| ==>
              && Parse(file[offset..]) == Decoded(Fresh(es[k]), |BlobOf(es[k])|) && Encodable(es[k])
              && offset + |BlobOf(es[k])| <= |file|
              && file[offset + |BlobOf(es[k])|..] == Stream(es[k + 1..]) + rest
              && es[..k + 1] == es[..k] + [es[k]]
  {
    hide BlobOf, Parse, Encodable, Fresh;
    if k < |es| {
      var b, tail := BlobOf(es[k]), Stream(es[k + 1..]) + rest;
      assert es[k..][0] == es[k] && es[k..][1..] == es[k + 1..];
      assert file[offset..] == b + tail;
      ParseFresh(es[k], tail);
      assert file[offset + |b|..] == file[offset..][|b|..];
    }
  }

  lemma StreamEnd(file: Blob, offset: nat, es: seq<Entry>, k: nat, rest: Blob)
    requires offset <= |file| && k <= |es| && file[offset..] == Stream(es[k..]) + rest
    ensures offset == |file| ==> k == |es| && rest == []
    ensures k == |es| ==> es[..k] == es
  {
    hide Stream;
    StreamEmpty(es[k..]);
  }

  /** All records that a cursor yields, and whether it ends rather than panics. */
  function DrainFrom(c: Cursor): (r: (seq<Record>, bool))
    decreases |c.buffer| - c.offset
  {
    match Next(c)
    case End => ([], true)
    case Abort => ([], false)
    case Yield(record, rest) =>
      var (records, clean) := DrainFrom(rest);
      ([record] + records, clean)
  }

  /** Draining an iterator over any buffer, as the log replay does. */
  method Drain(buffer: Blob) returns (records: seq<Record>, clean: bool)
    ensures (records, clean) == DrainFrom(Cursor(buffer, 0))
  {
    hide Parse;
    records, clean := [], true;
    var offset := 0;
    ghost var all := DrainFrom(Cursor(buffer, 0));
    while offset < |buffer|
      invariant all.0 == records + DrainFrom(Cursor(buffer, offset)).0
      invariant all.1 == DrainFrom(Cursor(buffer, offset)).1 && clean
      decreases |buffer| - offset
    {
      var r, next := DecodeDiskRecord(buffer, offset);
      assert records + [] == records;
      if r.BadHeader? { return; }
      if r.Panicked? { return records, false; }
      assert DrainFrom(Cursor(buffer, offset)).0 == [r.record] + DrainFrom(Cursor(buffer, next)).0;
      records := records + [r.record];
      offset := next;
    }
    assert records + [] == records;
  }

  /** Over records followed by something that is none it yields exactly the records, each as it was
      encoded, and panics exactly when what follows is a record cut short. */
  lemma {:induction false} DrainStream(file: Blob, offset: nat, es: seq<Entry>, rest: Blob)
    requires offset <= |file| && file[offset..] == Stream(es) + rest && AllEncodable(es) && !Parse(rest).Decoded?
    ensures var (records, clean) := DrainFrom(Cursor(file, offset));
            && |records| == |es| && (forall i :: 0 <= i < |es| ==> records[i] == Fresh(es[i]))
            && (clean <==> rest == [] || Parse(rest).BadHeader?)
    decreases |es|
  {
    hide Parse, BlobOf, Stream, Encodable, Fresh;
    assert es[0..] == es;
    StreamStep(file, offset, es, 0, rest);
    if es == [] {
      StreamEnd(file, offset, es, 0, rest);
    } else {
      DrainStream(file, offset + |BlobOf(es[0])|, es[1..], rest);
    }
  }
}
