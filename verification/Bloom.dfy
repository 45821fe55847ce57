/** The bloom filter of an SSTable (src/sstable/bloom_filter.rs), for arbitrary hash functions
    and any number of probes. */
module BloomFilters {
  import opened Bytes
  import Varint

  /** The two 64-bit hashes of a key. */
  datatype Hashes = Hashes(h1: Blob -> nat, h2: Blob -> nat)

  // ------------------------------------------------------------ bits of a word

  predicate Bit(w: nat, b: nat)
  {
    if b == 0 then w % 2 == 1 else Bit(w / 2, b - 1)
  }

  /** Bit `b` has the weight 2^b. */
  lemma {:induction false} BitExact(w: nat, b: nat)
    ensures Bit(w, b) <==> (w / Pow2(b)) % 2 == 1
    decreases b
  {
    if b > 0 {
      BitExact(w / 2, b - 1);
      NestedDivision(w, 2, Pow2(b - 1));
    }
  }

  /** `w | (1 << b)`. */
  function SetBit(w: nat, b: nat): (r: nat)
  {
    if b == 0 then (if w % 2 == 1 then w else w + 1) else 2 * SetBit(w / 2, b - 1) + w % 2
  }

  lemma {:induction false} SetBitExact(w: nat, b: nat, c: nat)
    ensures Bit(SetBit(w, b), c) <==> b == c || Bit(w, c)
    decreases b
  {
    if b == 0 {
      assert SetBit(w, 0) / 2 == w / 2;
    } else {
      var r := SetBit(w, b);
      assert r / 2 == SetBit(w / 2, b - 1) && r % 2 == w % 2;
      if c > 0 {
        SetBitExact(w / 2, b - 1, c - 1);
      }
    }
  }

  lemma {:induction false} SetBitBound(w: nat, b: nat, n: nat)
    requires w < Pow2(n) && b < n
    ensures SetBit(w, b) < Pow2(n)
    decreases b
  {
    assert Pow2(n) == 2 * Pow2(n - 1);
    if b > 0 {
      var half := Pow2(n - 1);
      SetBitBound(w / 2, b - 1, n - 1);
      hide Pow2, SetBit;
      assert SetBit(w / 2, b - 1) < half;
      SetBitStep(w, b);
    }
  }

  lemma SetBitStep(w: nat, b: nat)
    requires b > 0
    ensures SetBit(w, b) <= 2 * SetBit(w / 2, b - 1) + 1
  {
  }

  lemma Pow2Word()
    ensures Pow2(64) == U64_LIMIT
  {
    assert Pow2(8) == 256;
    assert Pow2(16) == 0x1_0000;
    assert Pow2(24) == 0x100_0000;
    assert Pow2(32) == U32_LIMIT;
    assert Pow2(40) == 0x100_0000_0000;
    assert Pow2(48) == 0x1_0000_0000_0000;
    assert Pow2(56) == 0x100_0000_0000_0000;
  }

  // -------------------------------------------------------------------- probes

  ghost predicate Words(bits: seq<nat>)
  {
    |bits| >= 1 && forall i :: 0 <= i < |bits| ==> bits[i] < U64_LIMIT
  }

  /** `h1.wrapping_add(i.wrapping_mul(h2)) % num_bits`. */
  function Probe(h: Hashes, key: Blob, i: nat, numBits: nat): (r: nat)
    requires numBits > 0
    ensures r < numBits
  {
    ((h.h1(key) + (i * h.h2(key)) % U64_LIMIT) % U64_LIMIT) % numBits
  }

  predicate BitAt(bits: seq<nat>, idx: nat)
    requires idx < 64 * |bits|
  {
    Bit(bits[idx / 64], idx % 64)
  }

  /** Bits are numbered through the words, from the lowest of each. */
  lemma BitAtExact(bits: seq<nat>, idx: nat)
    requires idx < 64 * |bits|
    ensures BitAt(bits, idx) <==> (bits[idx / 64] / Pow2(idx % 64)) % 2 == 1
  {
    BitExact(bits[idx / 64], idx % 64);
  }

  function SetAt(bits: seq<nat>, idx: nat): (r: seq<nat>)
    requires idx < 64 * |bits|
    ensures |r| == |bits|
  {
    bits[idx / 64 := SetBit(bits[idx / 64], idx % 64)]
  }

  lemma SetAtExact(bits: seq<nat>, idx: nat, j: nat)
    requires idx < 64 * |bits| && j < 64 * |bits|
    ensures BitAt(SetAt(bits, idx), j) <==> j == idx || BitAt(bits, j)
  {
    if j / 64 == idx / 64 {
      SetBitExact(bits[idx / 64], idx % 64, j % 64);
    }
  }

  lemma SetAtWords(bits: seq<nat>, idx: nat)
    requires Words(bits) && idx < 64 * |bits|
    ensures Words(SetAt(bits, idx))
  {
    Pow2Word();
    SetBitBound(bits[idx / 64], idx % 64, 64);
  }

  /** The wrapping arithmetic is double hashing: `h1 + i * h2` modulo 2^64, then modulo the bits. */
  lemma ProbeExact(h: Hashes, key: Blob, i: nat, numBits: nat)
    requires numBits > 0
    ensures Probe(h, key, i, numBits) == (h.h1(key) + i * h.h2(key)) % U64_LIMIT % numBits
  {
    WrapInside(h.h1(key), i * h.h2(key));
  }

  lemma WrapInside(a: nat, b: nat)
    ensures (a + b % U64_LIMIT) % U64_LIMIT == (a + b) % U64_LIMIT
  {
    var q := b / U64_LIMIT;
    assert a + b == a + b % U64_LIMIT + q * U64_LIMIT;
  }

  // -------------------------------------------------------- the bits of a filter

  /** One of the first `n` probes of some of the keys falls on the bit. */
  ghost predicate Hit(h: Hashes, keys: set<Blob>, n: nat, j: nat, numBits: nat)
    requires numBits > 0
  {
    exists k, i: nat :: k in keys && i < n && Probe(h, k, i, numBits) == j
  }

  /** The set bits are exactly those that a probe of the keys falls on. */
  ghost predicate Filled(bits: seq<nat>, h: Hashes, keys: set<Blob>, n: nat)
    requires |bits| >= 1
  {
    forall j: nat :: j < 64 * |bits| ==> (BitAt(bits, j) <==> Hit(h, keys, n, j, 64 * |bits|))
  }

  /** In the middle of an insertion: the bits of before, and those of the key's first probes. */
  ghost predicate Adding(bits: seq<nat>, before: seq<nat>, h: Hashes, key: Blob, n: nat)
  {
    && |bits| == |before| >= 1
    && forall j: nat :: j < 64 * |bits| ==>
         (BitAt(bits, j) <==> BitAt(before, j) || Hit(h, {key}, n, j, 64 * |bits|))
  }

  lemma NothingAdded(bits: seq<nat>, h: Hashes, key: Blob)
    requires |bits| >= 1
    ensures Adding(bits, bits, h, key, 0)
  {
  }

  lemma AddProbe(bits: seq<nat>, before: seq<nat>, h: Hashes, key: Blob, n: nat)
    requires Adding(bits, before, h, key, n)
    ensures Adding(SetAt(bits, Probe(h, key, n, 64 * |bits|)), before, h, key, n + 1)
  {
    hide BitAt, SetAt, Probe;
    var idx := Probe(h, key, n, 64 * |bits|);
    forall j: nat | j < 64 * |bits|
      ensures BitAt(SetAt(bits, idx), j) <==> BitAt(before, j) || Hit(h, {key}, n + 1, j, 64 * |bits|)
    {
      SetAtExact(bits, idx, j);
      HitStep(h, key, n, j, 64 * |bits|);
    }
  }

  lemma HitStep(h: Hashes, key: Blob, n: nat, j: nat, numBits: nat)
    requires numBits > 0
    ensures Hit(h, {key}, n + 1, j, numBits) <==> Hit(h, {key}, n, j, numBits) || Probe(h, key, n, numBits) == j
  {
    hide Probe;
    assert key in {key};
    if Hit(h, {key}, n + 1, j, numBits) {
      var k, i: nat :| k in {key} && i < n + 1 && Probe(h, k, i, numBits) == j;
      assert k == key && (i == n || i < n);
    }
  }

  lemma Added(bits: seq<nat>, before: seq<nat>, h: Hashes, keys: set<Blob>, key: Blob, n: nat)
    requires Adding(bits, before, h, key, n) && Filled(before, h, keys, n)
    ensures Filled(bits, h, keys + {key}, n)
  {
    hide BitAt, Probe;
    forall j: nat | j < 64 * |bits|
      ensures BitAt(bits, j) <==> Hit(h, keys + {key}, n, j, 64 * |bits|)
    {
      HitUnion(h, keys, {key}, n, j, 64 * |bits|);
    }
  }

  lemma HitUnion(h: Hashes, keys: set<Blob>, more: set<Blob>, n: nat, j: nat, numBits: nat)
    requires numBits > 0
    ensures Hit(h, keys + more, n, j, numBits) <==> Hit(h, keys, n, j, numBits) || Hit(h, more, n, j, numBits)
  {
    hide Probe;
  }

  lemma {:induction false} NoBit(b: nat)
    ensures !Bit(0, b)
  {
    if b > 0 {
      NoBit(b - 1);
    }
  }

  /** Zero words have no bit set. */
  lemma ClearWords(bits: seq<nat>, h: Hashes, n: nat)
    requires |bits| >= 1 && forall i :: 0 <= i < |bits| ==> bits[i] == 0
    ensures Filled(bits, h, {}, n)
  {
    forall j: nat | j < 64 * |bits|
      ensures !BitAt(bits, j)
    {
      NoBit(j % 64);
    }
  }

  class BloomFilter {
    var bits: seq<nat>
    var numHashes: nat
    ghost var keys: set<Blob>   // every key inserted so far

    /** A bit is set exactly when a probe of an inserted key falls on it. */
    ghost predicate Valid(h: Hashes)
      reads this
    {
      && Words(bits) && 1 <= numHashes < U64_LIMIT
      && Filled(bits, h, keys, numHashes)
    }

    constructor (size: nat, hashes: nat, ghost h: Hashes)
      requires 1 <= hashes < U64_LIMIT
      ensures Valid(h) && keys == {} && numHashes == hashes
      ensures |bits| == (size * 10 + 63 + 63) / 64
    {
      var numWords := (size * 10 + 63 + 63) / 64;
      bits := seq(numWords, _ => 0);
      numHashes := hashes;
      keys := {};
      ClearWords(seq(numWords, _ => 0), h, hashes);
    }

    /** A filter read back from disk. */
    constructor FromParts(words: seq<nat>, hashes: nat, ghost h: Hashes, ghost known: set<Blob>)
      requires Words(words) && 1 <= hashes < U64_LIMIT && Filled(words, h, known, hashes)
      ensures Valid(h) && bits == words && numHashes == hashes && keys == known
    {
      bits, numHashes, keys := words, hashes, known;
    }

    /** All probes of the key are set, and no other bit changes. */
    method Insert(key: Blob, h: Hashes)
      requires Valid(h)
      modifies this
      ensures Valid(h) && keys == old(keys) + {key}
      ensures |bits| == old(|bits|) && numHashes == old(numHashes)
    {
      hide Filled, Adding, SetAt, BitAt, Probe;
      NothingAdded(bits, h, key);
      for i := 0 to numHashes
        invariant Words(bits) && |bits| == old(|bits|) && numHashes == old(numHashes) && keys == old(keys)
        invariant Adding(bits, old(bits), h, key, i)
      {
        var idx := Probe(h, key, i, 64 * |bits|);
        SetAtWords(bits, idx);
        AddProbe(bits, old(bits), h, key, i);
        bits := SetAt(bits, idx);
      }
      Added(bits, old(bits), h, keys, key, numHashes);
      keys := keys + {key};
    }

    /** False exactly when some probe of the key is no probe of an inserted key. So there are no
        false negatives, and an empty filter reports nothing. */
    method Contains(key: Blob, h: Hashes) returns (r: bool)
      requires Valid(h)
      ensures r <==>
                forall i: nat :: i < numHashes ==>
                  Hit(h, keys, numHashes, Probe(h, key, i, 64 * |bits|), 64 * |bits|)
      ensures key in keys ==> r
      ensures keys == {} ==> !r
    {
      hide Probe, BitAt;
      for i := 0 to numHashes
        invariant forall l: nat :: l < i ==> Hit(h, keys, numHashes, Probe(h, key, l, 64 * |bits|), 64 * |bits|)
      {
        var idx := Probe(h, key, i, 64 * |bits|);
        if !BitAt(bits, idx) {
          return false;
        }
      }
      assert Hit(h, keys, numHashes, Probe(h, key, 0, 64 * |bits|), 64 * |bits|);
      r := true;
    }
  }

  // ------------------------------------------------------------- serialization

  function WordsBytes(bits: seq<nat>): (r: Blob)
    ensures |r| == 8 * |bits|
  {
    if bits == [] then [] else BeBytes(bits[0], 8) + WordsBytes(bits[1..])
  }

  function FilterBytes(bits: seq<nat>, hashes: nat): (r: Blob)
  {
    Varint.Encode(|bits|) + WordsBytes(bits) + BeBytes(hashes, 8)
  }

  /** The bytes of a filter of one small word. */
  lemma OneWordFilter(w: Byte, hashes: Byte)
    ensures FilterBytes([w], hashes) == [1, 0, 0, 0, 0, 0, 0, 0, w, 0, 0, 0, 0, 0, 0, 0, hashes]
  {
    EightBytes(0, w);
    EightBytes(0, hashes);
    assert [w][1..] == [];
    hide BeBytes;
    assert WordsBytes([w]) == [0, 0, 0, 0, 0, 0, 0, w];
  }

  function ReadWords(s: Blob, count: nat): (r: Option<(seq<nat>, Blob)>)
    decreases count
  {
    if count == 0 then Some(([], s))
    else if |s| < 8 then None
    else match ReadWords(s[8..], count - 1)
         case None => None
         case Some((ws, rest)) => Some(([FromBe(s[..8])] + ws, rest))
  }

  /** Words and number of hashes; None is an index past the buffer. */
  function ReadFilter(s: Blob): (r: Option<(seq<nat>, nat)>)
  {
    match Varint.Decode(s)
    case None => None
    case Some((count, n)) =>
      match ReadWords(s[n..], count)
      case None => None
      case Some((ws, rest)) => if |rest| < 8 then None else Some((ws, FromBe(rest[..8])))
  }

  lemma WordField(w: nat, more: Blob, tail: Blob)
    requires w < U64_LIMIT
    ensures var s := BeBytes(w, 8) + more + tail;
            FromBe(s[..8]) == w && s[8..] == more + tail
  {
    hide BeBytes, FromBe;
    var s := BeBytes(w, 8) + more + tail;
    Pow256Widths();
    BeRoundTrip(w, 8);
    assert s[..8] == BeBytes(w, 8);
    assert s[8..] == more + tail;
  }

  lemma {:induction false} WordsRoundTrip(bits: seq<nat>, tail: Blob)
    requires forall i :: 0 <= i < |bits| ==> bits[i] < U64_LIMIT
    ensures ReadWords(WordsBytes(bits) + tail, |bits|) == Some((bits, tail))
  {
    if bits == [] {
      assert WordsBytes(bits) + tail == tail;
    } else {
      hide BeBytes, FromBe;
      WordsRoundTrip(bits[1..], tail);
      WordField(bits[0], WordsBytes(bits[1..]), tail);
      assert bits == [bits[0]] + bits[1..];
    }
  }

  /** A filter read back is the filter that was written. */
  lemma FilterRoundTrip(bits: seq<nat>, hashes: nat)
    requires Words(bits) && |bits| < U64_LIMIT && hashes < U64_LIMIT
    ensures ReadFilter(FilterBytes(bits, hashes)) == Some((bits, hashes))
  {
    hide BeBytes, FromBe, Varint.Encode, Varint.Decode, WordsBytes, ReadWords;
    var s, v := FilterBytes(bits, hashes), Varint.Encode(|bits|);
    assert s == v + (WordsBytes(bits) + BeBytes(hashes, 8));
    Varint.RoundTrip(|bits|, WordsBytes(bits) + BeBytes(hashes, 8));
    assert s[|v|..] == WordsBytes(bits) + BeBytes(hashes, 8);
    WordsRoundTrip(bits, BeBytes(hashes, 8));
    Pow256Widths();
    BeRoundTrip(hashes, 8);
    assert BeBytes(hashes, 8)[..8] == BeBytes(hashes, 8);
  }

  lemma {:induction false} WordsSnoc(bits: seq<nat>, w: nat)
    ensures WordsBytes(bits + [w]) == WordsBytes(bits) + BeBytes(w, 8)
  {
    hide BeBytes;
    if bits == [] {
      assert [] + [w] == [w];
      assert WordsBytes([w][1..]) == [];
    } else {
      assert (bits + [w])[1..] == bits[1..] + [w];
      WordsSnoc(bits[1..], w);
    }
  }

  method Serialize(bits: seq<nat>, hashes: nat) returns (buffer: Blob)
    requires |bits| < U64_LIMIT
    ensures buffer == FilterBytes(bits, hashes)
  {
    hide Splice, BeBytes, WordsBytes, Varint.Encode;
    var varint, varintSize := Varint.EncodeVarint(|bits|);
    ghost var v := Varint.Encode(|bits|);
    ghost var empty := Zeros(varintSize + 8 * (|bits| + 1));
    buffer := Zeros(varintSize + 8 * (|bits| + 1));
    buffer := Splice(buffer, 0, varint[..varintSize]);
    var offset := varintSize;
    assert bits[..0] == [] && v + WordsBytes(bits[..0]) == v;
    for i := 0 to |bits|
      invariant offset == varintSize + 8 * i
      invariant buffer == Splice(empty, 0, v + WordsBytes(bits[..i]))
    {
      assert bits[..i + 1] == bits[..i] + [bits[i]];
      WordsSnoc(bits[..i], bits[i]);
      WriteTwo(empty, 0, v + WordsBytes(bits[..i]), BeBytes(bits[i], 8));
      assert v + WordsBytes(bits[..i]) + BeBytes(bits[i], 8) == v + WordsBytes(bits[..i + 1]);
      buffer := Splice(buffer, offset, BeBytes(bits[i], 8));
      offset := offset + 8;
    }
    assert bits[..|bits|] == bits;
    WriteTwo(empty, 0, v + WordsBytes(bits), BeBytes(hashes, 8));
    buffer := Splice(buffer, offset, BeBytes(hashes, 8));
    WriteAll(empty, FilterBytes(bits, hashes));
  }

  method FromBytes(buffer: Blob) returns (r: Option<(seq<nat>, nat)>)
    ensures r == ReadFilter(buffer)
  {
    hide FromBe, Varint.Decode;
    assert buffer[0..] == buffer;
    var count := Varint.DecodeVarint(buffer, 0);
    if count.None? { return None; }
    var (numWords, walked) := count.value;
    var offset := walked;
    var bits: seq<nat> := [];
    ghost var all := ReadWords(buffer[walked..], numWords);
    for i := 0 to numWords
      invariant walked <= offset <= |buffer|
      invariant AheadWords(all, bits, ReadWords(buffer[offset..], numWords - i))
    {
      if |buffer| < offset + 8 { return None; }
      ghost var t := buffer[offset..];
      assert buffer[offset..offset + 8] == t[..8] && buffer[offset + 8..] == t[8..];
      var word := FromBe(buffer[offset..offset + 8]);
      AheadWordsStep(all, bits, word, t, numWords - i);
      bits := bits + [word];
      offset := offset + 8;
    }
    assert bits + [] == bits;
    if |buffer| < offset + 8 { return None; }
    assert buffer[offset..offset + 8] == buffer[offset..][..8];
    r := Some((bits, FromBe(buffer[offset..offset + 8])));
  }

  ghost predicate AheadWords(all: Option<(seq<nat>, Blob)>, done: seq<nat>, ahead: Option<(seq<nat>, Blob)>)
  {
    && (all.None? <==> ahead.None?)
    && (all.Some? ==> all.value.0 == done + ahead.value.0 && all.value.1 == ahead.value.1)
  }

  lemma AheadWordsStep(all: Option<(seq<nat>, Blob)>, done: seq<nat>, w: nat, t: Blob, count: nat)
    requires count > 0 && |t| >= 8 && w == FromBe(t[..8])
    requires AheadWords(all, done, ReadWords(t, count))
    ensures AheadWords(all, done + [w], ReadWords(t[8..], count - 1))
  {
    hide FromBe;
    if all.Some? {
      var ws := ReadWords(t[8..], count - 1).value.0;
      assert done + ([w] + ws) == done + [w] + ws;
    }
  }
}
