/** Unsigned LEB128 lengths (src/util/mod.rs). A result of None is a panic of the source:
    an index past the buffer, a shift by 64 or more, or a failed debug assertion. */
module Varint {
  import opened Bytes

  function Pow128(k: nat): (p: nat)
    ensures p >= 1
  {
    if k == 0 then 1 else 128 * Pow128(k - 1)
  }

  /** The LEB128 bytes of `v`: seven bits a byte, least significant first, the high bit
      of every byte but the last set. */
  function Encode(v: nat): (r: Blob)
    ensures |r| >= 1
  {
    if v < 128 then [v] else [128 + v % 128] + Encode(v / 128)
  }

  /** Value and length of the LEB128 number at the head of `s`, over unbounded integers. */
  function Leb128(s: Blob): (r: Option<(nat, nat)>)
    ensures r.Some? ==> 1 <= r.value.1 <= |s|
  {
    if s == [] then None
    else if s[0] < 128 then Some((s[0], 1))
    else match Leb128(s[1..])
         case None => None
         case Some((v, n)) => Some((s[0] - 128 + 128 * v, n + 1))
  }

  /** What decoding at an offset of a buffer yields: at most ten bytes, value modulo 2^64. */
  function Decode(s: Blob): (r: Option<(nat, nat)>)
    ensures r.Some? ==> 1 <= r.value.1 <= |s|
  {
    match Leb128(s)
    case None => None
    case Some((v, n)) => if n <= 10 then Some((v % U64_LIMIT, n)) else None
  }

  // ------------------------------------------------------------------ lengths

  lemma {:induction false} EncodeLength(v: nat, k: nat)
    requires k >= 1
    ensures |Encode(v)| <= k <==> v < Pow128(k)
  {
    if k == 1 {
      assert Pow128(1) == 128;
    } else if v >= 128 {
      EncodeLength(v / 128, k - 1);
      assert Pow128(k) == 128 * Pow128(k - 1);
    } else {
      assert Pow128(k) == 128 * Pow128(k - 1);
    }
  }

  lemma EncodeMonotone(v: nat, w: nat)
    requires v <= w
    ensures |Encode(v)| <= |Encode(w)|
  {
    EncodeLength(w, |Encode(w)|);
    EncodeLength(v, |Encode(w)|);
  }

  lemma Pow128Values()
    ensures Pow128(9) == U63_LIMIT
    ensures Pow128(10) == 128 * U63_LIMIT
  {
    assert Pow128(1) == 128;
    assert Pow128(3) == 0x20_0000;
    assert Pow128(5) == 0x8_0000_0000;
    assert Pow128(7) == 0x2_0000_0000_0000;
    assert Pow128(9) == U63_LIMIT;
  }

  lemma EncodeAtMostTen(v: nat)
    requires v < U64_LIMIT
    ensures |Encode(v)| <= 10
  {
    Pow128Values();
    EncodeLength(v, 10);
  }

  // --------------------------------------------------------------- round trip

  lemma {:induction false} Leb128RoundTrip(v: nat, tail: Blob)
    ensures Leb128(Encode(v) + tail) == Some((v, |Encode(v)|))
    decreases v
  {
    var s := Encode(v) + tail;
    if v >= 128 {
      Leb128RoundTrip(v / 128, tail);
      assert s[1..] == Encode(v / 128) + tail;
      assert s[0] == 128 + v % 128;
    } else {
      assert s[0] == v;
    }
  }

  /** Every u64 decodes to itself from any buffer that holds its encoding, whatever follows. */
  lemma RoundTrip(v: nat, tail: Blob)
    requires v < U64_LIMIT
    ensures Decode(Encode(v) + tail) == Some((v, |Encode(v)|))
  {
    Leb128RoundTrip(v, tail);
    EncodeAtMostTen(v);
  }

  /** Decoding panics exactly when none of the first ten bytes ends a number. */
  lemma DecodeFails(s: Blob)
    ensures Decode(s).None? <==> forall i :: 0 <= i < |s| && i < 10 ==> s[i] >= 128
  {
    LebEnds(s);
  }

  /** A number ends with its first byte below 128. */
  lemma {:induction false} LebEnds(s: Blob)
    ensures Leb128(s).None? ==> forall i :: 0 <= i < |s| ==> s[i] >= 128
    ensures Leb128(s).Some? ==>
              var n := Leb128(s).value.1;
              s[n - 1] < 128 && forall i :: 0 <= i < n - 1 ==> s[i] >= 128
  {
    if s != [] && s[0] >= 128 {
      LebEnds(s[1..]);
      assert forall i :: 0 < i < |s| ==> s[i] == s[1..][i - 1];
    }
  }

  /** The documented encodings. */
  lemma Documented()
    ensures Encode(1) == [0x01] && Encode(127) == [0x7F] && Encode(128) == [0x80, 0x01] && Encode(300) == [0xAC, 0x02]
  {
    assert Encode(128 / 128) == [0x01] && Encode(300 / 128) == [0x02];
  }

  // ------------------------------------------------------- the source's loops

  lemma EncodeStep(v: nat)
    ensures Encode(v) == if v / 128 == 0 then [v] else [v % 128 + 128] + Encode(v / 128)
    ensures |Encode(v)| >= 1
  {
  }

  method EncodeVarint(value: nat) returns (buffer: Blob, len: nat)
    requires value < U64_LIMIT
    ensures |buffer| == 10 && 1 <= len <= 10
    ensures buffer[..len] == Encode(value)
    ensures buffer[len..] == Zeros(10 - len)
  {
    EncodeAtMostTen(value);
    hide Encode;
    var bytes := new Byte[10](_ => 0);
    var rest, idx := value, 0;
    while rest / 128 != 0
      invariant 0 <= idx < 10 && rest >= 0 && idx + |Encode(rest)| <= 10
      invariant Encode(value) == bytes[..idx] + Encode(rest)
      invariant forall i :: idx <= i < 10 ==> bytes[i] == 0
      decreases rest
    {
      ghost var before := bytes[..idx];
      bytes[idx] := rest % 128 + 128;
      assert bytes[..idx + 1] == before + [rest % 128 + 128];
      EncodeStep(rest);
      idx, rest := idx + 1, rest / 128;
    }
    ghost var before := bytes[..idx];
    bytes[idx] := rest % 128;
    idx := idx + 1;
    EncodeStep(rest);
    assert bytes[..idx] == before + [rest];
    buffer, len := bytes[..], idx;
    assert buffer[..len] == bytes[..idx];
  }

  lemma MulMonotone(a: nat, b: nat, c: nat)
    requires a <= b
    ensures a * c <= b * c
  {
  }

  lemma {:induction false} PowMonotone(j: nat, k: nat)
    requires j <= k
    ensures Pow128(j) <= Pow128(k)
    decreases k - j
  {
    if j < k {
      PowMonotone(j + 1, k);
    }
  }

  /** A digit above every digit read so far: or-ing it in is addition, and only the tenth
      digit's shift loses bits. */
  lemma ShiftStep(acc: nat, digit: nat, k: nat)
    requires k <= 9 && acc < Pow128(k) && digit < 128
    ensures (acc + digit * Pow128(k)) % U64_LIMIT == acc + (digit * Pow128(k)) % U64_LIMIT
    ensures k < 9 ==> acc + digit * Pow128(k) < Pow128(k + 1) <= U63_LIMIT
  {
    hide Pow128;
    Pow128Values();
    if k < 9 {
      PowMonotone(k + 1, 9);
      PowStep(k);
      LowDigit(acc, digit, Pow128(k));
    } else {
      TenthDigit(acc, digit);
    }
  }

  lemma LowDigit(acc: nat, digit: nat, p: nat)
    requires acc < p && digit < 128 && 128 * p <= U63_LIMIT
    ensures acc + digit * p < 128 * p
    ensures (acc + digit * p) % U64_LIMIT == acc + (digit * p) % U64_LIMIT
  {
    MulMonotone(digit, 127, p);
    Unwrapped(acc + digit * p);
    Unwrapped(digit * p);
  }

  lemma Unwrapped(x: nat)
    requires x < U64_LIMIT
    ensures x % U64_LIMIT == x
  {
  }

  lemma TenthDigit(acc: nat, digit: nat)
    requires acc < U63_LIMIT && digit < 128
    ensures (acc + digit * U63_LIMIT) % U64_LIMIT == acc + (digit * U63_LIMIT) % U64_LIMIT
  {
    var half, odd := digit / 2, digit % 2;
    assert digit * U63_LIMIT == half * U64_LIMIT + odd * U63_LIMIT;
  }

  /** Digit `k` as the source shifts it into a 64-bit word. */
  function Shifted(digit: nat, k: nat): (r: nat)
  {
    (digit * Pow128(k)) % U64_LIMIT
  }

  /** `acc` holds the first `k` digits of the number `all`, whose other bytes are `rest`. */
  ghost predicate Partial(all: Option<(nat, nat)>, acc: nat, k: nat, rest: Blob)
  {
    && (all.None? <==> Leb128(rest).None?)
    && (all.Some? ==> all.value.1 == k + Leb128(rest).value.1)
    && (k < 10 ==> acc < Pow128(k))
    && (all.Some? && k < 10 ==> all.value.0 == acc + Pow128(k) * Leb128(rest).value.0)
  }

  lemma LebStep(rest: Blob)
    requires rest != [] && rest[0] >= 128
    ensures Leb128(rest).None? <==> Leb128(rest[1..]).None?
    ensures Leb128(rest).Some? ==>
              && Leb128(rest).value.1 == 1 + Leb128(rest[1..]).value.1
              && Leb128(rest).value.0 == rest[0] % 128 + 128 * Leb128(rest[1..]).value.0
  {
    assert rest[0] % 128 == rest[0] - 128;
  }

  lemma PartialStep(all: Option<(nat, nat)>, acc: nat, k: nat, rest: Blob)
    requires Partial(all, acc, k, rest) && k < 10
    requires rest != [] && rest[0] >= 128
    ensures Partial(all, acc + Shifted(rest[0] % 128, k), k + 1, rest[1..])
  {
    hide Pow128, Leb128;
    var digit := rest[0] % 128;
    LebStep(rest);
    if k < 9 {
      ShiftStep(acc, digit, k);
      PowStep(k);
      PowMonotone(k + 1, 9);
      Pow128Values();
      Unwrapped(acc + digit * Pow128(k));
      assert acc + Shifted(digit, k) == acc + digit * Pow128(k);
      if all.Some? {
        Distribute(Pow128(k), digit, Leb128(rest[1..]).value.0);
      }
    }
  }

  lemma PowStep(k: nat)
    ensures Pow128(k + 1) == 128 * Pow128(k)
  {
  }

  lemma Distribute(p: nat, d: nat, v: nat)
    ensures p * (d + 128 * v) == d * p + 128 * p * v
  {
  }

  lemma PartialEnd(all: Option<(nat, nat)>, acc: nat, k: nat, rest: Blob)
    requires Partial(all, acc, k, rest) && k < 10
    requires rest != [] && rest[0] < 128
    ensures all.Some? && all.value.1 == k + 1
    ensures all.value.0 % U64_LIMIT == acc + Shifted(rest[0], k)
  {
    hide Pow128;
    var digit := rest[0];
    ShiftStep(acc, digit, k);
    assert Leb128(rest) == Some((digit, 1));
    assert Pow128(k) * digit == digit * Pow128(k);
  }

  lemma PartialStart(s: Blob)
    ensures Partial(Leb128(s), 0, 0, s)
  {
  }

  /** At the end of the buffer there is no number, and behind ten bytes none that is short enough. */
  lemma PartialFails(all: Option<(nat, nat)>, acc: nat, k: nat, rest: Blob)
    requires Partial(all, acc, k, rest)
    ensures rest == [] ==> all.None?
    ensures all.Some? ==> all.value.1 > k
  {
    hide Pow128;
  }

  /** The loop over the buffer. */
  method DecodeVarint(buffer: Blob, start: nat) returns (r: Option<(nat, nat)>)
    ensures r == if start <= |buffer| then Decode(buffer[start..]) else None
  {
    if start > |buffer| { return None; }
    var varint: nat, offset: nat := 0, start;
    ghost var all := Leb128(buffer[start..]);
    PartialStart(buffer[start..]);
    hide Leb128, Pow128, Partial, Shifted;
    while true
      invariant start <= offset <= |buffer| && offset - start <= 10
      invariant Partial(all, varint, offset - start, buffer[offset..])
      decreases |buffer| - offset
    {
      PartialFails(all, varint, offset - start, buffer[offset..]);
      if offset == |buffer| { return None; }     // index out of bounds
      if offset - start >= 10 { return None; }   // shift overflow
      var byte := buffer[offset];
      ghost var rest := buffer[offset..];
      assert rest[1..] == buffer[offset + 1..] && rest[0] == byte;
      if byte < 128 {
        PartialEnd(all, varint, offset - start, rest);
      } else {
        PartialStep(all, varint, offset - start, rest);
      }
      varint := varint + Shifted(byte % 128, offset - start);
      offset := offset + 1;
      if byte < 128 { break; }
    }
    r := Some((varint, offset - start));
  }

  /** The size loop: the bound is shifted left by seven until it passes `len`; past 2^63 the
      shift leaves zero and the loop runs to eleven, which the debug assertion rejects. So
      the size agrees with the encoder exactly below 2^63. */
  method VarintSizeFromLen(len: nat) returns (r: Option<nat>)
    ensures r.Some? <==> len < U63_LIMIT
    ensures r.Some? ==> r.value == |Encode(len)|
  {
    Pow128Values();
    var size, upperBound := 1, 128;
    assert Pow128(1) == 128;
    while len >= upperBound && size <= 10
      invariant 1 <= size <= 11
      invariant size <= 9 ==> upperBound == Pow128(size)
      invariant size >= 10 ==> upperBound == 0 && len >= U63_LIMIT
      invariant size >= 2 ==> len >= Pow128(size - 1) || size >= 10
      decreases 11 - size
    {
      if size < 9 {
        PowMonotone(size + 1, 9);
      }
      size := size + 1;
      upperBound := (upperBound * 128) % U64_LIMIT;
    }
    if size > 10 { return None; }
    EncodeLength(len, size);
    if size >= 2 {
      EncodeLength(len, size - 1);
    }
    if len >= U63_LIMIT {
      PowMonotone(size, 9);
    }
    r := Some(size);
  }

  /** No proper prefix of an encoding ends a number. */
  lemma {:induction false} EncodePrefix(v: nat, n: nat)
    requires n < |Encode(v)|
    ensures Leb128(Encode(v)[..n]).None?
    ensures Decode(Encode(v)[..n]).None?
    decreases n
  {
    var s := Encode(v)[..n];
    if n > 0 {
      assert s[0] == 128 + v % 128;
      assert s[1..] == Encode(v / 128)[..n - 1];
      EncodePrefix(v / 128, n - 1);
    }
  }
}
