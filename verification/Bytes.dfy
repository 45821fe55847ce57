/** Bytes, byte strings, the byte-wise order of keys and fixed-width big-endian integers. */
module Bytes {
  type Byte = b: int | 0 <= b < 256

  type Blob = seq<Byte>

  datatype Option<+T> = None | Some(value: T)

  const U32_LIMIT := 0x1_0000_0000
  const U63_LIMIT := 0x8000_0000_0000_0000
  const U64_LIMIT := 0x1_0000_0000_0000_0000

  // ---------------------------------------------------------------- key order

  /** The strict order that slice comparison puts on keys: the first differing byte
      decides, and a proper prefix comes first. */
  predicate Less(a: Blob, b: Blob)
    decreases |a|
  {
    if b == [] then false
    else if a == [] then true
    else if a[0] != b[0] then a[0] < b[0]
    else Less(a[1..], b[1..])
  }

  lemma {:induction false} LessTotal(a: Blob, b: Blob)
    ensures a == b || Less(a, b) || Less(b, a)
    decreases |a|
  {
    if a != [] && b != [] && a[0] == b[0] {
      LessTotal(a[1..], b[1..]);
      if a[1..] == b[1..] {
        assert a == [a[0]] + a[1..] == [b[0]] + b[1..] == b;
      }
    }
  }

  lemma {:induction false} LessStrict(a: Blob, b: Blob)
    requires Less(a, b)
    ensures a != b && !Less(b, a)
    decreases |a|
  {
    if a != [] && a[0] == b[0] {
      LessStrict(a[1..], b[1..]);
    }
  }

  lemma {:induction false} LessTransitive(a: Blob, b: Blob, c: Blob)
    requires Less(a, b) && Less(b, c)
    ensures Less(a, c)
    decreases |a|
  {
    if a != [] && a[0] == b[0] && b[0] == c[0] {
      LessTransitive(a[1..], b[1..], c[1..]);
    }
  }

  /** Behind a common front the first differing byte decides, whatever follows it. */
  lemma {:induction false} FirstDifference(a: Blob, b: Blob, i: nat)
    requires i < |a| && i < |b| && a[..i] == b[..i] && a[i] != b[i]
    ensures Less(a, b) <==> a[i] < b[i]
    decreases i
  {
    if i > 0 {
      assert a[..i][0] == a[0] && b[..i][0] == b[0];
      assert a[1..][..i - 1] == a[..i][1..] && b[1..][..i - 1] == b[..i][1..];
      FirstDifference(a[1..], b[1..], i - 1);
    }
  }

  lemma {:induction false} PrefixFirst(p: Blob, s: Blob)
    requires s != []
    ensures Less(p, p + s)
  {
    if p != [] {
      assert (p + s)[1..] == p[1..] + s;
      PrefixFirst(p[1..], s);
    }
  }

  /** The smaller byte where the two first differ. */
  ghost predicate SmallerAt(a: Blob, b: Blob, i: nat)
  {
    i < |a| && i < |b| && a[..i] == b[..i] && a[i] < b[i]
  }

  /** Which order it is: `a` comes first exactly when it is a proper prefix of `b`, or has the
      smaller byte where the two first differ. */
  lemma LessExact(a: Blob, b: Blob)
    ensures Less(a, b) <==> a < b || exists i: nat :: SmallerAt(a, b, i)
  {
    hide Less;
    if a < b {
      assert b == a + b[|a|..];
      PrefixFirst(a, b[|a|..]);
    } else if i: nat :| SmallerAt(a, b, i) {
      FirstDifference(a, b, i);
    } else if Less(a, b) {
      LessStrict(a, b);
      var i := CommonFront(a, b);
      if i < |a| && i < |b| {
        FirstDifference(a, b, i);
        assert SmallerAt(a, b, i);
      } else {
        assert i == |b| && a == b + a[i..];
        PrefixFirst(b, a[i..]);
      }
    }
  }

  /** How far two byte strings agree. */
  lemma {:induction false} CommonFront(a: Blob, b: Blob) returns (i: nat)
    ensures i <= |a| && i <= |b| && a[..i] == b[..i]
    ensures i < |a| && i < |b| ==> a[i] != b[i]
  {
    if a == [] || b == [] || a[0] != b[0] {
      i := 0;
    } else {
      i := CommonFront(a[1..], b[1..]);
      assert a[..i + 1] == [a[0]] + a[1..][..i] && b[..i + 1] == [b[0]] + b[1..][..i];
      i := i + 1;
    }
  }

  // ------------------------------------------------------- buffers and slices

  /** `buffer[offset..offset + |src|].copy_from_slice(src)` on an owned buffer. */
  function Splice(buffer: Blob, offset: nat, src: Blob): (r: Blob)
    requires offset + |src| <= |buffer|
    ensures |r| == |buffer|
  {
    buffer[..offset] + src + buffer[offset + |src|..]
  }

  /** Consecutive writes are one write of the concatenation. */
  lemma WriteTwo(b: Blob, at: nat, x: Blob, y: Blob)
    requires at + |x| + |y| <= |b|
    ensures Splice(Splice(b, at, x), at + |x|, y) == Splice(b, at, x + y)
  {
  }

  lemma WriteThree(b: Blob, at: nat, x: Blob, y: Blob, z: Blob)
    requires at + |x| + |y| + |z| <= |b|
    ensures Splice(Splice(Splice(b, at, x), at + |x|, y), at + |x| + |y|, z) == Splice(b, at, x + y + z)
  {
    hide Splice;
    WriteTwo(b, at, x, y);
    WriteTwo(b, at, x + y, z);
  }

  /** `Vec::resize(size, 0)`. */
  function Resize(buffer: Blob, size: nat): (r: Blob)
    ensures |r| == size
  {
    if size <= |buffer| then buffer[..size] else buffer + Zeros(size - |buffer|)
  }

  function Zeros(n: nat): (r: Blob)
    ensures |r| == n
  {
    seq(n, _ => 0)
  }

  /** Writing a buffer from end to end. */
  lemma WriteAll(b: Blob, x: Blob)
    requires |b| == |x|
    ensures Splice(b, 0, x) == x
  {
  }

  // --------------------------------------------------- big-endian fixed width

  function Pow2(n: nat): (p: nat)
    ensures p >= 1
  {
    if n == 0 then 1 else 2 * Pow2(n - 1)
  }

  function Pow256(w: nat): (p: nat)
    ensures p >= 1
  {
    if w == 0 then 1 else 256 * Pow256(w - 1)
  }

  function BeBytes(n: nat, w: nat): (r: Blob)
    ensures |r| == w
  {
    if w == 0 then [] else BeBytes(n / 256, w - 1) + [n % 256]
  }

  function FromBe(s: Blob): (n: nat)
  {
    if s == [] then 0 else 256 * FromBe(s[..|s| - 1]) + s[|s| - 1]
  }

  lemma {:induction false} BeRoundTrip(n: nat, w: nat)
    requires n < Pow256(w)
    ensures FromBe(BeBytes(n, w)) == n
  {
    if w > 0 {
      BeRoundTrip(n / 256, w - 1);
      var s := BeBytes(n, w);
      assert s[..|s| - 1] == BeBytes(n / 256, w - 1);
    }
  }

  /** Which byte is which: byte `i` of `w` has the weight 256^(w - 1 - i). */
  lemma {:induction false} BeDigits(n: nat, w: nat, i: nat)
    requires i < w
    ensures BeBytes(n, w)[i] == (n / Pow256(w - 1 - i)) % 256
    decreases w
  {
    if i < w - 1 {
      BeDigits(n / 256, w - 1, i);
      NestedDivision(n, 256, Pow256(w - 2 - i));
    }
  }

  lemma NestedDivision(n: nat, a: nat, b: nat)
    requires a >= 1 && b >= 1
    ensures a * b >= 1 && n / a / b == n / (a * b)
  {
    var q, r := n / a / b, n / a % b;
    assert n / a == q * b + r;
    var low := r * a + n % a;
    assert n == q * (a * b) + low by {
      assert (q * b + r) * a == q * (a * b) + r * a;
    }
    assert low < a * b by {
      Apart(r, b, a);
    }
    Quotient(n, a * b, q, low);
  }

  lemma Quotient(x: nat, p: nat, q: nat, r: nat)
    requires p >= 1 && x == q * p + r && r < p
    ensures x / p == q
  {
    var d := x / p;
    assert x == d * p + x % p;
    Apart(d, q, p);
    Apart(q, d, p);
  }

  lemma {:induction false} Apart(d: nat, q: nat, p: nat)
    ensures d < q ==> d * p + p <= q * p
    decreases q
  {
    if d < q {
      assert q * p == (q - 1) * p + p;
      Apart(d, q - 1, p);
    }
  }

  lemma Pow256Widths()
    ensures Pow256(4) == U32_LIMIT && Pow256(8) == U64_LIMIT
  {
    assert Pow256(2) == 0x1_0000;
    assert Pow256(4) == U32_LIMIT;
    assert Pow256(6) == 0x1_0000_0000_0000;
  }

  lemma FourBytes(n: Byte)
    ensures BeBytes(n, 4) == [0, 0, 0, n]
  {
    assert BeBytes(0, 2) == [0, 0];
    assert BeBytes(0, 3) == [0, 0, 0];
  }

  lemma EightBytes(high: Byte, low: Byte)
    ensures BeBytes(high * 0x1_0000_000000_0000 + low, 8) == [high, 0, 0, 0, 0, 0, 0, low]
  {
    assert BeBytes(high, 1) == [high];
    assert BeBytes(high * 0x1_0000, 3) == [high, 0, 0];
    assert BeBytes(high * 0x1_0000_0000, 5) == [high, 0, 0, 0, 0];
    assert BeBytes(high * 0x1_0000_0000_0000, 7) == [high, 0, 0, 0, 0, 0, 0];
  }
}
