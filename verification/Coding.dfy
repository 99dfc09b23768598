/** Byte encodings: base-128 varints, little-endian fixed-width numbers and length-prefixed byte strings. */
module Coding {
  type Byte = b: int | 0 <= b < 256

  type Bytes = seq<Byte>

  const TWO_32: nat := 0x1_0000_0000
  const TWO_64: nat := 0x1_0000_0000_0000_0000

  /** A value read from the front of a slice, with what follows it. */
  datatype Parsed<T> = Fail | Parsed(value: T, rest: Bytes)

  // ----- Varints -----

  /** Seven bits a byte, lowest first; every byte but the last has its top bit set. */
  function Varint(v: nat): (s: Bytes)
    ensures |s| > 0
  {
    if v < 128 then [v] else [v % 128 + 128] + Varint(v / 128)
  }

  function Pow128(i: nat): nat {
    if i == 0 then 1 else 128 * Pow128(i - 1)
  }

  /** A digit in its place. */
  function Digit(digit: nat, i: nat): nat {
    digit * Pow128(i)
  }

  /** What is left of a number in a machine word with modulus values. */
  function Wrap(x: nat, modulus: nat): (r: nat)
    requires modulus > 0
    ensures r < modulus && (x < modulus ==> r == x)
  {
    x % modulus
  }

  /** Reads at most limit bytes, i of which are already in acc; bits past the width fall off. */
  function TakeVarint(s: Bytes, i: nat, acc: nat, limit: nat, modulus: nat): (r: Parsed<nat>)
    requires modulus > 0
    ensures r.Parsed? ==> |r.rest| < |s| && r.value < modulus
    decreases |s|
  {
    if i >= limit || s == [] then Fail
    else if s[0] >= 128 then TakeVarint(s[1..], i + 1, Wrap(acc + Digit(s[0] - 128, i), modulus), limit, modulus)
    else Parsed(Wrap(acc + Digit(s[0], i), modulus), s[1..])
  }

  function ReadVarint32(s: Bytes): (r: Parsed<nat>)
    ensures r.Parsed? ==> |r.rest| < |s| && r.value < TWO_32
  {
    TakeVarint(s, 0, 0, 5, TWO_32)
  }

  function ReadVarint64(s: Bytes): (r: Parsed<nat>)
    ensures r.Parsed? ==> |r.rest| < |s| && r.value < TWO_64
  {
    TakeVarint(s, 0, 0, 10, TWO_64)
  }

  lemma {:induction false} VarintLength(v: nat, k: nat)
    requires v < Pow128(k) && k > 0
    ensures |Varint(v)| <= k
  {
    if v >= 128 {
      VarintLength(v / 128, k - 1);
    }
  }

  lemma SplitDigit(v: nat, i: nat)
    ensures Digit(v, i) == Digit(v % 128, i) + Digit(v / 128, i + 1)
  {
    var p, q, r := Pow128(i), v / 128, v % 128;
    assert Pow128(i + 1) == 128 * p;
    assert v == 128 * q + r;
    calc {
      v * p;
      (128 * q + r) * p;
      128 * q * p + r * p;
      r * p + q * (128 * p);
    }
  }

  lemma {:induction false} TakeVarintReads(v: nat, rest: Bytes, i: nat, acc: nat, limit: nat, modulus: nat)
    requires modulus > 0 && i + |Varint(v)| <= limit && acc + Digit(v, i) < modulus
    ensures TakeVarint(Varint(v) + rest, i, acc, limit, modulus) == Parsed(acc + Digit(v, i), rest)
    decreases v
  {
    hide Digit, Wrap, Pow128;
    var s := Varint(v) + rest;
    if v < 128 {
      assert s[1..] == rest;
      assert s[0] == v;
    } else {
      SplitDigit(v, i);
      assert s[0] - 128 == v % 128;
      assert s[1..] == Varint(v / 128) + rest;
      TakeVarintReads(v / 128, rest, i + 1, acc + Digit(v % 128, i), limit, modulus);
    }
  }

  /** Reading a varint gives back what was written and stops right behind it. */
  lemma VarintRoundTrip(v: nat, rest: Bytes)
    ensures v < TWO_32 ==> ReadVarint32(Varint(v) + rest) == Parsed(v, rest)
    ensures v < TWO_64 ==> ReadVarint64(Varint(v) + rest) == Parsed(v, rest)
  {
    assert Pow128(0) == 1;
    if v < TWO_32 {
      assert Pow128(5) == 0x8_0000_0000 by {
        assert Pow128(2) == 16384;
        assert Pow128(3) == 2097152;
        assert Pow128(4) == 268435456;
      }
      VarintLength(v, 5);
      TakeVarintReads(v, rest, 0, 0, 5, TWO_32);
    }
    if v < TWO_64 {
      Pow128Ten();
      VarintLength(v, 10);
      TakeVarintReads(v, rest, 0, 0, 10, TWO_64);
    }
  }

  lemma Pow128Ten()
    ensures Pow128(10) == 0x40_0000_0000_0000_0000
  {
    assert Pow128(2) == 16384;
    assert Pow128(4) == 128 * Pow128(3) == 128 * (128 * Pow128(2));
    assert Pow128(6) == 128 * Pow128(5) == 128 * (128 * Pow128(4));
    assert Pow128(8) == 128 * Pow128(7) == 128 * (128 * Pow128(6));
  }

  /** EncodeVarint64. */
  method PutVarint64(dst: Bytes, v: nat) returns (r: Bytes)
    ensures r == dst + Varint(v)
  {
    r := dst;
    var left := v;
    while left >= 128
      invariant r + Varint(left) == dst + Varint(v)
    {
      r := r + [left % 128 + 128];
      left := left / 128;
    }
    r := r + [left];
  }

  /** EncodeVarint32: unrolled, one case per length. */
  method PutVarint32(dst: Bytes, v: nat) returns (r: Bytes)
    requires v < TWO_32
    ensures r == dst + Varint(v)
  {
    if v < 0x80 {
      r := dst + [v];
    } else if v < 0x4000 {
      r := dst + [v % 128 + 128, v / 0x80];
    } else if v < 0x20_0000 {
      r := dst + [v % 128 + 128, v / 0x80 % 128 + 128, v / 0x4000];
    } else if v < 0x1000_0000 {
      r := dst + [v % 128 + 128, v / 0x80 % 128 + 128, v / 0x4000 % 128 + 128, v / 0x20_0000];
    } else {
      r := dst + [v % 128 + 128, v / 0x80 % 128 + 128, v / 0x4000 % 128 + 128, v / 0x20_0000 % 128 + 128, v / 0x1000_0000];
    }
    var a, b := v / 0x80, v / 0x4000;
    var c, d := v / 0x20_0000, v / 0x1000_0000;
    assert a / 128 == b && b / 128 == c && c / 128 == d;
    assert d < 128;
    assert c >= 128 ==> Varint(c) == [c % 128 + 128] + Varint(d);
    assert b >= 128 ==> Varint(b) == [b % 128 + 128] + Varint(c);
    assert a >= 128 ==> Varint(a) == [a % 128 + 128] + Varint(b);
  }

  /** GetVarint32Ptr and GetVarint64Ptr: at most limit bytes, keeping the low bits of a number below modulus. */
  method GetVarint(input: Bytes, limit: nat, modulus: nat) returns (r: Parsed<nat>)
    requires modulus > 0
    ensures r == TakeVarint(input, 0, 0, limit, modulus)
  {
    var result, place, p := 0, 1, 0;
    while p < limit && p < |input|
      invariant p <= |input| && place == Pow128(p) && result >= 0
      invariant TakeVarint(input, 0, 0, limit, modulus) == TakeVarint(input[p..], p, result, limit, modulus)
    {
      var byte := input[p];
      assert input[p..][1..] == input[p + 1..];
      p := p + 1;
      if byte >= 128 {
        assert (byte - 128) * place == Digit(byte - 128, p - 1);
        result := (result + (byte - 128) * place) % modulus;
      } else {
        return Parsed((result + byte * place) % modulus, input[p..]);
      }
      place := 128 * place;
    }
    return Fail;
  }

  // ----- Length-prefixed slices -----

  function Prefixed(s: Bytes): Bytes {
    Varint(|s|) + s
  }

  function ReadPrefixed(s: Bytes): (r: Parsed<Bytes>)
    ensures r.Parsed? ==> |r.rest| < |s| && |r.value| < TWO_32
  {
    var n := ReadVarint32(s);
    if n.Parsed? && n.value <= |n.rest| then Parsed(n.rest[..n.value], n.rest[n.value..]) else Fail
  }

  lemma PrefixedRoundTrip(s: Bytes, rest: Bytes)
    requires |s| < TWO_32
    ensures ReadPrefixed(Prefixed(s) + rest) == Parsed(s, rest)
  {
    VarintRoundTrip(|s|, s + rest);
    assert Prefixed(s) + rest == Varint(|s|) + (s + rest);
  }

  /** PutLengthPrefixedSlice. */
  method PutPrefixed(dst: Bytes, s: Bytes) returns (r: Bytes)
    requires |s| < TWO_32
    ensures r == dst + Prefixed(s)
  {
    r := PutVarint32(dst, |s|);
    r := r + s;
  }

  // ----- Fixed width -----

  function Fixed(v: nat, width: nat): (s: Bytes)
    ensures |s| == width
  {
    if width == 0 then [] else [v % 256] + Fixed(v / 256, width - 1)
  }

  lemma FourBytes(v: nat, width: nat)
    requires width >= 4
    ensures var a, b, c := v / 256, v / 256 / 256, v / 256 / 256 / 256;
      Fixed(v, width) == [v % 256, a % 256, b % 256, c % 256] + Fixed(c / 256, width - 4)
  {
    var a := v / 256;
    var b := a / 256;
    var c := b / 256;
    assert Fixed(v, width) == [v % 256] + Fixed(a, width - 1);
    assert Fixed(a, width - 1) == [a % 256] + Fixed(b, width - 2);
    assert Fixed(b, width - 2) == [b % 256] + Fixed(c, width - 3);
    assert Fixed(c, width - 3) == [c % 256] + Fixed(c / 256, width - 4);
  }

  lemma DivideTwice(v: nat)
    ensures v / 256 / 256 == v / 65536
  {
    var q := v / 256 / 256;
    Quotient(v, 65536, q, v - 65536 * q);
  }

  lemma DivideThrice(v: nat)
    ensures v / 65536 / 256 == v / 16777216
  {
    var q := v / 65536 / 256;
    Quotient(v, 16777216, q, v - 16777216 * q);
  }

  lemma DivideFourTimes(v: nat)
    ensures v / 16777216 / 256 == v / 4294967296
  {
    var q := v / 16777216 / 256;
    Quotient(v, 4294967296, q, v - 4294967296 * q);
  }

  lemma Quotient(v: nat, n: nat, q: nat, r: nat)
    requires n > 0 && v == q * n + r && r < n
    ensures v / n == q
  {
    var k := q - v / n;
    assert k * n == v % n - r by {
      assert v == (v / n) * n + v % n;
      assert k * n == q * n - (v / n) * n;
    }
    OnceOrNone(k, n);
  }

  lemma OnceOrNone(k: int, n: nat)
    requires n > 0
    ensures (k >= 1 ==> k * n >= n) && (k <= -1 ==> k * n + n <= 0)
  {
  }

  /** Little-endian: the lowest byte comes first. */
  lemma LittleEndian(v: nat)
    ensures Fixed(v, 4) == [v % 256, v / 256 % 256, v / 65536 % 256, v / 16777216 % 256]
    ensures Fixed(v, 8) == Fixed(v, 4) + Fixed(v / 4294967296, 4)
  {
    hide Fixed;
    DivideTwice(v);
    DivideThrice(v);
    DivideFourTimes(v);
    FourBytes(v, 4);
    FourBytes(v, 8);
  }

  function FromFixed(s: Bytes): nat {
    if s == [] then 0 else s[0] + 256 * FromFixed(s[1..])
  }

  function Pow256(i: nat): nat {
    if i == 0 then 1 else 256 * Pow256(i - 1)
  }

  lemma {:induction false} FixedRoundTrip(v: nat, width: nat)
    requires v < Pow256(width)
    ensures FromFixed(Fixed(v, width)) == v
  {
    if width > 0 {
      FixedRoundTrip(v / 256, width - 1);
      assert Fixed(v, width)[1..] == Fixed(v / 256, width - 1);
    }
  }

  lemma Widths()
    ensures Pow256(4) == TWO_32 && Pow256(8) == TWO_64
  {
    assert Pow256(2) == 65536;
    assert Pow256(4) == 256 * Pow256(3) == 256 * (256 * Pow256(2));
    assert Pow256(6) == 256 * Pow256(5) == 256 * (256 * Pow256(4));
  }

  /** An array of fixed32 words. */
  function Words(ws: seq<nat>): Bytes {
    if ws == [] then [] else Words(ws[..|ws| - 1]) + Fixed(ws[|ws| - 1], 4)
  }

  lemma {:induction false} WordsAt(ws: seq<nat>, i: nat)
    requires i < |ws|
    ensures |Words(ws)| == 4 * |ws| && Words(ws)[4 * i..4 * i + 4] == Fixed(ws[i], 4)
  {
    hide Fixed;
    var n := |ws| - 1;
    WordsLength(ws[..n]);
    if i < n {
      WordsAt(ws[..n], i);
      assert Words(ws)[4 * i..4 * i + 4] == Words(ws[..n])[4 * i..4 * i + 4];
    }
  }

  lemma {:induction false} WordsLength(ws: seq<nat>)
    ensures |Words(ws)| == 4 * |ws|
  {
    if ws != [] {
      WordsLength(ws[..|ws| - 1]);
    }
  }

  method PutWords(ws: seq<nat>) returns (s: Bytes)
    ensures s == Words(ws) && |s| == 4 * |ws|
  {
    s := [];
    for i := 0 to |ws|
      invariant s == Words(ws[..i]) && |s| == 4 * i
    {
      assert ws[..i + 1][..i] == ws[..i];
      s := s + Fixed(ws[i], 4);
    }
    assert ws[..|ws|] == ws;
  }

  lemma SliceLeft(a: Bytes, b: Bytes, i: nat, j: nat)
    requires i <= j <= |a|
    ensures (a + b)[i..j] == a[i..j]
  {
  }

  lemma SliceRight(a: Bytes, b: Bytes, i: nat, j: nat)
    requires i <= j <= |b|
    ensures (a + b)[|a| + i..|a| + j] == b[i..j]
  {
  }
}
