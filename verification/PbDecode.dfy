/** What decoding means: how each byte string updates a message, and that it undoes encoding. */
module PbDecode {
  import opened Coding
  import opened InternalKeys
  import opened PbFormat

  const PB_MAX_REQUIRED_FIELDS: nat := 64

  // ----- Integers -----

  function Pow2(k: nat): nat {
    if k == 0 then 1 else 2 * Pow2(k - 1)
  }

  /** Bitwise or of the low bits of two numbers. */
  function Or(a: nat, b: nat, width: nat): (r: nat)
    ensures r < Pow2(width)
  {
    if width == 0 then 0 else 2 * Or(a / 2, b / 2, width - 1) + if a % 2 == 1 || b % 2 == 1 then 1 else 0
  }

  /** result | digit << bit in 32 bits. */
  function OrShifted(acc: nat, digit: nat, bit: nat): (r: nat)
    ensures r < TWO_32
  {
    Pow2Of32();
    Or(acc, Wrap(digit * Pow2(bit), TWO_32), 32)
  }

  lemma Pow2Of32()
    ensures Pow2(32) == TWO_32
  {
    assert Pow2(8) == 256;
    assert Pow2(16) == 65536 by { Pow2Sum(8, 8); }
    Pow2Sum(16, 16);
  }

  lemma Doubling(a: nat, b: nat)
    ensures (2 * a) * b == 2 * (a * b)
  {
  }

  lemma {:induction false} Pow2Sum(j: nat, k: nat)
    ensures Pow2(j + k) == Pow2(j) * Pow2(k)
  {
    if j > 0 {
      Pow2Sum(j - 1, k);
      Doubling(Pow2(j - 1), Pow2(k));
    }
  }

  lemma {:induction false} OrNothing(b: nat, width: nat)
    requires b < Pow2(width)
    ensures Or(0, b, width) == b
  {
    if width > 0 {
      OrNothing(b / 2, width - 1);
    }
  }

  lemma OrStep(a: nat, b: nat, width: nat)
    requires width > 0
    ensures Or(a, 2 * b, width) == 2 * Or(a / 2, b, width - 1) + a % 2
  {
    var c := 2 * b;
    Halved(b);
    assert Or(a, c, width) == 2 * Or(a / 2, c / 2, width - 1) + if a % 2 == 1 || c % 2 == 1 then 1 else 0;
  }

  lemma Halved(b: nat)
    ensures (2 * b) / 2 == b && (2 * b) % 2 == 0
  {
  }

  /** Without bits in common, or is addition. */
  lemma {:induction false} OrDisjoint(a: nat, q: nat, k: nat, width: nat)
    requires k <= width && a < Pow2(k) && q < Pow2(width - k)
    ensures Or(a, q * Pow2(k), width) == a + q * Pow2(k)
  {
    if k == 0 {
      OrNothing(q, width);
    } else {
      var b := q * Pow2(k - 1);
      OrDisjoint(a / 2, q, k - 1, width - 1);
      Doubling(Pow2(k - 1), q);
      OrStep(a, b, width);
    }
  }


  lemma {:induction false} Pow2Of7(i: nat)
    ensures Pow2(7 * i) == Pow128(i)
  {
    if i > 0 {
      Pow2Of7(i - 1);
      Pow2Sum(7, 7 * (i - 1));
      assert Pow2(7) == 128;
    }
  }

  lemma AtLeastOnce(k: int, n: nat)
    requires n > 0
    ensures (k >= 1 ==> k * n >= n) && (k <= -1 ==> k * n + n <= 0)
  {
  }

  lemma RemainderUnique(x: nat, n: nat, m: nat, r: nat)
    requires n > 0 && x == m * n + r && r < n
    ensures x % n == r
  {
    var k := m - x / n;
    AtLeastOnce(k, n);
    assert x == (x / n) * n + x % n;
    assert k * n == m * n - (x / n) * n;
  }

  lemma Distribute(m: nat, q: nat, r: nat, p: nat)
    ensures (m * q + r) * p == m * (q * p) + r * p
  {
    assert (m * q) * p == m * (q * p);
  }

  lemma RemainderOfPlaces(acc: nat, d: nat, p: nat, q: nat)
    requires acc < p && q > 0
    ensures 0 < q * p && (acc + d * p) % (q * p) == acc + d % q * p
  {
    var m, r := d / q, d % q;
    Distribute(m, q, r, p);
    Distribute(1, q - r - 1, r + 1, p);
    Distribute(1, r, 1, p);
    var n, x, s := q * p, acc + d * p, acc + r * p;
    assert (q - r - 1) * p >= 0;
    assert s < n;
    assert x == m * n + s;
    RemainderUnique(x, n, m, s);
  }

  /** On bits not used yet, which the first five bytes' are, or adds the digit in its place. */
  lemma FreshDigit(acc: nat, digit: nat, i: nat)
    requires i <= 4 && acc < Pow128(i) && digit < 128
    ensures OrShifted(acc, digit, 7 * i) == Wrap(acc + Digit(digit, i), TWO_32)
  {
    hide Or, Pow2;
    var p, q := Pow2(7 * i), Pow2(32 - 7 * i);
    Pow2Of7(i);
    Pow2Of32();
    Pow2Sum(32 - 7 * i, 7 * i);
    Pow2Positive(32 - 7 * i);
    RemainderOfPlaces(0, digit, p, q);
    RemainderOfPlaces(acc, digit, p, q);
    OrDisjoint(acc, digit % q, 7 * i, 32);
  }

  lemma {:induction false} Pow2Positive(k: nat)
    ensures Pow2(k) > 0
  {
    if k > 0 {
      Pow2Positive(k - 1);
    }
  }

  /** The bit position after i bytes, kept in eight bits. */
  function BitPosition(i: nat): nat {
    7 * i % 256
  }

  lemma FirstPosition()
    ensures BitPosition(1) == 7
  {
  }

  lemma NextPosition(i: nat)
    ensures BitPosition(i + 1) == (BitPosition(i) + 7) % 256
  {
    var m, r := 7 * i / 256, 7 * i % 256;
    if r + 7 < 256 {
      RemainderUnique(7 * (i + 1), 256, m, r + 7);
    } else {
      RemainderUnique(7 * (i + 1), 256, m + 1, r + 7 - 256);
    }
  }

  /** pb_decode_varint32 after i bytes that all announced more: bytes at bit positions from 32 on may only
      sign-extend, and the position wraps around. */
  function MoreVarint32(s: Bytes, i: nat, acc: nat): (r: Parsed<nat>)
    requires acc < TWO_32
    ensures r.Parsed? ==> |r.rest| < |s| && r.value < TWO_32
    decreases |s|
  {
    if s == [] then Fail else
      var byte, bit := s[0], BitPosition(i);
      var digit := byte % 128;
      if bit >= 32 && digit != 0 && (acc < TWO_31 || byte != if bit < 63 then 0xFF else 0x01) then Fail else
        var acc' := if bit >= 32 then acc else OrShifted(acc, digit, bit);
        if byte >= 128 then MoreVarint32(s[1..], i + 1, acc')
        else if BitPosition(i + 1) == 35 && byte >= 16 then Fail
        else Parsed(acc', s[1..])
  }

  function ReadUInt32(s: Bytes): (r: Parsed<nat>)
    ensures r.Parsed? ==> |r.rest| < |s| && r.value < TWO_32
  {
    if s == [] then Fail
    else if s[0] < 128 then Parsed(s[0], s[1..])
    else MoreVarint32(s[1..], 1, s[0] - 128)
  }

  lemma {:induction false} MoreVarint32Reads(v: nat, rest: Bytes, i: nat, acc: nat)
    requires 0 < i && i + |Varint(v)| <= 5 && acc + Digit(v, i) < TWO_32 && acc < Pow128(i)
    requires i + |Varint(v)| == 5 ==> Top(v, |Varint(v)|) < 16
    ensures MoreVarint32(Varint(v) + rest, i, acc) == Parsed(acc + Digit(v, i), rest)
    decreases v
  {
    hide Digit, Wrap, OrShifted;
    var s := Varint(v) + rest;
    FreshDigit(acc, s[0] % 128, i);
    if v < 128 {
      assert s[1..] == rest && s[0] == v;
    } else {
      SplitDigit(v, i);
      assert s[0] == v % 128 + 128 && s[0] % 128 == v % 128;
      assert s[1..] == Varint(v / 128) + rest;
      DigitBelow(acc, v % 128, i);
      MoreVarint32Reads(v / 128, rest, i + 1, acc + Digit(v % 128, i));
    }
  }

  lemma DigitBelow(acc: nat, digit: nat, i: nat)
    requires acc < Pow128(i) && digit < 128
    ensures acc + Digit(digit, i) < Pow128(i + 1)
  {
    var p := Pow128(i);
    assert (digit + 1) * p <= 128 * p;
  }

  /** The last of n base-128 digits. */
  function Top(v: nat, n: nat): nat {
    if n <= 1 then v else Top(v / 128, n - 1)
  }

  /** A 32-bit number is read back from its varint. */
  lemma UInt32RoundTrip(v: nat, rest: Bytes)
    requires v < TWO_32
    ensures ReadUInt32(Varint(v) + rest) == Parsed(v, rest)
  {
    hide MoreVarint32, Top, Digit;
    var s := Varint(v) + rest;
    if v < 128 {
      assert s[1..] == rest;
    } else {
      Length32(v);
      SplitDigit(v, 0);
      DigitZero(v);
      DigitZero(v % 128);
      assert s[1..] == Varint(v / 128) + rest;
      assert |Varint(v)| == 1 + |Varint(v / 128)|;
      assert Pow128(1) == 128 * Pow128(0);
      MoreVarint32Reads(v / 128, rest, 1, v % 128);
    }
  }

  /** The number base-128 digits spell, lowest first. */
  function Number(s: Bytes): nat {
    if s == [] then 0 else s[0] % 128 + 128 * Number(s[1..])
  }

  /** The byte at index j, read where the position stands below 32, sets a bit that the number does not have. */
  ghost predicate AddsBits(number: nat, byte: Byte, j: nat)
    requires number < TWO_32
  {
    BitPosition(j) < 32 && OrShifted(number, byte % 128, BitPosition(j)) != number
  }

  lemma {:induction false} OrGrows(a: nat, b: nat, width: nat)
    requires a < Pow2(width)
    ensures Or(a, b, width) >= a
  {
    if width > 0 {
      OrGrows(a / 2, b / 2, width - 1);
    }
  }

  lemma OrShiftedGrows(acc: nat, digit: nat, bit: nat)
    requires acc < TWO_32
    ensures OrShifted(acc, digit, bit) >= acc
  {
    hide Pow2, Or;
    Pow2Of32();
    OrGrows(acc, Wrap(digit * Pow2(bit), TWO_32), 32);
  }

  /** From the sixth byte on no bit is ever cleared: the value stays exactly if no byte adds a bit to it. */
  lemma {:induction false} LateDigits(s: Bytes, i: nat, acc: nat)
    requires acc < TWO_32 && MoreVarint32(s, i, acc).Parsed?
    ensures var r := MoreVarint32(s, i, acc); var n := |s| - |r.rest|;
      && r.rest == s[n..] && r.value >= acc
      && (r.value == acc <==> forall j :: 0 <= j < n ==> !AddsBits(acc, s[j], i + j))
    decreases |s|
  {
    hide OrShifted, BitPosition;
    var r := MoreVarint32(s, i, acc);
    var n := |s| - |r.rest|;
    var bit := BitPosition(i);
    var acc' := if bit >= 32 then acc else OrShifted(acc, s[0] % 128, bit);
    OrShiftedGrows(acc, s[0] % 128, bit);
    if s[0] >= 128 {
      LateDigits(s[1..], i + 1, acc');
      if acc' == acc {
        Shifted(s, n, i, acc);
      } else {
        assert AddsBits(acc, s[0], i + 0);
      }
    } else {
      assert n == 1 && (AddsBits(acc, s[0], i + 0) <==> acc' != acc);
    }
  }

  /** The same bytes, counted from the first or from the second. */
  lemma Shifted(s: Bytes, n: nat, i: nat, number: nat)
    requires number < TWO_32 && 0 < n <= |s|
    ensures (forall j :: 0 <= j < n - 1 ==> !AddsBits(number, s[1..][j], i + 1 + j))
       <==> (forall j :: 1 <= j < n ==> !AddsBits(number, s[j], i + j))
  {
    hide AddsBits;
    if forall j :: 0 <= j < n - 1 ==> !AddsBits(number, s[1..][j], i + 1 + j) {
      forall j | 1 <= j < n
        ensures !AddsBits(number, s[j], i + j)
      {
        assert !AddsBits(number, s[1..][j - 1], i + 1 + (j - 1));
      }
    }
    if forall j :: 1 <= j < n ==> !AddsBits(number, s[j], i + j) {
      forall j | 0 <= j < n - 1
        ensures !AddsBits(number, s[1..][j], i + 1 + j)
      {
        assert !AddsBits(number, s[j + 1], i + (j + 1));
      }
    }
  }

  /** The value is the number the bytes spell exactly if no byte from the sixth on adds a bit to that. */
  lemma {:induction false} EveryDigit(s: Bytes, i: nat, acc: nat)
    requires 0 < i <= 5 && acc < TWO_32 && (i <= 4 ==> acc < Pow128(i)) && MoreVarint32(s, i, acc).Parsed?
    ensures var r := MoreVarint32(s, i, acc); var n := |s| - |r.rest|;
      var number := Wrap(acc + Digit(Number(s[..n]), i), TWO_32);
      && r.rest == s[n..]
      && (r.value == number <==> forall j :: 0 <= j < n ==> i + j < 5 || !AddsBits(number, s[j], i + j))
    decreases |s|
  {
    hide Digit, Wrap, OrShifted, Pow128, AddsBits;
    var r := MoreVarint32(s, i, acc);
    var n := |s| - |r.rest|;
    if i == 5 {
      HighDigit(acc, Number(s[..n]), 5);
      LateDigits(s, 5, acc);
    } else {
      var digit := s[0] % 128;
      LowPosition(i);
      FreshDigit(acc, digit, i);
      DigitBelow(acc, digit, i);
      var acc' := OrShifted(acc, digit, 7 * i);
      if s[0] >= 128 {
        EveryDigit(s[1..], i + 1, acc');
        assert s[..n][1..] == s[1..][..n - 1];
        SplitNumber(digit, Number(s[1..][..n - 1]), i);
        WrapTwice(acc + Digit(digit, i), Digit(Number(s[1..][..n - 1]), i + 1));
        ShiftedLate(s, n, i, Wrap(acc + Digit(Number(s[..n]), i), TWO_32));
      } else {
        assert s[..n] == [s[0]] && Number([s[0]]) == s[0] + 128 * Number([]);
      }
    }
  }

  lemma LowPosition(i: nat)
    requires i <= 36
    ensures BitPosition(i) == 7 * i
  {
  }

  lemma ShiftedLate(s: Bytes, n: nat, i: nat, number: nat)
    requires number < TWO_32 && 0 < n <= |s| && i < 5
    ensures (forall j :: 0 <= j < n - 1 ==> i + 1 + j < 5 || !AddsBits(number, s[1..][j], i + 1 + j))
       <==> (forall j :: 0 <= j < n ==> i + j < 5 || !AddsBits(number, s[j], i + j))
  {
    hide AddsBits;
    if forall j :: 0 <= j < n - 1 ==> i + 1 + j < 5 || !AddsBits(number, s[1..][j], i + 1 + j) {
      forall j | 0 <= j < n
        ensures i + j < 5 || !AddsBits(number, s[j], i + j)
      {
        if j > 0 {
          assert i + 1 + (j - 1) < 5 || !AddsBits(number, s[1..][j - 1], i + 1 + (j - 1));
        }
      }
    }
    if forall j :: 0 <= j < n ==> i + j < 5 || !AddsBits(number, s[j], i + j) {
      forall j | 0 <= j < n - 1
        ensures i + 1 + j < 5 || !AddsBits(number, s[1..][j], i + 1 + j)
      {
        assert i + (j + 1) < 5 || !AddsBits(number, s[j + 1], i + (j + 1));
      }
    }
  }

  lemma SplitNumber(digit: nat, rest: nat, i: nat)
    ensures Digit(digit + 128 * rest, i) == Digit(digit, i) + Digit(rest, i + 1)
  {
    var p := Pow128(i);
    assert Pow128(i + 1) == 128 * p;
    assert (digit + 128 * rest) * p == digit * p + rest * (128 * p);
  }

  lemma WrapTwice(x: nat, y: nat)
    ensures Wrap(Wrap(x, TWO_32) + y, TWO_32) == Wrap(x + y, TWO_32)
  {
    var m, r, m2 := x / TWO_32, x % TWO_32, (x % TWO_32 + y) / TWO_32;
    RemainderUnique(x + y, TWO_32, m + m2, (r + y) % TWO_32);
  }

  /** From the sixth byte on a digit's place lies beyond 32 bits. */
  lemma HighDigit(acc: nat, digit: nat, i: nat)
    requires i >= 5 && acc < TWO_32
    ensures Wrap(acc + Digit(digit, i), TWO_32) == acc
  {
    PlaceBeyond(i);
    var q := Pow128(i) / TWO_32;
    assert digit * (q * TWO_32) == (digit * q) * TWO_32;
    RemainderUnique(acc + Digit(digit, i), TWO_32, digit * q, acc);
  }

  lemma {:induction false} PlaceBeyond(i: nat)
    requires i >= 5
    ensures Pow128(i) % TWO_32 == 0 && Pow128(i) == Pow128(i) / TWO_32 * TWO_32
  {
    if i == 5 {
      assert Pow128(3) == 2097152;
      assert Pow128(5) == 128 * (128 * Pow128(3));
    } else {
      PlaceBeyond(i - 1);
      var q := Pow128(i - 1) / TWO_32;
      RemainderUnique(Pow128(i), TWO_32, 128 * q, 0);
    }
  }

  /** An accepted varint is read as the number it stands for in 32 bits if and only if no byte past the first 37,
      after which the position has come around, sets a bit that this number does not have. */
  lemma RightIffNoBitsAdded(s: Bytes)
    requires ReadUInt32(s).Parsed?
    ensures var r := ReadUInt32(s); var n := |s| - |r.rest|; var number := Number(s[..n]) % TWO_32;
      r.value == number <==> forall j :: 37 <= j < n ==> !AddsBits(number, s[j], j)
  {
    hide Digit, Pow128, OrShifted, AddsBits;
    var n := |s| - |ReadUInt32(s).rest|;
    var number := Number(s[..n]) % TWO_32;
    if s[0] < 128 {
      assert s[..n] == [s[0]] && Number([s[0]]) == s[0] + 128 * Number([]);
    } else {
      assert Pow128(1) == 128 by { PowersOf128(); }
      EveryDigit(s[1..], 1, s[0] - 128);
      assert s[..n][1..] == s[1..][..n - 1];
      SplitNumber(s[0] % 128, Number(s[1..][..n - 1]), 0);
      DigitZero(s[0] % 128);
      DigitZero(Number(s[..n]));
      assert Wrap(s[0] % 128 + Digit(Number(s[1..][..n - 1]), 1), TWO_32) == number;
      ShiftedLate(s, n, 0, number);
      forall j | 5 <= j < 37 && j < n
        ensures !AddsBits(number, s[j], j)
      {
        HighPosition(number, s[j], j);
      }
      assert forall j :: 0 <= j < n ==> AddsBits(number, s[j], 0 + j) == AddsBits(number, s[j], j);
    }
  }

  lemma HighPosition(number: nat, byte: Byte, j: nat)
    requires number < TWO_32 && 5 <= j < 37
    ensures !AddsBits(number, byte, j)
  {
    LowPosition(j);
  }

  /** Right for every accepted varint of n bytes if and only if n is at most 37. */
  lemma AllRightIffShort(n: nat)
    requires n > 0
    ensures (forall s :: |s| == n && ReadUInt32(s).Parsed? && ReadUInt32(s).rest == [] ==> ReadUInt32(s).value == Number(s) % TWO_32)
       <==> n <= 37
  {
    hide ReadUInt32, Number;
    if n <= 37 {
      forall s | |s| == n && ReadUInt32(s).Parsed? && ReadUInt32(s).rest == []
        ensures ReadUInt32(s).value == Number(s) % TWO_32
      {
        RightIffNoBitsAdded(s);
        assert s[..n] == s;
      }
    } else {
      LongVarint32Misread(n);
    }
  }

  lemma PowersOf128()
    ensures Pow128(1) == 128
  {
    assert Pow128(0) == 1;
  }

  /** Bytes that announce more and add nothing. */
  function EmptyDigits(n: nat): Bytes {
    if n == 0 then [] else [0x80] + EmptyDigits(n - 1)
  }

  /** A varint of n bytes: nothing in the first 37, then a 1, where the bit position has come around to 3. */
  function LongVarint32(n: nat): Bytes
    requires n >= 38
  {
    EmptyDigits(37) + if n == 38 then [1] else [0x81] + (EmptyDigits(n - 39) + [0])
  }

  /** Accepted as 8, though it stands for a multiple of 2^32. */
  lemma LongVarint32Misread(n: nat)
    requires n >= 38
    ensures |LongVarint32(n)| == n && ReadUInt32(LongVarint32(n)) == Parsed(8, []) && Number(LongVarint32(n)) % TWO_32 == 0
  {
    hide MoreVarint32, Pow128, Number, Digit;
    var tail: Bytes := if n == 38 then [1] else [0x81] + (EmptyDigits(n - 39) + [0]);
    var s := EmptyDigits(37) + tail;
    EmptyDigitsLength(37);
    assert s[0] == 0x80 && s[1..] == EmptyDigits(36) + tail;
    EmptyDigitsRead(36, 1, 0, tail);
    TailRead(n, tail);
    EmptyDigitsNumber(37, tail);
    HighDigit(0, Number(tail), 37);
  }

  lemma TailRead(n: nat, tail: Bytes)
    requires n >= 38 && tail == if n == 38 then [1] else [0x81] + (EmptyDigits(n - 39) + [0])
    ensures |tail| == n - 37 && MoreVarint32(tail, 37, 0) == Parsed(8, [])
  {
    hide OrShifted;
    ShiftedBits();
    if n > 38 {
      var rest := EmptyDigits(n - 39) + [0];
      EmptyDigitsLength(n - 39);
      assert tail[0] == 0x81 && tail[1..] == rest;
      EmptyDigitsRead(n - 39, 38, 8, [0]);
      NoBits(8, BitPosition(n - 1));
      assert MoreVarint32([0], n - 1, 8) == Parsed(8, []);
    }
  }

  lemma {:induction false} EmptyDigitsLength(n: nat)
    ensures |EmptyDigits(n)| == n
  {
    if n > 0 {
      EmptyDigitsLength(n - 1);
    }
  }

  lemma {:induction false} EmptyDigitsRead(n: nat, i: nat, acc: nat, tail: Bytes)
    requires acc < TWO_32
    ensures MoreVarint32(EmptyDigits(n) + tail, i, acc) == MoreVarint32(tail, i + n, acc)
  {
    hide OrShifted;
    if n == 0 {
      assert EmptyDigits(0) + tail == tail;
    } else {
      assert (EmptyDigits(n) + tail)[1..] == EmptyDigits(n - 1) + tail;
      NoBits(acc, BitPosition(i));
      EmptyDigitsRead(n - 1, i + 1, acc, tail);
    }
  }

  lemma ShiftedBits()
    ensures OrShifted(0, 1, 3) == 8
  {
    Pow2Of32();
    assert Pow2(3) == 8;
    OrDisjoint(0, 8, 0, 32);
  }

  lemma NoBits(acc: nat, bit: nat)
    requires acc < TWO_32
    ensures OrShifted(acc, 0, bit) == acc
  {
    hide Or;
    Pow2Of32();
    assert Pow2(0) == 1 && 0 * Pow2(bit) == 0 && 0 * Pow2(32) == 0;
    OrDisjoint(acc, 0, 32, 32);
  }

  lemma {:induction false} EmptyDigitsNumber(n: nat, tail: Bytes)
    ensures Number(EmptyDigits(n) + tail) == Digit(Number(tail), n)
  {
    hide Digit, Number;
    if n > 0 {
      var s := EmptyDigits(n) + tail;
      assert s[0] == 0x80 && s[1..] == EmptyDigits(n - 1) + tail;
      EmptyDigitsNumber(n - 1, tail);
      assert Number(s) == 128 * Number(s[1..]) by { FirstDigit(s); }
      NextPlace(Number(tail), n - 1);
    } else {
      assert EmptyDigits(0) + tail == tail;
      DigitZero(Number(tail));
    }
  }

  lemma FirstDigit(s: Bytes)
    requires s != []
    ensures Number(s) == s[0] % 128 + 128 * Number(s[1..])
  {
  }

  lemma NextPlace(digit: nat, i: nat)
    ensures Digit(digit, i + 1) == 128 * Digit(digit, i)
  {
    var p := Pow128(i);
    assert digit * (128 * p) == 128 * (digit * p);
  }

  lemma DigitZero(v: nat)
    ensures Digit(v, 0) == v
  {
    assert Pow128(0) == 1;
  }

  lemma Length32(v: nat)
    requires 128 <= v < TWO_32
    ensures |Varint(v / 128)| <= 4 && (|Varint(v / 128)| == 4 ==> Top(v / 128, 4) < 16)
  {
    assert Pow128(2) == 16384;
    assert Pow128(4) == 128 * Pow128(3) == 128 * (128 * Pow128(2));
    VarintLength(v / 128, 4);
    var w := v / 128;
    assert Top(w, 4) == Top(w / 128, 3) == Top(w / 128 / 128, 2) == w / 128 / 128 / 128;
  }

  // ----- Values -----

  function Signed32(n: nat): int
    requires n < TWO_32
  {
    if n >= TWO_31 then n - TWO_32 else n
  }

  /** The int64 a varint stands for; fields of 32 bits or less take it through int32 first. */
  function VarintValue(size: nat, n: nat): int
    requires n < TWO_64
  {
    if size == 8 then Signed64(n) else Signed32(n % TWO_32)
  }

  predicate InSigned(n: int, size: nat) {
    IntSize(size) && -HalfRange(size) <= n < HalfRange(size)
  }

  predicate InUnsigned(n: int, size: nat) {
    IntSize(size) && 0 <= n < 2 * HalfRange(size)
  }

  /** Numbers are stored only if the member can hold them. */
  function Checked(ok: bool, n: int, rest: Bytes): Parsed<Value> {
    if ok then Parsed(Int(n), rest) else Fail
  }

  function Take(s: Bytes, n: nat): Parsed<Bytes> {
    if |s| < n then Fail else Parsed(s[..n], s[n..])
  }

  /** A length and that many bytes: a substream. */
  function ReadDelimited(s: Bytes): (r: Parsed<Bytes>)
    ensures r.Parsed? ==> |r.rest| < |s| && |r.value| < TWO_32
  {
    var size := ReadUInt32(s);
    if size.Fail? then Fail else Take(size.rest, size.value)
  }

  function Zeros(n: nat): Bytes {
    seq(n, _ => 0)
  }

  /** What a character buffer holds once bytes are read into it: a string ends at its first zero byte. */
  function CString(s: Bytes): Bytes {
    if s == [] || s[0] == 0 then [] else [s[0]] + CString(s[1..])
  }

  function DefaultValue(f: Field): Value
    decreases f, 0
  {
    match f.ltype
    case BytesType => Blob([])
    case StringType => Blob([])
    case SubmessageType => Sub(DefaultMessage(f.sub))
    case FixedLengthBytesType => Blob(Zeros(f.dataSize))
    case _ => Int(0)
  }

  /** pb_message_set_to_defaults: required members zeroed, optional ones absent, arrays empty. */
  function DefaultItems(f: Field): seq<Value>
    decreases f, 1
  {
    if f.htype.Required? then [DefaultValue(f)] else []
  }

  function DefaultMessage(d: Descriptor): Message
    decreases d, 2
  {
    Message(seq(|d.fields|, i requires 0 <= i < |d.fields| => DefaultItems(d.fields[i])))
  }

  // ----- Fields -----

  /** The field decoders.  base is what the member holds before, which a submessage is merged into. */
  ghost function ReadValue(f: Field, s: Bytes, base: Value): (r: Parsed<Value>)
    ensures r.Parsed? ==> |r.rest| < |s|
    decreases f, 0
  {
    match f.ltype
    case BoolType =>
      var r := ReadUInt32(s);
      if r.Fail? then Fail else Parsed(Int(if r.value != 0 then 1 else 0), r.rest)
    case VarintType =>
      var r := ReadVarint64(s);
      if r.Fail? then Fail else Checked(InSigned(VarintValue(f.dataSize, r.value), f.dataSize), VarintValue(f.dataSize, r.value), r.rest)
    case UVarintType =>
      var r := ReadVarint64(s);
      if r.Fail? then Fail else Checked(InUnsigned(r.value, f.dataSize), r.value, r.rest)
    case SVarintType =>
      var r := ReadVarint64(s);
      if r.Fail? then Fail else Checked(InSigned(UnZigZag(r.value), f.dataSize), UnZigZag(r.value), r.rest)
    case Fixed32Type =>
      var r := Take(s, 4);
      if r.Fail? then Fail else Parsed(Int(FromFixed(r.value)), r.rest)
    case Fixed64Type =>
      var r := Take(s, 8);
      if r.Fail? then Fail else Parsed(Int(FromFixed(r.value)), r.rest)
    case BytesType =>
      var size := ReadUInt32(s);
      if size.Fail? || size.value > PB_SIZE_MAX || size.value > f.dataSize then Fail else
      var r := Take(size.rest, size.value);
      if r.Fail? then Fail else Parsed(Blob(r.value), r.rest)
    case StringType =>
      var size := ReadUInt32(s);
      if size.Fail? || size.value + 1 > f.dataSize then Fail else
      var r := Take(size.rest, size.value);
      if r.Fail? then Fail else Parsed(Blob(CString(r.value)), r.rest)
    case SubmessageType =>
      var sub := ReadDelimited(s);
      if sub.Fail? || !base.Sub? then Fail else
      var m := DecodeInto(f.sub, sub.value, base.message);
      if m.None? then Fail else Parsed(Sub(m.value), sub.rest)
    case FixedLengthBytesType =>
      var size := ReadUInt32(s);
      if size.Fail? || size.value > PB_SIZE_MAX then Fail
      else if size.value == 0 then Parsed(Blob(Zeros(f.dataSize)), size.rest)
      else if size.value != f.dataSize then Fail
      else
        var r := Take(size.rest, size.value);
        if r.Fail? then Fail else Parsed(Blob(r.value), r.rest)
  }

  /** A packed array: numbers until the substream ends; more than the array holds is an error. */
  ghost function ReadPacked(f: Field, s: Bytes, items: seq<Value>): Option<seq<Value>>
    requires Packable(f.ltype)
    decreases f, 1, |s|
  {
    if s == [] then Some(items)
    else if |items| >= f.arraySize then None
    else
      var r := ReadValue(f, s, Int(0));
      if r.Fail? then None else ReadPacked(f, r.rest, items + [r.value])
  }

  /** decode_static_field. */
  ghost function ReadField(f: Field, wireType: nat, s: Bytes, items: seq<Value>): (r: Parsed<seq<Value>>)
    ensures r.Parsed? ==> |r.rest| < |s|
    decreases f, 2
  {
    match f.htype
    case Required =>
      var r := ReadValue(f, s, if items == [] then DefaultValue(f) else items[0]);
      if r.Fail? then Fail else Parsed([r.value], r.rest)
    case Optional =>
      var r := ReadValue(f, s, if items == [] then DefaultValue(f) else items[0]);
      if r.Fail? then Fail else Parsed([r.value], r.rest)
    case Repeated =>
      if wireType == WT_STRING && Packable(f.ltype) then
        var sub := ReadDelimited(s);
        if sub.Fail? then Fail else
        var more := ReadPacked(f, sub.value, items);
        if more.None? then Fail else Parsed(more.value, sub.rest)
      else if |items| >= f.arraySize then Fail
      else
        var r := ReadValue(f, s, DefaultValue(f));
        if r.Fail? then Fail else Parsed(items + [r.value], r.rest)
  }

  function SkipVarint(s: Bytes): (r: Parsed<()>)
    ensures r.Parsed? ==> |r.rest| < |s|
    decreases |s|
  {
    if s == [] then Fail else if s[0] >= 128 then SkipVarint(s[1..]) else Parsed((), s[1..])
  }

  /** pb_skip_field. */
  function SkipField(wireType: nat, s: Bytes): (r: Parsed<()>)
    ensures r.Parsed? ==> |r.rest| <= |s|
  {
    if wireType == WT_VARINT then SkipVarint(s)
    else if wireType == WT_64BIT then (if |s| < 8 then Fail else Parsed((), s[8..]))
    else if wireType == WT_STRING then (var r := ReadDelimited(s); if r.Fail? then Fail else Parsed((), r.rest))
    else if wireType == WT_32BIT then (if |s| < 4 then Fail else Parsed((), s[4..]))
    else Fail
  }

  /** The field with this tag, or the number of fields. */
  function FindField(fs: seq<Field>, tag: nat): (i: nat)
    ensures i <= |fs|
  {
    if fs == [] then 0 else if fs[0].tag == tag then 0 else 1 + FindField(fs[1..], tag)
  }

  /** Which fields are required, and how many come before. */
  function RequiredBefore(fs: seq<Field>, i: nat): nat
    requires i <= |fs|
  {
    if i == 0 then 0 else RequiredBefore(fs, i - 1) + if fs[i - 1].htype.Required? then 1 else 0
  }

  /** Every required field among the first 64 of them has been seen. */
  ghost predicate AllSeen(d: Descriptor, seen: set<nat>) {
    forall i :: 0 <= i < |d.fields| && d.fields[i].htype.Required? && RequiredBefore(d.fields, i) < PB_MAX_REQUIRED_FIELDS ==> i in seen
  }

  /** The loop of pb_decode_noinit: fields in any order, unknown ones skipped, a zero tag ends the message. */
  ghost function ReadFields(d: Descriptor, s: Bytes, m: Message, seen: set<nat>): Option<(Message, set<nat>)>
    decreases d, 3, |s|
  {
    if s == [] then Some((m, seen)) else
    var tag := ReadUInt32(s);
    if tag.Fail? then None
    else if tag.value == 0 then Some((m, seen))
    else
      var i := FindField(d.fields, tag.value / 8);
      if i >= |d.fields| || i >= |m.items| then
        var r := SkipField(tag.value % 8, tag.rest);
        if r.Fail? then None else ReadFields(d, r.rest, m, seen)
      else
        var r := ReadField(d.fields[i], tag.value % 8, tag.rest, m.items[i]);
        if r.Fail? then None
        else ReadFields(d, r.rest, Message(m.items[i := r.value]), if d.fields[i].htype.Required? then seen + {i} else seen)
  }

  /** pb_decode_noinit: decodes into what is there and checks the required fields. */
  ghost function DecodeInto(d: Descriptor, s: Bytes, m: Message): Option<Message>
    decreases d, 4
  {
    var r := ReadFields(d, s, m, {});
    if r.None? || !AllSeen(d, r.value.1) then None else Some(r.value.0)
  }

  /** pb_decode. */
  ghost function Decode(d: Descriptor, s: Bytes): Option<Message> {
    DecodeInto(d, s, DefaultMessage(d))
  }

  // ----- Decoding undoes encoding -----

  /** Field numbers are distinct, nonzero and small enough for a 32-bit tag. */
  ghost predicate ValidTags(d: Descriptor)
    decreases d
  {
    && (forall i :: 0 <= i < |d.fields| ==> 0 < d.fields[i].tag && 8 * d.fields[i].tag + 7 < TWO_32 && ValidTags(d.fields[i].sub))
    && (forall i, j :: 0 <= i < j < |d.fields| ==> d.fields[i].tag != d.fields[j].tag)
  }

  /** Every string leaves room for its terminator in its buffer. */
  ghost predicate TerminatedValue(f: Field, v: Value)
    decreases f, 0
  {
    match f.ltype
    case StringType => v.Blob? && |v.bytes| < f.dataSize
    case SubmessageType => v.Sub? && Terminated(f.sub, v.message)
    case _ => true
  }

  ghost predicate Terminated(d: Descriptor, m: Message)
    decreases d, 1
  {
    forall i, j :: 0 <= i < |d.fields| && i < |m.items| && 0 <= j < |m.items[i]| ==> TerminatedValue(d.fields[i], m.items[i][j])
  }

  lemma {:induction false} CStringWhole(s: Bytes)
    requires forall i :: 0 <= i < |s| ==> s[i] != 0
    ensures CString(s) == s
  {
    if s != [] {
      CStringWhole(s[1..]);
    }
  }

  lemma {:induction false} FindsField(fs: seq<Field>, i: nat)
    requires i < |fs| && forall a, b :: 0 <= a < b < |fs| ==> fs[a].tag != fs[b].tag
    ensures FindField(fs, fs[i].tag) == i
  {
    if i > 0 {
      FindsField(fs[1..], i - 1);
    }
  }

  lemma DelimitedRoundTrip(s: Bytes, rest: Bytes)
    requires |s| < TWO_32
    ensures ReadDelimited(Prefixed(s) + rest) == Parsed(s, rest)
    ensures ReadUInt32(Prefixed(s) + rest) == Parsed(|s|, s + rest)
  {
    hide ReadUInt32;
    UInt32RoundTrip(|s|, s + rest);
    assert Prefixed(s) + rest == Varint(|s|) + (s + rest);
    assert (s + rest)[..|s|] == s && (s + rest)[|s|..] == rest;
  }

  lemma TakeWhole(s: Bytes, rest: Bytes)
    ensures Take(s + rest, |s|) == Parsed(s, rest)
  {
    assert (s + rest)[..|s|] == s && (s + rest)[|s|..] == rest;
  }

  /** Numbers: what the encoder puts out for a typed value, the decoder takes back. */
  lemma NumberRoundTrip(f: Field, v: Value, rest: Bytes, base: Value)
    requires Packable(f.ltype) && TypedValue(f, v)
    ensures ValueBytes(f, v).Some? && ReadValue(f, ValueBytes(f, v).value + rest, base) == Parsed(v, rest)
  {
    hide ReadUInt32, ReadVarint64, Varint, FromFixed, Fixed, Take;
    match f.ltype
    case BoolType =>
      UInt32RoundTrip(v.n, rest);
    case VarintType =>
      VarintRoundTrip(Unsigned64(v.n), rest);
      VarintValueInverse(f.dataSize, v.n);
    case UVarintType =>
      VarintRoundTrip(v.n, rest);
    case SVarintType =>
      VarintRoundTrip(ZigZag(v.n), rest);
      ZigZagInverse(v.n);
    case Fixed32Type =>
      Widths();
      FixedRoundTrip(v.n, 4);
      TakeWhole(Fixed(v.n, 4), rest);
    case Fixed64Type =>
      Widths();
      FixedRoundTrip(v.n, 8);
      TakeWhole(Fixed(v.n, 8), rest);
  }

  /** Negative numbers travel as 64-bit two's complement and come back with their sign, at every width. */
  lemma VarintValueInverse(size: nat, n: int)
    requires IntSize(size) && -HalfRange(size) <= n < HalfRange(size)
    ensures VarintValue(size, Unsigned64(n)) == n
  {
    if size != 8 {
      assert Unsigned64(n) % TWO_32 == if n < 0 then n + TWO_32 else n;
    }
  }

  lemma {:induction false} ValueRoundTrip(f: Field, v: Value, rest: Bytes)
    requires TypedValue(f, v) && TerminatedValue(f, v) && ValidTags(f.sub)
    requires ValueBytes(f, v).Some? && |ValueBytes(f, v).value| < TWO_32
    ensures ReadValue(f, ValueBytes(f, v).value + rest, DefaultValue(f)) == Parsed(v, rest)
    decreases f, 0
  {
    hide ReadUInt32, Varint, Take, ReadDelimited, MessageBytes, Typed, Terminated, ValidTags, DecodeInto, DefaultMessage;
    match f.ltype
    case BytesType =>
      DelimitedRoundTrip(v.bytes, rest);
      TakeWhole(v.bytes, rest);
    case StringType =>
      DelimitedRoundTrip(v.bytes, rest);
      TakeWhole(v.bytes, rest);
      CStringWhole(v.bytes);
    case FixedLengthBytesType =>
      DelimitedRoundTrip(v.bytes, rest);
      TakeWhole(v.bytes, rest);
      assert v.bytes == [] ==> v.bytes == Zeros(f.dataSize) && v.bytes + rest == rest;
    case SubmessageType =>
      var b := MessageBytes(f.sub, v.message);
      DelimitedRoundTrip(b.value, rest);
      MessageRoundTrip(f.sub, v.message);
    case _ =>
      NumberRoundTrip(f, v, rest, DefaultValue(f));
  }

  /** Behind a known tag, the field's decoder takes over. */
  lemma TagStep(d: Descriptor, i: nat, wireType: nat, body: Bytes, m: Message, seen: set<nat>)
    requires ValidTags(d) && i < |d.fields| && i < |m.items| && wireType < 8
    ensures var r := ReadField(d.fields[i], wireType, body, m.items[i]);
      ReadFields(d, TagBytes(d.fields[i], wireType) + body, m, seen)
      == if r.Fail? then None
         else ReadFields(d, r.rest, Message(m.items[i := r.value]), if d.fields[i].htype.Required? then seen + {i} else seen)
  {
    hide ReadUInt32, Varint, ReadField;
    var t := 8 * d.fields[i].tag + wireType;
    UInt32RoundTrip(t, body);
    FindsField(d.fields, i);
    assert t / 8 == d.fields[i].tag && t % 8 == wireType;
    VarintNonEmpty(t);
  }

  lemma VarintNonEmpty(t: nat)
    ensures Varint(t) != []
  {
  }

  /** A field's items one behind the other, each with its tag. */
  lemma {:induction false} TaggedRead(d: Descriptor, i: nat, items: seq<Value>, m: Message, seen: set<nat>, tail: Bytes)
    requires ValidTags(d) && i < |d.fields| && i < |m.items| && !d.fields[i].htype.Required?
    requires m.items[i] == [] && (d.fields[i].htype.Optional? ==> |items| <= 1)
    requires d.fields[i].htype.Repeated? ==> !Packable(d.fields[i].ltype) && |items| <= d.fields[i].arraySize
    requires forall j :: 0 <= j < |items| ==> TypedValue(d.fields[i], items[j]) && TerminatedValue(d.fields[i], items[j])
    requires TaggedBytes(d.fields[i], items).Some? && |TaggedBytes(d.fields[i], items).value| < TWO_32
    ensures ReadFields(d, TaggedBytes(d.fields[i], items).value + tail, m, seen)
         == ReadFields(d, tail, Message(m.items[i := items]), seen)
    decreases d, 7, |items|
  {
    hide ReadFields, ReadValue, ValueBytes, TypedValue, TerminatedValue, ValidTags, TagBytes, DefaultValue;
    var f := d.fields[i];
    if items == [] {
      assert m.items[i := items] == m.items && [] + tail == tail;
    } else {
      var n := |items| - 1;
      var before, tag, value := TaggedBytes(f, items[..n]), TagBytes(f, WireType(f.ltype)), ValueBytes(f, items[n]);
      assert TaggedBytes(f, items).value + tail == before.value + (tag + (value.value + tail));
      TaggedRead(d, i, items[..n], m, seen, tag + (value.value + tail));
      var m' := Message(m.items[i := items[..n]]);
      TagStep(d, i, WireType(f.ltype), value.value + tail, m', seen);
      SubTagsValid(d, i);
      ValueRoundTrip(f, items[n], tail);
      assert items[..n] + [items[n]] == items;
      assert m'.items[i := items] == m.items[i := items];
    }
  }

  lemma SubTagsValid(d: Descriptor, i: nat)
    requires ValidTags(d) && i < |d.fields|
    ensures ValidTags(d.fields[i].sub)
  {
  }

  /** The numbers of a packed array. */
  lemma {:induction false} PackedRead(f: Field, items: seq<Value>, tail: Bytes)
    requires Packable(f.ltype) && |items| <= f.arraySize && forall j :: 0 <= j < |items| ==> TypedValue(f, items[j])
    ensures PackedBytes(f, items).Some? && ReadPacked(f, PackedBytes(f, items).value + tail, []) == ReadPacked(f, tail, items)
    decreases |items|
  {
    hide ReadValue, ValueBytes, TypedValue;
    if items == [] {
      assert [] + tail == tail;
    } else {
      var n := |items| - 1;
      NumberRoundTrip(f, items[n], tail, Int(0));
      var value := ValueBytes(f, items[n]).value;
      PackedRead(f, items[..n], value + tail);
      assert PackedBytes(f, items).value + tail == PackedBytes(f, items[..n]).value + (value + tail);
      assert items[..n] + [items[n]] == items;
    }
  }

  /** A whole field, read into a member that still has its default. */
  lemma FieldRead(d: Descriptor, i: nat, items: seq<Value>, m: Message, seen: set<nat>, tail: Bytes)
    requires ValidTags(d) && i < |d.fields| && i < |m.items| && m.items[i] == DefaultItems(d.fields[i])
    requires TypedItems(d.fields[i], items) && forall j :: 0 <= j < |items| ==> TerminatedValue(d.fields[i], items[j])
    requires FieldBytes(d.fields[i], items).Some? && |FieldBytes(d.fields[i], items).value| < TWO_32
    ensures ReadFields(d, FieldBytes(d.fields[i], items).value + tail, m, seen)
         == ReadFields(d, tail, Message(m.items[i := items]), if d.fields[i].htype.Required? then seen + {i} else seen)
    decreases d, 8
  {
    hide ReadFields, ReadValue, ReadPacked, ValueBytes, TypedValue, TerminatedValue, ValidTags, TagBytes, DefaultValue;
    var f := d.fields[i];
    if f.htype.Required? {
      SingleTyped(f, items);
      OneTagged(f, items);
      var value := ValueBytes(f, items[0]).value;
      var tag := TagBytes(f, WireType(f.ltype));
      assert tag + value + tail == tag + (value + tail);
      TagStep(d, i, WireType(f.ltype), value + tail, m, seen);
      SubTagsValid(d, i);
      ValueRoundTrip(f, items[0], tail);
      assert items == [items[0]];
    } else if items == [] {
      assert m.items[i := items] == m.items && [] + tail == tail;
    } else if f.htype.Repeated? && Packable(f.ltype) {
      PackedRead(f, items, []);
      var packed := PackedBytes(f, items).value;
      assert packed + [] == packed;
      PackedDone(f, items);
      var tag := TagBytes(f, WT_STRING);
      assert tag + Prefixed(packed) + tail == tag + (Prefixed(packed) + tail);
      TagStep(d, i, WT_STRING, Prefixed(packed) + tail, m, seen);
      PrefixedLonger(packed);
      DelimitedRoundTrip(packed, tail);
    } else {
      TaggedRead(d, i, items, m, seen, tail);
    }
  }

  lemma SingleTyped(f: Field, items: seq<Value>)
    requires TypedItems(f, items) && f.htype.Required?
    ensures |items| == 1 && TypedValue(f, items[0])
  {
  }

  lemma PrefixedLonger(s: Bytes)
    ensures |s| < |Prefixed(s)|
  {
  }

  lemma PackedDone(f: Field, items: seq<Value>)
    requires Packable(f.ltype)
    ensures ReadPacked(f, [], items) == Some(items)
  {
  }

  /** The message after the first n of its fields have been read. */
  ghost function Partial(d: Descriptor, m: Message, n: nat): Message
    requires |m.items| == |d.fields|
  {
    Message(seq(|d.fields|, j requires 0 <= j < |d.fields| => if j < n then m.items[j] else DefaultItems(d.fields[j])))
  }

  ghost function RequiredSeen(d: Descriptor, n: nat): set<nat> {
    set j | 0 <= j < n && j < |d.fields| && d.fields[j].htype.Required?
  }

  lemma {:induction false} FieldsRead(d: Descriptor, m: Message, n: nat, tail: Bytes)
    requires ValidTags(d) && Typed(d, m) && n <= |d.fields|
    requires forall i, j :: 0 <= i < n && 0 <= j < |m.items[i]| ==> TerminatedValue(d.fields[i], m.items[i][j])
    requires FieldsBytes(d, m, n).Some? && |FieldsBytes(d, m, n).value| < TWO_32
    ensures ReadFields(d, FieldsBytes(d, m, n).value + tail, Partial(d, m, 0), {})
         == ReadFields(d, tail, Partial(d, m, n), RequiredSeen(d, n))
    decreases d, 9, n
  {
    hide ReadFields, ValidTags, FieldBytes, TypedItems, TerminatedValue, DefaultItems;
    if n == 0 {
      assert [] + tail == tail && RequiredSeen(d, 0) == {};
    } else {
      var before, field := FieldsBytes(d, m, n - 1), FieldBytes(d.fields[n - 1], m.items[n - 1]);
      assert FieldsBytes(d, m, n).value + tail == before.value + (field.value + tail);
      FieldsRead(d, m, n - 1, field.value + tail);
      FieldRead(d, n - 1, m.items[n - 1], Partial(d, m, n - 1), RequiredSeen(d, n - 1), tail);
      assert Partial(d, m, n - 1).items[n - 1 := m.items[n - 1]] == Partial(d, m, n).items;
      assert RequiredSeen(d, n) == if d.fields[n - 1].htype.Required? then RequiredSeen(d, n - 1) + {n - 1} else RequiredSeen(d, n - 1);
    }
  }

  /** Decoding an encoded message gives the message back. */
  lemma {:induction false} MessageRoundTrip(d: Descriptor, m: Message)
    requires ValidTags(d) && Typed(d, m) && Terminated(d, m)
    requires MessageBytes(d, m).Some? && |MessageBytes(d, m).value| < TWO_32
    ensures DecodeInto(d, MessageBytes(d, m).value, DefaultMessage(d)) == Some(m)
    decreases d, 10
  {
    hide ValidTags, FieldBytes, TypedItems, TerminatedValue, DefaultItems;
    var s, n := MessageBytes(d, m).value, |d.fields|;
    FieldsRead(d, m, n, []);
    assert s + [] == s;
    assert Partial(d, m, 0) == DefaultMessage(d);
    assert Partial(d, m, n).items == m.items;
    assert ReadFields(d, [], Partial(d, m, n), RequiredSeen(d, n)) == Some((Partial(d, m, n), RequiredSeen(d, n)));
  }

  // ----- A string that fills its buffer is encoded, but not decoded -----

  lemma {:induction false} ValueFails(f: Field, v: Value, rest: Bytes)
    requires TypedValue(f, v) && !TerminatedValue(f, v) && ValidTags(f.sub)
    requires ValueBytes(f, v).Some? && |ValueBytes(f, v).value| < TWO_32
    ensures ReadValue(f, ValueBytes(f, v).value + rest, DefaultValue(f)) == Fail
    decreases f, 0
  {
    hide ReadUInt32, Varint, Take, ReadDelimited, MessageBytes, Typed, Terminated, ValidTags, DecodeInto, DefaultMessage;
    if f.ltype.StringType? {
      DelimitedRoundTrip(v.bytes, rest);
    } else {
      var b := MessageBytes(f.sub, v.message);
      DelimitedRoundTrip(b.value, rest);
      MessageFails(f.sub, v.message);
    }
  }

  /** The bytes of the first k fields come first. */
  lemma {:induction false} FieldsSplit(d: Descriptor, m: Message, n: nat, k: nat) returns (rest: Bytes)
    requires Typed(d, m) && k <= n <= |d.fields| && FieldsBytes(d, m, n).Some?
    ensures FieldsBytes(d, m, k).Some? && FieldsBytes(d, m, n).value == FieldsBytes(d, m, k).value + rest
    decreases n
  {
    hide FieldBytes, TypedItems;
    if k == n {
      rest := [];
    } else {
      rest := FieldsSplit(d, m, n - 1, k);
      rest := rest + FieldBytes(d.fields[n - 1], m.items[n - 1]).value;
    }
  }

  lemma {:induction false} TaggedSplit(f: Field, items: seq<Value>, k: nat) returns (rest: Bytes)
    requires (forall j :: 0 <= j < |items| ==> TypedValue(f, items[j])) && k <= |items| && TaggedBytes(f, items).Some?
    ensures TaggedBytes(f, items[..k]).Some? && TaggedBytes(f, items).value == TaggedBytes(f, items[..k]).value + rest
    decreases |items|
  {
    hide ValueBytes, TypedValue, TagBytes;
    if k == |items| {
      rest := [];
      assert items[..k] == items;
    } else {
      var n := |items| - 1;
      rest := TaggedSplit(f, items[..n], k);
      assert items[..n][..k] == items[..k];
      rest := rest + (TagBytes(f, WireType(f.ltype)) + ValueBytes(f, items[n]).value);
    }
  }

  /** Item k and its tag, between what comes before and what comes after. */
  lemma TaggedItem(f: Field, items: seq<Value>, k: nat) returns (rest: Bytes)
    requires (forall j :: 0 <= j < |items| ==> TypedValue(f, items[j])) && k < |items| && TaggedBytes(f, items).Some?
    ensures TaggedBytes(f, items[..k]).Some? && ValueBytes(f, items[k]).Some?
    ensures TaggedBytes(f, items).value
         == TaggedBytes(f, items[..k]).value + (TagBytes(f, WireType(f.ltype)) + (ValueBytes(f, items[k]).value + rest))
  {
    hide ValueBytes, TypedValue, TagBytes;
    rest := TaggedSplit(f, items, k + 1);
    assert items[..k + 1][..k] == items[..k];
  }

  /** Items that are not numbers are never packed. */
  lemma FieldIsTagged(f: Field, items: seq<Value>)
    requires TypedItems(f, items) && !Packable(f.ltype) && items != [] && FieldBytes(f, items).Some?
    ensures (forall j :: 0 <= j < |items| ==> TypedValue(f, items[j])) && FieldBytes(f, items) == TaggedBytes(f, items)
    ensures f.htype.Repeated? ==> |items| <= f.arraySize
    ensures (f.htype.Required? ==> |items| == 1) && (f.htype.Optional? ==> |items| <= 1)
  {
    hide ValueBytes, TypedValue, TagBytes;
  }

  lemma OnlyTextFails(f: Field, v: Value)
    requires !TerminatedValue(f, v)
    ensures !Packable(f.ltype)
  {
  }

  /** Reading stops at the first item that does not decode. */
  lemma FieldFails(d: Descriptor, i: nat, j: nat, items: seq<Value>, m: Message, seen: set<nat>, tail: Bytes)
    requires ValidTags(d) && i < |d.fields| && i < |m.items| && m.items[i] == DefaultItems(d.fields[i])
    requires TypedItems(d.fields[i], items) && j < |items| && !TerminatedValue(d.fields[i], items[j])
    requires forall k :: 0 <= k < j ==> TerminatedValue(d.fields[i], items[k])
    requires FieldBytes(d.fields[i], items).Some? && |FieldBytes(d.fields[i], items).value| < TWO_32
    ensures ReadFields(d, FieldBytes(d.fields[i], items).value + tail, m, seen) == None
    decreases d, 8
  {
    hide ReadFields, ReadValue, ValueBytes, TypedValue, TerminatedValue, ValidTags, TagBytes, DefaultValue, FieldBytes, TaggedBytes, TypedItems;
    var f := d.fields[i];
    OnlyTextFails(f, items[j]);
    FieldIsTagged(f, items);
    var rest := TaggedItem(f, items, j);
    var before, after := TaggedBytes(f, items[..j]).value, ValueBytes(f, items[j]).value + (rest + tail);
    var tag := TagBytes(f, WireType(f.ltype));
    Reassociate(before, tag, ValueBytes(f, items[j]).value, rest, tail);
    SubTagsValid(d, i);
    ValueFails(f, items[j], rest + tail);
    if f.htype.Required? {
      assert items[..j] == [];
      NothingTagged(f, items[..j], tag + after);
      TagStep(d, i, WireType(f.ltype), after, m, seen);
    } else {
      TaggedRead(d, i, items[..j], m, seen, tag + after);
      TagStep(d, i, WireType(f.ltype), after, Message(m.items[i := items[..j]]), seen);
    }
  }

  lemma NothingTagged(f: Field, items: seq<Value>, s: Bytes)
    requires items == []
    ensures TaggedBytes(f, items) == Some([]) && [] + s == s
  {
  }

  lemma Reassociate(a: Bytes, b: Bytes, c: Bytes, d: Bytes, e: Bytes)
    ensures a + (b + (c + d)) + e == a + (b + (c + (d + e)))
  {
  }

  lemma {:induction false} MessageFails(d: Descriptor, m: Message)
    requires ValidTags(d) && Typed(d, m) && !Terminated(d, m)
    requires MessageBytes(d, m).Some? && |MessageBytes(d, m).value| < TWO_32
    ensures DecodeInto(d, MessageBytes(d, m).value, DefaultMessage(d)) == None
    decreases d, 10
  {
    hide ValidTags, FieldBytes, TypedItems, TerminatedValue, DefaultItems, ReadFields;
    var i, j := FirstUnterminated(d, m);
    var s := MessageBytes(d, m).value;
    var rest := FieldsSplit(d, m, |d.fields|, i + 1);
    var field := FieldBytes(d.fields[i], m.items[i]).value;
    assert s == FieldsBytes(d, m, i).value + (field + rest);
    FieldsRead(d, m, i, field + rest);
    assert Partial(d, m, 0) == DefaultMessage(d);
    FieldFails(d, i, j, m.items[i], Partial(d, m, i), RequiredSeen(d, i), rest);
  }

  lemma FirstUnterminated(d: Descriptor, m: Message) returns (i: nat, j: nat)
    requires Typed(d, m) && !Terminated(d, m)
    ensures i < |d.fields| == |m.items| && j < |m.items[i]| && !TerminatedValue(d.fields[i], m.items[i][j])
    ensures forall a, b :: 0 <= a < i && 0 <= b < |m.items[a]| ==> TerminatedValue(d.fields[a], m.items[a][b])
    ensures forall b :: 0 <= b < j ==> TerminatedValue(d.fields[i], m.items[i][b])
  {
    hide TerminatedValue, TypedItems;
    i, j := 0, 0;
    while j >= |m.items[i]| || TerminatedValue(d.fields[i], m.items[i][j])
      invariant i < |d.fields| && j <= |m.items[i]|
      invariant forall a, b :: 0 <= a < i && 0 <= b < |m.items[a]| ==> TerminatedValue(d.fields[a], m.items[a][b])
      invariant forall b :: 0 <= b < j ==> TerminatedValue(d.fields[i], m.items[i][b])
      decreases |d.fields| - i, |m.items[i]| - j
    {
      if j < |m.items[i]| {
        j := j + 1;
      } else {
        i, j := i + 1, 0;
      }
    }
  }

  /** Decoding an encoded message gives it back exactly when every string leaves room for its terminator. */
  lemma RoundTripIffTerminated(d: Descriptor, m: Message)
    requires ValidTags(d) && Typed(d, m)
    requires MessageBytes(d, m).Some? && |MessageBytes(d, m).value| < TWO_32
    ensures Decode(d, MessageBytes(d, m).value) == Some(m) <==> Terminated(d, m)
  {
    hide ValidTags, Typed, MessageBytes, Terminated, DecodeInto, DefaultMessage;
    if Terminated(d, m) {
      MessageRoundTrip(d, m);
    } else {
      MessageFails(d, m);
    }
  }
}
