/** The CRC-32 of section 8 of RFC 1952, bit by bit, as both ends of an NRDB file compute it. */
module Crc32 {
  import opened Powers
  import opened Decimal

  /** A 32-bit register. */
  type Word = w: nat | w < TWO_32

  const POLY: Word := 0xEDB88320
  const BYTE_BITS: nat := 8
  const ONES: Word := 0xFFFFFFFF

  // ----- bitwise operations on numbers -----

  function Xor(a: nat, b: nat): (r: nat)
    decreases a + b
  {
    if a == 0 && b == 0 then 0 else (if a % 2 == b % 2 then 0 else 1) + 2 * Xor(a / 2, b / 2)
  }

  function And(a: nat, b: nat): (r: nat)
    decreases a + b
  {
    if a == 0 && b == 0 then 0 else (if a % 2 == 1 && b % 2 == 1 then 1 else 0) + 2 * And(a / 2, b / 2)
  }

  lemma {:induction false} XorBound(a: nat, b: nat, k: nat)
    requires a < Pow2(k) && b < Pow2(k)
    ensures Xor(a, b) < Pow2(k)
    decreases k
  {
    if k > 0 { XorBound(a / 2, b / 2, k - 1); }
  }

  lemma {:induction false} XorZero(a: nat)
    ensures Xor(a, 0) == a && Xor(0, a) == a && Xor(a, a) == 0
  {
    if a > 0 { XorZero(a / 2); }
  }

  lemma {:induction false} XorAssoc(a: nat, b: nat, c: nat)
    ensures Xor(Xor(a, b), c) == Xor(a, Xor(b, c))
    decreases a + b + c
  {
    if a + b + c > 0 {
      XorAssoc(a / 2, b / 2, c / 2);
      XorHalf(a, b);
      XorHalf(b, c);
      XorHalf(Xor(a, b), c);
      XorHalf(a, Xor(b, c));
    }
  }

  lemma {:induction false} XorHalf(a: nat, b: nat)
    ensures Xor(a, b) / 2 == Xor(a / 2, b / 2)
    ensures Xor(a, b) % 2 == if a % 2 == b % 2 then 0 else 1
  {
    var rest := Xor(a / 2, b / 2);
    assert Xor(a, b) == (if a % 2 == b % 2 then 0 else 1) + 2 * rest;
  }

  lemma {:induction false} XorComm(a: nat, b: nat)
    ensures Xor(a, b) == Xor(b, a)
    decreases a + b
  {
    if a + b > 0 { XorComm(a / 2, b / 2); }
  }

  lemma {:induction false} AndOnes(a: nat, k: nat)
    requires a < Pow2(k)
    ensures And(a, Pow2(k) - 1) == a && And(a, 0) == 0
    decreases k
  {
    if k > 0 { AndOnes(a / 2, k - 1); }
  }

  function Mix(a: Word, b: Word): (r: Word) {
    Pow2Constants();
    XorBound(a, b, 32);
    Xor(a, b)
  }

  // ----- the register -----

  /** One bit of the shift register. */
  function Bit(c: Word): Word {
    if c % 2 == 1 then Mix(c / 2, POLY) else c / 2
  }

  function Bits(c: Word, n: nat): Word
    decreases n
  {
    if n == 0 then c else Bits(Bit(c), n - 1)
  }

  function ByteStep(c: Word, b: Byte): Word {
    Bits(Mix(c, b), BYTE_BITS)
  }

  /** The register after a run of bytes. */
  function Register(c: Word, data: Bytes): Word {
    if data == [] then c else ByteStep(Register(c, data[..|data| - 1]), data[|data| - 1])
  }

  /** The checksum of `data`, continuing from the checksum `crc` of what came before. */
  function Checksum(crc: Word, data: Bytes): Word {
    Mix(Register(Mix(crc, ONES), data), ONES)
  }

  /** The checksum of `data` alone: the register starts with all bits set. */
  function Sum(data: Bytes): Word {
    Mix(Register(ONES, data), ONES)
  }

  /** The branch-free step of the code: the mask is all ones exactly when the low bit is set. */
  lemma MaskStep(c: Word, mask: Word, poly: Word)
    requires mask == (TWO_32 - And(c, 1)) % TWO_32
    ensures Xor(c / 2, And(poly, mask)) == if c % 2 == 1 then Xor(c / 2, poly) else c / 2
  {
    AndOne(c);
    if c % 2 == 1 {
      assert mask == TWO_32 - 1;
      AndAllOnes(poly);
    } else {
      assert mask == 0;
      AndZero(poly);
      XorZero(c / 2);
    }
  }

  lemma AndAllOnes(a: Word)
    ensures And(a, TWO_32 - 1) == a
  {
    Pow2Constants();
    AndOnes(a, 32);
  }

  lemma {:induction false} AndZero(a: nat)
    ensures And(a, 0) == 0
  {
    if a > 0 { AndZero(a / 2); }
  }

  lemma {:induction false} AndOne(c: nat)
    ensures And(c, 1) == c % 2
  {
    AndZero(c / 2);
  }

  method BuildCrc32(crc: Word, data: Bytes) returns (r: Word)
    ensures r == Checksum(crc, data)
  {
    var c := Mix(crc, ONES);
    for i := 0 to |data|
      invariant c == Register(Mix(crc, ONES), data[..i])
    {
      assert data[..i + 1][..i] == data[..i];
      c := Mix(c, data[i]);
      c := EightBits(c);
    }
    assert data[..|data|] == data;
    r := Mix(c, ONES);
  }

  /** The inner loop. */
  method EightBits(mixed: Word) returns (c: Word)
    ensures c == Bits(mixed, BYTE_BITS)
  {
    c := mixed;
    for k := 0 to BYTE_BITS
      invariant Bits(c, BYTE_BITS - k) == Bits(mixed, BYTE_BITS)
    {
      var mask: Word := (TWO_32 - And(c, 1)) % TWO_32;
      MaskStep(c, mask, POLY);
      c := Xor(c / 2, And(POLY, mask));
    }
  }

  lemma RegisterNext(c: Word, data: Bytes, b: Byte)
    ensures Register(c, data + [b]) == ByteStep(Register(c, data), b)
  {
    assert (data + [b])[..|data + [b]| - 1] == data;
  }

  lemma {:induction false} RegisterSplit(c: Word, a: Bytes, b: Bytes)
    ensures Register(c, a + b) == Register(Register(c, a), b)
    decreases |b|
  {
    if b == [] {
      assert a + b == a;
    } else {
      var front, last := b[..|b| - 1], b[|b| - 1];
      assert b == front + [last] && a + b == a + front + [last];
      RegisterSplit(c, a, front);
      RegisterNext(c, a + front, last);
      RegisterNext(Register(c, a), front, last);
    }
  }

  lemma MixTwice(x: Word)
    ensures Mix(Mix(x, ONES), ONES) == x
  {
    XorAssoc(x, ONES, ONES);
    XorZero(ONES);
    XorZero(x);
  }

  /** The checksum does not depend on how the bytes are grouped into calls. */
  lemma ChecksumSplit(crc: Word, a: Bytes, b: Bytes)
    ensures Checksum(Checksum(crc, a), b) == Checksum(crc, a + b)
  {
    MixTwice(Register(Mix(crc, ONES), a));
    RegisterSplit(Mix(crc, ONES), a, b);
  }

  /** Both ends start from zero and continue call by call: this is the checksum of all the bytes. */
  lemma SumSplit(a: Bytes, b: Bytes)
    ensures Checksum(Sum(a), b) == Sum(a + b)
  {
    MixTwice(Register(ONES, a));
    RegisterSplit(ONES, a, b);
  }

  /** `w` is what one gets for `data` however it is cut in two calls. */
  ghost predicate Sums(w: Word, data: Bytes) {
    forall a, b {:trigger Checksum(Sum(a), b)} :: a + b == data ==> w == Checksum(Sum(a), b)
  }

  lemma SumsIsSum(w: Word, data: Bytes)
    ensures Sums(w, data) <==> w == Sum(data)
  {
    forall a, b | a + b == data ensures Checksum(Sum(a), b) == Sum(data) {
      SumSplit(a, b);
    }
    assert [] + data == data;
    assert Checksum(Sum([]), data) == Sum(data) by { SumSplit([], data); }
  }

  lemma SumsNothing()
    ensures Sums(0, [])
  {
    XorZero(ONES);
    SumsIsSum(0, []);
  }

  lemma SumsMore(w: Word, data: Bytes, more: Bytes)
    requires Sums(w, data)
    ensures Sums(Checksum(w, more), data + more)
  {
    SumsIsSum(w, data);
    SumSplit(data, more);
    SumsIsSum(Checksum(w, more), data + more);
  }

  // ----- the table-driven form of the standard -----

  /** `(a ^ m) ^ (b ^ n)` regrouped. */
  lemma XorSwap(a: nat, m: nat, b: nat, n: nat)
    ensures Xor(Xor(a, m), Xor(b, n)) == Xor(Xor(a, b), Xor(m, n))
  {
    XorAssoc(a, m, Xor(b, n));
    XorAssoc(m, b, n);
    XorComm(m, b);
    XorAssoc(b, m, n);
    XorAssoc(a, b, Xor(m, n));
  }

  lemma BitXor(x: Word, y: Word)
    ensures Bit(Mix(x, y)) == Mix(Bit(x), Bit(y))
  {
    XorHalf(x, y);
    var p := if x % 2 == 1 then POLY else 0;
    var q := if y % 2 == 1 then POLY else 0;
    XorZero(x / 2);
    XorZero(y / 2);
    XorSwap(x / 2, p, y / 2, q);
    XorZero(POLY);
    XorZero(0);
    XorZero(Xor(x / 2, y / 2));
  }

  lemma {:induction false} BitsXor(x: Word, y: Word, n: nat)
    ensures Bits(Mix(x, y), n) == Mix(Bits(x, n), Bits(y, n))
    decreases n
  {
    if n > 0 {
      BitXor(x, y);
      BitsXor(Bit(x), Bit(y), n - 1);
    }
  }

  lemma {:induction false} XorParts(low: nat, high: nat, k: nat)
    requires low < Pow2(k)
    ensures Xor(low, ShiftLeft(high, k)) == low + ShiftLeft(high, k)
    decreases k
  {
    if k == 0 {
      XorZero(high);
    } else {
      XorParts(low / 2, high, k - 1);
    }
  }

  lemma {:induction false} BitsOfShifted(h: nat, k: nat)
    requires ShiftLeft(h, k) < TWO_32
    ensures Bits(ShiftLeft(h, k), k) == h
    decreases k
  {
    if k > 0 { BitsOfShifted(h, k - 1); }
  }

  /**
   Eight bit steps are one table lookup by the low byte combined with the register shifted by
   eight: the form in which the standard gives the algorithm.
   */
  lemma MatchesTableForm(x: Word)
    ensures Bits(x, BYTE_BITS) == Mix(Bits(x % 256, BYTE_BITS), x / 256)
  {
    Pow2Constants();
    var low, high := x % 256, x / 256;
    ShiftLeftEight(high);
    XorParts(low, high, 8);
    BitsXor(low, ShiftLeft(high, 8), BYTE_BITS);
    BitsOfShifted(high, 8);
  }

  lemma ShiftLeftEight(h: nat)
    ensures ShiftLeft(h, 8) == 256 * h
  {
    assert ShiftLeft(h, 2) == 2 * ShiftLeft(h, 1) == 4 * h;
    assert ShiftLeft(h, 4) == 2 * ShiftLeft(h, 3) == 4 * ShiftLeft(h, 2);
    assert ShiftLeft(h, 6) == 2 * ShiftLeft(h, 5) == 4 * ShiftLeft(h, 4);
    assert ShiftLeft(h, 8) == 2 * ShiftLeft(h, 7) == 4 * ShiftLeft(h, 6);
  }

  // ----- what the checksum detects -----

  lemma XorCancel(a: nat, b: nat, c: nat)
    requires Xor(a, c) == Xor(b, c)
    ensures a == b
  {
    XorAssoc(a, c, c);
    XorAssoc(b, c, c);
    XorZero(c);
    XorZero(a);
    XorZero(b);
  }

  lemma {:induction false} XorTop(a: nat, b: nat, k: nat)
    requires a < Pow2(k) <= b < Pow2(k + 1)
    ensures Xor(a, b) >= Pow2(k)
    decreases k
  {
    XorHalf(a, b);
    if k == 0 { XorZero(b); } else { XorTop(a / 2, b / 2, k - 1); }
  }

  /** The polynomial has its top bit set, so a step that mixed it in can be told from one that did not. */
  lemma MixedIsHigh(x: Word, y: Word)
    requires x % 2 == 1 && y % 2 == 0
    ensures Bit(x) != Bit(y)
  {
    Pow2Constants();
    assert Pow2(32) == 2 * Pow2(31);
    XorTop(x / 2, POLY, 31);
  }

  lemma BitInjective(x: Word, y: Word)
    requires Bit(x) == Bit(y)
    ensures x == y
  {
    if x % 2 == 1 && y % 2 == 0 { MixedIsHigh(x, y); }
    if x % 2 == 0 && y % 2 == 1 { MixedIsHigh(y, x); }
    if x % 2 == 1 && y % 2 == 1 { XorCancel(x / 2, y / 2, POLY); }
  }

  lemma {:induction false} BitsInjective(x: Word, y: Word, n: nat)
    requires Bits(x, n) == Bits(y, n)
    ensures x == y
    decreases n
  {
    if n > 0 {
      BitsInjective(Bit(x), Bit(y), n - 1);
      BitInjective(x, y);
    }
  }

  /** Different registers stay different, whatever follows. */
  lemma {:induction false} RegisterInjective(c: Word, d: Word, data: Bytes)
    requires Register(c, data) == Register(d, data)
    ensures c == d
    decreases |data|
  {
    if data != [] {
      var last := |data| - 1;
      var x, y := Register(c, data[..last]), Register(d, data[..last]);
      BitsInjective(Mix(x, data[last]), Mix(y, data[last]), BYTE_BITS);
      XorCancel(x, y, data[last]);
      RegisterInjective(c, d, data[..last]);
    }
  }

  lemma {:induction false} BitsSplit(x: Word, m: nat, n: nat)
    ensures Bits(x, m + n) == Bits(Bits(x, m), n)
    decreases m
  {
    if m > 0 { BitsSplit(Bit(x), m - 1, n); }
  }

  /** The bytes as one number, the first the lowest. */
  function Packed(data: Bytes): (r: nat)
    ensures r < Pow2(BYTE_BITS * |data|)
  {
    if data == [] then 0
    else
      var last := |data| - 1;
      PackedFits(data[last], BYTE_BITS * last);
      Packed(data[..last]) + ShiftLeft(data[last], BYTE_BITS * last)
  }

  lemma {:induction false} PackedFits(b: Byte, k: nat)
    ensures ShiftLeft(b, k) + Pow2(k) <= Pow2(k + BYTE_BITS)
    decreases k
  {
    if k == 0 { Pow2Constants(); } else { PackedFits(b, k - 1); }
  }

  lemma {:induction false} PartsUnique(a: nat, b: nat, x: nat, y: nat, k: nat)
    requires a < Pow2(k) && b < Pow2(k) && a + ShiftLeft(x, k) == b + ShiftLeft(y, k)
    ensures a == b && x == y
    decreases k
  {
    if k > 0 { PartsUnique(a / 2, b / 2, x, y, k - 1); }
  }

  lemma {:induction false} PackedInjective(d: Bytes, e: Bytes)
    requires |d| == |e| && Packed(d) == Packed(e)
    ensures d == e
  {
    if d != [] {
      var last := |d| - 1;
      PartsUnique(Packed(d[..last]), Packed(e[..last]), d[last], e[last], BYTE_BITS * last);
      PackedInjective(d[..last], e[..last]);
      assert d == d[..last] + [d[last]] && e == e[..last] + [e[last]];
    }
  }

  /** Up to four bytes enter the register as one word, and then the register is shifted through. */
  const BURST: nat := 4

  lemma PackedWord(data: Bytes)
    requires |data| <= BURST
    ensures Packed(data) < TWO_32
  {
    Pow2Constants();
    Pow2Mono(BYTE_BITS * |data|, 32);
  }

  lemma EntersLater(c: Word, low: Word, b: Word, k: nat, n: nat)
    requires low < Pow2(k) && low + ShiftLeft(b, k) < TWO_32
    ensures Bits(Mix(c, low + ShiftLeft(b, k)), k + n) == Bits(Mix(Bits(Mix(c, low), k), b), n)
  {
    var high: Word := ShiftLeft(b, k);
    XorParts(low, b, k);
    XorAssoc(c, low, high);
    BitsXor(Mix(c, low), high, k);
    BitsOfShifted(b, k);
    BitsSplit(Mix(c, low + high), k, n);
  }

  lemma OneMoreByte(c: Word, r: Word, low: Word, b: Byte, n: nat)
    requires low < Pow2(BYTE_BITS * n) && low + ShiftLeft(b, BYTE_BITS * n) < TWO_32
    requires r == Bits(Mix(c, low), BYTE_BITS * n)
    ensures ByteStep(r, b) == Bits(Mix(c, low + ShiftLeft(b, BYTE_BITS * n)), BYTE_BITS * (n + 1))
  {
    EntersLater(c, low, b, BYTE_BITS * n, BYTE_BITS);
  }

  lemma {:induction false} RegisterOfBurst(c: Word, data: Bytes)
    requires |data| <= BURST
    ensures Packed(data) < TWO_32 && Register(c, data) == Bits(Mix(c, Packed(data)), BYTE_BITS * |data|)
    decreases |data|
  {
    PackedWord(data);
    if data == [] {
      XorZero(c);
    } else {
      var last := |data| - 1;
      RegisterOfBurst(c, data[..last]);
      OneMoreByte(c, Register(c, data[..last]), Packed(data[..last]), data[last], last);
    }
  }

  lemma BurstInjective(c: Word, d: Bytes, e: Bytes)
    requires |d| == |e| <= BURST && Register(c, d) == Register(c, e)
    ensures d == e
  {
    RegisterOfBurst(c, d);
    RegisterOfBurst(c, e);
    BitsInjective(Mix(c, Packed(d)), Mix(c, Packed(e)), BYTE_BITS * |d|);
    XorComm(c, Packed(d));
    XorComm(c, Packed(e));
    XorCancel(Packed(d), Packed(e), c);
    PackedInjective(d, e);
  }

  /** Any change within four consecutive bytes, anywhere in the data, changes the checksum. */
  lemma BurstChangesSum(before: Bytes, d: Bytes, e: Bytes, after: Bytes)
    requires |d| == |e| <= BURST && d != e
    ensures Sum(before + d + after) != Sum(before + e + after)
  {
    if Sum(before + d + after) == Sum(before + e + after) {
      var c := Register(ONES, before);
      RegisterSplit(ONES, before + d, after);
      RegisterSplit(ONES, before + e, after);
      RegisterSplit(ONES, before, d);
      RegisterSplit(ONES, before, e);
      XorCancel(Register(ONES, before + d + after), Register(ONES, before + e + after), ONES);
      RegisterInjective(Register(c, d), Register(c, e), after);
      BurstInjective(c, d, e);
    }
  }
}
