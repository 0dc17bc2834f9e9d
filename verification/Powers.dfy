/** Powers of two: the arithmetic behind shifts, masks and hash prefixes. */
module Powers {

  const TWO_32: nat := 0x1_0000_0000
  const TWO_64: nat := 0x1_0000_0000_0000_0000

  function Pow2(k: nat): (p: nat)
    ensures p >= 1
  {
    if k == 0 then 1 else 2 * Pow2(k - 1)
  }

  lemma {:induction false} Pow2Add(a: nat, b: nat)
    ensures Pow2(a + b) == Pow2(a) * Pow2(b)
  {
    if a > 0 {
      Pow2Add(a - 1, b);
      assert Pow2(a + b) == 2 * (Pow2(a - 1) * Pow2(b));
    }
  }

  lemma {:induction false} Pow2Mono(a: nat, b: nat)
    requires a <= b
    ensures Pow2(a) <= Pow2(b)
    ensures a < b ==> 2 * Pow2(a) <= Pow2(b)
  {
    if a < b { Pow2Mono(a, b - 1); }
  }

  lemma Pow2Constants()
    ensures Pow2(8) == 256 && Pow2(16) == 65536 && Pow2(23) == 0x80_0000
    ensures Pow2(32) == TWO_32 && Pow2(64) == TWO_64
  {
    assert Pow2(8) == 256;
    Pow2Add(8, 8);
    Pow2Add(16, 7);
    Pow2Add(16, 16);
    Pow2Add(32, 32);
  }

  /** `h >> k`, one bit at a time. */
  function ShiftRight(h: nat, k: nat): (r: nat)
    decreases k
  {
    if k == 0 then h else ShiftRight(h / 2, k - 1)
  }

  /** Dropping the low `k` bits of a number of `k + m` bits leaves `m` bits. */
  lemma {:induction false} ShiftBound(h: nat, k: nat, m: nat)
    requires h < Pow2(k + m)
    ensures ShiftRight(h, k) < Pow2(m)
  {
    if k > 0 { ShiftBound(h / 2, k - 1, m); }
  }

  /** Dropping one more bit halves the result: a shorter prefix is the half of the longer one. */
  lemma {:induction false} ShiftHalf(h: nat, k: nat)
    ensures ShiftRight(h, k + 1) == ShiftRight(h, k) / 2
  {
    if k > 0 { ShiftHalf(h / 2, k - 1); }
  }

  type Hash64 = h: nat | h < TWO_64

  /** The leading `depth` bits of a 64-bit hash. */
  function Prefix(h: Hash64, depth: nat): (p: nat)
    requires depth <= 64
    ensures p < Pow2(depth)
  {
    Pow2Constants();
    ShiftBound(h, 64 - depth, depth);
    ShiftRight(h, 64 - depth)
  }

  /** `i` with its low `k` bits cleared: `i & ~((1 << k) - 1)`. */
  function AlignDown(i: nat, k: nat): (a: nat)
    decreases k
  {
    if k == 0 then i else 2 * AlignDown(i / 2, k - 1)
  }

  /** The numbers that align to the same place are exactly one block of `2^k`. */
  lemma {:induction false} AlignBlock(i: nat, j: nat, k: nat)
    ensures AlignDown(i, k) <= i < AlignDown(i, k) + Pow2(k)
    ensures AlignDown(j, k) == AlignDown(i, k) <==> AlignDown(i, k) <= j < AlignDown(i, k) + Pow2(k)
    ensures AlignDown(j, k) == AlignDown(i, k) <==> ShiftRight(j, k) == ShiftRight(i, k)
    decreases k
  {
    if k > 0 { AlignBlock(i / 2, j / 2, k - 1); }
  }

  /** A block of `2^k` is the union of its two halves. */
  lemma {:induction false} AlignHalf(i: nat, k: nat)
    requires k >= 1
    ensures AlignDown(i, k - 1) ==
            if i < AlignDown(i, k) + Pow2(k - 1) then AlignDown(i, k) else AlignDown(i, k) + Pow2(k - 1)
    decreases k
  {
    if k > 1 { AlignHalf(i / 2, k - 1); }
  }

  /** The end of a block is within any larger aligned range that contains its start. */
  lemma {:induction false} AlignFits(i: nat, k: nat, n: nat)
    requires k <= n && i < Pow2(n)
    ensures AlignDown(i, k) + Pow2(k) <= Pow2(n)
    decreases k
  {
    if k > 0 { AlignFits(i / 2, k - 1, n - 1); }
  }

  /** A block start is also the start of every smaller block there. */
  lemma {:induction false} AlignSmaller(i: nat, k: nat, m: nat)
    requires m <= k && AlignDown(i, k) == i
    ensures AlignDown(i, m) == i
    decreases m
  {
    if m > 0 { AlignSmaller(i / 2, k - 1, m - 1); }
  }

  lemma {:induction false} ShiftTwice(h: nat, a: nat, b: nat)
    ensures ShiftRight(ShiftRight(h, a), b) == ShiftRight(h, a + b)
    decreases a
  {
    if a > 0 { ShiftTwice(h / 2, a - 1, b); }
  }

  /** `i << k`. */
  function ShiftLeft(i: nat, k: nat): (r: nat) {
    if k == 0 then i else 2 * ShiftLeft(i, k - 1)
  }

  lemma {:induction false} ShiftLeftFacts(i: nat, j: nat, n: nat, k: nat)
    ensures ShiftRight(ShiftLeft(i, k), k) == i
    ensures j < ShiftLeft(i, k) ==> ShiftRight(j, k) < i
    ensures i < n ==> ShiftLeft(i, k) < ShiftLeft(n, k)
    decreases k
  {
    if k > 0 { ShiftLeftFacts(i, j / 2, n, k - 1); }
  }

  lemma {:induction false} ShiftLeftPow(a: nat, k: nat)
    ensures ShiftLeft(Pow2(a), k) == Pow2(a + k)
  {
    if k > 0 { ShiftLeftPow(a, k - 1); }
  }

  lemma {:induction false} ShiftLeftAdd(i: nat, j: nat, k: nat)
    ensures ShiftLeft(i + j, k) == ShiftLeft(i, k) + ShiftLeft(j, k)
  {
    if k > 0 { ShiftLeftAdd(i, j, k - 1); }
  }

  lemma {:induction false} ShiftLeftTwice(i: nat, j: nat, k: nat)
    ensures ShiftLeft(ShiftLeft(i, j), k) == ShiftLeft(i, j + k)
  {
    if k > 0 { ShiftLeftTwice(i, j, k - 1); }
  }
}
