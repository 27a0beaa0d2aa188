/** Binary arithmetic on tree sizes: powers of two, shifts, bit lengths and
    RFC 6962 split points.  Sizes are naturals; `U64_LIMIT` and `I64_MAX` are
    the machine bounds that the bound lemmas refer to. */
module Bits {

  const U64_LIMIT: nat := 0x1_0000_0000_0000_0000
  const I64_MAX: nat := 0x7FFF_FFFF_FFFF_FFFF

  function Pow2(e: nat): (r: nat)
    ensures r > 0
  {
    if e == 0 then 1 else 2 * Pow2(e - 1)
  }

  /** `n >> l`, by repeated halving. */
  function Shr(n: nat, l: nat): nat {
    if l == 0 then n else Shr(n, l - 1) / 2
  }

  /** `i << l`, by repeated doubling. */
  function Shl(i: nat, l: nat): nat
    decreases l
  {
    if l == 0 then i else Shl(2 * i, l - 1)
  }

  /** Position of the highest set bit plus one: `64 - x.leading_zeros()`. */
  function BitLength(x: nat): nat {
    if x == 0 then 0 else 1 + BitLength(x / 2)
  }

  /** `u64::is_power_of_two`: the highest set bit is the only one. */
  predicate IsPow2(x: nat) {
    x > 0 && BitLength(x) > 0 && x == Pow2(BitLength(x) - 1)
  }

  /** `largest_power_of_2_less_than`. */
  function SplitPoint(n: nat): nat {
    if n <= 1 then 0 else Pow2(BitLength(n - 1) - 1)
  }

  function Min(a: nat, b: nat): nat { if a <= b then a else b }

  function Max(a: nat, b: nat): nat { if a <= b then b else a }

  lemma {:induction false} BitLengthBounds(x: nat)
    requires x > 0
    ensures BitLength(x) > 0
    ensures Pow2(BitLength(x) - 1) <= x < Pow2(BitLength(x))
  {
    if x > 1 { BitLengthBounds(x / 2); }
  }

  lemma {:induction false} Pow2Monotone(a: nat, b: nat)
    requires a <= b
    ensures Pow2(a) <= Pow2(b)
    ensures a < b ==> 2 * Pow2(a) <= Pow2(b)
  {
    if a < b { Pow2Monotone(a, b - 1); }
  }

  lemma {:induction false} Pow2IsPow2(e: nat)
    ensures IsPow2(Pow2(e))
    ensures BitLength(Pow2(e)) == e + 1
  {
    if e > 0 { Pow2IsPow2(e - 1); assert Pow2(e) / 2 == Pow2(e - 1); }
  }

  /** The split point is the power of two k with k < n <= 2k. */
  lemma SplitPointBounds(n: nat)
    requires n >= 2
    ensures 0 < SplitPoint(n) < n <= 2 * SplitPoint(n)
    ensures SplitPoint(n) == Pow2(BitLength(n - 1) - 1)
    ensures IsPow2(SplitPoint(n))
  {
    BitLengthBounds(n - 1);
    Pow2IsPow2(BitLength(n - 1) - 1);
  }

  /** ... and it is the only one. */
  lemma SplitPointUnique(n: nat, e: nat)
    requires Pow2(e) < n <= 2 * Pow2(e)
    ensures n >= 2 && SplitPoint(n) == Pow2(e) && BitLength(n - 1) == e + 1
  {
    BitLengthBounds(n - 1);
    var b := BitLength(n - 1) - 1;
    if b < e { Pow2Monotone(b, e); } else if e < b { Pow2Monotone(e, b); }
  }

  /** Distinct powers of two differ by at least a factor of two. */
  lemma Pow2Apart(m: nat, k: nat)
    requires IsPow2(m) && IsPow2(k) && k < m
    ensures 2 * k <= m
  {
    var a, b := BitLength(m) - 1, BitLength(k) - 1;
    if a <= b { Pow2Monotone(a, b); } else { Pow2Monotone(b, a); }
  }

  // ---- shifts ----

  lemma {:induction false} ShrMonotone(a: nat, b: nat, l: nat)
    requires a <= b
    ensures Shr(a, l) <= Shr(b, l)
  {
    if l > 0 { ShrMonotone(a, b, l - 1); }
  }

  lemma {:induction false} ShrDecreases(n: nat, a: nat, b: nat)
    requires a <= b
    ensures Shr(n, b) <= Shr(n, a)
  {
    if a < b { ShrDecreases(n, a, b - 1); }
  }

  lemma {:induction false} ShrAdd(n: nat, a: nat, b: nat)
    ensures Shr(n, a + b) == Shr(Shr(n, a), b)
  {
    if b > 0 { ShrAdd(n, a, b - 1); assert a + b - 1 == a + (b - 1); }
  }

  lemma {:induction false} ShlSucc(i: nat, l: nat)
    ensures Shl(i + 1, l) == Shl(i, l) + Pow2(l)
    decreases l
  {
    if l > 0 { ShlSucc(2 * i, l - 1); ShlSucc(2 * i + 1, l - 1); }
  }

  lemma {:induction false} ShlMonotone(a: nat, b: nat, l: nat)
    requires a <= b
    ensures Shl(a, l) <= Shl(b, l)
    decreases l
  {
    if l > 0 { ShlMonotone(2 * a, 2 * b, l - 1); }
  }

  lemma {:induction false} ShlZero(l: nat)
    ensures Shl(0, l) == 0
  {
    if l > 0 { ShlZero(l - 1); }
  }

  lemma {:induction false} ShrOfShl(i: nat, l: nat)
    ensures Shr(Shl(i, l), l) == i
    decreases l
  {
    if l > 0 { ShrOfShl(2 * i, l - 1); }
  }

  /** Shifting right and left again clears the low bits. */
  lemma {:induction false} ShlOfShr(n: nat, l: nat)
    ensures Shl(Shr(n, l), l) <= n < Shl(Shr(n, l), l) + Pow2(l)
  {
    if l > 0 {
      ShlOfShr(n, l - 1);
      ShlSucc(2 * Shr(n, l), l - 1);
    }
  }

  lemma ShrZero(n: nat, l: nat)
    ensures n < Pow2(l) <==> Shr(n, l) == 0
  {
    ShlOfShr(n, l);
    ShlZero(l);
    if Shr(n, l) > 0 {
      ShlSucc(0, l);
      ShlMonotone(1, Shr(n, l), l);
    }
  }

  /** Sizes below 2^63 have at most 63 bits. */
  lemma BitLengthAtMost63(n: nat)
    requires n <= I64_MAX
    ensures BitLength(n) <= 63
  {
    if n > 0 {
      BitLengthBounds(n);
      if BitLength(n) > 63 {
        Pow2Monotone(63, BitLength(n) - 1);
        Pow2Of63();
      }
    }
  }

  lemma Pow2Of63()
    ensures Pow2(63) == I64_MAX + 1
    ensures Pow2(64) == U64_LIMIT
  {
    assert Pow2(8) == 256;
    assert Pow2(16) == 0x1_0000;
    assert Pow2(24) == 0x100_0000;
    assert Pow2(32) == 0x1_0000_0000;
    assert Pow2(40) == 0x100_0000_0000;
    assert Pow2(48) == 0x1_0000_0000_0000;
    assert Pow2(56) == 0x100_0000_0000_0000;
  }
}
