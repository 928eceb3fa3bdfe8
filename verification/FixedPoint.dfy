/**
 20.12 fixed-point arithmetic (drm/drm_fixed.h) over the 64-by-32 division of
 asm-generic/div64.h.  A value stands for full / 4096.
 */
module FixedPoint {
  import opened Words

  const ONE := 4096

  // ----- do_div -----

  /** The 64-bit form: the quotient replaces n and the remainder is the value. */
  method DoDiv64(n: UInt64, base: UInt32) returns (quot: UInt64, rem: UInt32)
    requires base > 0
    ensures n == quot * base + rem && rem < base && quot == n / base
  {
    rem := n % base;
    QuotientBounds(n, base);
    quot := n / base;
  }

  /** The 32-bit form takes a short cut when the upper half is 0, and agrees with the 64-bit one. */
  method DoDiv32(n: UInt64, base: UInt32) returns (quot: UInt64, rem: UInt32)
    requires base > 0
    ensures n == quot * base + rem && rem < base && quot == n / base
  {
    QuotientBounds(n, base);
    if n / UINT32_MODULUS == 0 {
      rem := (n % UINT32_MODULUS) % base;
      quot := (n % UINT32_MODULUS) / base;
    } else {
      // __div64_32, which is not part of this model
      quot, rem := n / base, n % base;
    }
  }

  lemma QuotientBounds(n: int, base: int)
    requires n >= 0 && base > 0
    ensures 0 <= n / base <= n && n == (n / base) * base + n % base
  {
    assert (n / base) * base >= n / base by { MulMonotone(n / base, 1, base); }
  }

  // ----- multiplication and division -----

  /** ((u64)((u64)A * B + 2048) >> 12) */
  function Mul(a: UInt32, b: UInt32): int {
    (a * b + 2048) % UINT64_MODULUS / ONE
  }

  lemma MulMonotone(a: int, b: int, c: int)
    requires 0 <= a && 0 <= b <= c
    ensures 0 <= a * b <= a * c && b * a == a * b
  {
  }

  lemma ProductFits(a: UInt32, b: UInt32)
    ensures 0 <= a * b <= (UINT32_MODULUS - 1) * (UINT32_MODULUS - 1)
  {
    MulMonotone(a, b, UINT32_MODULUS - 1);
    MulMonotone(UINT32_MODULUS - 1, a, UINT32_MODULUS - 1);
  }

  /** Multiplication rounds to nearest, half up, and never overflows 64 bits. */
  lemma MulRounds(a: UInt32, b: UInt32)
    ensures a * b + 2048 < UINT64_MODULUS
    ensures -2048 < ONE * Mul(a, b) - a * b <= 2048
  {
    ProductFits(a, b);
  }

  /** The quotient before it is cut to 32 bits. */
  function Quotient(a: UInt32, b: UInt32): nat
    requires b > 0
  {
    QuotientBounds(2 * ONE * a, b);
    (2 * ONE * a / b + 1) / 2
  }

  method Div(a: UInt32, b: UInt32, long64: bool) returns (r: UInt32)
    requires b > 0
    ensures r == Quotient(a, b) % UINT32_MODULUS
  {
    var tmp: UInt64 := a * 8192;
    var rem: UInt32;
    if long64 {
      tmp, rem := DoDiv64(tmp, b);
    } else {
      tmp, rem := DoDiv32(tmp, b);
    }
    QuotientBounds(2 * ONE * a, b);
    tmp := tmp + 1;
    tmp := tmp / 2;
    r := tmp % UINT32_MODULUS;
  }

  /** Division rounds to nearest. */
  lemma DivRounds(a: UInt32, b: UInt32)
    requires b > 0
    ensures 0 - b < 2 * (Quotient(a, b) * b - ONE * a) <= b
  {
    var t, q := 2 * ONE * a / b, Quotient(a, b);
    QuotientBounds(2 * ONE * a, b);
    if t % 2 == 0 {
      assert t == 2 * q;
      assert t * b == 2 * (q * b);
    } else {
      assert t == 2 * q - 1;
      assert t * b == 2 * (q * b) - b;
    }
  }

  // ----- multiplying and dividing back -----

  lemma Strictly(d: int, b: int)
    requires b > 0 && -b < d * b < b
    ensures d == 0
  {
    if d != 0 { MultiplesApart(d, b); }
  }

  /** For any B of at least 1.0, multiplying by B and dividing by B returns A exactly. */
  lemma MulThenDiv(a: UInt32, b: UInt32)
    requires b >= ONE && Mul(a, b) < UINT32_MODULUS
    ensures Quotient(Mul(a, b), b) == a
  {
    MulRounds(a, b);
    var m := Mul(a, b);
    var q := Quotient(m, b);
    DivRounds(m, b);
    assert (q - a) * b == q * b - a * b;
    if b == ONE {
      assert a * b == ONE * a;
    }
    Strictly(q - a, b);
  }

  /** B can be divided back out of every product that fits. */
  ghost predicate DividesBack(b: UInt32)
    requires b > 0
  {
    forall a: UInt32 :: Mul(a, b) < UINT32_MODULUS ==> Quotient(Mul(a, b), b) == a
  }

  /** Below 1.0 two different values have the same product. */
  lemma BelowOneCollides(b: UInt32) returns (a: UInt32, a': UInt32)
    requires 0 < b < ONE
    ensures a != a' && Mul(a, b) == Mul(a', b) < UINT32_MODULUS
  {
    var c := ONE - b;
    a := 2048 / c;
    QuotientBounds(2048, c);
    a' := a + 1;
    assert a' * c == a * c + c;
    MulBelowOne(a, c);
    MulBelowOne(a', c);
  }

  lemma MulBelowOne(a: UInt32, c: int)
    requires 0 < c < ONE && a <= ONE && a * c <= 2048 + c
    ensures Mul(a, ONE - c) == (ONE * a - a * c + 2048) / ONE
  {
    assert a * (ONE - c) == ONE * a - a * c;
    ProductFits(a, ONE - c);
  }

  /** The law holds for B if and only if B is at least 1.0. */
  lemma DividesBackExactly(b: UInt32)
    requires b > 0
    ensures DividesBack(b) <==> b >= ONE
  {
    if b >= ONE {
      forall a: UInt32 | Mul(a, b) < UINT32_MODULUS ensures Quotient(Mul(a, b), b) == a {
        MulThenDiv(a, b);
      }
    } else {
      var a, a' := BelowOneCollides(b);
      assert Quotient(Mul(a, b), b) != a || Quotient(Mul(a', b), b) != a';
    }
  }

  // ----- floor and ceiling -----

  /** dfixed_const of a truncated value */
  function Const(a: int): UInt32 { (a * ONE) % UINT32_MODULUS }

  function Floor(a: UInt32): UInt32 { Const(a / ONE) }

  function Ceil(a: UInt32): UInt32 {
    var whole := a / ONE;
    if a > Const(whole) then Const(whole + 1) else Const(whole)
  }

  /** The floor is the greatest whole value up to A. */
  lemma FloorIsGreatest(a: UInt32, k: int)
    ensures Floor(a) % ONE == 0 && Floor(a) <= a
    ensures k * ONE <= a ==> k * ONE <= Floor(a)
  {
  }

  /** The ceiling is a whole value from A upwards, and the least, if and only if that value is representable; else it is 0. */
  lemma CeilExactly(a: UInt32)
    ensures Ceil(a) >= a <==> a <= 0xffff_f000
    ensures a <= 0xffff_f000 ==> Ceil(a) % ONE == 0 && forall k :: k * ONE >= a ==> Ceil(a) <= k * ONE
    ensures a > 0xffff_f000 ==> Ceil(a) == 0
  {
  }
}
