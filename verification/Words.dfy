/** Machine words as numbers: powers of two, bits, the wrap-around of an `int`, and remainders. */
module Words {

  function Pow2(n: nat): nat { if n == 0 then 1 else 2 * Pow2(n - 1) }

  lemma {:induction false} Pow2Positive(n: nat)
    ensures Pow2(n) > 0
  {
    if n > 0 { Pow2Positive(n - 1); }
  }

  lemma Twice(x: int, y: int)
    ensures x * (2 * y) == 2 * (x * y) == (2 * y) * x && x * y == y * x
  {
  }

  lemma {:induction false} Pow2Sum(a: nat, b: nat)
    ensures Pow2(a + b) == Pow2(a) * Pow2(b)
    decreases a
  {
    if a > 0 {
      Pow2Sum(a - 1, b);
      Twice(Pow2(b), Pow2(a - 1));
    }
  }

  lemma Pow2Values()
    ensures Pow2(1) == 2 && Pow2(2) == 4 && Pow2(4) == 0x10 && Pow2(8) == 0x100 && Pow2(16) == 0x1_0000
    ensures Pow2(31) == 0x8000_0000 && Pow2(32) == 0x1_0000_0000
    ensures Pow2(63) == 0x8000_0000_0000_0000 && Pow2(64) == 0x1_0000_0000_0000_0000
  {
    assert Pow2(16) == 0x1_0000 && Pow2(15) == 0x8000;
    Pow2Sum(15, 16);
    Pow2Sum(16, 16);
    Pow2Sum(31, 32);
    Pow2Sum(32, 32);
  }

  predicate Bit(x: nat, k: nat) {
    if k == 0 then x % 2 == 1 else Bit(x / 2, k - 1)
  }

  lemma {:induction false} NoBits(k: nat)
    ensures !Bit(0, k)
  {
    if k > 0 { NoBits(k - 1); }
  }

  lemma {:induction false} BitOfDouble(x: nat, low: nat, k: nat)
    requires low <= 1
    ensures Bit(2 * x + low, k) <==> if k == 0 then low == 1 else Bit(x, k - 1)
  {
    assert (2 * x + low) / 2 == x && (2 * x + low) % 2 == low;
  }

  const UINT32_MODULUS := 0x1_0000_0000
  const UINT64_MODULUS := 0x1_0000_0000_0000_0000

  type UInt16 = x: int | 0 <= x < 0x1_0000
  type UInt32 = x: int | 0 <= x < 0x1_0000_0000
  type UInt64 = x: int | 0 <= x < 0x1_0000_0000_0000_0000

  type Int = x: int | -0x8000_0000 <= x < 0x8000_0000

  /** Two's complement wrap-around of a 32-bit `int`. */
  function ToInt(x: int): Int {
    if -0x8000_0000 <= x < 0x8000_0000 then x else (x + 0x8000_0000) % 0x1_0000_0000 - 0x8000_0000
  }

  lemma MulAtLeast(d: int, m: int)
    requires m > 0 && d >= 1
    ensures d * m >= m && (-d) * m == -(d * m)
  {
  }

  /** Two different multiples of m are at least m apart. */
  lemma MultiplesApart(d: int, m: int)
    requires m > 0 && d != 0
    ensures d * m >= m || d * m <= -m
  {
    if d > 0 {
      MulAtLeast(d, m);
    } else {
      MulAtLeast(-d, m);
    }
  }

  lemma RemainderUnique(x: int, q: int, r: int, m: int)
    requires m > 0 && 0 <= r < m && x == q * m + r
    ensures x % m == r
  {
    var d := x / m - q;
    assert d * m == (x / m) * m - q * m;
    if d != 0 { MultiplesApart(d, m); }
  }

  lemma RemainderHalf(x: nat, m: nat)
    requires m > 0
    ensures x % (2 * m) == 2 * ((x / 2) % m) + x % 2
  {
    var q, r := (x / 2) / m, (x / 2) % m;
    assert x / 2 == q * m + r;
    Twice(q, m);
    RemainderUnique(x, q, 2 * r + x % 2, 2 * m);
  }

  /** The remainder modulo 2^w keeps exactly the w low bits. */
  lemma {:induction false} LowBits(x: nat, w: nat, k: nat)
    requires Pow2(w) > 0
    ensures Bit(x % Pow2(w), k) <==> k < w && Bit(x, k)
    decreases w
  {
    if w == 0 {
      NoBits(k);
    } else {
      Pow2Positive(w - 1);
      RemainderHalf(x, Pow2(w - 1));
      BitOfDouble((x / 2) % Pow2(w - 1), x % 2, k);
      BitOfDouble(x / 2, x % 2, k);
      assert 2 * (x / 2) + x % 2 == x;
      if k > 0 { LowBits(x / 2, w - 1, k - 1); }
    }
  }
}
