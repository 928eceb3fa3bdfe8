/**
 get_order: the smallest power-of-two number of pages that holds a size (asm-generic/getorder.h,
 asm-generic/bitops/fls.h, __fls.h and fls64.h, linux/log2.h).
 */
module PageOrder {
  import opened Words

  /** The position of the highest set bit, counted from 1; 0 for 0. */
  function Significant(x: nat): nat { if x == 0 then 0 else 1 + Significant(x / 2) }

  lemma {:induction false} SignificantExactly(x: nat, k: nat)
    ensures Significant(x) <= k <==> x < Pow2(k)
    decreases k
  {
    Pow2Positive(k);
    if k > 0 && x > 0 { SignificantExactly(x / 2, k - 1); }
  }

  // ----- fls -----

  /** Shifting left moves the highest bit. */
  lemma {:induction false} ShiftLeft(x: nat, k: nat)
    requires x > 0
    ensures x * Pow2(k) > 0 && Significant(x * Pow2(k)) == Significant(x) + k
    decreases k
  {
    if k > 0 {
      ShiftLeft(x, k - 1);
      var half := x * Pow2(k - 1);
      Twice(x, Pow2(k - 1));
      assert (2 * half) / 2 == half;
    }
  }

  /** One test of the search: a word whose top k bits are clear is shifted up by k places. */
  method Narrow(x: nat, r: int, k: nat, factor: nat, limit: nat) returns (x': nat, r': int)
    requires 0 < x && factor == Pow2(k)
    ensures 0 < x' && Significant(x') + r' == Significant(x) + r
    ensures if x < limit then x' == x * factor else x' == x
  {
    x', r' := x, r;
    if x < limit {
      ShiftLeft(x, k);
      x', r' := x * factor, r - k;
    }
  }

  /** The halving search: five tests move the highest bit to position 32. */
  method Fls(word: nat) returns (r: int)
    requires word < 0x1_0000_0000
    ensures r == Significant(word)
  {
    if word == 0 {
      return 0;
    }
    Pow2Values();
    var x := word;
    r := 32;
    x, r := Narrow(x, r, 16, 0x1_0000, 0x1_0000);
    x, r := Narrow(x, r, 8, 0x100, 0x100_0000);
    x, r := Narrow(x, r, 4, 0x10, 0x1000_0000);
    x, r := Narrow(x, r, 2, 4, 0x4000_0000);
    x, r := Narrow(x, r, 1, 2, 0x8000_0000);
    SignificantExactly(x, 31);
    SignificantExactly(x, 32);
  }

  /** A word with one of its two top bits set. */
  lemma TopBits(x: nat)
    requires 0x4000_0000_0000_0000 <= x < 0x1_0000_0000_0000_0000
    ensures Significant(x) == if x < 0x8000_0000_0000_0000 then 63 else 64
  {
    Pow2Values();
    assert Pow2(63) == 2 * Pow2(62);
    SignificantExactly(x, 62);
    SignificantExactly(x, 63);
    SignificantExactly(x, 64);
  }

  /** The first three tests of __fls: the highest bit comes into the top byte. */
  method FlsHighByte(word: nat) returns (x: nat, num: int)
    requires 0 < word < 0x1_0000_0000_0000_0000
    ensures 0x100_0000_0000_0000 <= x < 0x1_0000_0000_0000_0000
    ensures Significant(x) + num == Significant(word) + 63
  {
    Pow2Values();
    x, num := Narrow(word, 63, 32, 0x1_0000_0000, 0x1_0000_0000);
    x, num := Narrow(x, num, 16, 0x1_0000, 0x1_0000_0000_0000);
    x, num := Narrow(x, num, 8, 0x100, 0x100_0000_0000_0000);
  }

  /** The 64-bit search, __fls: six tests, the last without a shift; bits are counted from 0. */
  method FlsLong(word: nat) returns (num: int)
    requires 0 < word < 0x1_0000_0000_0000_0000
    ensures num + 1 == Significant(word)
  {
    var x;
    x, num := FlsHighByte(word);
    Pow2Values();
    x, num := Narrow(x, num, 4, 0x10, 0x1000_0000_0000_0000);
    x, num := Narrow(x, num, 2, 4, 0x4000_0000_0000_0000);
    TopBits(x);
    if x < 0x8000_0000_0000_0000 {
      num := num - 1;
    }
  }

  // ----- get_order -----

  /** BITS_PER_LONG and PAGE_SHIFT. */
  datatype Machine = Machine(bits: nat, pageShift: nat)

  predicate ValidMachine(m: Machine) { 0 < m.pageShift < m.bits }

  function PageSize(m: Machine): nat { Pow2(m.pageShift) }

  /** size-- on an unsigned long */
  function Decremented(m: Machine, size: nat): nat {
    Pow2Positive(m.bits);
    if size == 0 then Pow2(m.bits) - 1 else size - 1
  }

  /** size >> shift */
  function ShiftRight(x: nat, shift: nat): nat {
    if shift == 0 then x else ShiftRight(x / 2, shift - 1)
  }

  /** The runtime form, __get_order */
  function RuntimeOrder(m: Machine, size: nat): nat {
    Significant(ShiftRight(Decremented(m, size), m.pageShift))
  }

  /** The compile-time form; ilog2(x) is fls(x) - 1. */
  function ConstantOrder(m: Machine, n: nat): int {
    if n == 0 then m.bits - m.pageShift
    else if n < PageSize(m) then 0
    else (Significant(n - 1) - 1) - m.pageShift + 1
  }

  lemma {:induction false} ShiftRightSignificant(x: nat, shift: nat)
    ensures Significant(ShiftRight(x, shift)) == if Significant(x) > shift then Significant(x) - shift else 0
    decreases shift
  {
    if shift > 0 { ShiftRightSignificant(x / 2, shift - 1); }
  }

  /** For every size from 1 up, the order is the least k with size <= 2^k pages. */
  lemma OrderIsLeast(m: Machine, size: nat, k: nat)
    requires ValidMachine(m) && 0 < size
    ensures size <= Pow2(k) * PageSize(m) <==> RuntimeOrder(m, size) <= k
  {
    ShiftRightSignificant(size - 1, m.pageShift);
    SignificantExactly(size - 1, k + m.pageShift);
    Pow2Sum(k, m.pageShift);
  }

  /** __get_order on a 32-bit and on a 64-bit machine: the least order that holds `size`, and the whole word for 0. */
  method GetOrder(m: Machine, size: nat) returns (order: int)
    requires ValidMachine(m) && (m.bits == 32 || m.bits == 64) && size < Pow2(m.bits)
    ensures order == RuntimeOrder(m, size)
    ensures 0 < size ==> forall k: nat :: size <= Pow2(k) * PageSize(m) <==> order <= k
    ensures size == 0 ==> order == m.bits - m.pageShift
  {
    Pow2Values();
    FormsAgree(m, size);
    var x := ShiftRight(Decremented(m, size), m.pageShift);
    ShiftRightSmaller(Decremented(m, size), m.pageShift);
    if m.bits == 32 {
      order := Fls(x);
    } else if x == 0 {
      order := 0;
    } else {
      var num := FlsLong(x);
      order := num + 1;
    }
    if 0 < size {
      forall k: nat ensures size <= Pow2(k) * PageSize(m) <==> order <= k {
        OrderIsLeast(m, size, k);
      }
    }
  }

  lemma {:induction false} ShiftRightSmaller(x: nat, shift: nat)
    ensures ShiftRight(x, shift) <= x
    decreases shift
  {
    if shift > 0 { ShiftRightSmaller(x / 2, shift - 1); }
  }

  /** A size of at least one page needs at least as many bits as the page. */
  lemma BitsOfSize(m: Machine, n: nat)
    requires ValidMachine(m) && 0 < n
    ensures n < PageSize(m) ==> Significant(n - 1) <= m.pageShift
    ensures n >= PageSize(m) ==> Significant(n - 1) >= m.pageShift
  {
    SignificantExactly(n - 1, m.pageShift);
    SignificantExactly(n - 1, m.pageShift - 1);
    Pow2Positive(m.pageShift - 1);
  }

  /** The two forms agree on every unsigned long, 0 included, at every word size. */
  lemma FormsAgree(m: Machine, n: nat)
    requires ValidMachine(m)
    ensures ConstantOrder(m, n) == RuntimeOrder(m, n)
  {
    ShiftRightSignificant(Decremented(m, n), m.pageShift);
    if n == 0 {
      AllOnes(m.bits);
    } else {
      BitsOfSize(m, n);
    }
  }

  lemma {:induction false} AllOnes(bits: nat)
    ensures Pow2(bits) > 0 && Significant(Pow2(bits) - 1) == bits
  {
    if bits > 0 {
      AllOnes(bits - 1);
      assert (Pow2(bits) - 1) / 2 == Pow2(bits - 1) - 1;
    }
  }
}
