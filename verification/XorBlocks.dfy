/**
 The RAID-5 XOR kernels (asm-generic/xor.h).  Four families of routines XOR one to four source
 blocks into a destination, line by line, eight words to a line.  A method stands for the four
 routines of its family; `srcs` holds the blocks p2 to p5.
 */
module XorBlocks {
  import opened Words

  /** An unsigned long of any width, and XOR bit by bit. */
  type Word = nat

  function Xor(a: Word, b: Word): Word {
    if a == 0 then b else 2 * Xor(a / 2, b / 2) + LowBit(a, b)
  }

  function LowBit(a: Word, b: Word): nat { if a % 2 == b % 2 then 0 else 1 }

  const WORDS_PER_LINE: nat := 8

  function Lines(bytes: nat, sizeofLong: nat): nat
    requires sizeofLong > 0
  {
    bytes / sizeofLong / WORDS_PER_LINE
  }

  /** The words the routines go over: their loops run before they test, so it is never less than a line. */
  function Touched(bytes: nat, sizeofLong: nat): nat
    requires sizeofLong > 0
  {
    WORDS_PER_LINE * if Lines(bytes, sizeofLong) == 0 then 1 else Lines(bytes, sizeofLong)
  }

  /** Bit k of a XOR b is set exactly when one of the two bits is. */
  lemma {:induction false} XorBits(a: Word, b: Word, k: nat)
    ensures Bit(Xor(a, b), k) <==> Bit(a, k) != Bit(b, k)
    decreases k
  {
    if k > 0 && a != 0 {
      XorBits(a / 2, b / 2, k - 1);
      assert Xor(a, b) / 2 == Xor(a / 2, b / 2);
    } else if a == 0 {
      NoBits(k);
    }
  }

  /** XOR stays within the width of its operands. */
  lemma {:induction false} XorFits(a: Word, b: Word, modulus: nat, bits: nat)
    requires modulus == Pow2(bits) && a < modulus && b < modulus
    ensures Xor(a, b) < modulus
    decreases bits
  {
    if bits > 0 { XorFits(a / 2, b / 2, Pow2(bits - 1), bits - 1); }
  }

  lemma {:induction false} XorZero(a: Word)
    ensures Xor(a, 0) == a && Xor(0, a) == a
  {
    if a != 0 { XorZero(a / 2); }
  }

  lemma {:induction false} XorCommutes(a: Word, b: Word)
    ensures Xor(a, b) == Xor(b, a)
  {
    XorZero(a);
    XorZero(b);
    if a != 0 && b != 0 { XorCommutes(a / 2, b / 2); }
  }

  lemma {:induction false} XorAssociative(a: Word, b: Word, c: Word)
    ensures Xor(Xor(a, b), c) == Xor(a, Xor(b, c))
  {
    XorZero(Xor(b, c));
    if a != 0 && b != 0 {
      XorAssociative(a / 2, b / 2, c / 2);
      HalfXor(a, b);
      HalfXor(b, c);
      HalfXor(Xor(a, b), c);
      HalfXor(a, Xor(b, c));
    } else if b == 0 {
      XorZero(a);
      XorZero(c);
    }
  }

  lemma HalfXor(a: Word, b: Word)
    ensures Xor(a, b) / 2 == Xor(a / 2, b / 2) && Xor(a, b) % 2 == LowBit(a, b)
  {
    if a != 0 {
      HalfOf(Xor(a / 2, b / 2), LowBit(a, b));
    }
  }

  lemma HalfOf(half: nat, bit: nat)
    requires bit <= 1
    ensures (2 * half + bit) / 2 == half && (2 * half + bit) % 2 == bit
  {
  }

  lemma {:induction false} XorSelf(a: Word)
    ensures Xor(a, a) == 0
  {
    if a != 0 { XorSelf(a / 2); }
  }

  lemma XorCancels(a: Word, b: Word)
    ensures Xor(Xor(a, b), a) == b && Xor(a, Xor(a, b)) == b
  {
    XorAssociative(a, a, b);
    XorSelf(a);
    XorZero(b);
    XorCommutes(Xor(a, b), a);
  }

  lemma XorSwap(a: Word, b: Word, c: Word)
    ensures Xor(a, Xor(b, c)) == Xor(Xor(a, c), b)
  {
    XorCommutes(b, c);
    XorAssociative(a, c, b);
  }

  // ----- what XORing blocks means -----

  /** The XOR of the blocks' words at index i. */
  function ColumnXor(blocks: seq<seq<Word>>, i: nat): Word
    requires forall k :: 0 <= k < |blocks| ==> i < |blocks[k]|
  {
    if blocks == [] then 0
    else Xor(ColumnXor(blocks[..|blocks| - 1], i), blocks[|blocks| - 1][i])
  }

  ghost predicate Cover(blocks: seq<seq<Word>>, n: nat) {
    forall k :: 0 <= k < |blocks| ==> n <= |blocks[k]|
  }

  /** Blocks may be XORed in any grouping. */
  lemma {:induction false} ColumnXorConcat(xs: seq<seq<Word>>, ys: seq<seq<Word>>, i: nat)
    requires Cover(xs, i + 1) && Cover(ys, i + 1)
    ensures ColumnXor(xs + ys, i) == Xor(ColumnXor(xs, i), ColumnXor(ys, i))
    decreases |ys|
  {
    if ys == [] {
      assert xs + ys == xs;
      XorZero(ColumnXor(xs, i));
    } else {
      var init, last := ys[..|ys| - 1], ys[|ys| - 1];
      assert (xs + ys)[..|xs + ys| - 1] == xs + init;
      ColumnXorConcat(xs, init, i);
      XorAssociative(ColumnXor(xs, i), ColumnXor(init, i), last[i]);
    }
  }

  /** Taking one block out takes its word out. */
  lemma ColumnXorWithout(blocks: seq<seq<Word>>, lost: nat, i: nat)
    requires lost < |blocks| && Cover(blocks, i + 1)
    ensures ColumnXor(blocks, i) == Xor(ColumnXor(blocks[..lost] + blocks[lost + 1..], i), blocks[lost][i])
  {
    var before, after := blocks[..lost], blocks[lost + 1..];
    assert blocks == before + ([blocks[lost]] + after);
    assert ColumnXor([blocks[lost]], i) == blocks[lost][i] by {
      assert [blocks[lost]][..0] == blocks[..0];
    }
    ColumnXorConcat([blocks[lost]], after, i);
    ColumnXorConcat(before, [blocks[lost]] + after, i);
    ColumnXorConcat(before, after, i);
    XorSwap(ColumnXor(before, i), blocks[lost][i], ColumnXor(after, i));
  }

  lemma MultisetWithout<T>(xs: seq<T>, j: nat)
    requires j < |xs|
    ensures multiset(xs[..j] + xs[j + 1..]) == multiset(xs) - multiset{xs[j]}
  {
    assert xs == xs[..j] + ([xs[j]] + xs[j + 1..]);
  }

  lemma WithoutBoth<T>(xs: seq<T>, ys: seq<T>, i: nat, j: nat)
    requires i < |xs| && j < |ys| && xs[i] == ys[j] && multiset(xs) == multiset(ys)
    ensures multiset(xs[..i] + xs[i + 1..]) == multiset(ys[..j] + ys[j + 1..])
  {
    MultisetWithout(xs, i);
    MultisetWithout(ys, j);
  }

  lemma Occurrence<T>(xs: seq<T>, ys: seq<T>, k: nat) returns (j: nat)
    requires k < |xs| && multiset(xs) == multiset(ys)
    ensures j < |ys| && ys[j] == xs[k]
  {
    assert xs[k] in multiset(xs);
    assert xs[k] in multiset(ys);
    j :| j < |ys| && ys[j] == xs[k];
  }

  /** Blocks may be XORed in any order. */
  lemma {:induction false} ColumnXorAnyOrder(xs: seq<seq<Word>>, ys: seq<seq<Word>>, i: nat)
    requires Cover(xs, i + 1) && Cover(ys, i + 1) && multiset(xs) == multiset(ys)
    ensures ColumnXor(xs, i) == ColumnXor(ys, i)
    decreases |xs|
  {
    if xs == [] {
      assert |multiset(ys)| == 0;
    } else {
      var last := |xs| - 1;
      var j := Occurrence(xs, ys, last);
      var xs', ys' := xs[..last], ys[..j] + ys[j + 1..];
      WithoutBoth(xs, ys, last, j);
      assert xs[..last] + xs[last + 1..] == xs';
      assert Cover(xs', i + 1) && Cover(ys', i + 1);
      ColumnXorAnyOrder(xs', ys', i);
      ColumnXorWithout(ys, j, i);
    }
  }

  /** RAID-5: any lost block is the XOR of the parity and the survivors. */
  lemma LostBlockRecovered(data: seq<seq<Word>>, parity: seq<Word>, lost: nat, i: nat)
    requires lost < |data| && Cover(data, i + 1) && i < |parity|
    requires parity[i] == ColumnXor(data, i)
    ensures Xor(parity[i], ColumnXor(data[..lost] + data[lost + 1..], i)) == data[lost][i]
  {
    ColumnXorWithout(data, lost, i);
    XorCancels(ColumnXor(data[..lost] + data[lost + 1..], i), data[lost][i]);
  }

  // ----- the kernels -----

  ghost function Contents(srcs: seq<array<Word>>): seq<seq<Word>>
    reads srcs
  {
    seq(|srcs|, k requires 0 <= k < |srcs| reads srcs => srcs[k][..])
  }

  /** Memory for the words touched; sources may overlap the destination. */
  ghost predicate Ready(bytes: nat, sizeofLong: nat, p1: array<Word>, srcs: seq<array<Word>>) {
    && sizeofLong > 0 && 1 <= |srcs| <= 4
    && Touched(bytes, sizeofLong) <= p1.Length
    && forall k :: 0 <= k < |srcs| ==> Touched(bytes, sizeofLong) <= srcs[k].Length
  }

  /** The first n words of the block are XORed with the sources' old words, the others are as before. */
  ghost predicate Xored(now: seq<Word>, was: seq<Word>, srcs: seq<seq<Word>>, n: nat)
    requires Cover(srcs, n)
  {
    && |now| == |was| && n <= |was|
    && (forall i :: 0 <= i < n ==> now[i] == Xor(was[i], ColumnXor(srcs, i)))
    && (forall i :: n <= i < |was| ==> now[i] == was[i])
  }

  /** Source words not yet reached are as before, also when a source is the destination itself. */
  ghost predicate Unreached(srcs: seq<array<Word>>, was: seq<seq<Word>>, n: nat)
    reads srcs
  {
    |was| == |srcs| &&
    forall k :: 0 <= k < |srcs| ==>
      |was[k]| == srcs[k].Length && forall i :: n <= i < srcs[k].Length ==> srcs[k][i] == was[k][i]
  }

  /** p1[j] ^= p2[j] ^ p3[j] ^ ... for the eight words of a line. */
  method XorLine8(p1: array<Word>, srcs: seq<array<Word>>, base: nat, ghost was: seq<Word>, ghost was': seq<seq<Word>>)
    requires |srcs| >= 1 && base + WORDS_PER_LINE <= p1.Length && Cover(was', base + WORDS_PER_LINE)
    requires Unreached(srcs, was', base) && Xored(p1[..], was, was', base)
    modifies p1
    ensures Unreached(srcs, was', base + WORDS_PER_LINE) && Xored(p1[..], was, was', base + WORDS_PER_LINE)
  {
    for j := 0 to WORDS_PER_LINE
      invariant Unreached(srcs, was', base + j) && Xored(p1[..], was, was', base + j)
    {
      var i := base + j;
      var x := srcs[0][i];
      assert was'[..1][..0] == [];
      for k := 1 to |srcs|
        invariant x == ColumnXor(was'[..k], i)
      {
        assert was'[..k + 1][..k] == was'[..k];
        x := Xor(x, srcs[k][i]);
      }
      assert was'[..|srcs|] == was';
      p1[i] := Xor(p1[i], x);
    }
  }

  /** The line is loaded into eight registers, XORed with one source after the other, and stored. */
  method XorLine32(p1: array<Word>, srcs: seq<array<Word>>, base: nat, ghost was: seq<Word>, ghost was': seq<seq<Word>>)
    requires |srcs| >= 1 && base + WORDS_PER_LINE <= p1.Length && Cover(was', base + WORDS_PER_LINE)
    requires Unreached(srcs, was', base) && Xored(p1[..], was, was', base)
    modifies p1
    ensures Unreached(srcs, was', base + WORDS_PER_LINE) && Xored(p1[..], was, was', base + WORDS_PER_LINE)
  {
    var d := XorRegisters(p1, srcs, base, was');
    for j := 0 to WORDS_PER_LINE
      invariant Unreached(srcs, was', base + j) && Xored(p1[..], was, was', base + j)
    {
      p1[base + j] := d[j];
    }
  }

  method XorSource(regs: seq<Word>, src: array<Word>, base: nat) returns (d: seq<Word>)
    requires |regs| == WORDS_PER_LINE && base + WORDS_PER_LINE <= src.Length
    ensures |d| == WORDS_PER_LINE && forall j :: 0 <= j < WORDS_PER_LINE ==> d[j] == Xor(regs[j], src[base + j])
  {
    d := regs;
    for j := 0 to WORDS_PER_LINE
      invariant |d| == WORDS_PER_LINE
      invariant forall m :: 0 <= m < j ==> d[m] == Xor(regs[m], src[base + m])
      invariant forall m :: j <= m < WORDS_PER_LINE ==> d[m] == regs[m]
    {
      d := d[j := Xor(d[j], src[base + j])];
    }
  }

  /** d0..d7 after every source has been XORed in. */
  method XorRegisters(p1: array<Word>, srcs: seq<array<Word>>, base: nat, ghost was': seq<seq<Word>>)
    returns (d: seq<Word>)
    requires base + WORDS_PER_LINE <= p1.Length && Cover(was', base + WORDS_PER_LINE) && Unreached(srcs, was', base)
    ensures |d| == WORDS_PER_LINE
    ensures forall j :: 0 <= j < WORDS_PER_LINE ==> d[j] == Xor(p1[base + j], ColumnXor(was', base + j))
  {
    d := p1[base..base + WORDS_PER_LINE];
    forall j | 0 <= j < WORDS_PER_LINE ensures d[j] == Xor(p1[base + j], ColumnXor(was'[..0], base + j)) {
      XorZero(p1[base + j]);
    }
    for k := 0 to |srcs|
      invariant |d| == WORDS_PER_LINE
      invariant forall j :: 0 <= j < WORDS_PER_LINE ==> d[j] == Xor(p1[base + j], ColumnXor(was'[..k], base + j))
    {
      assert was'[..k + 1][..k] == was'[..k];
      d := XorSource(d, srcs[k], base);
      forall j | 0 <= j < WORDS_PER_LINE
        ensures d[j] == Xor(p1[base + j], ColumnXor(was'[..k + 1], base + j))
      {
        XorAssociative(p1[base + j], ColumnXor(was'[..k], base + j), was'[k][base + j]);
      }
    }
    assert was'[..|srcs|] == was';
  }

  /** The four template families: whether a line goes through registers, and whether the loop prefetches. */
  datatype Template = Regs8 | Regs32 | Regs8Prefetch | Regs32Prefetch

  /**
   The plain routines, xor_8regs_2..5 and xor_32regs_2..5: do { ... } while (--lines > 0).
   They XOR exactly bytes / sizeof(long) / 8 lines, or one line if that is 0.
   */
  method XorPlain(registers: bool, bytes: nat, sizeofLong: nat, p1: array<Word>, srcs: seq<array<Word>>)
    requires Ready(bytes, sizeofLong, p1, srcs)
    modifies p1
    ensures Xored(p1[..], old(p1[..]), old(Contents(srcs)), Touched(bytes, sizeofLong))
  {
    ghost var was, was' := p1[..], Contents(srcs);
    ghost var n := Touched(bytes, sizeofLong);
    var lines: int := Lines(bytes, sizeofLong);
    var base := 0;
    while true
      invariant 0 <= lines && base + WORDS_PER_LINE * (if lines == 0 then 1 else lines) == n
      invariant Unreached(srcs, was', base) && Xored(p1[..], was, was', base)
      decreases lines
    {
      if registers {
        XorLine32(p1, srcs, base, was, was');
      } else {
        XorLine8(p1, srcs, base, was, was');
      }
      base := base + WORDS_PER_LINE;
      lines := lines - 1;
      if !(lines > 0) {
        break;
      }
    }
  }

  /**
   The prefetching routines, xor_8regs_p_2..5 and xor_32regs_p_2..5: one line fewer in the loop, and
   `goto once_more` back into its body for the last line, which must not prefetch beyond the block.
   */
  method XorPrefetch(registers: bool, bytes: nat, sizeofLong: nat, p1: array<Word>, srcs: seq<array<Word>>)
    requires Ready(bytes, sizeofLong, p1, srcs)
    modifies p1
    ensures Xored(p1[..], old(p1[..]), old(Contents(srcs)), Touched(bytes, sizeofLong))
  {
    ghost var was, was' := p1[..], Contents(srcs);
    ghost var n := Touched(bytes, sizeofLong);
    var lines: int := Lines(bytes, sizeofLong) - 1;
    var base := 0;
    while true
      invariant -1 <= lines && base + WORDS_PER_LINE * (if lines < 0 then 1 else lines + 1) == n
      invariant Unreached(srcs, was', base) && Xored(p1[..], was, was', base)
      decreases lines
    {
      if registers {
        XorLine32(p1, srcs, base, was, was');
      } else {
        XorLine8(p1, srcs, base, was, was');
      }
      base := base + WORDS_PER_LINE;
      lines := lines - 1;
      if lines > 0 {
        continue;
      }
      if lines == 0 {
        continue;  // goto once_more
      }
      break;
    }
  }

  /** do_2 to do_5 of any of the four templates: they all compute the same. */
  method XorBlock(template: Template, bytes: nat, sizeofLong: nat, p1: array<Word>, srcs: seq<array<Word>>)
    requires Ready(bytes, sizeofLong, p1, srcs)
    modifies p1
    ensures Xored(p1[..], old(p1[..]), old(Contents(srcs)), Touched(bytes, sizeofLong))
  {
    match template
    case Regs8 => XorPlain(false, bytes, sizeofLong, p1, srcs);
    case Regs32 => XorPlain(true, bytes, sizeofLong, p1, srcs);
    case Regs8Prefetch => XorPrefetch(false, bytes, sizeofLong, p1, srcs);
    case Regs32Prefetch => XorPrefetch(true, bytes, sizeofLong, p1, srcs);
  }

  // ----- blocks of less than a line -----

  lemma TouchedExactly(bytes: nat, sizeofLong: nat)
    requires sizeofLong > 0
    ensures Touched(bytes, sizeofLong) == WORDS_PER_LINE * Lines(bytes, sizeofLong)
            <==> bytes >= WORDS_PER_LINE * sizeofLong
  {
    var words := bytes / sizeofLong;
    assert bytes == words * sizeofLong + bytes % sizeofLong;
    if words < WORDS_PER_LINE {
      MulOrdered(words, WORDS_PER_LINE - 1, sizeofLong);
    } else {
      MulOrdered(WORDS_PER_LINE, words, sizeofLong);
    }
  }

  lemma MulOrdered(a: nat, b: nat, c: nat)
    requires a <= b
    ensures a * c <= b * c
  {
  }

  /** From one line up, the words gone over are the most whole lines of eight words that fit in the block. */
  lemma TouchedIsWholeLines(bytes: nat, sizeofLong: nat)
    requires sizeofLong > 0 && bytes >= 8 * sizeofLong
    ensures var n := Touched(bytes, sizeofLong);
            n % 8 == 0 && n * sizeofLong <= bytes < (n + 8) * sizeofLong
  {
    TouchedExactly(bytes, sizeofLong);
    var words, n := bytes / sizeofLong, Touched(bytes, sizeofLong);
    assert n <= words < n + 8;
    MulOrdered(n, words, sizeofLong);
    MulOrdered(words + 1, n + 8, sizeofLong);
    assert (words + 1) * sizeofLong == words * sizeofLong + sizeofLong;
  }

  /** A block of whole lines is gone over to its last word. */
  lemma WholeBlockTouched(lines: nat, sizeofLong: nat)
    requires sizeofLong > 0 && lines > 0
    ensures Touched(8 * lines * sizeofLong, sizeofLong) == 8 * lines
  {
    var n := Touched(8 * lines * sizeofLong, sizeofLong);
    MulOrdered(8, 8 * lines, sizeofLong);
    TouchedIsWholeLines(8 * lines * sizeofLong, sizeofLong);
    MulCancel(8 * lines, n + 8, sizeofLong);
    assert (8 * lines + 1) * sizeofLong == 8 * lines * sizeofLong + sizeofLong;
    MulCancel(n, 8 * lines + 1, sizeofLong);
  }

  lemma MulCancel(a: nat, b: nat, c: nat)
    requires a * c < b * c
    ensures a < b
  {
    if b <= a { MulOrdered(b, a, c); }
  }

  /** Nothing changed beyond the words of the block. */
  ghost predicate OnlyBlock(now: seq<Word>, was: seq<Word>, words: nat) {
    |now| == |was| && forall i :: words <= i < |was| ==> now[i] == was[i]
  }

  /** Whatever the blocks hold, the routines change nothing beyond the block. */
  ghost predicate StaysInBlock(bytes: nat, sizeofLong: nat)
    requires sizeofLong > 0
  {
    forall now: seq<Word>, was: seq<Word>, srcs: seq<seq<Word>> |
      Cover(srcs, Touched(bytes, sizeofLong)) && Xored(now, was, srcs, Touched(bytes, sizeofLong)) ::
      OnlyBlock(now, was, bytes / sizeofLong)
  }

  /** On a block of less than a line, word 7 lies beyond it and turns from 0 to 1. */
  lemma ShortBlockSpills(bytes: nat, sizeofLong: nat)
    requires sizeofLong > 0 && bytes < WORDS_PER_LINE * sizeofLong
    ensures bytes / sizeofLong <= 7 && !StaysInBlock(bytes, sizeofLong)
  {
    TouchedExactly(bytes, sizeofLong);
    var was: seq<Word>, ones: seq<Word> := seq(WORDS_PER_LINE, _ => 0), seq(WORDS_PER_LINE, _ => 1);
    var srcs: seq<seq<Word>> := [ones];
    assert srcs[..0] == [];
    assert Xored(ones, was, srcs, Touched(bytes, sizeofLong));
    assert ones[7] != was[7];
    assert !OnlyBlock(ones, was, bytes / sizeofLong);
  }

  /** The routines stay within the block if and only if it has at least one line. */
  lemma StaysInBlockExactly(bytes: nat, sizeofLong: nat)
    requires sizeofLong > 0
    ensures StaysInBlock(bytes, sizeofLong) <==> bytes >= WORDS_PER_LINE * sizeofLong
  {
    TouchedExactly(bytes, sizeofLong);
    if bytes < WORDS_PER_LINE * sizeofLong { ShortBlockSpills(bytes, sizeofLong); }
  }

  // ----- recovery -----

  /** One call of a template on one to four sources. */
  datatype Call = Call(template: Template, srcs: seq<array<Word>>)

  function Flatten<T>(groups: seq<seq<T>>): seq<T> {
    if groups == [] then [] else Flatten(groups[..|groups| - 1]) + groups[|groups| - 1]
  }

  /** The calls' sources hold the given blocks and none of them is the destination. */
  ghost predicate Holds(calls: seq<Call>, groups: seq<seq<seq<Word>>>, bytes: nat, sizeofLong: nat, p1: array<Word>)
    reads set c, k | 0 <= c < |calls| && 0 <= k < |calls[c].srcs| :: calls[c].srcs[k]
  {
    |groups| == |calls| &&
    forall c :: 0 <= c < |calls| ==>
      && Ready(bytes, sizeofLong, p1, calls[c].srcs) && p1 !in calls[c].srcs
      && Contents(calls[c].srcs) == groups[c]
  }

  /** Each word below n is the starting word XORed with the given blocks. */
  ghost predicate Accumulated(now: seq<Word>, start: seq<Word>, blocks: seq<seq<Word>>, n: nat) {
    && |now| == |start| && n <= |start| && Cover(blocks, n)
    && forall i :: 0 <= i < n ==> now[i] == Xor(start[i], ColumnXor(blocks, i))
  }

  lemma AccumulateOne(now: seq<Word>, before: seq<Word>, start: seq<Word>,
                      done: seq<seq<Word>>, group: seq<seq<Word>>, n: nat)
    requires Accumulated(before, start, done, n) && Cover(group, n) && Xored(now, before, group, n)
    ensures Accumulated(now, start, done + group, n)
  {
    forall i | 0 <= i < n ensures now[i] == Xor(start[i], ColumnXor(done + group, i)) {
      ColumnXorConcat(done, group, i);
      XorAssociative(start[i], ColumnXor(done, i), ColumnXor(group, i));
    }
  }

  lemma AccumulateNone(start: seq<Word>, n: nat)
    requires n <= |start|
    ensures Accumulated(start, start, [], n)
  {
    forall i | 0 <= i < n ensures start[i] == Xor(start[i], ColumnXor([], i)) {
      XorZero(start[i]);
    }
  }

  /** A run of calls XORs all their sources into the destination. */
  method Accumulate(bytes: nat, sizeofLong: nat, p1: array<Word>, calls: seq<Call>,
                    ghost groups: seq<seq<seq<Word>>>, ghost n: nat)
    requires sizeofLong > 0 && n == Touched(bytes, sizeofLong) <= p1.Length
    requires Holds(calls, groups, bytes, sizeofLong, p1)
    modifies p1
    ensures Accumulated(p1[..], old(p1[..]), Flatten(groups), n)
  {
    ghost var start := p1[..];
    AccumulateNone(start, n);
    for c := 0 to |calls|
      invariant Holds(calls, groups, bytes, sizeofLong, p1)
      invariant Accumulated(p1[..], start, Flatten(groups[..c]), n)
    {
      ghost var before := p1[..];
      assert groups[..c + 1][..c] == groups[..c];
      XorBlock(calls[c].template, bytes, sizeofLong, p1, calls[c].srcs);
      AccumulateOne(p1[..], before, start, Flatten(groups[..c]), groups[c], n);
    }
    assert groups[..|calls|] == groups;
  }

  /**
   Recovery of a lost block, starting from the parity in p1: the survivors may be taken in any order,
   in any groups of one to four, each group with any template.
   */
  method Recover(bytes: nat, sizeofLong: nat, p1: array<Word>, calls: seq<Call>,
                 ghost groups: seq<seq<seq<Word>>>, ghost data: seq<seq<Word>>, ghost lost: nat, ghost n: nat)
    requires sizeofLong > 0 && n == Touched(bytes, sizeofLong) <= p1.Length
    requires Holds(calls, groups, bytes, sizeofLong, p1)
    requires Cover(data, n) && lost < |data| && forall i :: 0 <= i < n ==> p1[i] == ColumnXor(data, i)
    requires multiset(Flatten(groups)) == multiset(data[..lost] + data[lost + 1..])
    modifies p1
    ensures forall i :: 0 <= i < n ==> p1[i] == data[lost][i]
  {
    ghost var parity := p1[..];
    Accumulate(bytes, sizeofLong, p1, calls, groups, n);
    forall i | 0 <= i < n ensures p1[i] == data[lost][i] {
      ColumnXorAnyOrder(Flatten(groups), data[..lost] + data[lost + 1..], i);
      LostBlockRecovered(data, parity, lost, i);
    }
  }

  /** A lost block of whole lines is recovered to its last word. */
  method RecoverBlock(lines: nat, sizeofLong: nat, p1: array<Word>, calls: seq<Call>,
                      ghost groups: seq<seq<seq<Word>>>, ghost data: seq<seq<Word>>, ghost lost: nat)
    requires sizeofLong > 0 && lines > 0 && p1.Length == 8 * lines
    requires Holds(calls, groups, 8 * lines * sizeofLong, sizeofLong, p1)
    requires lost < |data| && (forall k :: 0 <= k < |data| ==> |data[k]| == 8 * lines)
    requires forall i :: 0 <= i < 8 * lines ==> p1[i] == ColumnXor(data, i)
    requires multiset(Flatten(groups)) == multiset(data[..lost] + data[lost + 1..])
    modifies p1
    ensures p1[..] == data[lost]
  {
    WholeBlockTouched(lines, sizeofLong);
    Recover(8 * lines * sizeofLong, sizeofLong, p1, calls, groups, data, lost, 8 * lines);
  }
}
