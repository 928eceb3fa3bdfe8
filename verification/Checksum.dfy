/**
 The Internet checksum fold (asm-generic/checksum.h) as section 1 of RFC 1071 uses it: 16-bit
 words are added with end-around carry, and a packet that carries the folded complement of the
 sum of its other words folds to 0.
 */
module Checksum {
  import opened Words

  /** sum = (sum & 0xffff) + (sum >> 16) */
  function FoldOnce(sum: UInt32): UInt32 { sum % 0x1_0000 + sum / 0x1_0000 }

  method CsumFold(csum: UInt32) returns (check: UInt16)
    ensures check == Fold(csum)
  {
    var sum: UInt32 := csum;
    sum := sum % 0x1_0000 + sum / 0x1_0000;
    sum := sum % 0x1_0000 + sum / 0x1_0000;
    FoldCongruent(csum);
    check := 0xffff - sum;
  }

  /** The complement of the one 16-bit number that is congruent to the sum, and 0 only for 0. */
  function Fold(sum: UInt32): UInt16 {
    0xffff - Reduce(sum)
  }

  /** The representative of a sum in 16-bit ones' complement arithmetic. */
  function Reduce(sum: nat): UInt16 {
    if sum == 0 then 0 else if sum % 0xffff == 0 then 0xffff else sum % 0xffff
  }

  /** Two folds always reach 16 bits, stay congruent modulo 65535, and reach 0 only from 0. */
  lemma FoldCongruent(sum: UInt32)
    ensures FoldOnce(FoldOnce(sum)) == Reduce(sum) < 0x1_0000
  {
    FoldKeepsResidue(sum);
    FoldKeepsResidue(FoldOnce(sum));
  }

  lemma FoldKeepsResidue(sum: UInt32)
    ensures FoldOnce(sum) % 0xffff == sum % 0xffff
    ensures FoldOnce(sum) == 0 <==> sum == 0
    ensures FoldOnce(sum) <= 0x1_fffe
    ensures sum <= 0x1_fffe ==> FoldOnce(sum) <= 0xffff
  {
    var hi, lo := sum / 0x1_0000, sum % 0x1_0000;
    assert sum == 0xffff * hi + (hi + lo);
  }

  /** 32-bit addition with end-around carry. */
  function AddCarry(sum: UInt32, word: UInt16): UInt32 {
    if sum + word < 0x1_0000_0000 then sum + word else sum + word - 0xffff_ffff
  }

  function Accumulate(sum: UInt32, words: seq<UInt16>): UInt32 {
    if words == [] then sum else AddCarry(Accumulate(sum, words[..|words| - 1]), words[|words| - 1])
  }

  function Total(words: seq<UInt16>): nat {
    if words == [] then 0 else Total(words[..|words| - 1]) + words[|words| - 1]
  }

  lemma AddCarryResidue(sum: UInt32, word: UInt16)
    ensures AddCarry(sum, word) % 0xffff == (sum + word) % 0xffff
    ensures AddCarry(sum, word) == 0 <==> sum + word == 0
  {
    assert 0xffff_ffff == 0xffff * 0x1_0001;
  }

  lemma {:induction false} AccumulateResidue(sum: UInt32, words: seq<UInt16>)
    ensures Accumulate(sum, words) % 0xffff == (sum + Total(words)) % 0xffff
    ensures Accumulate(sum, words) == 0 <==> sum + Total(words) == 0
    decreases |words|
  {
    if words != [] {
      var init, last := words[..|words| - 1], words[|words| - 1];
      AccumulateResidue(sum, init);
      AddCarryResidue(Accumulate(sum, init), last);
      SumResidue(Accumulate(sum, init), sum + Total(init), last);
    }
  }

  lemma SumResidue(a: nat, b: nat, c: nat)
    requires a % 0xffff == b % 0xffff
    ensures (a + c) % 0xffff == (b + c) % 0xffff
  {
  }

  /** A packet folds to 0 if and only if its words, not all 0, add up to a multiple of 65535. */
  lemma ChecksExactly(sum: UInt32, words: seq<UInt16>)
    ensures Fold(Accumulate(sum, words)) == 0 <==> sum + Total(words) > 0 && (sum + Total(words)) % 0xffff == 0
  {
    AccumulateResidue(sum, words);
  }

  lemma {:induction false} TotalInsert(xs: seq<UInt16>, word: UInt16, ys: seq<UInt16>)
    ensures Total(xs + [word] + ys) == Total(xs + ys) + word
    decreases |ys|
  {
    if ys == [] {
      assert (xs + [word] + ys)[..|xs|] == xs == xs + ys;
    } else {
      var init := ys[..|ys| - 1];
      assert (xs + [word] + ys)[..|xs| + |ys|] == xs + [word] + init;
      assert (xs + ys)[..|xs + ys| - 1] == xs + init;
      TotalInsert(xs, word, init);
    }
  }

  /** Wherever the checksum of the other words is put in the packet, the packet folds to 0. */
  lemma ChecksumVerifies(sum: UInt32, before: seq<UInt16>, after: seq<UInt16>)
    ensures var check := Fold(Accumulate(sum, before + after));
            Fold(Accumulate(sum, before + [check] + after)) == 0
  {
    var rest := sum + Total(before + after);
    var check := Fold(Accumulate(sum, before + after));
    AccumulateResidue(sum, before + after);
    TotalInsert(before, check, after);
    ChecksExactly(sum, before + [check] + after);
    ReduceComplement(rest, Accumulate(sum, before + after));
  }

  lemma ReduceComplement(total: nat, sum: UInt32)
    requires sum % 0xffff == total % 0xffff && (sum == 0 <==> total == 0)
    ensures (total + Fold(sum)) % 0xffff == 0 && total + Fold(sum) > 0
  {
  }

  /** Changing one word of a packet that checks is noticed unless 0x0000 and 0xffff are exchanged or the packet becomes all 0. */
  lemma OneWordChange(sum: UInt32, before: seq<UInt16>, word: UInt16, word': UInt16, after: seq<UInt16>)
    requires Fold(Accumulate(sum, before + [word] + after)) == 0 && word != word'
    ensures Fold(Accumulate(sum, before + [word'] + after)) == 0
            <==> {word, word'} == {0, 0xffff} && sum + Total(before + [word'] + after) > 0
  {
    TotalInsert(before, word, after);
    TotalInsert(before, word', after);
    ChecksExactly(sum, before + [word] + after);
    ChecksExactly(sum, before + [word'] + after);
    var rest := sum + Total(before + after);
    assert (rest + word) % 0xffff == 0;
    assert (rest + word') % 0xffff == 0 <==> {word, word'} == {0, 0xffff} by { Residues(rest, word, word'); }
  }

  lemma Residues(rest: nat, word: UInt16, word': UInt16)
    requires (rest + word) % 0xffff == 0 && word != word'
    ensures (rest + word') % 0xffff == 0 <==> (word == 0 && word' == 0xffff) || (word == 0xffff && word' == 0)
  {
  }
}
