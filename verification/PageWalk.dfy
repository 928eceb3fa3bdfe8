/**
 Page-table range walking (asm-generic/pgtable.h, pgtable-nopud.h, pgtable-nopmd.h).

 Addresses are unsigned words modulo W.  A range runs from `addr` up to `end`, and `end` may be
 0, which stands for the top of memory.  The boundary that `addr_end` computes may itself wrap
 to 0; the comparison of predecessors makes both cases come out right.
 */
module PageWalk {
  import opened Words

  /** x is a multiple of the positive number size. */
  predicate Multiple(size: nat, x: nat) {
    size > 0 && (x == 0 || (x >= size && Multiple(size, x - size)))
  }

  /** The reach of one table entry divides the larger ones and W: all are powers of two. */
  predicate Divides(size: nat, whole: nat) {
    Multiple(size, whole) && whole > 0
  }

  /** x & MASK: the largest multiple of size up to x. */
  function Mask(size: nat, x: nat): nat
    requires size > 0
  {
    if x < size then 0 else size + Mask(size, x - size)
  }

  lemma {:induction false} MaskIsProduct(size: nat, x: nat) returns (q: nat)
    requires size > 0
    ensures Mask(size, x) == q * size <= x < q * size + size
  {
    q := 0;
    if x >= size {
      q := MaskIsProduct(size, x - size);
      assert (q + 1) * size == q * size + size;
      q := q + 1;
    }
  }

  /** Masking removes the remainder. */
  lemma MaskIsRemainderRemoved(size: nat, x: nat)
    requires size > 0
    ensures Mask(size, x) == x - x % size
  {
    var q := MaskIsProduct(size, x);
    var d := x / size - q;
    assert d * size == (x / size) * size - q * size;
    if d != 0 { MultiplesApart(d, size); }
  }

  lemma {:induction false} MaskHalf(size: nat, x: nat)
    requires size > 0
    ensures Mask(2 * size, x) == 2 * Mask(size, x / 2)
    decreases x
  {
    if x >= 2 * size { MaskHalf(size, x - 2 * size); }
  }

  /** Bit by bit, Mask is the macros' x & ~(SIZE - 1). */
  lemma {:induction false} MaskIsAnd(shift: nat, x: nat, k: nat)
    requires Pow2(shift) > 0
    ensures Bit(Mask(Pow2(shift), x), k) <==> Bit(x, k) && !Bit(Pow2(shift) - 1, k)
    decreases shift
  {
    if shift == 0 {
      MaskOne(x);
      NoBits(k);
    } else {
      var half := Pow2(shift - 1);
      Pow2Positive(shift - 1);
      MaskHalf(half, x);
      BitOfDouble(Mask(half, x / 2), 0, k);
      BitOfDouble(half - 1, 1, k);
      BitOfDouble(x / 2, x % 2, k);
      assert 2 * (x / 2) + x % 2 == x && 2 * (half - 1) + 1 == Pow2(shift) - 1;
      if k > 0 { MaskIsAnd(shift - 1, x / 2, k - 1); }
    }
  }

  lemma {:induction false} MaskOne(x: nat)
    ensures Mask(1, x) == x
  {
    if x > 0 { MaskOne(x - 1); }
  }

  /** Where the range ends, as a number: 0 is the top of memory. */
  function Top(w: nat, end: nat): nat { if end == 0 then w else end }

  ghost predicate Range(w: nat, addr: nat, end: nat) {
    addr < Top(w, end) && end < w
  }

  /** x + y and x - 1 on unsigned words. */
  function Plus(w: nat, x: nat, y: nat): nat
    requires x < w && y <= w
  {
    if x + y >= w then x + y - w else x + y
  }

  function Pred(w: nat, x: nat): nat
    requires x < w
  {
    if x == 0 then w - 1 else x - 1
  }

  /** ({ boundary = (addr + SIZE) & MASK; (boundary - 1 < end - 1) ? boundary : end; }) */
  function AddrEnd(w: nat, size: nat, addr: nat, end: nat): nat
    requires 0 < size <= w && addr < w && end < w
  {
    var boundary := Mask(size, Plus(w, addr, size));
    MaskFacts(size, Plus(w, addr, size));
    if Pred(w, boundary) < Pred(w, end) then boundary else end
  }

  /** The first entry boundary above addr. */
  function RoundUp(size: nat, addr: nat): nat
    requires size > 0
  {
    Mask(size, addr) + size
  }

  function Min(a: int, b: int): int { if a < b then a else b }

  // ----- multiples -----

  lemma {:induction false} MaskFacts(size: nat, x: nat)
    requires size > 0
    ensures Mask(size, x) <= x < Mask(size, x) + size
    ensures Multiple(size, Mask(size, x)) && Multiple(size, RoundUp(size, x))
  {
    if x >= size { MaskFacts(size, x - size); }
  }

  lemma {:induction false} MultipleStep(size: nat, x: nat, y: nat)
    requires Multiple(size, x) && Multiple(size, y) && x < y
    ensures x + size <= y
  {
    if x > 0 { MultipleStep(size, x - size, y - size); }
  }

  lemma {:induction false} MultipleSum(size: nat, x: nat, y: nat)
    requires Multiple(size, x) && Multiple(size, y)
    ensures Multiple(size, x + y)
    decreases x
  {
    if x > 0 { MultipleSum(size, x - size, y); }
  }

  lemma {:induction false} MultipleTransitive(small: nat, large: nat, x: nat)
    requires Divides(small, large) && Multiple(large, x)
    ensures Multiple(small, x)
    decreases x
  {
    if x > 0 {
      MultipleTransitive(small, large, x - large);
      MultipleSum(small, large, x - large);
    }
  }

  /** The next boundary is the least multiple above addr. */
  lemma RoundUpLeast(size: nat, addr: nat, x: nat)
    requires Multiple(size, x) && addr < x
    ensures addr < RoundUp(size, addr) <= x && Multiple(size, RoundUp(size, addr))
  {
    MaskFacts(size, addr);
    MultipleStep(size, Mask(size, addr), x);
  }

  // ----- one step -----

  /** The boundary as the macro computes it: the next multiple, or 0 when that is the top of memory. */
  lemma Boundary(w: nat, size: nat, addr: nat)
    requires Divides(size, w) && addr < w
    ensures RoundUp(size, addr) <= w
    ensures Mask(size, Plus(w, addr, size)) == if RoundUp(size, addr) == w then 0 else RoundUp(size, addr)
  {
    MaskFacts(size, addr);
    RoundUpLeast(size, addr, w);
    if RoundUp(size, addr) < w {
      MultipleStep(size, RoundUp(size, addr), w);
    }
  }

  /** addr_end is the next boundary or the end of the range, whichever comes first, wrap-around included. */
  lemma AddrEndExact(w: nat, size: nat, addr: nat, end: nat)
    requires Divides(size, w) && Range(w, addr, end)
    ensures var next := AddrEnd(w, size, addr, end);
            && next < w
            && Top(w, next) == Min(RoundUp(size, addr), Top(w, end))
            && addr < Top(w, next) <= Top(w, end)
            && (next == end <==> Top(w, end) <= RoundUp(size, addr))
            && (next != end ==> 0 < next == RoundUp(size, addr) && Multiple(size, next))
  {
    Boundary(w, size, addr);
    MaskFacts(size, addr);
  }

  // ----- the walk -----

  datatype Chunk = Chunk(addr: nat, next: nat)

  /** do { next = addr_end(addr, end); ... } while (addr = next, addr != end) */
  function Walk(w: nat, size: nat, addr: nat, end: nat): seq<Chunk>
    requires Divides(size, w) && Range(w, addr, end)
    decreases Top(w, end) - addr
  {
    AddrEndExact(w, size, addr, end);
    var next := AddrEnd(w, size, addr, end);
    [Chunk(addr, next)] + if next == end then [] else Walk(w, size, next, end)
  }

  lemma WalkUnfolds(w: nat, size: nat, addr: nat, end: nat)
    requires Divides(size, w) && Range(w, addr, end)
    ensures var next := AddrEnd(w, size, addr, end);
            if next == end then Walk(w, size, addr, end) == [Chunk(addr, next)]
            else Range(w, next, end) && Walk(w, size, addr, end) == [Chunk(addr, next)] + Walk(w, size, next, end)
  {
    AddrEndExact(w, size, addr, end);
  }

  ghost predicate InOneEntry(w: nat, size: nat, c: Chunk)
    requires size > 0
  {
    c.addr < Top(w, c.next) && Top(w, c.next) <= RoundUp(size, c.addr)
  }

  /** The chunks follow each other from addr to end, each within one entry, cut only at entry boundaries. */
  ghost predicate Partition(w: nat, size: nat, chunks: seq<Chunk>, addr: nat, end: nat)
    requires size > 0
  {
    && chunks != [] && chunks[0].addr == addr && chunks[|chunks| - 1].next == end
    && (forall i :: 0 <= i < |chunks| ==> InOneEntry(w, size, chunks[i]))
    && (forall i :: 0 <= i < |chunks| - 1 ==>
          && 0 < chunks[i].next == chunks[i + 1].addr
          && Multiple(size, chunks[i].next))
  }

  /** The walk of any non-empty range ends, and its chunks partition the range. */
  lemma {:induction false} WalkPartitions(w: nat, size: nat, addr: nat, end: nat)
    requires Divides(size, w) && Range(w, addr, end)
    ensures Partition(w, size, Walk(w, size, addr, end), addr, end)
    decreases Top(w, end) - addr
  {
    AddrEndExact(w, size, addr, end);
    var next := AddrEnd(w, size, addr, end);
    if next != end {
      WalkPartitions(w, size, next, end);
      var rest := Walk(w, size, next, end);
      var chunks := Walk(w, size, addr, end);
      assert forall i :: 1 <= i < |chunks| ==> chunks[i] == rest[i - 1];
    }
  }

  /** The number of chunks that hold address x. */
  function Holding(w: nat, chunks: seq<Chunk>, x: nat): nat {
    if chunks == [] then 0
    else (if chunks[0].addr <= x < Top(w, chunks[0].next) then 1 else 0) + Holding(w, chunks[1..], x)
  }

  /** Every address of the range lies in exactly one chunk, and no other address in any. */
  lemma {:induction false} WalkCovers(w: nat, size: nat, addr: nat, end: nat, x: nat)
    requires Divides(size, w) && Range(w, addr, end)
    ensures Holding(w, Walk(w, size, addr, end), x) == if addr <= x < Top(w, end) then 1 else 0
    decreases Top(w, end) - addr
  {
    AddrEndExact(w, size, addr, end);
    var next := AddrEnd(w, size, addr, end);
    var chunks := Walk(w, size, addr, end);
    if next != end {
      WalkCovers(w, size, next, end, x);
      assert chunks[1..] == Walk(w, size, next, end);
    } else {
      assert chunks[1..] == [];
    }
  }

  lemma PartitionTail(w: nat, size: nat, chunks: seq<Chunk>, addr: nat, end: nat)
    requires size > 0 && |chunks| > 1 && Partition(w, size, chunks, addr, end)
    ensures Partition(w, size, chunks[1..], chunks[0].next, end)
  {
    assert forall i :: 0 <= i < |chunks| - 1 ==> chunks[1..][i] == chunks[i + 1];
  }

  /** A partition of this shape is unique, so every correct walk is this one. */
  lemma {:induction false} PartitionUnique(w: nat, size: nat, chunks: seq<Chunk>, addr: nat, end: nat)
    requires Divides(size, w) && Range(w, addr, end) && Partition(w, size, chunks, addr, end)
    requires forall i :: 0 <= i < |chunks| ==> chunks[i].next < w
    requires forall i :: 0 <= i < |chunks| ==> Top(w, chunks[i].next) <= Top(w, end)
    ensures chunks == Walk(w, size, addr, end)
    decreases |chunks|
  {
    AddrEndExact(w, size, addr, end);
    var c := chunks[0];
    assert InOneEntry(w, size, c);
    if |chunks| > 1 {
      assert InOneEntry(w, size, chunks[1]);
      RoundUpLeast(size, addr, c.next);
      PartitionTail(w, size, chunks, addr, end);
      PartitionUnique(w, size, chunks[1..], c.next, end);
      assert chunks == [c] + chunks[1..];
    }
  }

  // ----- nested tables -----

  lemma Associative<T>(xs: seq<T>, ys: seq<T>, zs: seq<T>)
    ensures (xs + ys) + zs == xs + (ys + zs)
  {
  }

  /** Up to an entry boundary inside it, a range is cut as the shorter range is. */
  lemma SameStep(w: nat, size: nat, addr: nat, mid: nat, end: nat) returns (next: nat)
    requires Divides(size, w) && Range(w, addr, end)
    requires addr < mid < Top(w, end) && Multiple(size, mid)
    ensures next == AddrEnd(w, size, addr, mid) == AddrEnd(w, size, addr, end) && next != end
    ensures addr < next <= mid
  {
    AddrEndExact(w, size, addr, end);
    AddrEndExact(w, size, addr, mid);
    RoundUpLeast(size, addr, mid);
    next := AddrEnd(w, size, addr, mid);
  }

  /** A walk may be cut at any entry boundary inside the range. */
  lemma {:induction false} WalkSplit(w: nat, size: nat, addr: nat, mid: nat, end: nat)
    requires Divides(size, w) && Range(w, addr, end)
    requires addr < mid < Top(w, end) && Multiple(size, mid)
    ensures Walk(w, size, addr, end) == Walk(w, size, addr, mid) + Walk(w, size, mid, end)
    decreases mid - addr
  {
    var next := SameStep(w, size, addr, mid, end);
    WalkUnfolds(w, size, addr, end);
    WalkUnfolds(w, size, addr, mid);
    if next != mid {
      WalkSplit(w, size, next, mid, end);
      Associative([Chunk(addr, next)], Walk(w, size, next, mid), Walk(w, size, mid, end));
    }
  }

  /** In particular at a boundary of any coarser table. */
  lemma SplitAtParent(w: nat, small: nat, large: nat, addr: nat, mid: nat, end: nat)
    requires Divides(small, w) && Divides(small, large) && Range(w, addr, end)
    requires addr < mid < Top(w, end) && Multiple(large, mid)
    ensures Walk(w, small, addr, end) == Walk(w, small, addr, mid) + Walk(w, small, mid, end)
  {
    MultipleTransitive(small, large, mid);
    WalkSplit(w, small, addr, mid, end);
  }

  /** One level of a page table: a table of entries of its own size, or folded into its parent. */
  datatype Level = Table(size: nat) | Folded

  function SizeOf(level: Level, parent: nat): nat {
    match level case Table(size) => size case Folded => parent
  }

  /** The folded headers define addr_end(addr, end) as (end). */
  function LevelEnd(w: nat, level: Level, addr: nat, end: nat): nat
    requires level.Table? ==> Divides(level.size, w)
    requires addr < w && end < w
  {
    match level case Table(size) => AddrEnd(w, size, addr, end) case Folded => end
  }

  /** `(end)` is what the generic macro gives if and only if the range lies in one entry. */
  lemma FoldedExactly(w: nat, size: nat, addr: nat, end: nat)
    requires Divides(size, w) && Range(w, addr, end)
    ensures AddrEnd(w, size, addr, end) == end <==> InOneEntry(w, size, Chunk(addr, end))
  {
    AddrEndExact(w, size, addr, end);
  }

  /** On every range the parent level passes down, a folded level and a table of the parent's size agree. */
  lemma FoldedAgrees(w: nat, level: Level, parent: nat, addr: nat, end: nat)
    requires Divides(SizeOf(level, parent), w) && Range(w, addr, end)
    requires level.Folded? ==> InOneEntry(w, parent, Chunk(addr, end))
    ensures LevelEnd(w, level, addr, end) == AddrEnd(w, SizeOf(level, parent), addr, end)
  {
    if level.Folded? { FoldedExactly(w, parent, addr, end); }
  }

  /** A pgd over a pud over a pmd, each dividing the one above. */
  datatype Tables = Tables(w: nat, pgd: nat, pud: Level, pmd: Level) {
    function PudSize(): nat { SizeOf(pud, pgd) }
    function PmdSize(): nat { SizeOf(pmd, PudSize()) }
    ghost predicate Valid() {
      && Divides(pgd, w)
      && Divides(PudSize(), pgd) && Divides(PudSize(), w)
      && Divides(PmdSize(), PudSize()) && Divides(PmdSize(), w)
    }
  }

  /** The innermost loop, over one pud entry's range. */
  method WalkPmdRange(w: nat, pudSize: nat, pmd: Level, ghost size: nat, addr: nat, end: nat)
    returns (leaves: seq<Chunk>)
    requires Divides(pudSize, w) && size == SizeOf(pmd, pudSize) && Divides(size, w)
    requires Range(w, addr, end) && InOneEntry(w, pudSize, Chunk(addr, end))
    ensures leaves == Walk(w, size, addr, end)
  {
    leaves := [];
    ghost var whole := Walk(w, size, addr, end);
    var a := addr;
    while true
      invariant Range(w, a, end) && (pmd.Folded? ==> a == addr)
      invariant leaves + Walk(w, size, a, end) == whole
      decreases Top(w, end) - a
    {
      FoldedAgrees(w, pmd, pudSize, a, end);
      WalkUnfolds(w, size, a, end);
      AddrEndExact(w, size, a, end);
      var next := LevelEnd(w, pmd, a, end);
      leaves := leaves + [Chunk(a, next)];
      if next == end {
        break;
      }
      a := next;
    }
  }

  /** One turn of the middle loop cuts the flat walk at the end of a pud entry. */
  lemma PudTurn(w: nat, pgdSize: nat, pud: Level, pudSize: nat, size: nat, addr: nat, end: nat)
    requires pudSize == SizeOf(pud, pgdSize) && Divides(pudSize, w)
    requires Divides(size, w) && Divides(size, pudSize)
    requires Range(w, addr, end) && (pud.Folded? ==> InOneEntry(w, pgdSize, Chunk(addr, end)))
    ensures var next := LevelEnd(w, pud, addr, end);
            && Range(w, addr, next) && InOneEntry(w, pudSize, Chunk(addr, next))
            && (next != end ==>
                  && pud.Table? && addr < next && Range(w, next, end)
                  && Walk(w, size, addr, end) == Walk(w, size, addr, next) + Walk(w, size, next, end))
  {
    FoldedAgrees(w, pud, pgdSize, addr, end);
    AddrEndExact(w, pudSize, addr, end);
    var next := LevelEnd(w, pud, addr, end);
    if next != end { SplitAtParent(w, size, pudSize, addr, next, end); }
  }

  /** The middle loop, over one pgd entry's range. */
  method WalkPudRange(w: nat, pgdSize: nat, pud: Level, pudSize: nat, pmd: Level, ghost size: nat,
                      addr: nat, end: nat)
    returns (leaves: seq<Chunk>)
    requires Divides(pgdSize, w)
    requires pudSize == SizeOf(pud, pgdSize) && Divides(pudSize, w)
    requires size == SizeOf(pmd, pudSize) && Divides(size, w) && Divides(size, pudSize)
    requires Range(w, addr, end) && InOneEntry(w, pgdSize, Chunk(addr, end))
    ensures leaves == Walk(w, size, addr, end)
  {
    leaves := [];
    ghost var whole := Walk(w, size, addr, end);
    var a := addr;
    while true
      invariant Range(w, a, end) && (pud.Folded? ==> a == addr)
      invariant leaves + Walk(w, size, a, end) == whole
      decreases Top(w, end) - a
    {
      PudTurn(w, pgdSize, pud, pudSize, size, a, end);
      var next := LevelEnd(w, pud, a, end);
      var part := WalkPmdRange(w, pudSize, pmd, size, a, next);
      if next == end {
        return leaves + part;
      }
      Associative(leaves, part, Walk(w, size, next, end));
      leaves := leaves + part;
      a := next;
    }
  }

  /**
   The three nested loops.  For every range and every combination of folded and real levels they
   visit the leaf chunks of one flat pmd-size walk, in the same order.
   */
  method WalkPageRange(t: Tables, addr: nat, end: nat) returns (leaves: seq<Chunk>)
    requires t.Valid() && Range(t.w, addr, end)
    ensures leaves == Walk(t.w, t.PmdSize(), addr, end)
    ensures Partition(t.w, t.PmdSize(), leaves, addr, end)
  {
    leaves := [];
    ghost var whole := Walk(t.w, t.PmdSize(), addr, end);
    var a := addr;
    while true
      invariant addr <= a && Range(t.w, a, end)
      invariant leaves + Walk(t.w, t.PmdSize(), a, end) == whole
      decreases Top(t.w, end) - a
    {
      AddrEndExact(t.w, t.pgd, a, end);
      var next := AddrEnd(t.w, t.pgd, a, end);
      var part := WalkPudRange(t.w, t.pgd, t.pud, t.PudSize(), t.pmd, t.PmdSize(), a, next);
      if next == end {
        leaves := leaves + part;
        break;
      }
      MultipleTransitive(t.PudSize(), t.pgd, next);
      SplitAtParent(t.w, t.PmdSize(), t.PudSize(), a, next, end);
      Associative(leaves, part, Walk(t.w, t.PmdSize(), next, end));
      leaves := leaves + part;
      a := next;
    }
    WalkPartitions(t.w, t.PmdSize(), addr, end);
  }

  // ----- the sizes of the headers -----

  lemma {:induction false} ShiftsDivide(small: nat, large: nat)
    requires small <= large
    ensures Divides(Pow2(small), Pow2(large))
    decreases large
  {
    Pow2Positive(large);
    if small == large {
      assert Multiple(Pow2(small), 0);
    } else {
      ShiftsDivide(small, large - 1);
      MultipleSum(Pow2(small), Pow2(large - 1), Pow2(large - 1));
    }
  }

  /** (1UL << SHIFT) tables with ordered shifts are always well-formed, folded levels included. */
  lemma ShiftTables(bits: nat, pgdShift: nat, pudShift: nat, pmdShift: nat, foldPud: bool, foldPmd: bool)
    requires pmdShift <= pudShift <= pgdShift <= bits
    ensures Tables(Pow2(bits), Pow2(pgdShift),
                   if foldPud then Folded else Table(Pow2(pudShift)),
                   if foldPmd then Folded else Table(Pow2(pmdShift))).Valid()
  {
    ShiftsDivide(pgdShift, bits);
    ShiftsDivide(pudShift, bits);
    ShiftsDivide(pmdShift, bits);
    ShiftsDivide(pudShift, pgdShift);
    ShiftsDivide(pmdShift, pgdShift);
    ShiftsDivide(pmdShift, pudShift);
    ShiftsDivide(pgdShift, pgdShift);
    ShiftsDivide(pudShift, pudShift);
  }
}
