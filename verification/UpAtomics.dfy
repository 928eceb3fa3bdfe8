/**
 The operations of asm-generic/atomic.h, cmpxchg.h and cmpxchg-local.h on one memory cell,
 as operations of the uniprocessor machine and as the procedures the headers give.  The cell is
 an unsigned long, or an operand zero-extended to it.
 */
module UpAtomics {
  import opened UpProcessor
  import opened Words

  datatype Size = Size1 | Size2 | Size4 | Size8

  /** The cast to the operand's unsigned type. */
  function Truncate(sz: Size, x: int): UInt64 {
    match sz
    case Size1 => x % 0x100
    case Size2 => x % 0x1_0000
    case Size4 => x % 0x1_0000_0000
    case Size8 => x % 0x1_0000_0000_0000_0000
  }

  /** v & ~mask and v | mask, bit by bit. */
  function BitClear(v: nat, mask: nat): nat {
    if v == 0 then 0 else 2 * BitClear(v / 2, mask / 2) + if v % 2 == 1 && mask % 2 == 0 then 1 else 0
  }

  function BitSet(v: nat, mask: nat): nat {
    if v == 0 then mask else 2 * BitSet(v / 2, mask / 2) + if v % 2 == 1 || mask % 2 == 1 then 1 else 0
  }

  lemma {:induction false} MaskBits(v: nat, mask: nat, k: nat)
    ensures Bit(BitClear(v, mask), k) <==> Bit(v, k) && !Bit(mask, k)
    ensures Bit(BitSet(v, mask), k) <==> Bit(v, k) || Bit(mask, k)
    decreases k
  {
    if v == 0 {
      NoBits(k);
    } else if k > 0 {
      MaskBits(v / 2, mask / 2, k - 1);
      assert BitClear(v, mask) / 2 == BitClear(v / 2, mask / 2);
      assert BitSet(v, mask) / 2 == BitSet(v / 2, mask / 2);
    }
  }

  /** The bits of an operand. */
  function Width(sz: Size): nat { match sz case Size1 => 8 case Size2 => 16 case Size4 => 32 case Size8 => 64 }

  /** The cast keeps exactly the bits of the operand. */
  lemma TruncateBits(sz: Size, x: nat, k: nat)
    ensures Bit(Truncate(sz, x), k) <==> k < Width(sz) && Bit(x, k)
  {
    Pow2Values();
    LowBits(x, Width(sz), k);
  }

  datatype Op =
    | AddReturn(i: UInt64)
    | SubReturn(i: UInt64)
    | ClearMask(mask: UInt64)
    | SetMask(mask: UInt64)
    | Xchg(x: UInt64)
    | CmpxchgLocal(expected: UInt64, desired: UInt64)

  predicate Stores(op: Op, v: UInt64) {
    op.CmpxchgLocal? ==> v == op.expected
  }

  function Stored(sz: Size, op: Op, v: UInt64): UInt64 {
    match op
    case AddReturn(i) => Truncate(sz, v + i)
    case SubReturn(i) => Truncate(sz, v - i)
    case ClearMask(mask) => Truncate(sz, BitClear(v, mask))
    case SetMask(mask) => Truncate(sz, BitSet(v, mask))
    case Xchg(x) => Truncate(sz, x)
    case CmpxchgLocal(_, desired) => Truncate(sz, desired)
  }

  /** The additions return the new value, the exchanges the old one, the mask operations nothing. */
  function Result(sz: Size, op: Op, v: UInt64): UInt64 {
    if op.AddReturn? || op.SubReturn? then Stored(sz, op, v)
    else if op.Xchg? || op.CmpxchgLocal? then v
    else 0
  }

  function Atomics(sz: Size): Semantics<Op, UInt64> {
    Semantics(Stores, (op, v) => Stored(sz, op, v), (op, v) => Result(sz, op, v))
  }

  /** The mask operations, bit by bit. */
  lemma MaskOperations(sz: Size, v: UInt64, mask: UInt64, k: nat)
    requires k < Width(sz)
    ensures Bit(Atomics(sz).NewValue(ClearMask(mask), v), k) <==> Bit(v, k) && !Bit(mask, k)
    ensures Bit(Atomics(sz).NewValue(SetMask(mask), v), k) <==> Bit(v, k) || Bit(mask, k)
  {
    MaskBits(v, mask, k);
    TruncateBits(sz, BitClear(v, mask), k);
    TruncateBits(sz, BitSet(v, mask), k);
  }

  // ----- counters -----

  predicate Additive(op: Op) { op.AddReturn? || op.SubReturn? }

  function Delta(op: Op): int {
    match op case AddReturn(i) => i case SubReturn(i) => 0 - i case _ => 0
  }

  function Deltas(log: seq<Entry<Op, UInt64>>): int {
    if log == [] then 0 else Deltas(log[..|log| - 1]) + Delta(log[|log| - 1].op)
  }

  lemma TruncatedSum(sz: Size, a: int, b: int)
    ensures Truncate(sz, Truncate(sz, a) + b) == Truncate(sz, a + b)
  {
    match sz
    case Size1 => RemainderOfSum(a, b, 0x100);
    case Size2 => RemainderOfSum(a, b, 0x1_0000);
    case Size4 => RemainderOfSum(a, b, 0x1_0000_0000);
    case Size8 => RemainderOfSum(a, b, 0x1_0000_0000_0000_0000);
  }

  lemma RemainderOfSum(a: int, b: int, m: int)
    requires m > 0
    ensures (a % m + b) % m == (a + b) % m
  {
    var q := (a % m + b) / m;
    RemainderUnique(a + b, a / m + q, (a % m + b) % m, m);
  }

  lemma {:induction false} ReplayIsSum(sz: Size, cell0: UInt64, log: seq<Entry<Op, UInt64>>)
    requires Truncate(sz, cell0) == cell0
    requires forall k :: 0 <= k < |log| ==> Additive(log[k].op)
    ensures Replay(Atomics(sz), cell0, log) == Truncate(sz, cell0 + Deltas(log))
    decreases |log|
  {
    if log != [] {
      var init, op := log[..|log| - 1], log[|log| - 1].op;
      ReplayIsSum(sz, cell0, init);
      AdditiveStep(sz, op, cell0 + Deltas(init));
    }
  }

  lemma AdditiveStep(sz: Size, op: Op, sum: int)
    requires Additive(op)
    ensures Atomics(sz).NewValue(op, Truncate(sz, sum)) == Truncate(sz, sum + Delta(op))
  {
    TruncatedSum(sz, sum, Delta(op));
  }

  /** v is the initial value plus the first k deltas. */
  predicate SumUpTo(sz: Size, cell0: UInt64, log: seq<Entry<Op, UInt64>>, k: nat, v: UInt64)
    requires k <= |log|
  {
    v == Truncate(sz, cell0 + Deltas(log[..k]))
  }

  /** An addition at place `at` of the log returns the sum up to and including itself. */
  lemma ReturnIsSum(sz: Size, cell0: UInt64, log: seq<Entry<Op, UInt64>>, at: nat)
    requires Truncate(sz, cell0) == cell0 && at < |log|
    requires forall k :: 0 <= k < |log| ==> Additive(log[k].op)
    ensures SumUpTo(sz, cell0, log, at + 1, Atomics(sz).result(log[at].op, Replay(Atomics(sz), cell0, log[..at])))
  {
    var prefix := log[..at + 1];
    assert prefix[..at] == log[..at];
    ReplayIsSum(sz, cell0, prefix);
    AdditiveResult(sz, log[at].op, Replay(Atomics(sz), cell0, log[..at]));
  }

  lemma AdditiveResult(sz: Size, op: Op, v: UInt64)
    requires Additive(op)
    ensures Atomics(sz).result(op, v) == Atomics(sz).NewValue(op, v)
  {
  }

  predicate IsSum(sz: Size, cell0: UInt64, s: Cpu<Op, UInt64>) {
    s.cell == Truncate(sz, cell0 + Deltas(s.log))
  }

  lemma CellSummed(sz: Size, cell0: UInt64, s: Cpu<Op, UInt64>)
    requires Truncate(sz, cell0) == cell0
    requires ValueInv(Atomics(sz), cell0, s) && OnlyOps(s, Additive)
    ensures IsSum(sz, cell0, s)
  {
    ReplayIsSum(sz, cell0, s.log);
  }

  /** Completed call i returned the sum up to and including its own delta. */
  ghost predicate ReturnedSum(sz: Size, cell0: UInt64, s: Cpu<Op, UInt64>, i: nat)
    requires i < |s.done|
  {
    var c := s.done[i];
    && c.first <= c.at < c.last <= |s.log| && c.op == s.log[c.at].op
    && SumUpTo(sz, cell0, s.log, c.at + 1, c.ret)
  }

  lemma CallSummed(sz: Size, cell0: UInt64, s: Cpu<Op, UInt64>, i: nat)
    requires Truncate(sz, cell0) == cell0 && i < |s.done|
    requires ValueInv(Atomics(sz), cell0, s) && OnlyOps(s, Additive) && WellPlaced(s.log, s.done[i])
    ensures ReturnedSum(sz, cell0, s, i)
  {
    var at := s.done[i].at;
    ReturnIsSum(sz, cell0, s.log, at);
    assert s.log[at].ret == Atomics(sz).result(s.log[at].op, Replay(Atomics(sz), cell0, s.log[..at]));
  }

  /**
   With arbitrarily nested handlers adding and subtracting, the counter is its initial value plus
   every committed delta, modulo its width.
   */
  lemma CounterIsSum(sz: Size, cell0: UInt64, irqs: bool, run: seq<Action<Op>>)
    requires Truncate(sz, cell0) == cell0
    requires forall k :: 0 <= k < |run| && run[k].Begin? ==> Additive(run[k].op)
    ensures IsSum(sz, cell0, Run(Atomics(sz), Boot(cell0, irqs), run))
  {
    var s := Run(Atomics(sz), Boot(cell0, irqs), run);
    assert ValueInv(Atomics(sz), cell0, s) by { RunInv(Atomics(sz), cell0, irqs, run); }
    assert OnlyOps(s, Additive) by { LogOfBegunOps(Atomics(sz), cell0, irqs, run, Additive); }
    CellSummed(sz, cell0, s);
  }

  /** And each completed call returned that sum up to and including its own delta. */
  lemma CallsReturnSums(sz: Size, cell0: UInt64, irqs: bool, run: seq<Action<Op>>, i: nat)
    requires Truncate(sz, cell0) == cell0
    requires forall k :: 0 <= k < |run| && run[k].Begin? ==> Additive(run[k].op)
    requires i < |Run(Atomics(sz), Boot(cell0, irqs), run).done|
    ensures ReturnedSum(sz, cell0, Run(Atomics(sz), Boot(cell0, irqs), run), i)
  {
    var s := Run(Atomics(sz), Boot(cell0, irqs), run);
    assert ValueInv(Atomics(sz), cell0, s) && WellPlaced(s.log, s.done[i]) by {
      RunInv(Atomics(sz), cell0, irqs, run);
    }
    assert OnlyOps(s, Additive) by { LogOfBegunOps(Atomics(sz), cell0, irqs, run, Additive); }
    CallSummed(sz, cell0, s, i);
  }

  // ----- the procedures -----

  /** One cell and the interrupt flag of the processor. */
  class Processor {
    const sz: Size
    var cell: UInt64
    var irqs: bool

    constructor (sz: Size, cell: UInt64, irqs: bool)
      ensures this.sz == sz && this.cell == cell && this.irqs == irqs
    {
      this.sz, this.cell, this.irqs := sz, cell, irqs;
    }

    method ArchLocalIrqRestore(flags: bool)
      modifies this`irqs
      ensures irqs == flags
    {
      irqs := flags;
    }

    /** Returns the status it found and leaves interrupts disabled. */
    method ArchLocalIrqSave() returns (flags: bool)
      modifies this`irqs
      ensures flags == old(irqs) && irqs == ARCH_IRQ_DISABLED
    {
      flags := irqs;
      ArchLocalIrqRestore(ARCH_IRQ_DISABLED);
    }

    method ArchLocalIrqEnable()
      modifies this`irqs
      ensures irqs == ARCH_IRQ_ENABLED
    {
      ArchLocalIrqRestore(ARCH_IRQ_ENABLED);
    }

    method ArchLocalIrqDisable()
      modifies this`irqs
      ensures irqs == ARCH_IRQ_DISABLED
    {
      ArchLocalIrqRestore(ARCH_IRQ_DISABLED);
    }

    method AtomicAddReturn(i: UInt64) returns (temp: UInt64)
      modifies this
      ensures temp == cell == Atomics(sz).NewValue(AddReturn(i), old(cell)) == Truncate(sz, old(cell) + i)
      ensures irqs == old(irqs)
    {
      var flags := ArchLocalIrqSave();
      temp := cell;
      temp := Truncate(sz, temp + i);
      cell := temp;
      ArchLocalIrqRestore(flags);
    }

    /** Undoes AtomicAddReturn(i). */
    method AtomicSubReturn(i: UInt64) returns (temp: UInt64)
      modifies this
      ensures temp == cell == Atomics(sz).NewValue(SubReturn(i), old(cell))
      ensures Truncate(sz, cell + i) == Truncate(sz, old(cell))
      ensures irqs == old(irqs)
    {
      var flags := ArchLocalIrqSave();
      temp := cell;
      temp := Truncate(sz, temp - i);
      TruncatedSum(sz, cell - i, i);
      cell := temp;
      ArchLocalIrqRestore(flags);
    }

    method AtomicClearMask(mask: UInt64)
      modifies this
      ensures cell == Atomics(sz).NewValue(ClearMask(mask), old(cell))
      ensures forall k: nat :: k < Width(sz) ==> (Bit(cell, k) <==> Bit(old(cell), k) && !Bit(mask, k))
      ensures irqs == old(irqs)
    {
      forall k: nat | k < Width(sz)
        ensures Bit(Atomics(sz).NewValue(ClearMask(mask), cell), k) <==> Bit(cell, k) && !Bit(mask, k)
      {
        MaskOperations(sz, cell, mask, k);
      }
      var flags := ArchLocalIrqSave();
      cell := Truncate(sz, BitClear(cell, mask));
      ArchLocalIrqRestore(flags);
    }

    method AtomicSetMask(mask: UInt64)
      modifies this
      ensures cell == Atomics(sz).NewValue(SetMask(mask), old(cell))
      ensures forall k: nat :: k < Width(sz) ==> (Bit(cell, k) <==> Bit(old(cell), k) || Bit(mask, k))
      ensures irqs == old(irqs)
    {
      forall k: nat | k < Width(sz)
        ensures Bit(Atomics(sz).NewValue(SetMask(mask), cell), k) <==> Bit(cell, k) || Bit(mask, k)
      {
        MaskOperations(sz, cell, mask, k);
      }
      var flags := ArchLocalIrqSave();
      cell := Truncate(sz, BitSet(cell, mask));
      ArchLocalIrqRestore(flags);
    }

    /** __xchg for each operand size. */
    method XchgSized(x: UInt64) returns (ret: UInt64)
      modifies this
      ensures ret == old(cell) && cell == Truncate(sz, x) == Atomics(sz).NewValue(Xchg(x), old(cell))
      ensures irqs == old(irqs)
    {
      var flags := ArchLocalIrqSave();
      ret := cell;
      cell := Truncate(sz, x);
      ArchLocalIrqRestore(flags);
    }

    /** __cmpxchg_local_generic, and with Size8 __cmpxchg64_local_generic. */
    method CmpxchgLocalGeneric(expected: UInt64, desired: UInt64) returns (prev: UInt64)
      modifies this
      ensures prev == old(cell)
      ensures cell == if prev == expected then Truncate(sz, desired) else prev
      ensures cell == Atomics(sz).NewValue(CmpxchgLocal(expected, desired), old(cell))
      ensures irqs == old(irqs)
    {
      var flags := ArchLocalIrqSave();
      prev := cell;
      if prev == expected {
        cell := Truncate(sz, desired);
      }
      ArchLocalIrqRestore(flags);
    }
  }
}
