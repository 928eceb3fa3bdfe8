/**
 atomic_cmpxchg on an `int` and the add-unless loop built on it (asm-generic/atomic.h,
 cmpxchg-local.h).  The macro converts the signed operands to `unsigned long`, which extends
 the sign when a long has 64 bits, while the stored value is read back zero-extended.
 */
module AtomicInt {
  import opened UpProcessor
  import opened UpAtomics
  import opened Words

  datatype Long = Long32 | Long64

  /** The conversion of an `int` to `unsigned long`. */
  function ToULong(long: Long, x: Int): UInt64 {
    match long case Long32 => x % 0x1_0000_0000 case Long64 => x % 0x1_0000_0000_0000_0000
  }

  /** The cell of an atomic_t, read as u32. */
  function ToCell(x: Int): UInt64 { x % 0x1_0000_0000 }

  lemma CellRoundTrip(x: Int)
    ensures ToInt(ToCell(x)) == x
    ensures Truncate(Size4, ToCell(x)) == ToCell(x)
  {
  }

  /** The value of the counter after atomic_cmpxchg(v, o, n). */
  function Cmpxchg(long: Long, v: Int, o: Int, n: Int): Int {
    ToInt(Atomics(Size4).NewValue(CmpxchgLocal(ToULong(long, o), ToULong(long, n)), ToCell(v)))
  }

  /** The comparison succeeds exactly when the values are equal and, with a 64-bit long, not negative. */
  lemma ComparisonExact(long: Long, v: Int, o: Int)
    ensures ToCell(v) == ToULong(long, o) <==> v == o && (long.Long32? || o >= 0)
  {
  }

  lemma LongTruncates(long: Long, n: Int)
    ensures Truncate(Size4, ToULong(long, n)) == ToCell(n)
  {
  }

  lemma CmpxchgValue(long: Long, v: Int, o: Int, n: Int)
    ensures Cmpxchg(long, v, o, n) == if v == o && (long.Long32? || o >= 0) then n else v
  {
    ComparisonExact(long, v, o);
    CellRoundTrip(v);
    CellRoundTrip(n);
    LongTruncates(long, n);
  }

  /** It is a compare-and-exchange for every counter value if and only if the long is 32 bits wide or o is not negative. */
  lemma CmpxchgIsCasExactly(long: Long, o: Int, n: Int)
    requires o != n
    ensures (forall v: Int :: Cmpxchg(long, v, o, n) == if v == o then n else v) <==> long.Long32? || o >= 0
  {
    forall v: Int ensures Cmpxchg(long, v, o, n) == if v == o && (long.Long32? || o >= 0) then n else v {
      CmpxchgValue(long, v, o, n);
    }
    assert Cmpxchg(long, o, o, n) == n || !(long.Long32? || o >= 0);
  }

  /** What interrupt handlers store in each window; the last store of a window counts. */
  function After(v: Int, writes: seq<Int>): Int {
    if writes == [] then v else writes[|writes| - 1]
  }

  function AfterRounds(v: Int, rounds: seq<seq<Int>>): Int {
    if rounds == [] then v else After(AfterRounds(v, rounds[..|rounds| - 1]), rounds[|rounds| - 1])
  }

  class Counter {
    const long: Long
    var counter: Int

    constructor (long: Long, v: Int)
      ensures this.long == long && counter == v
    {
      this.long, this.counter := long, v;
    }

    /** atomic_cmpxchg; it runs with interrupts off, so nothing comes between its load and its store. */
    method AtomicCmpxchg(o: Int, n: Int) returns (prev: Int)
      modifies this
      ensures prev == old(counter)
      ensures counter == Cmpxchg(long, old(counter), o, n)
    {
      var cell := new Processor(Size4, ToCell(counter), ARCH_IRQ_ENABLED);
      var was := cell.CmpxchgLocalGeneric(ToULong(long, o), ToULong(long, n));
      CellRoundTrip(counter);
      counter := ToInt(cell.cell);
      prev := ToInt(was);
    }

    /**
     __atomic_add_unless.  Round k of `env` is what handlers store just before the k-th exchange.
     The call returns the value c of the counter at its last look; if c is u it wrote nothing,
     otherwise it took the counter from c to c + a in one step, provided the long is 32 bits wide
     or c is not negative.  It ends because every failed exchange uses up a round of `env`.
     */
    method AddUnless(a: Int, u: Int, env: seq<seq<Int>>) returns (c: Int, k: nat)
      modifies this
      ensures k <= |env|
      ensures c == AfterRounds(old(counter), env[..k])
      ensures c == u ==> counter == u
      ensures c != u && (long.Long32? || c >= 0) ==> counter == ToInt(c + a)
      ensures c != u && !(long.Long32? || c >= 0) ==> counter == c
    {
      k := 0;
      c := counter;
      while c != u
        invariant k <= |env|
        invariant c == counter == AfterRounds(old(counter), env[..k])
        decreases |env| - k
      {
        if k < |env| {
          assert env[..k + 1][..k] == env[..k];
          counter := After(counter, env[k]);
          k := k + 1;
        }
        CmpxchgValue(long, counter, c, ToInt(c + a));
        var was := AtomicCmpxchg(c, ToInt(c + a));
        if was == c {
          break;
        }
        c := was;
      }
    }
  }

  // ----- the loop on the machine -----

  lemma StoredTruncated(op: Op, v: UInt64)
    requires Truncate(Size4, v) == v
    ensures var v' := Atomics(Size4).NewValue(op, v); Truncate(Size4, v') == v'
  {
  }

  lemma {:induction false} ReplayTruncated(cell0: UInt64, log: seq<Entry<Op, UInt64>>)
    requires Truncate(Size4, cell0) == cell0
    ensures Truncate(Size4, Replay(Atomics(Size4), cell0, log)) == Replay(Atomics(Size4), cell0, log)
    decreases |log|
  {
    if log != [] {
      var before := log[..|log| - 1];
      ReplayTruncated(cell0, before);
      StoredTruncated(log[|log| - 1].op, Replay(Atomics(Size4), cell0, before));
    }
  }

  /** The counter after the first `place` operations of the log. */
  function ValueAt(cell0: UInt64, s: Cpu<Op, UInt64>, place: nat): Int
    requires place <= |s.log|
  {
    ToInt(Replay(Atomics(Size4), cell0, s.log[..place]))
  }

  /** The value the compare-and-exchange of `o` and `n` leaves where it finds `v`. */
  function Exchanged(long: Long, v: Int, o: Int, n: Int): Int {
    if v == o && (long.Long32? || o >= 0) then n else v
  }

  function CmpxchgOp(long: Long, o: Int, n: Int): Op { CmpxchgLocal(ToULong(long, o), ToULong(long, n)) }

  lemma CellExchanged(long: Long, v: UInt64, o: Int, n: Int)
    requires Truncate(Size4, v) == v
    ensures Atomics(Size4).result(CmpxchgOp(long, o, n), v) == v
    ensures ToInt(Atomics(Size4).NewValue(CmpxchgOp(long, o, n), v)) == Exchanged(long, ToInt(v), o, n)
  {
    IntRoundTrip(v);
    CmpxchgValue(long, ToInt(v), o, n);
  }

  lemma IntRoundTrip(v: UInt64)
    requires Truncate(Size4, v) == v
    ensures ToCell(ToInt(v)) == v
  {
  }

  /** What an exchange at place `at` of a log returns and leaves. */
  lemma ExchangeInLog(long: Long, cell0: UInt64, log: seq<Entry<Op, UInt64>>, at: nat, o: Int, n: Int)
    requires Truncate(Size4, cell0) == cell0 && at < |log| && log[at].op == CmpxchgOp(long, o, n)
    ensures var v := Replay(Atomics(Size4), cell0, log[..at]);
            && Atomics(Size4).result(log[at].op, v) == v
            && ToInt(Replay(Atomics(Size4), cell0, log[..at + 1])) == Exchanged(long, ToInt(v), o, n)
  {
    ReplayTruncated(cell0, log[..at]);
    assert log[..at + 1][..at] == log[..at];
    CellExchanged(long, Replay(Atomics(Size4), cell0, log[..at]), o, n);
  }

  /** A call acted at one place of the log, between its call and its return. */
  ghost predicate ActedAtPlace(long: Long, cell0: UInt64, s: Cpu<Op, UInt64>, i: nat, o: Int, n: Int) {
    i < |s.done| &&
    var c := s.done[i];
    && c.first <= c.at < c.last <= |s.log|
    && ToInt(c.ret) == ValueAt(cell0, s, c.at)
    && ValueAt(cell0, s, c.at + 1) == Exchanged(long, ToInt(c.ret), o, n)
  }

  lemma CallActed(long: Long, cell0: UInt64, s: Cpu<Op, UInt64>, i: nat, o: Int, n: Int)
    requires Truncate(Size4, cell0) == cell0 && ValueInv(Atomics(Size4), cell0, s)
    requires i < |s.done| && WellPlaced(s.log, s.done[i]) && s.done[i].op == CmpxchgOp(long, o, n)
    ensures ActedAtPlace(long, cell0, s, i, o, n)
  {
    var c := s.done[i];
    ExchangeInLog(long, cell0, s.log, c.at, o, n);
    assert s.log[c.at].ret == Atomics(Size4).result(s.log[c.at].op, Replay(Atomics(Size4), cell0, s.log[..c.at]));
  }

  /** Whatever handlers do, so does every completed atomic_cmpxchg. */
  lemma ExchangeAtPlace(long: Long, cell0: UInt64, irqs: bool, run: seq<Action<Op>>, i: nat, o: Int, n: Int)
    requires Truncate(Size4, cell0) == cell0
    requires i < |Run(Atomics(Size4), Boot(cell0, irqs), run).done|
    requires Run(Atomics(Size4), Boot(cell0, irqs), run).done[i].op == CmpxchgOp(long, o, n)
    ensures ActedAtPlace(long, cell0, Run(Atomics(Size4), Boot(cell0, irqs), run), i, o, n)
  {
    RunInv(Atomics(Size4), cell0, irqs, run);
    CallActed(long, cell0, Run(Atomics(Size4), Boot(cell0, irqs), run), i, o, n);
  }

  /** One turn of the loop: `call`, begun after place `past`, exchanged o for o + a, o not being u, and got `got`. */
  ghost predicate Turn(long: Long, s: Cpu<Op, UInt64>, a: Int, u: Int, past: nat, call: nat, o: Int, got: Int) {
    && o != u && call < |s.done| && past <= s.done[call].first
    && s.done[call].op == CmpxchgOp(long, o, ToInt(o + a))
    && got == ToInt(s.done[call].ret)
  }

  /** Where the log had got to when turn j of the loop began: its read, or the return of the call before. */
  function Reached(s: Cpu<Op, UInt64>, read: nat, calls: seq<nat>, j: nat): nat
    requires j <= |calls|
  {
    if j > 0 && calls[j - 1] < |s.done| then s.done[calls[j - 1]].last else read
  }

  /**
   The completed calls by which one run of __atomic_add_unless went round its loop: it read c[0] at
   place `read`, made its exchanges one after the other, went on with what each brought back, and
   ended on u or on a success.
   */
  ghost predicate LoopTrace(long: Long, cell0: UInt64, s: Cpu<Op, UInt64>, a: Int, u: Int,
                            read: nat, c: seq<Int>, calls: seq<nat>) {
    && |c| == |calls| + 1 && read <= |s.log| && c[0] == ValueAt(cell0, s, read)
    && (forall j :: 0 <= j < |calls| ==> Turn(long, s, a, u, Reached(s, read, calls, j), calls[j], c[j], c[j + 1]))
    && (forall j :: 0 <= j < |calls| - 1 ==> c[j + 1] != c[j])
    && (c[|calls|] == u || (|calls| > 0 && c[|calls|] == c[|calls| - 1]))
  }

  /** The call left the counter alone. */
  ghost predicate WroteNothing(cell0: UInt64, s: Cpu<Op, UInt64>, call: nat) {
    && call < |s.done| && s.done[call].at < |s.log|
    && ValueAt(cell0, s, s.done[call].at + 1) == ValueAt(cell0, s, s.done[call].at)
  }

  /** The place of the loop's last look at the counter: its read, or its last exchange. */
  function LastLook(s: Cpu<Op, UInt64>, read: nat, calls: seq<nat>): nat {
    if |calls| > 0 && calls[|calls| - 1] < |s.done| then s.done[calls[|calls| - 1]].at else read
  }

  /** Looking at place `at`, an exchange in the end, found r there; it left r + a unless the width forbids it. */
  ghost predicate Added(long: Long, cell0: UInt64, s: Cpu<Op, UInt64>, a: Int, at: nat, r: Int) {
    && at < |s.log| && ValueAt(cell0, s, at) == r
    && ValueAt(cell0, s, at + 1) == if long.Long32? || r >= 0 then ToInt(r + a) else r
  }

  /**
   At its last look, which comes no earlier than its read, the loop found the value r that it returns,
   and no exchange before wrote anything.  If r is u it wrote nothing at all; otherwise its last look
   was an exchange and left r + a, or r if the long has 64 bits and r is negative.
   */
  ghost predicate AddedUnless(long: Long, cell0: UInt64, s: Cpu<Op, UInt64>, a: Int, u: Int,
                              read: nat, r: Int, calls: seq<nat>) {
    var at := LastLook(s, read, calls);
    && read <= at <= |s.log| && ValueAt(cell0, s, at) == r
    && (forall j :: 0 <= j < |calls| - 1 ==> WroteNothing(cell0, s, calls[j]))
    && if r == u then calls != [] ==> WroteNothing(cell0, s, calls[|calls| - 1])
       else calls != [] && Added(long, cell0, s, a, at, r)
  }

  /** What a turn amounts to: its exchange came after `past`, found `got`, and wrote nothing or made the addition. */
  ghost predicate TurnDone(long: Long, cell0: UInt64, s: Cpu<Op, UInt64>, a: Int,
                           past: nat, call: nat, o: Int, got: Int) {
    && call < |s.done| && past <= s.done[call].at < s.done[call].last <= |s.log|
    && ValueAt(cell0, s, s.done[call].at) == got
    && if got == o then Added(long, cell0, s, a, s.done[call].at, got) else WroteNothing(cell0, s, call)
  }

  lemma TurnMeaning(long: Long, cell0: UInt64, s: Cpu<Op, UInt64>, a: Int, u: Int,
                    past: nat, call: nat, o: Int, got: Int)
    requires Truncate(Size4, cell0) == cell0 && ValueInv(Atomics(Size4), cell0, s) && PlaceInv(s)
    requires Turn(long, s, a, u, past, call, o, got)
    ensures TurnDone(long, cell0, s, a, past, call, o, got)
  {
    CallActed(long, cell0, s, call, o, ToInt(o + a));
  }

  ghost predicate TurnsDone(long: Long, cell0: UInt64, s: Cpu<Op, UInt64>, a: Int,
                            read: nat, c: seq<Int>, calls: seq<nat>) {
    |c| == |calls| + 1 &&
    forall j :: 0 <= j < |calls| ==> TurnDone(long, cell0, s, a, Reached(s, read, calls, j), calls[j], c[j], c[j + 1])
  }

  lemma AllTurns(long: Long, cell0: UInt64, s: Cpu<Op, UInt64>, a: Int, u: Int, read: nat, c: seq<Int>, calls: seq<nat>)
    requires Truncate(Size4, cell0) == cell0 && ValueInv(Atomics(Size4), cell0, s) && PlaceInv(s)
    requires LoopTrace(long, cell0, s, a, u, read, c, calls)
    ensures TurnsDone(long, cell0, s, a, read, c, calls)
  {
    forall j | 0 <= j < |calls|
      ensures TurnDone(long, cell0, s, a, Reached(s, read, calls, j), calls[j], c[j], c[j + 1])
    {
      TurnMeaning(long, cell0, s, a, u, Reached(s, read, calls, j), calls[j], c[j], c[j + 1]);
    }
  }

  /** The turns come after the read, in order. */
  lemma {:induction false} ReachedAfterRead(long: Long, cell0: UInt64, s: Cpu<Op, UInt64>, a: Int,
                                            read: nat, c: seq<Int>, calls: seq<nat>, j: nat)
    requires TurnsDone(long, cell0, s, a, read, c, calls) && j <= |calls|
    ensures read <= Reached(s, read, calls, j)
    decreases j
  {
    if j > 0 {
      ReachedAfterRead(long, cell0, s, a, read, c, calls, j - 1);
      assert TurnDone(long, cell0, s, a, Reached(s, read, calls, j - 1), calls[j - 1], c[j - 1], c[j - 1 + 1]);
    }
  }

  lemma LoopMeaning(long: Long, cell0: UInt64, s: Cpu<Op, UInt64>, a: Int, u: Int, read: nat, c: seq<Int>, calls: seq<nat>)
    requires LoopTrace(long, cell0, s, a, u, read, c, calls) && TurnsDone(long, cell0, s, a, read, c, calls)
    ensures AddedUnless(long, cell0, s, a, u, read, c[|calls|], calls)
  {
    forall j | 0 <= j < |calls| - 1 ensures WroteNothing(cell0, s, calls[j]) {
      assert TurnDone(long, cell0, s, a, Reached(s, read, calls, j), calls[j], c[j], c[j + 1]);
    }
    if |calls| > 0 {
      var m := |calls| - 1;
      ReachedAfterRead(long, cell0, s, a, read, c, calls, m);
      assert Turn(long, s, a, u, Reached(s, read, calls, m), calls[m], c[m], c[m + 1]);
      assert TurnDone(long, cell0, s, a, Reached(s, read, calls, m), calls[m], c[m], c[m + 1]);
    }
  }

  /** With handlers at every machine step, every run of __atomic_add_unless means that. */
  lemma AddUnlessOnMachine(long: Long, cell0: UInt64, irqs: bool, run: seq<Action<Op>>, a: Int, u: Int,
                           read: nat, c: seq<Int>, calls: seq<nat>)
    requires Truncate(Size4, cell0) == cell0
    requires LoopTrace(long, cell0, Run(Atomics(Size4), Boot(cell0, irqs), run), a, u, read, c, calls)
    ensures AddedUnless(long, cell0, Run(Atomics(Size4), Boot(cell0, irqs), run), a, u, read, c[|calls|], calls)
  {
    RunInv(Atomics(Size4), cell0, irqs, run);
    AllTurns(long, cell0, Run(Atomics(Size4), Boot(cell0, irqs), run), a, u, read, c, calls);
    LoopMeaning(long, cell0, Run(Atomics(Size4), Boot(cell0, irqs), run), a, u, read, c, calls);
  }

  /** What an undisturbed call leaves in the counter, and whether it reports that it added. */
  function AddUnlessAlone(long: Long, v: Int, a: Int, u: Int): (Int, bool) {
    (if v == u then v else Cmpxchg(long, v, v, ToInt(v + a)), v != u)
  }

  /** With a 64-bit long and a negative counter the call reports success without adding. */
  lemma AddUnlessFailsOnNegative()
    ensures AddUnlessAlone(Long64, -1, 1, 5) == (-1, true)
  {
    CmpxchgValue(Long64, -1, -1, 0);
  }

  /** A non-zero addition is reported exactly when it is made, if and only if the long is 32 bits wide or v is u or not negative. */
  lemma AddUnlessExact(long: Long, v: Int, a: Int, u: Int)
    requires a != 0
    ensures AddUnlessAlone(long, v, a, u) == (if v == u then v else ToInt(v + a), v != u)
            <==> long.Long32? || v >= 0 || v == u
  {
    CmpxchgValue(long, v, v, ToInt(v + a));
  }
}
