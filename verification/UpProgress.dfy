/**
 The uniprocessor machine gets its operations done.  Six steps complete an operation that is left
 alone, over any stack of interrupted frames; a handler may come whenever interrupts are enabled,
 whatever the frame it interrupts is doing, and its return finds that frame as it was.
 */
module UpProgress {
  import opened UpProcessor

  /** A processor whose top frame is f, over the frames `below`. */
  function On<O, V>(below: seq<Frame<O, V>>, f: Frame<O, V>, cell: V, irqs: bool,
                    log: seq<Entry<O, V>>, done: seq<Call<O, V>>): Cpu<O, V> {
    Cpu(cell, irqs, below + [f], log, done)
  }

  /** `k` machine steps of the top frame, with no interrupt between them. */
  function Advanced<O, V>(m: Semantics<O, V>, s: Cpu<O, V>, k: nat): Cpu<O, V>
    decreases k
  {
    if k == 0 then s else Advanced(m, Apply(m, s, Advance), k - 1)
  }

  lemma TopOn<O, V>(below: seq<Frame<O, V>>, f: Frame<O, V>, g: Frame<O, V>, cell: V, irqs: bool,
                    log: seq<Entry<O, V>>, done: seq<Call<O, V>>)
    ensures Top(On(below, f, cell, irqs, log, done)) == f
    ensures WithTop(On(below, f, cell, irqs, log, done), g) == On(below, g, cell, irqs, log, done)
  {
    assert (below + [f])[..|below|] == below;
  }

  lemma ReadAndDisable<O, V>(m: Semantics<O, V>, below: seq<Frame<O, V>>, op: O, first: nat, found: bool,
                             cell: V, irqs: bool, log: seq<Entry<O, V>>, done: seq<Call<O, V>>, k: nat)
    ensures Advanced(m, On(below, Frame(Entered(op), first, found), cell, irqs, log, done), k + 2)
            == Advanced(m, On(below, Frame(Disabled(op, irqs), first, found), cell, ARCH_IRQ_DISABLED, log, done), k)
  {
    var f, g, h := Frame(Entered(op), first, found), Frame(Saved(op, irqs), first, found),
                   Frame(Disabled(op, irqs), first, found);
    TopOn(below, f, g, cell, irqs, log, done);
    TopOn(below, g, h, cell, irqs, log, done);
    assert Apply(m, On(below, f, cell, irqs, log, done), Advance) == On(below, g, cell, irqs, log, done);
  }

  lemma LoadAndStore<O, V>(m: Semantics<O, V>, below: seq<Frame<O, V>>, op: O, flags: bool, first: nat, found: bool,
                           cell: V, log: seq<Entry<O, V>>, done: seq<Call<O, V>>, k: nat)
    ensures Advanced(m, On(below, Frame(Disabled(op, flags), first, found), cell, ARCH_IRQ_DISABLED, log, done), k + 2)
            == Advanced(m, On(below, Frame(Committed(op, flags, m.result(op, cell), |log|), first, found),
                              m.NewValue(op, cell), ARCH_IRQ_DISABLED, log + [Entry(op, m.result(op, cell))], done), k)
  {
    var f, g, h := Frame(Disabled(op, flags), first, found), Frame(Loaded(op, flags, cell), first, found),
                   Frame(Committed(op, flags, m.result(op, cell), |log|), first, found);
    TopOn(below, f, g, cell, ARCH_IRQ_DISABLED, log, done);
    TopOn(below, g, h, cell, ARCH_IRQ_DISABLED, log, done);
    assert Apply(m, On(below, f, cell, ARCH_IRQ_DISABLED, log, done), Advance)
        == On(below, g, cell, ARCH_IRQ_DISABLED, log, done);
  }

  lemma RestoreAndReturn<O, V>(m: Semantics<O, V>, below: seq<Frame<O, V>>, op: O, flags: bool, ret: V, at: nat,
                               first: nat, found: bool, cell: V, log: seq<Entry<O, V>>, done: seq<Call<O, V>>, k: nat)
    ensures Advanced(m, On(below, Frame(Committed(op, flags, ret, at), first, found), cell, ARCH_IRQ_DISABLED, log, done), k + 2)
            == Advanced(m, On(below, Frame(Resting, first, found), cell, flags, log,
                              done + [Call(op, ret, first, at, |log|, found, flags)]), k)
  {
    var f, g, h := Frame(Committed(op, flags, ret, at), first, found), Frame(Restored(op, ret, at), first, found),
                   Frame(Stage<O, V>.Resting, first, found);
    TopOn(below, f, g, cell, ARCH_IRQ_DISABLED, log, done);
    TopOn(below, g, h, cell, flags, log, done);
    assert Apply(m, On(below, f, cell, ARCH_IRQ_DISABLED, log, done), Advance) == On(below, g, cell, flags, log, done);
  }

  /** From the disabled section on, four steps complete the operation on the value then in the cell. */
  lemma FromDisabled<O, V>(m: Semantics<O, V>, below: seq<Frame<O, V>>, op: O, flags: bool, first: nat, found: bool,
                           cell: V, log: seq<Entry<O, V>>, done: seq<Call<O, V>>, k: nat)
    ensures Advanced(m, On(below, Frame(Disabled(op, flags), first, found), cell, ARCH_IRQ_DISABLED, log, done), k + 4)
            == Advanced(m, On(below, Frame(Resting, first, found), m.NewValue(op, cell), flags,
                              log + [Entry(op, m.result(op, cell))],
                              done + [Call(op, m.result(op, cell), first, |log|, |log| + 1, found, flags)]), k)
  {
    var ret := m.result(op, cell);
    LoadAndStore(m, below, op, flags, first, found, cell, log, done, k + 2);
    RestoreAndReturn(m, below, op, flags, ret, |log|, first, found, m.NewValue(op, cell), log + [Entry(op, ret)], done, k);
  }

  /** Six steps complete an operation that no handler interrupts, and leave the flag as it was; `k` is how many steps follow. */
  lemma UninterruptedCall<O, V>(m: Semantics<O, V>, below: seq<Frame<O, V>>, op: O, first: nat, irqs: bool,
                                cell: V, log: seq<Entry<O, V>>, done: seq<Call<O, V>>, k: nat)
    ensures Advanced(m, On(below, Frame(Entered(op), first, irqs), cell, irqs, log, done), k + 6)
            == Advanced(m, On(below, Frame(Resting, first, irqs), m.NewValue(op, cell), irqs,
                              log + [Entry(op, m.result(op, cell))],
                              done + [Call(op, m.result(op, cell), first, |log|, |log| + 1, irqs, irqs)]), k)
  {
    ReadAndDisable(m, below, op, first, irqs, cell, irqs, log, done, k + 4);
    FromDisabled(m, below, op, irqs, first, irqs, cell, log, done, k);
  }

  /** While interrupts are enabled a handler may come, and begin an operation of its own. */
  lemma HandlerBegins<O, V>(m: Semantics<O, V>, below: seq<Frame<O, V>>, outer: Frame<O, V>, op: O, irqs: bool,
                            cell: V, log: seq<Entry<O, V>>, done: seq<Call<O, V>>)
    ensures Apply(m, Apply(m, On(below, outer, cell, ARCH_IRQ_ENABLED, log, done), Interrupt(irqs)), Begin(op))
            == On(below + [outer], Frame(Entered(op), |log|, irqs), cell, irqs, log, done)
  {
    TopOn(below + [outer], Frame(Resting, 0, irqs), Frame(Entered(op), |log|, irqs), cell, irqs, log, done);
  }

  /** It returns to the frame it interrupted, with interrupts enabled. */
  lemma HandlerReturns<O, V>(m: Semantics<O, V>, below: seq<Frame<O, V>>, outer: Frame<O, V>, f: Frame<O, V>, irqs: bool,
                             cell: V, log: seq<Entry<O, V>>, done: seq<Call<O, V>>)
    requires f.stage.Resting?
    ensures Apply(m, On(below + [outer], f, cell, irqs, log, done), ReturnFromInterrupt)
            == On(below, outer, cell, ARCH_IRQ_ENABLED, log, done)
  {
    TopOn(below + [outer], f, f, cell, irqs, log, done);
    assert (below + [outer] + [f])[..|below + [outer]|] == below + [outer];
  }
}
