/**
 One processor whose operations are atomic only because interrupts are off while they run
 (asm-generic/irqflags.h and the operations built on it).

 The processor runs a stack of interrupt frames.  Only the top frame steps, and a new frame
 may be pushed between any two steps while interrupts are enabled.  Each operation is the six
 machine steps of its body: read the flag, disable, load, store, restore, return.  What the
 operations compute is a parameter, so the results hold for every operation of this shape.
 */
module UpProcessor {

  /** What an operation on a cell does when it runs alone: whether it stores, what it stores, what it returns. */
  datatype Semantics<!O, !V> = Semantics(stores: (O, V) -> bool, stored: (O, V) -> V, result: (O, V) -> V) {
    function NewValue(op: O, v: V): V { if stores(op, v) then stored(op, v) else v }
  }

  /** A committed operation and the value it returned. */
  datatype Entry<O, V> = Entry(op: O, ret: V)

  /** The operations of a log, one after the other. */
  function Replay<O, V>(m: Semantics<O, V>, v: V, log: seq<Entry<O, V>>): V {
    if log == [] then v
    else m.NewValue(log[|log| - 1].op, Replay(m, v, log[..|log| - 1]))
  }

  /** Every value returned is the one the operation returns at its place in the log. */
  ghost predicate Legal<O, V>(m: Semantics<O, V>, v: V, log: seq<Entry<O, V>>) {
    forall k :: 0 <= k < |log| ==> log[k].ret == m.result(log[k].op, Replay(m, v, log[..k]))
  }

  // ----- the processor -----

  const ARCH_IRQ_DISABLED := false
  const ARCH_IRQ_ENABLED := true

  datatype Stage<O, V> =
    | Resting
    | Entered(op: O)
    | Saved(op: O, flags: bool)
    | Disabled(op: O, flags: bool)
    | Loaded(op: O, flags: bool, temp: V)
    | Committed(op: O, flags: bool, ret: V, at: nat)
    | Restored(op: O, ret: V, at: nat)

  /** An interrupt frame; `first` and `found` are the log length and the interrupt flag when its operation began. */
  datatype Frame<O, V> = Frame(stage: Stage<O, V>, first: nat, found: bool)

  /** A completed operation: log length at its call, its place in the log, log length at its return, and the flag then. */
  datatype Call<O, V> = Call(op: O, ret: V, first: nat, at: nat, last: nat, found: bool, left: bool)

  datatype Cpu<O, V> = Cpu(cell: V, irqs: bool, frames: seq<Frame<O, V>>, log: seq<Entry<O, V>>, done: seq<Call<O, V>>)

  datatype Action<O> =
    | Interrupt(irqs: bool)  // a handler starts, with interrupts on or off
    | ReturnFromInterrupt
    | SetIrqs(irqs: bool)    // arch_local_irq_enable or arch_local_irq_disable between operations
    | Begin(op: O)
    | Advance

  function Boot<O, V>(cell: V, irqs: bool): Cpu<O, V> {
    Cpu(cell, irqs, [Frame(Resting, 0, irqs)], [], [])
  }

  function Top<O, V>(s: Cpu<O, V>): Frame<O, V>
    requires s.frames != []
  {
    s.frames[|s.frames| - 1]
  }

  function WithTop<O, V>(s: Cpu<O, V>, f: Frame<O, V>): Cpu<O, V>
    requires s.frames != []
  {
    s.(frames := s.frames[..|s.frames| - 1] + [f])
  }

  predicate Enabled<O, V>(s: Cpu<O, V>, a: Action<O>) {
    s.frames != [] &&
    match a
    case Interrupt(_) => s.irqs
    case ReturnFromInterrupt => |s.frames| > 1 && Top(s).stage.Resting?
    case SetIrqs(_) => Top(s).stage.Resting?
    case Begin(_) => Top(s).stage.Resting?
    case Advance => !Top(s).stage.Resting?
  }

  /** The stage that follows the next machine step of the operation in the top frame. */
  function NextStage<O, V>(m: Semantics<O, V>, s: Cpu<O, V>): Stage<O, V>
    requires Enabled(s, Advance)
  {
    match Top(s).stage
    case Resting => Resting
    case Entered(op) => Saved(op, s.irqs)
    case Saved(op, flags) => Disabled(op, flags)
    case Disabled(op, flags) => Loaded(op, flags, s.cell)
    case Loaded(op, flags, temp) => Committed(op, flags, m.result(op, temp), |s.log|)
    case Committed(op, flags, ret, at) => Restored(op, ret, at)
    case Restored(op, ret, at) => Resting
  }

  /** That step itself: disabling, storing, restoring the flag, returning. */
  function Proceed<O, V>(m: Semantics<O, V>, s: Cpu<O, V>): Cpu<O, V>
    requires Enabled(s, Advance)
  {
    var f := Top(s);
    var next := WithTop(s, f.(stage := NextStage(m, s)));
    match f.stage
    case Saved(_, _) => next.(irqs := ARCH_IRQ_DISABLED)
    case Loaded(op, _, temp) =>
      next.(cell := if m.stores(op, temp) then m.stored(op, temp) else s.cell,
            log := s.log + [Entry(op, m.result(op, temp))])
    case Committed(_, flags, _, _) => next.(irqs := flags)
    case Restored(op, ret, at) =>
      next.(done := s.done + [Call(op, ret, f.first, at, |s.log|, f.found, s.irqs)])
    case _ => next
  }

  function Apply<O, V>(m: Semantics<O, V>, s: Cpu<O, V>, a: Action<O>): Cpu<O, V> {
    if !Enabled(s, a) then s else
      match a
      case Interrupt(irqs) => s.(irqs := irqs, frames := s.frames + [Frame(Resting, 0, irqs)])
      case ReturnFromInterrupt => s.(irqs := ARCH_IRQ_ENABLED, frames := s.frames[..|s.frames| - 1])
      case SetIrqs(irqs) => s.(irqs := irqs)
      case Begin(op) => WithTop(s, Frame(Entered(op), |s.log|, s.irqs))
      case Advance => Proceed(m, s)
  }

  function Run<O, V>(m: Semantics<O, V>, s: Cpu<O, V>, run: seq<Action<O>>): Cpu<O, V> {
    if run == [] then s else Apply(m, Run(m, s, run[..|run| - 1]), run[|run| - 1])
  }

  // ----- the invariant -----

  predicate Critical<O, V>(g: Stage<O, V>) { g.Disabled? || g.Loaded? || g.Committed? }

  /** A frame below the top was interrupted with interrupts enabled, outside its critical section. */
  ghost predicate Suspended<O, V>(f: Frame<O, V>) {
    && !Critical(f.stage)
    && (!f.stage.Resting? ==> f.found)
    && (f.stage.Saved? ==> f.stage.flags)
  }

  ghost predicate Running<O, V>(s: Cpu<O, V>, f: Frame<O, V>) {
    match f.stage
    case Resting => true
    case Entered(_) => s.irqs == f.found
    case Saved(_, flags) => s.irqs == flags == f.found
    case Disabled(_, flags) => !s.irqs && flags == f.found
    case Loaded(_, flags, temp) => !s.irqs && flags == f.found && temp == s.cell
    case Committed(_, flags, _, _) => !s.irqs && flags == f.found
    case Restored(_, _, _) => s.irqs == f.found
  }

  /** A frame's commit, if it has one, is in the log and came after its call. */
  ghost predicate Placed<O, V>(log: seq<Entry<O, V>>, f: Frame<O, V>) {
    && (!f.stage.Resting? ==> f.first <= |log|)
    && (f.stage.Committed? || f.stage.Restored? ==>
          f.first <= f.stage.at < |log| && log[f.stage.at] == Entry(f.stage.op, f.stage.ret))
  }

  ghost predicate WellPlaced<O, V>(log: seq<Entry<O, V>>, c: Call<O, V>) {
    c.first <= c.at < c.last <= |log| && log[c.at] == Entry(c.op, c.ret) && c.left == c.found
  }

  function Claim<O, V>(f: Frame<O, V>, k: nat): nat {
    if (f.stage.Committed? || f.stage.Restored?) && f.stage.at == k then 1 else 0
  }

  /** How many operations in progress, and how many completed ones, claim place k of the log. */
  function FrameClaims<O, V>(frames: seq<Frame<O, V>>, k: nat): nat {
    if frames == [] then 0 else FrameClaims(frames[..|frames| - 1], k) + Claim(frames[|frames| - 1], k)
  }

  function CallClaims<O, V>(done: seq<Call<O, V>>, k: nat): nat {
    if done == [] then 0
    else CallClaims(done[..|done| - 1], k) + if done[|done| - 1].at == k then 1 else 0
  }

  ghost predicate StackInv<O, V>(s: Cpu<O, V>) {
    && s.frames != []
    && Running(s, Top(s))
    && forall i :: 0 <= i < |s.frames| - 1 ==> Suspended(s.frames[i])
  }

  ghost predicate ValueInv<O, V>(m: Semantics<O, V>, cell0: V, s: Cpu<O, V>) {
    s.cell == Replay(m, cell0, s.log) && Legal(m, cell0, s.log)
  }

  ghost predicate PlaceInv<O, V>(s: Cpu<O, V>) {
    && (forall i :: 0 <= i < |s.frames| ==> Placed(s.log, s.frames[i]))
    && (forall i :: 0 <= i < |s.done| ==> WellPlaced(s.log, s.done[i]))
  }

  /** Every place in the log is claimed by exactly one operation. */
  ghost predicate ClaimInv<O, V>(s: Cpu<O, V>) {
    forall k: nat :: Claims(s, k) == if k < |s.log| then 1 else 0
  }

  ghost predicate Inv<O, V>(m: Semantics<O, V>, cell0: V, s: Cpu<O, V>) {
    StackInv(s) && ValueInv(m, cell0, s) && PlaceInv(s) && ClaimInv(s)
  }

  // ----- every step keeps it -----

  lemma StepKeepsStack<O, V>(m: Semantics<O, V>, s: Cpu<O, V>, a: Action<O>)
    requires StackInv(s)
    ensures StackInv(Apply(m, s, a))
  {
    var s' := Apply(m, s, a);
    if Enabled(s, a) {
      if a.Interrupt? {
        assert s'.frames[|s.frames| - 1] == Top(s) && Suspended(Top(s));
      } else if a.ReturnFromInterrupt? {
        assert Top(s') == s.frames[|s.frames| - 2] && Suspended(Top(s'));
      }
    }
  }

  lemma LegalExtends<O, V>(m: Semantics<O, V>, cell0: V, log: seq<Entry<O, V>>, e: Entry<O, V>)
    requires Legal(m, cell0, log) && e.ret == m.result(e.op, Replay(m, cell0, log))
    ensures Legal(m, cell0, log + [e])
    ensures Replay(m, cell0, log + [e]) == m.NewValue(e.op, Replay(m, cell0, log))
  {
    var longer := log + [e];
    assert longer[..|log|] == log;
    forall k | 0 <= k < |longer|
      ensures longer[k].ret == m.result(longer[k].op, Replay(m, cell0, longer[..k]))
    {
      assert k < |log| ==> longer[..k] == log[..k];
    }
  }

  /** The loaded value is still the cell's at the commit, so the store is the whole operation at one instant. */
  lemma StepKeepsValue<O, V>(m: Semantics<O, V>, cell0: V, s: Cpu<O, V>, a: Action<O>)
    requires StackInv(s) && ValueInv(m, cell0, s)
    ensures ValueInv(m, cell0, Apply(m, s, a))
  {
    if a.Advance? && Enabled(s, a) && Top(s).stage.Loaded? {
      var g := Top(s).stage;
      LegalExtends(m, cell0, s.log, Entry(g.op, m.result(g.op, g.temp)));
    }
  }

  /** A step leaves the lower frames, the log so far and the completed calls so far alone. */
  lemma StepFrame<O, V>(m: Semantics<O, V>, s: Cpu<O, V>, a: Action<O>)
    requires Enabled(s, a)
    ensures var s' := Apply(m, s, a);
            && |s.frames| - 1 <= |s'.frames| && s'.frames != []
            && (forall i :: 0 <= i < |s.frames| - 1 ==> s'.frames[i] == s.frames[i])
            && s.log <= s'.log && s.done <= s'.done
  {
  }

  /** The top frame after a step that does not pop it. */
  lemma TopPlaced<O, V>(m: Semantics<O, V>, s: Cpu<O, V>, a: Action<O>)
    requires Enabled(s, a) && Placed(s.log, Top(s))
    ensures !a.ReturnFromInterrupt? ==> Placed(Apply(m, s, a).log, Top(Apply(m, s, a)))
  {
  }

  lemma CallPlaced<O, V>(m: Semantics<O, V>, s: Cpu<O, V>)
    requires StackInv(s) && Placed(s.log, Top(s)) && Top(s).stage.Restored?
    ensures var s' := Apply(m, s, Advance);
            && s'.log == s.log && |s'.done| == |s.done| + 1
            && WellPlaced(s.log, s'.done[|s.done|])
  {
  }

  lemma StepKeepsPlaces<O, V>(m: Semantics<O, V>, s: Cpu<O, V>, a: Action<O>)
    requires StackInv(s) && PlaceInv(s)
    ensures PlaceInv(Apply(m, s, a))
  {
    if Enabled(s, a) {
      var s' := Apply(m, s, a);
      StepFrame(m, s, a);
      TopPlaced(m, s, a);
      forall i | 0 <= i < |s'.frames| ensures Placed(s'.log, s'.frames[i]) {
        assert i < |s.frames| ==> Placed(s.log, s.frames[i]);
        assert a.Interrupt? && i == |s.frames| - 1 ==> s'.frames[i] == s.frames[i];
      }
      if a.Advance? && Top(s).stage.Restored? { CallPlaced(m, s); }
      forall i | 0 <= i < |s'.done| ensures WellPlaced(s'.log, s'.done[i]) {
        assert i < |s.done| ==> WellPlaced(s.log, s.done[i]);
      }
    }
  }

  ghost function Claims<O, V>(s: Cpu<O, V>, k: nat): nat {
    FrameClaims(s.frames, k) + CallClaims(s.done, k)
  }

  /** Replacing the top frame exchanges its claim. */
  lemma ClaimsOfTop<O, V>(s: Cpu<O, V>, f: Frame<O, V>, k: nat)
    requires s.frames != []
    ensures FrameClaims(WithTop(s, f).frames, k) == FrameClaims(s.frames, k) - Claim(Top(s), k) + Claim(f, k)
  {
    assert WithTop(s, f).frames[..|s.frames| - 1] == s.frames[..|s.frames| - 1];
  }

  lemma ClaimsOfCall<O, V>(done: seq<Call<O, V>>, c: Call<O, V>, k: nat)
    ensures CallClaims(done + [c], k) == CallClaims(done, k) + if c.at == k then 1 else 0
  {
    assert (done + [c])[..|done|] == done;
  }

  /** The claim of the top frame through one of its steps. */
  lemma ClaimOfNext<O, V>(m: Semantics<O, V>, s: Cpu<O, V>, k: nat)
    requires Enabled(s, Advance)
    ensures var f := Top(s);
            Claim(f.(stage := NextStage(m, s)), k) == Claim(f, k)
              + (if f.stage.Loaded? && |s.log| == k then 1 else 0)
              - (if f.stage.Restored? && f.stage.at == k then 1 else 0)
  {
  }

  lemma CallsOfProceed<O, V>(m: Semantics<O, V>, s: Cpu<O, V>, k: nat)
    requires Enabled(s, Advance)
    ensures Proceed(m, s).frames == WithTop(s, Top(s).(stage := NextStage(m, s))).frames
    ensures CallClaims(Proceed(m, s).done, k)
            == CallClaims(s.done, k) + if Top(s).stage.Restored? && Top(s).stage.at == k then 1 else 0
  {
    var f := Top(s);
    if f.stage.Restored? {
      ClaimsOfCall(s.done, Call(f.stage.op, f.stage.ret, f.first, f.stage.at, |s.log|, f.found, s.irqs), k);
    }
  }

  lemma ProceedClaims<O, V>(m: Semantics<O, V>, s: Cpu<O, V>, k: nat)
    requires Enabled(s, Advance)
    ensures Claims(Proceed(m, s), k) == Claims(s, k) + if Top(s).stage.Loaded? && |s.log| == k then 1 else 0
  {
    ClaimsOfTop(s, Top(s).(stage := NextStage(m, s)), k);
    ClaimOfNext(m, s, k);
    CallsOfProceed(m, s, k);
  }

  /** Only a commit adds a claim: the new last place. */
  lemma ClaimStep<O, V>(m: Semantics<O, V>, s: Cpu<O, V>, a: Action<O>, k: nat)
    requires Enabled(s, a)
    ensures Claims(Apply(m, s, a), k)
            == Claims(s, k) + if |Apply(m, s, a).log| > |s.log| == k then 1 else 0
  {
    match a
    case Interrupt(irqs) =>
      var f := Frame(Resting, 0, irqs);
      assert (s.frames + [f])[..|s.frames|] == s.frames;
    case ReturnFromInterrupt =>
    case SetIrqs(_) =>
    case Begin(op) =>
      ClaimsOfTop(s, Frame(Entered(op), |s.log|, s.irqs), k);
    case Advance => ProceedClaims(m, s, k);
  }

  lemma StepKeepsClaims<O, V>(m: Semantics<O, V>, s: Cpu<O, V>, a: Action<O>)
    requires ClaimInv(s)
    ensures ClaimInv(Apply(m, s, a))
  {
    if Enabled(s, a) {
      forall k: nat ensures Claims(Apply(m, s, a), k) == if k < |Apply(m, s, a).log| then 1 else 0 {
        ClaimStep(m, s, a, k);
      }
    }
  }

  lemma {:induction false} RunInv<O, V>(m: Semantics<O, V>, cell0: V, irqs: bool, run: seq<Action<O>>)
    ensures Inv(m, cell0, Run(m, Boot(cell0, irqs), run))
    decreases |run|
  {
    if run == [] {
      var s := Boot<O, V>(cell0, irqs);
      forall k: nat ensures Claims(s, k) == 0 {
        assert FrameClaims(s.frames, k) == FrameClaims(s.frames[..0], k) + Claim(s.frames[0], k);
      }
    } else {
      var before := Run(m, Boot(cell0, irqs), run[..|run| - 1]);
      var a := run[|run| - 1];
      RunInv(m, cell0, irqs, run[..|run| - 1]);
      StepKeepsStack(m, before, a);
      StepKeepsValue(m, cell0, before, a);
      StepKeepsPlaces(m, before, a);
      StepKeepsClaims(m, before, a);
    }
  }

  // ----- the theorems -----

  /** However handlers nest, at most the top frame is inside a critical section, and then interrupts are off. */
  lemma {:induction false} OneCriticalSection<O, V>(m: Semantics<O, V>, cell0: V, irqs: bool, run: seq<Action<O>>, i: nat)
    requires i < |Run(m, Boot(cell0, irqs), run).frames|
    ensures var s := Run(m, Boot(cell0, irqs), run);
            Critical(s.frames[i].stage) ==> i == |s.frames| - 1 && !s.irqs
  {
    RunInv(m, cell0, irqs, run);
  }

  /** Each completed operation left the interrupt flag as it found it. */
  lemma FlagRestored<O, V>(m: Semantics<O, V>, cell0: V, irqs: bool, run: seq<Action<O>>, i: nat)
    requires i < |Run(m, Boot(cell0, irqs), run).done|
    ensures Run(m, Boot(cell0, irqs), run).done[i].left == Run(m, Boot(cell0, irqs), run).done[i].found
  {
    RunInv(m, cell0, irqs, run);
  }

  /**
   Linearizability: the cell is the replay of the log, every completed call has its own place in the
   log between its call and its return, and returned what the operation returns at that place; so a
   call that returned before another began comes before it in the log.
   */
  lemma Linearizable<O, V>(m: Semantics<O, V>, cell0: V, irqs: bool, run: seq<Action<O>>)
    ensures var s := Run(m, Boot(cell0, irqs), run);
            && s.cell == Replay(m, cell0, s.log)
            && forall i :: 0 <= i < |s.done| ==>
                 var c := s.done[i];
                 && c.first <= c.at < c.last <= |s.log|
                 && c.op == s.log[c.at].op
                 && c.ret == m.result(c.op, Replay(m, cell0, s.log[..c.at]))
    ensures var s := Run(m, Boot(cell0, irqs), run);
            forall i, j :: 0 <= i < j < |s.done| ==> s.done[i].at != s.done[j].at
    ensures var s := Run(m, Boot(cell0, irqs), run);
            forall i, j :: 0 <= i < |s.done| && 0 <= j < |s.done| && s.done[i].last <= s.done[j].first
                           ==> s.done[i].at < s.done[j].at
  {
    RunInv(m, cell0, irqs, run);
    var s := Run(m, Boot(cell0, irqs), run);
    forall i, j | 0 <= i < j < |s.done| ensures s.done[i].at != s.done[j].at {
      assert Claims(s, s.done[i].at) == 1;
      ClaimedTwice(s.done, i, j);
    }
  }

  /** Nothing is committed that no call asked for: with no operation in progress every log entry is a completed call's. */
  lemma NothingElseCommitted<O, V>(m: Semantics<O, V>, cell0: V, irqs: bool, run: seq<Action<O>>, k: nat)
    requires var s := Run(m, Boot(cell0, irqs), run);
             k < |s.log| && forall i :: 0 <= i < |s.frames| ==> s.frames[i].stage.Resting?
    ensures var s := Run(m, Boot(cell0, irqs), run);
            exists i :: 0 <= i < |s.done| && s.done[i].at == k
  {
    RunInv(m, cell0, irqs, run);
    var s := Run(m, Boot(cell0, irqs), run);
    RestingClaims(s.frames, k);
    assert Claims(s, k) == 1;
    var i := ClaimedBy(s.done, k);
  }

  /** The operations in the log are operations that were begun. */
  ghost predicate OnlyOps<O, V>(s: Cpu<O, V>, p: O -> bool) {
    && (forall i :: 0 <= i < |s.frames| && !s.frames[i].stage.Resting? ==> p(s.frames[i].stage.op))
    && (forall k :: 0 <= k < |s.log| ==> p(s.log[k].op))
  }

  lemma OpsStep<O, V>(m: Semantics<O, V>, s: Cpu<O, V>, a: Action<O>, p: O -> bool)
    requires OnlyOps(s, p) && (a.Begin? ==> p(a.op))
    ensures OnlyOps(Apply(m, s, a), p)
  {
    if Enabled(s, a) {
      StepFrame(m, s, a);
      assert !Top(s).stage.Resting? ==> p(Top(s).stage.op);
    }
  }

  lemma {:induction false} LogOfBegunOps<O, V>(m: Semantics<O, V>, cell0: V, irqs: bool, run: seq<Action<O>>,
                                               p: O -> bool)
    requires forall k :: 0 <= k < |run| && run[k].Begin? ==> p(run[k].op)
    ensures OnlyOps(Run(m, Boot(cell0, irqs), run), p)
    decreases |run|
  {
    if run != [] {
      LogOfBegunOps(m, cell0, irqs, run[..|run| - 1], p);
      var s := Run(m, Boot(cell0, irqs), run[..|run| - 1]);
      var a := run[|run| - 1];
      OpsStep(m, s, a, p);
    }
  }

  lemma {:induction false} ClaimedAtLeast<O, V>(done: seq<Call<O, V>>, i: nat)
    requires i < |done|
    ensures CallClaims(done, done[i].at) >= 1
    decreases |done|
  {
    if i < |done| - 1 { ClaimedAtLeast(done[..|done| - 1], i); }
  }

  lemma {:induction false} ClaimedTwice<O, V>(done: seq<Call<O, V>>, i: nat, j: nat)
    requires i < j < |done|
    ensures done[i].at == done[j].at ==> CallClaims(done, done[i].at) >= 2
    decreases |done|
  {
    if j < |done| - 1 {
      ClaimedTwice(done[..|done| - 1], i, j);
    } else {
      ClaimedAtLeast(done[..|done| - 1], i);
    }
  }

  lemma {:induction false} ClaimedBy<O, V>(done: seq<Call<O, V>>, k: nat) returns (i: nat)
    requires CallClaims(done, k) >= 1
    ensures i < |done| && done[i].at == k
    decreases |done|
  {
    if done[|done| - 1].at == k {
      i := |done| - 1;
    } else {
      i := ClaimedBy(done[..|done| - 1], k);
    }
  }

  lemma {:induction false} RestingClaims<O, V>(frames: seq<Frame<O, V>>, k: nat)
    requires forall i :: 0 <= i < |frames| ==> frames[i].stage.Resting?
    ensures FrameClaims(frames, k) == 0
    decreases |frames|
  {
    if frames != [] { RestingClaims(frames[..|frames| - 1], k); }
  }
}
