/**
 Reference and handle counting of GEM objects (drm/drmP.h over linux/kref.h).

 Each function is a sequence of atomic steps on `refcount` and `handle_count`, which are 32-bit
 and wrap around.  Beside the counters a state keeps the references and handles that callers
 hold and, per thread, the operation in flight.  A caller may start a drop only by giving up a
 reference or handle somebody took before; nothing else is asked of callers, and references and
 handles may be passed between threads freely.
 */
module GemObject {
  import opened Threads
  import opened Words

  datatype Phase =
    | Ready
    | HandleRefTaken                 // handle_reference: kref_get done, atomic_inc due
    | DropChecked(unlocked: bool)    // handle_unreference: saw a non-zero handle_count
    | DropZero(unlocked: bool)       // handle_unreference: reached 0, drm_gem_object_handle_free due
    | DropPut(unlocked: bool)        // handle_unreference: the object reference is still to be put
    | MutexWanted                    // unreference_unlocked: mutex_lock due
    | MutexHeld                      // unreference_unlocked: kref_put due
    | MutexDue                       // unreference_unlocked: mutex_unlock due

  datatype Mutex = Free | HeldBy(t: nat)

  /** `refs` and `handles` are held by callers; `destroyed` counts the runs of drm_gem_object_free. */
  datatype Gem = Gem(refcount: Int, handleCount: Int, mutex: Mutex, destroyed: nat,
                     refs: nat, handles: nat, threads: seq<Phase>)

  datatype Action =
    | Reference(t: nat)
    | Unreference(t: nat)
    | HandleReference(t: nat)
    | HandleCounted(t: nat)
    | HandleDrop(t: nat, unlocked: bool)
    | HandleDecrement(t: nat)
    | HandleFree(t: nat)
    | HandlePut(t: nat)
    | UnreferenceUnlocked(t: nat)
    | MutexLock(t: nat)
    | LockedPut(t: nat)
    | MutexUnlock(t: nat)

  /** A fresh object: one reference, held by its creator (kref_init). */
  function Init(n: nat): Gem {
    Gem(1, 0, Free, 0, 1, 0, seq(n, _ => Ready))
  }

  predicate Enabled(s: Gem, a: Action) {
    a.t < |s.threads| &&
    var p := s.threads[a.t];
    match a
    case Reference(_) => p.Ready? && s.refs + s.handles > 0
    case Unreference(_) => p.Ready? && s.refs > 0
    case HandleReference(_) => p.Ready? && s.refs + s.handles > 0
    case HandleCounted(_) => p.HandleRefTaken?
    case HandleDrop(_, _) => p.Ready? && s.handles > 0
    case HandleDecrement(_) => p.DropChecked?
    case HandleFree(_) => p.DropZero?
    case HandlePut(_) => p.DropPut?
    case UnreferenceUnlocked(_) => p.Ready? && s.refs > 0
    case MutexLock(_) => p.MutexWanted? && s.mutex.Free?
    case LockedPut(_) => p.MutexHeld?
    case MutexUnlock(_) => p.MutexDue?
  }

  /** What a step adds to refcount, and to handle_count. */
  function RefDelta(s: Gem, a: Action): int
    requires Enabled(s, a)
  {
    match a
    case Reference(_) => 1
    case HandleReference(_) => 1
    case Unreference(_) => -1
    case LockedPut(_) => -1
    case HandlePut(t) => if s.threads[t].unlocked then 0 else -1
    case _ => 0
  }

  function HandleDelta(s: Gem, a: Action): int {
    match a
    case HandleCounted(_) => 1
    case HandleDecrement(_) => -1
    case _ => 0
  }

  function NextRefs(s: Gem, a: Action): nat
    requires Enabled(s, a)
  {
    match a
    case Reference(_) => s.refs + 1
    case Unreference(_) => s.refs - 1
    case UnreferenceUnlocked(_) => s.refs - 1
    case _ => s.refs
  }

  function NextHandles(s: Gem, a: Action): nat
    requires Enabled(s, a)
  {
    match a
    case HandleCounted(_) => s.handles + 1
    case HandleDrop(_, _) => s.handles - 1
    case _ => s.handles
  }

  function NextPhase(s: Gem, a: Action): Phase
    requires Enabled(s, a)
  {
    match a
    case HandleReference(_) => HandleRefTaken
    // on a count of 0 the function returns, and the handle is lost
    case HandleDrop(_, unlocked) => if s.handleCount == 0 then Ready else DropChecked(unlocked)
    case HandleDecrement(t) =>
      if ToInt(s.handleCount - 1) == 0 then DropZero(s.threads[t].unlocked) else DropPut(s.threads[t].unlocked)
    case HandleFree(t) => DropPut(s.threads[t].unlocked)
    case HandlePut(t) => if s.threads[t].unlocked then MutexWanted else Ready
    case UnreferenceUnlocked(_) => MutexWanted
    case MutexLock(_) => MutexHeld
    case LockedPut(_) => MutexDue
    case _ => Ready
  }

  function NextMutex(s: Gem, a: Action): Mutex {
    match a
    case MutexLock(t) => HeldBy(t)
    case MutexUnlock(_) => Free
    case _ => s.mutex
  }

  /** One atomic step; kref_put runs the destructor when the count reaches 0. */
  function Apply(s: Gem, a: Action): Gem {
    if !Enabled(s, a) then s else
      var refcount := ToInt(s.refcount + RefDelta(s, a));
      Gem(refcount, ToInt(s.handleCount + HandleDelta(s, a)), NextMutex(s, a),
          s.destroyed + (if RefDelta(s, a) < 0 && refcount == 0 then 1 else 0),
          NextRefs(s, a), NextHandles(s, a), s.threads[a.t := NextPhase(s, a)])
  }

  function Run(s: Gem, run: seq<Action>): Gem {
    if run == [] then s else Apply(Run(s, run[..|run| - 1]), run[|run| - 1])
  }

  // ----- the account -----

  /** References and handle counts owned by an operation in flight. */
  function RefWeight(p: Phase): int { if p.Ready? || p.MutexDue? then 0 else 1 }

  function HandleWeight(p: Phase): int { if p.DropChecked? then 1 else 0 }

  function ZeroWeight(p: Phase): int { if p.DropZero? then 1 else 0 }

  /** All references, and all handle counts, that somebody has. */
  function Owned(s: Gem): int { s.refs + s.handles + Sum(s.threads, RefWeight) }

  function Counted(s: Gem): int { s.handles + Sum(s.threads, HandleWeight) }

  const INT_MAX := 0x7fff_ffff

  /** The counters are the account as 32-bit ints, and the destructor has run exactly if nothing is owned. */
  ghost predicate CountInv(s: Gem) {
    && Owned(s) < UINT32_MODULUS
    && s.refcount == ToInt(Owned(s))
    && s.handleCount == ToInt(Counted(s))
    && s.destroyed == (if Owned(s) == 0 then 1 else 0)
  }

  ghost predicate MutexInv(s: Gem) {
    forall t :: 0 <= t < |s.threads| ==>
      ((s.threads[t].MutexHeld? || s.threads[t].MutexDue?) <==> s.mutex == HeldBy(t))
  }

  ghost predicate Inv(s: Gem) { CountInv(s) && MutexInv(s) }

  /** Counting up and down modulo 2^32; below 2^32 the small values are told apart. */
  lemma Wraps(x: int)
    requires 0 <= x <= UINT32_MODULUS
    ensures ToInt(ToInt(x) + 1) == ToInt(x + 1) && ToInt(ToInt(x) - 1) == ToInt(x - 1) && ToInt(ToInt(x)) == ToInt(x)
    ensures x < UINT32_MODULUS ==> (ToInt(x) == 0 <==> x == 0) && (ToInt(x) == 1 <==> x == 1)
    ensures x <= INT_MAX <==> x < UINT32_MODULUS && ToInt(x) == x
  {
  }

  /** How the account changes when one thread changes phase. */
  lemma AccountMove(threads: seq<Phase>, t: nat, p: Phase)
    requires t < |threads|
    ensures var q, moved := threads[t], threads[t := p];
            && Sum(moved, RefWeight) == Sum(threads, RefWeight) - RefWeight(q) + RefWeight(p)
            && Sum(moved, HandleWeight) == Sum(threads, HandleWeight) - HandleWeight(q) + HandleWeight(p)
            && Sum(moved, ZeroWeight) == Sum(threads, ZeroWeight) - ZeroWeight(q) + ZeroWeight(p)
  {
    SumUpdate(threads, t, p, RefWeight);
    SumUpdate(threads, t, p, HandleWeight);
    SumUpdate(threads, t, p, ZeroWeight);
  }

  /** What is owned covers the handles counted. */
  lemma AccountBounds(s: Gem)
    ensures 0 <= Counted(s) <= Owned(s)
  {
    var rest := p => RefWeight(p) - HandleWeight(p);
    SumNonNegative(s.threads, rest);
    SumNonNegative(s.threads, HandleWeight);
    SumOfSums(s.threads, HandleWeight, rest, RefWeight);
  }

  /** A step other than the last mutex_unlock is taken by somebody who owns something. */
  lemma StepperOwns(s: Gem, a: Action)
    requires Enabled(s, a)
    ensures !a.MutexUnlock? ==> Owned(s) > 0
    ensures a.HandleDrop? || a.HandleDecrement? ==> Counted(s) > 0
  {
    SumNonNegative(s.threads, RefWeight);
    SumNonNegative(s.threads, HandleWeight);
    SumAtLeastOne(s.threads, a.t, RefWeight);
    SumAtLeastOne(s.threads, a.t, HandleWeight);
  }

  /** Unless a drop meets a count of 0, a step adds to the account what it adds to the counters. */
  lemma AccountStep(s: Gem, a: Action)
    requires Enabled(s, a) && (a.HandleDrop? ==> s.handleCount != 0)
    ensures Owned(Apply(s, a)) == Owned(s) + RefDelta(s, a)
    ensures Counted(Apply(s, a)) == Counted(s) + HandleDelta(s, a)
  {
    AccountMove(s.threads, a.t, NextPhase(s, a));
  }

  /** The early return on a zero handle_count never happens, so no handle is ever lost. */
  lemma DropSeesHandle(s: Gem, t: nat, unlocked: bool)
    requires Inv(s) && Enabled(s, HandleDrop(t, unlocked))
    ensures s.handleCount != 0 && Apply(s, HandleDrop(t, unlocked)).threads[t] == DropChecked(unlocked)
  {
    AccountBounds(s);
    StepperOwns(s, HandleDrop(t, unlocked));
    Wraps(Counted(s));
  }

  /** Every step but the final mutex_unlock finds the object referenced: nothing touches a destroyed object. */
  lemma StepsFindObject(s: Gem, a: Action)
    requires Inv(s) && Enabled(s, a) && !a.MutexUnlock?
    ensures Owned(s) > 0 && s.refcount != 0 && s.destroyed == 0
  {
    StepperOwns(s, a);
    Wraps(Owned(s));
  }

  lemma StepKeepsCounts(s: Gem, a: Action)
    requires Inv(s) && Enabled(s, a) && Owned(Apply(s, a)) < UINT32_MODULUS
    ensures CountInv(Apply(s, a))
    ensures Owned(Apply(s, a)) == Owned(s) + RefDelta(s, a)
    ensures Counted(Apply(s, a)) == Counted(s) + HandleDelta(s, a)
  {
    if a.HandleDrop? { DropSeesHandle(s, a.t, a.unlocked); }
    AccountStep(s, a);
    AccountBounds(s);
    AccountBounds(Apply(s, a));
    Wraps(Owned(s));
    Wraps(Counted(s));
    Wraps(Owned(Apply(s, a)));
    if !a.MutexUnlock? { StepsFindObject(s, a); }
  }

  lemma StepKeepsMutex(s: Gem, a: Action)
    requires MutexInv(s)
    ensures MutexInv(Apply(s, a)) && |Apply(s, a).threads| == |s.threads|
  {
  }

  /** Every step keeps the invariant as long as fewer than 2^32 references are owned after it. */
  lemma StepKeepsInv(s: Gem, a: Action)
    requires Inv(s) && Owned(Apply(s, a)) < UINT32_MODULUS
    ensures Inv(Apply(s, a)) && |Apply(s, a).threads| == |s.threads|
  {
    if Enabled(s, a) { StepKeepsCounts(s, a); }
    StepKeepsMutex(s, a);
  }

  // ----- whole runs -----

  /** The most that was ever owned in a run. */
  function Peak(s: Gem, run: seq<Action>): int {
    if run == [] then Owned(s)
    else
      var before, now := Peak(s, run[..|run| - 1]), Owned(Run(s, run));
      if before < now then now else before
  }

  lemma Extend(s: Gem, run: seq<Action>, a: Action)
    ensures Run(s, run + [a]) == Apply(Run(s, run), a)
    ensures Peak(s, run) <= Peak(s, run + [a])
    ensures Peak(s, run + [a]) <= Peak(s, run) || Peak(s, run + [a]) == Owned(Apply(Run(s, run), a))
    ensures Owned(Apply(Run(s, run), a)) <= Peak(s, run + [a])
  {
    assert (run + [a])[..|run|] == run;
  }

  lemma {:induction false} Append(s: Gem, xs: seq<Action>, ys: seq<Action>)
    ensures Run(s, xs + ys) == Run(Run(s, xs), ys)
    decreases |ys|
  {
    if ys == [] {
      assert xs + ys == xs;
    } else {
      assert (xs + ys)[..|xs + ys| - 1] == xs + ys[..|ys| - 1];
      Append(s, xs, ys[..|ys| - 1]);
    }
  }

  lemma {:induction false} OwnedBelowPeak(s: Gem, run: seq<Action>)
    ensures Owned(Run(s, run)) <= Peak(s, run)
  {
  }

  lemma InitInv(n: nat)
    ensures Inv(Init(n)) && Owned(Init(n)) == 1
  {
    SumZero(Init(n).threads, RefWeight);
    SumZero(Init(n).threads, HandleWeight);
  }

  lemma {:induction false} RunKeepsInv(n: nat, run: seq<Action>)
    requires Peak(Init(n), run) < UINT32_MODULUS
    ensures Inv(Run(Init(n), run)) && |Run(Init(n), run).threads| == n
    decreases |run|
  {
    if run == [] {
      InitInv(n);
    } else {
      RunKeepsInv(n, run[..|run| - 1]);
      StepKeepsInv(Run(Init(n), run[..|run| - 1]), run[|run| - 1]);
    }
  }

  ghost predicate Covered(s: Gem) { 0 <= s.handleCount <= s.refcount }

  /** Covered at every moment of the run. */
  ghost predicate CoveredThroughout(n: nat, run: seq<Action>) {
    Covered(Run(Init(n), run)) && (run != [] ==> CoveredThroughout(n, run[..|run| - 1]))
  }

  lemma CoveredExactly(s: Gem)
    requires Inv(s)
    ensures Owned(s) <= INT_MAX ==> Covered(s)
    ensures Owned(s) == INT_MAX + 1 ==> !Covered(s)
  {
    AccountBounds(s);
    Wraps(Owned(s));
    Wraps(Counted(s));
  }

  /**
   In every interleaving there are at least as many references as handles and neither count is
   negative, if and only if never more than INT_MAX references are owned.
   */
  lemma {:induction false} RefcountCoversHandles(n: nat, run: seq<Action>)
    ensures CoveredThroughout(n, run) <==> Peak(Init(n), run) <= INT_MAX
    decreases |run|
  {
    if run == [] {
      InitInv(n);
    } else {
      var before, a := run[..|run| - 1], run[|run| - 1];
      RefcountCoversHandles(n, before);
      if Peak(Init(n), before) <= INT_MAX {
        var s := Run(Init(n), before);
        RunKeepsInv(n, before);
        OwnedBelowPeak(Init(n), before);
        OwnedStepsByOne(s, a);
        StepKeepsInv(s, a);
        CoveredExactly(Apply(s, a));
      }
    }
  }

  lemma OwnedStepsByOne(s: Gem, a: Action)
    requires Inv(s)
    ensures Owned(Apply(s, a)) <= Owned(s) + 1
  {
    if Enabled(s, a) {
      if a.HandleDrop? { DropSeesHandle(s, a.t, a.unlocked); }
      AccountStep(s, a);
    }
  }

  /** How often the handle count went from 1 to 0 in a run. */
  function Transitions(s: Gem, run: seq<Action>): nat {
    if run == [] then 0
    else
      var before := run[..|run| - 1];
      Transitions(s, before) + if Run(s, before).handleCount == 1 && Run(s, run).handleCount == 0 then 1 else 0
  }

  /** How often drm_gem_object_handle_free ran in it. */
  function HandleFrees(s: Gem, run: seq<Action>): nat {
    if run == [] then 0
    else
      var before, a := run[..|run| - 1], run[|run| - 1];
      HandleFrees(s, before) + if a.HandleFree? && Enabled(Run(s, before), a) then 1 else 0
  }

  /** A step takes the count from 1 to 0 exactly if its thread then owes a drm_gem_object_handle_free. */
  lemma TransitionStep(s: Gem, a: Action)
    requires Enabled(s, a)
    ensures Sum(Apply(s, a).threads, ZeroWeight)
            == Sum(s.threads, ZeroWeight)
               + (if s.handleCount == 1 && Apply(s, a).handleCount == 0 then 1 else 0)
               - (if a.HandleFree? then 1 else 0)
  {
    AccountMove(s.threads, a.t, NextPhase(s, a));
  }

  /**
   drm_gem_object_handle_free runs once for each time the handle count goes from 1 to 0: the runs so
   far and those a thread still owes add up to the transitions.
   */
  lemma {:induction false} HandleFreePerTransition(n: nat, run: seq<Action>)
    ensures Transitions(Init(n), run) == HandleFrees(Init(n), run) + Sum(Run(Init(n), run).threads, ZeroWeight)
    decreases |run|
  {
    if run == [] {
      SumZero(Init(n).threads, ZeroWeight);
    } else {
      var before, a := run[..|run| - 1], run[|run| - 1];
      HandleFreePerTransition(n, before);
      var s := Run(Init(n), before);
      if Enabled(s, a) { TransitionStep(s, a); }
    }
  }

  /** And a thread that owes one finds the object still there. */
  lemma HandleFreeFindsObject(n: nat, run: seq<Action>, t: nat)
    requires Peak(Init(n), run) < UINT32_MODULUS && t < n
    ensures var s := Run(Init(n), run);
            |s.threads| == n && (s.threads[t].DropZero? ==> Owned(s) > 0 && s.refcount != 0 && s.destroyed == 0)
  {
    RunKeepsInv(n, run);
    var s := Run(Init(n), run);
    if s.threads[t].DropZero? { StepsFindObject(s, HandleFree(t)); }
  }

  /**
   The destructor runs exactly once, by the step that gives up the last reference, and under the
   mutex in the unlocked form; after it only that mutex is still to be unlocked.
   */
  lemma DestructorOnce(n: nat, run: seq<Action>, a: Action)
    requires Peak(Init(n), run + [a]) < UINT32_MODULUS
    ensures var s := Run(Init(n), run);
            var s' := Apply(s, a);
            && s.destroyed == (if Owned(s) == 0 then 1 else 0)
            && (s'.destroyed > s.destroyed <==> Owned(s) > 0 && Owned(s') == 0)
            && (s'.destroyed > s.destroyed && a.LockedPut? ==> s.mutex == HeldBy(a.t))
            && (s.destroyed == 1 && Enabled(s, a) ==> a.MutexUnlock?)
  {
    Extend(Init(n), run, a);
    RunKeepsInv(n, run);
    var s := Run(Init(n), run);
    StepKeepsInv(s, a);
    AccountBounds(s);
    if Enabled(s, a) && !a.MutexUnlock? { StepsFindObject(s, a); }
  }

  /** When no caller holds anything and no operation is in flight, the object is gone. */
  lemma NothingLeaks(n: nat, run: seq<Action>)
    requires Peak(Init(n), run) < UINT32_MODULUS
    requires var s := Run(Init(n), run);
             s.refs == 0 && s.handles == 0 && forall t :: 0 <= t < |s.threads| ==> s.threads[t].Ready?
    ensures var s := Run(Init(n), run); s.refcount == 0 && s.handleCount == 0 && s.destroyed == 1
    ensures Transitions(Init(n), run) == HandleFrees(Init(n), run)
  {
    RunKeepsInv(n, run);
    HandleFreePerTransition(n, run);
    var s := Run(Init(n), run);
    SumZero(s.threads, RefWeight);
    SumZero(s.threads, HandleWeight);
    SumZero(s.threads, ZeroWeight);
  }

  // ----- the bound is exact -----

  /** While never more than b references are owned, the destructor has run exactly if nothing is owned. */
  ghost predicate Sound(n: nat, b: nat) {
    forall run: seq<Action> :: Peak(Init(n), run) <= b ==>
      Run(Init(n), run).destroyed == if Owned(Run(Init(n), run)) == 0 then 1 else 0
  }

  /** One thread takes k handles and gives up the reference it began with. */
  function Fill(k: nat): seq<Action> {
    if k <= 1 then [HandleReference(0)] + [HandleCounted(0)] + [Action.Unreference(0)]
    else Fill(k - 1) + [HandleReference(0)] + [HandleCounted(0)]
  }

  function Full(n: nat, k: nat): Gem {
    Gem(ToInt(k), ToInt(k), Free, 0, 0, k, seq(n, _ => Ready))
  }

  lemma RestingOwned(s: Gem, n: nat)
    requires s.threads == seq(n, _ => Ready)
    ensures Owned(s) == s.refs + s.handles
  {
    SumZero(s.threads, RefWeight);
  }

  /** A handle taken with nothing in flight. */
  lemma TakeHandle(s: Gem, n: nat, run: seq<Action>)
    requires n > 0 && s == Run(Init(n), run) && s.threads == seq(n, _ => Ready) && s.refs + s.handles > 0
    ensures var run' := run + [HandleReference(0)] + [HandleCounted(0)];
            && Run(Init(n), run')
               == s.(refcount := ToInt(s.refcount + 1), handleCount := ToInt(s.handleCount + 1), handles := s.handles + 1)
            && (Peak(Init(n), run') <= Peak(Init(n), run) || Peak(Init(n), run') == s.refs + s.handles + 1)
  {
    Extend(Init(n), run, HandleReference(0));
    Extend(Init(n), run + [HandleReference(0)], HandleCounted(0));
    var s1 := Apply(s, HandleReference(0));
    var s2 := Apply(s1, HandleCounted(0));
    assert s2.threads == seq(n, _ => Ready);
    RestingOwned(s, n);
    RestingOwned(s2, n);
    AccountMove(s.threads, 0, HandleRefTaken);
  }

  lemma FirstHandle(n: nat)
    requires n > 0
    ensures Run(Init(n), Fill(1)) == Full(n, 1) && Peak(Init(n), Fill(1)) <= 2
  {
    InitInv(n);
    var run := [] + [HandleReference(0)] + [HandleCounted(0)];
    TakeHandle(Init(n), n, []);
    assert run == [HandleReference(0)] + [HandleCounted(0)];
    Extend(Init(n), run, Action.Unreference(0));
    var s := Run(Init(n), run);
    assert s == Gem(2 - 0, 1, Free, 0, 1, 1, seq(n, _ => Ready));
    assert s.threads[0 := Ready] == s.threads;
    RestingOwned(Full(n, 1), n);
  }

  lemma FillStep(n: nat, k: nat, run: seq<Action>)
    requires n > 0 && 2 <= k <= UINT32_MODULUS
    requires Run(Init(n), run) == Full(n, k - 1) && Peak(Init(n), run) <= k
    ensures var run' := run + [HandleReference(0)] + [HandleCounted(0)];
            Run(Init(n), run') == Full(n, k) && Peak(Init(n), run') <= k
  {
    Wraps(k - 1);
    TakeHandle(Full(n, k - 1), n, run);
  }

  lemma {:induction false} FillRun(n: nat, k: nat)
    requires n > 0 && 1 <= k <= UINT32_MODULUS
    ensures Run(Init(n), Fill(k)) == Full(n, k) && Peak(Init(n), Fill(k)) <= if k == 1 then 2 else k
  {
    if k == 1 {
      FirstHandle(n);
    } else {
      FillRun(n, k - 1);
      FillStep(n, k, Fill(k - 1));
    }
  }

  /** With 2^32 handles the count reads 0, and a drop returns at once and leaves its reference behind. */
  lemma DropOfFull(n: nat, k: nat, run: seq<Action>)
    requires n > 0 && k == UINT32_MODULUS && Run(Init(n), run) == Full(n, k) && Peak(Init(n), run) <= k
    ensures var run' := run + [HandleDrop(0, false)];
            Run(Init(n), run') == Gem(0, 0, Free, 0, 0, k - 1, seq(n, _ => Ready)) && Peak(Init(n), run') == k
  {
    Extend(Init(n), run, HandleDrop(0, false));
    var s := Full(n, k);
    assert s.threads[0 := Ready] == s.threads;
    OwnedBelowPeak(Init(n), run);
    RestingOwned(s, n);
    RestingOwned(Gem(0, 0, Free, 0, 0, k - 1, seq(n, _ => Ready)), n);
  }

  /** A reference taken and given up on a count of 0 destroys the object. */
  lemma TakeAndGiveUp(n: nat, k: nat, run: seq<Action>)
    requires n > 0 && k > 0 && Peak(Init(n), run) == k + 1
    requires Run(Init(n), run) == Gem(0, 0, Free, 0, 0, k, seq(n, _ => Ready))
    ensures var run' := run + [Action.Reference(0)] + [Action.Unreference(0)];
            Run(Init(n), run') == Gem(0, 0, Free, 1, 0, k, seq(n, _ => Ready)) && Peak(Init(n), run') == k + 1
  {
    Extend(Init(n), run, Action.Reference(0));
    Extend(Init(n), run + [Action.Reference(0)], Action.Unreference(0));
    var ready := seq(n, _ => Ready);
    assert ready[0 := Ready] == ready;
    RestingOwned(Gem(1, 0, Free, 0, 1, k, ready), n);
    RestingOwned(Gem(0, 0, Free, 1, 0, k, ready), n);
  }

  /** So an object may be destroyed under 2^32 - 1 handles, when 2^32 references were owned. */
  lemma BeyondTheBound(n: nat, k: nat) returns (run: seq<Action>)
    requires n > 0 && k == UINT32_MODULUS
    ensures Peak(Init(n), run) == k
    ensures var s := Run(Init(n), run); s.destroyed == 1 && s.handles == k - 1 == Owned(s)
  {
    FillRun(n, k);
    DropOfFull(n, k, Fill(k));
    TakeAndGiveUp(n, k - 1, Fill(k) + [HandleDrop(0, false)]);
    run := Fill(k) + [HandleDrop(0, false)] + [Action.Reference(0)] + [Action.Unreference(0)];
    RestingOwned(Run(Init(n), run), n);
  }

  /** The destructor is right in every run with at most b references owned if and only if b is below 2^32. */
  lemma BoundIsExact(n: nat, b: nat)
    requires n > 0
    ensures Sound(n, b) <==> b < UINT32_MODULUS
  {
    if b < UINT32_MODULUS {
      forall run: seq<Action> | Peak(Init(n), run) <= b
        ensures Run(Init(n), run).destroyed == if Owned(Run(Init(n), run)) == 0 then 1 else 0
      {
        RunKeepsInv(n, run);
      }
    } else {
      var run := BeyondTheBound(n, UINT32_MODULUS);
    }
  }

  // ----- the functions of the header -----

  ghost predicate ByOthers(t: nat, run: seq<Action>) {
    forall i :: 0 <= i < |run| ==> run[i].t != t
  }

  lemma {:induction false} OthersFrame(s: Gem, t: nat, run: seq<Action>)
    requires t < |s.threads| && ByOthers(t, run)
    ensures |Run(s, run).threads| == |s.threads| && Run(s, run).threads[t] == s.threads[t]
    decreases |run|
  {
    if run != [] { OthersFrame(s, t, run[..|run| - 1]); }
  }

  lemma MutexSteps(s: Gem, t: nat)
    requires t < |s.threads|
    ensures s.threads[t].MutexWanted? && s.mutex.Free? ==>
              Apply(s, MutexLock(t)) == s.(mutex := HeldBy(t), threads := s.threads[t := MutexHeld])
    ensures s.threads[t].MutexDue? ==>
              Apply(s, MutexUnlock(t)) == s.(mutex := Free, threads := s.threads[t := Ready])
  {
  }

  lemma DecrementStep(s: Gem, t: nat)
    requires t < |s.threads| && s.threads[t].DropChecked?
    ensures var unlocked := s.threads[t].unlocked;
            Apply(s, HandleDecrement(t))
            == s.(handleCount := ToInt(s.handleCount - 1),
                  threads := s.threads[t := if s.handleCount == 1 then DropZero(unlocked) else DropPut(unlocked)])
  {
  }

  /**
   A drm_gem_object: its counters, its mutex, and beside them what is held on it.  `past` is every
   step taken on the object since it was created, so what is proved of runs holds of the object.
   */
  class DrmGemObject {
    const n: nat
    var refcount: Int
    var handleCount: Int
    var structMutex: Mutex
    var destroyed: nat
    var refs: nat
    var handles: nat
    var threads: seq<Phase>
    ghost var past: seq<Action>

    function Abs(): Gem
      reads this
    {
      Gem(refcount, handleCount, structMutex, destroyed, refs, handles, threads)
    }

    ghost predicate Valid()
      reads this
    {
      Abs() == Run(Init(n), past)
    }

    ghost predicate At(t: nat, p: Phase)
      reads this
    {
      t < |threads| && threads[t] == p
    }

    constructor (n: nat)
      ensures Valid() && this.n == n && past == []
    {
      this.n, refcount, handleCount, structMutex, destroyed := n, 1, 0, Free, 0;
      refs, handles, threads, past := 1, 0, Init(n).threads, [];
    }

    /** The account of a step, beside what the step does to the counters and the mutex. */
    method Record(a: Action)
      requires Enabled(Abs(), a)
      modifies this`refs, this`handles, this`threads, this`past
      ensures var s := Apply(old(Abs()), a); refs == s.refs && handles == s.handles && threads == s.threads
      ensures past == old(past) + [a]
      ensures Run(Init(n), past) == Apply(Run(Init(n), old(past)), a)
    {
      Extend(Init(n), past, a);
      var s := Apply(Abs(), a);
      refs, handles, threads, past := s.refs, s.handles, s.threads, past + [a];
    }

    /** Other threads run for a while. */
    method Interfere(t: nat, env: seq<Action>)
      requires Valid() && t < |threads| && ByOthers(t, env)
      modifies this
      ensures Valid() && past == old(past) + env
      ensures |threads| == |old(threads)| && threads[t] == old(threads)[t]
    {
      OthersFrame(Abs(), t, env);
      Append(Init(n), past, env);
      var s := Run(Abs(), env);
      refcount, handleCount, structMutex, destroyed := s.refcount, s.handleCount, s.mutex, s.destroyed;
      refs, handles, threads, past := s.refs, s.handles, s.threads, past + env;
    }

    method KrefGet(a: Action)
      requires Valid() && Enabled(Abs(), a) && (a.Reference? || a.HandleReference?)
      modifies this
      ensures Valid() && past == old(past) + [a] && Abs() == Apply(old(Abs()), a)
    {
      Record(a);
      refcount := ToInt(refcount + 1);
    }

    /** kref_put with drm_gem_object_free as the release function. */
    method KrefPut(a: Action) returns (removed: bool)
      requires Valid() && Enabled(Abs(), a) && RefDelta(Abs(), a) == -1
      modifies this
      ensures Valid() && past == old(past) + [a] && Abs() == Apply(old(Abs()), a)
      ensures removed <==> refcount == 0
    {
      Record(a);
      refcount := ToInt(refcount - 1);
      removed := refcount == 0;
      if removed {
        destroyed := destroyed + 1;
      }
    }

    method Reference(t: nat)
      requires Valid() && At(t, Ready) && refs + handles > 0
      modifies this
      ensures Valid() && At(t, Ready) && past == old(past) + [Action.Reference(t)]
      ensures refcount == ToInt(old(refcount) + 1) && refs == old(refs) + 1
    {
      KrefGet(Action.Reference(t));
    }

    /** One reference and one handle more, whatever happens between the two steps. */
    method HandleReference(t: nat, env: seq<Action>)
      requires Valid() && At(t, Ready) && refs + handles > 0 && ByOthers(t, env)
      modifies this
      ensures Valid() && At(t, Ready) && handles > 0
      ensures past == old(past) + [Action.HandleReference(t)] + env + [HandleCounted(t)]
    {
      KrefGet(Action.HandleReference(t));
      Interfere(t, env);
      Record(HandleCounted(t));
      handleCount := ToInt(handleCount + 1);
    }

    /** atomic_read of the handle count, by a thread that gives up a handle. */
    method HandleRead(t: nat, unlocked: bool) returns (count: Int)
      requires Valid() && At(t, Ready) && handles > 0
      modifies this
      ensures Valid() && past == old(past) + [HandleDrop(t, unlocked)]
      ensures count == old(handleCount) && At(t, if count == 0 then Ready else DropChecked(unlocked))
    {
      count := handleCount;
      Record(HandleDrop(t, unlocked));
    }

    /** atomic_dec_and_test on the handle count. */
    method HandleDecAndTest(t: nat, unlocked: bool) returns (zero: bool)
      requires Valid() && At(t, DropChecked(unlocked))
      modifies this
      ensures Valid() && past == old(past) + [HandleDecrement(t)]
      ensures zero <==> old(handleCount) == 1
      ensures At(t, if zero then DropZero(unlocked) else DropPut(unlocked))
    {
      DecrementStep(Abs(), t);
      Record(HandleDecrement(t));
      handleCount := ToInt(handleCount - 1);
      zero := handleCount == 0;
    }

    /** atomic_dec_and_test and, if it reached 0, drm_gem_object_handle_free, with what others do in between. */
    method DecrementAndFree(t: nat, unlocked: bool, env: seq<Action>) returns (freed: bool)
      requires Valid() && At(t, DropChecked(unlocked)) && ByOthers(t, env)
      modifies this
      ensures Valid() && At(t, DropPut(unlocked)) && (freed <==> old(handleCount) == 1)
      ensures past == old(past) + [HandleDecrement(t)] + env + if freed then [HandleFree(t)] else []
    {
      freed := HandleDecAndTest(t, unlocked);
      Interfere(t, env);
      if freed {
        Record(HandleFree(t));
      }
    }

    /**
     The part of handle_unreference before the last put: the read, the decrement and, if that
     reached 0, drm_gem_object_handle_free.  The windows between them are the others'.
     */
    method DropHandle(t: nat, unlocked: bool, env: seq<Action>, env': seq<Action>, env'': seq<Action>)
      returns (early: bool, freed: bool)
      requires Valid() && At(t, Ready) && handles > 0
      requires ByOthers(t, env) && ByOthers(t, env') && ByOthers(t, env'')
      modifies this
      ensures Valid() && (early <==> old(handleCount) == 0)
      ensures early ==> At(t, Ready) && !freed && past == old(past) + [HandleDrop(t, unlocked)]
      ensures !early ==>
                && At(t, DropPut(unlocked))
                && past == DropSteps(old(past), t, unlocked, env, env', env'', freed)
                && (freed <==> Run(Init(n), old(past) + [HandleDrop(t, unlocked)] + env).handleCount == 1)
      ensures Peak(Init(n), past) < UINT32_MODULUS ==> !early
    {
      ghost var before := past;
      var count := HandleRead(t, unlocked);
      if count == 0 {
        if Peak(Init(n), past) < UINT32_MODULUS { NotEarly(n, before, HandleDrop(t, unlocked)); }
        return true, false;
      }
      Interfere(t, env);
      freed := DecrementAndFree(t, unlocked, env');
      Interfere(t, env'');
      early := false;
    }

    method LockMutex(t: nat)
      requires Valid() && At(t, MutexWanted) && structMutex.Free?
      modifies this
      ensures Valid() && past == old(past) + [MutexLock(t)] && At(t, MutexHeld)
    {
      MutexSteps(Abs(), t);
      Record(MutexLock(t));
      structMutex := HeldBy(t);
    }

    method UnlockMutex(t: nat)
      requires Valid() && At(t, MutexDue)
      modifies this
      ensures Valid() && past == old(past) + [MutexUnlock(t)] && At(t, Ready)
      ensures structMutex.Free? && refcount == old(refcount)
    {
      MutexSteps(Abs(), t);
      Record(MutexUnlock(t));
      structMutex := Free;
    }

    /**
     mutex_lock, kref_put, mutex_unlock.  `wait` is what the others do until the mutex is free, `env`
     what they do while it is held.
     */
    method PutUnderMutex(t: nat, wait: seq<Action>, env: seq<Action>) returns (last: bool)
      requires Valid() && At(t, MutexWanted) && ByOthers(t, wait) && ByOthers(t, env)
      requires Run(Init(n), past + wait).mutex.Free?
      modifies this
      ensures Valid() && At(t, Ready) && structMutex.Free?
      ensures past == old(past) + wait + [MutexLock(t)] + env + [LockedPut(t)] + [MutexUnlock(t)]
      ensures last <==> refcount == 0
    {
      Interfere(t, wait);
      LockMutex(t);
      Interfere(t, env);
      last := KrefPut(LockedPut(t));
      UnlockMutex(t);
    }
  }

  /** The steps of handle_unreference before its last put, after `past`. */
  ghost function DropSteps(past: seq<Action>, t: nat, unlocked: bool,
                           env: seq<Action>, env': seq<Action>, env'': seq<Action>, freed: bool): seq<Action> {
    past + [HandleDrop(t, unlocked)] + env + [HandleDecrement(t)] + env'
    + (if freed then [HandleFree(t)] else []) + env''
  }

  /** Within the bound the outcome of a put tells whether the object is gone. */
  lemma PutTells(n: nat, past: seq<Action>)
    requires Peak(Init(n), past) < UINT32_MODULUS
    ensures var s := Run(Init(n), past); s.destroyed == if s.refcount == 0 then 1 else 0
  {
    RunKeepsInv(n, past);
    AccountBounds(Run(Init(n), past));
    Wraps(Owned(Run(Init(n), past)));
  }

  /** Within the bound handle_unreference does not return early. */
  lemma NotEarly(n: nat, past: seq<Action>, a: Action)
    requires Peak(Init(n), past + [a]) < UINT32_MODULUS && a.HandleDrop? && Enabled(Run(Init(n), past), a)
    ensures Run(Init(n), past).handleCount != 0
  {
    Extend(Init(n), past, a);
    RunKeepsInv(n, past);
    DropSeesHandle(Run(Init(n), past), a.t, a.unlocked);
  }

  /** Nothing for a null pointer, otherwise one reference less; the destructor runs if it was the last. */
  method Unreference(obj: DrmGemObject?, t: nat) returns (last: bool)
    requires obj != null ==> obj.Valid() && obj.At(t, Ready) && obj.refs > 0
    modifies obj
    ensures obj == null ==> !last
    ensures obj != null ==>
              && obj.Valid() && obj.At(t, Ready)
              && obj.past == old(obj.past) + [Action.Unreference(t)]
              && (last <==> obj.refcount == 0)
              && (Peak(Init(obj.n), obj.past) < UINT32_MODULUS ==> obj.destroyed == if last then 1 else 0)
  {
    last := false;
    if obj != null {
      last := obj.KrefPut(Action.Unreference(t));
      if Peak(Init(obj.n), obj.past) < UINT32_MODULUS { PutTells(obj.n, obj.past); }
    }
  }

  /** The same between mutex_lock and mutex_unlock. */
  method UnreferenceUnlocked(obj: DrmGemObject?, t: nat, wait: seq<Action>, env: seq<Action>) returns (last: bool)
    requires obj != null ==> obj.Valid() && obj.At(t, Ready) && obj.refs > 0 && ByOthers(t, wait) && ByOthers(t, env)
    requires obj != null ==> Run(Init(obj.n), obj.past + [Action.UnreferenceUnlocked(t)] + wait).mutex.Free?
    modifies obj
    ensures obj == null ==> !last
    ensures obj != null ==>
              && obj.Valid() && obj.At(t, Ready) && obj.structMutex.Free?
              && obj.past == old(obj.past) + [Action.UnreferenceUnlocked(t)] + wait + [MutexLock(t)] + env
                             + [LockedPut(t)] + [MutexUnlock(t)]
              && (last <==> obj.refcount == 0)
              && (Peak(Init(obj.n), obj.past) < UINT32_MODULUS ==> obj.destroyed == if last then 1 else 0)
  {
    last := false;
    if obj != null {
      obj.Record(Action.UnreferenceUnlocked(t));
      last := obj.PutUnderMutex(t, wait, env);
      if Peak(Init(obj.n), obj.past) < UINT32_MODULUS { PutTells(obj.n, obj.past); }
    }
  }

  /**
   The handle count goes down before the reference does, so drm_gem_object_handle_free still finds
   the object, whatever other threads do in the windows.  It returns early exactly on a handle count
   of 0, which within the bound does not happen.
   */
  method HandleUnreference(obj: DrmGemObject?, t: nat, env: seq<Action>, env': seq<Action>, env'': seq<Action>)
    returns (freed: bool, last: bool)
    requires obj != null ==> obj.Valid() && obj.At(t, Ready) && obj.handles > 0
    requires ByOthers(t, env) && ByOthers(t, env') && ByOthers(t, env'')
    modifies obj
    ensures obj == null ==> !freed && !last
    ensures obj != null ==>
              && obj.Valid() && obj.At(t, Ready)
              && (old(obj.handleCount) == 0 ==>
                    !freed && !last && obj.past == old(obj.past) + [HandleDrop(t, false)])
              && (old(obj.handleCount) != 0 ==>
                    && obj.past == DropSteps(old(obj.past), t, false, env, env', env'', freed) + [HandlePut(t)]
                    && (freed <==> Run(Init(obj.n), old(obj.past) + [HandleDrop(t, false)] + env).handleCount == 1)
                    && (last <==> obj.refcount == 0))
              && (Peak(Init(obj.n), obj.past) < UINT32_MODULUS ==>
                    old(obj.handleCount) != 0 && obj.destroyed == if last then 1 else 0)
  {
    freed, last := false, false;
    if obj != null {
      var early;
      early, freed := obj.DropHandle(t, false, env, env', env'');
      if !early {
        last := obj.KrefPut(HandlePut(t));
        if Peak(Init(obj.n), obj.past) < UINT32_MODULUS { PutTells(obj.n, obj.past); }
      }
    }
  }

  /** The unlocked form takes the mutex for the last put. */
  method HandleUnreferenceUnlocked(obj: DrmGemObject?, t: nat, env: seq<Action>, env': seq<Action>, env'': seq<Action>,
                                   wait: seq<Action>, held: seq<Action>)
    returns (freed: bool, last: bool)
    requires obj != null ==> obj.Valid() && obj.At(t, Ready) && obj.handles > 0
    requires ByOthers(t, env) && ByOthers(t, env') && ByOthers(t, env'') && ByOthers(t, wait) && ByOthers(t, held)
    requires obj != null && obj.handleCount != 0 ==>
               var freed := Run(Init(obj.n), obj.past + [HandleDrop(t, true)] + env).handleCount == 1;
               Run(Init(obj.n), DropSteps(obj.past, t, true, env, env', env'', freed) + [HandlePut(t)] + wait).mutex.Free?
    modifies obj
    ensures obj == null ==> !freed && !last
    ensures obj != null ==>
              && obj.Valid() && obj.At(t, Ready)
              && (old(obj.handleCount) == 0 ==>
                    !freed && !last && obj.past == old(obj.past) + [HandleDrop(t, true)])
              && (old(obj.handleCount) != 0 ==>
                    && obj.past == DropSteps(old(obj.past), t, true, env, env', env'', freed) + [HandlePut(t)]
                                   + wait + [MutexLock(t)] + held + [LockedPut(t)] + [MutexUnlock(t)]
                    && (freed <==> Run(Init(obj.n), old(obj.past) + [HandleDrop(t, true)] + env).handleCount == 1)
                    && (last <==> obj.refcount == 0) && obj.structMutex.Free?)
              && (Peak(Init(obj.n), obj.past) < UINT32_MODULUS ==>
                    old(obj.handleCount) != 0 && obj.destroyed == if last then 1 else 0)
  {
    freed, last := false, false;
    if obj != null {
      var early;
      early, freed := obj.DropHandle(t, true, env, env', env'');
      if !early {
        obj.Record(HandlePut(t));
        last := obj.PutUnderMutex(t, wait, held);
        if Peak(Init(obj.n), obj.past) < UINT32_MODULUS { PutTells(obj.n, obj.past); }
      }
    }
  }
}
