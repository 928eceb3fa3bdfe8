/**
 The exchange-based mutex fast path (asm-generic/mutex-xchg.h).  `count` is 1 when free,
 0 when held, negative when held and marked contended.  The trylock makes two separate
 exchanges, with a window between them in which any other thread may run.

 The slow path is given by its contract: a failed locker exchanges in a negative value and
 owns the mutex if and only if it got 1 back, and repeats; the slow unlock stores nothing,
 because __mutex_slowpath_needs_to_unlock() is 0.
 */
module MutexXchg {
  import opened MutexSpec

  datatype Phase =
    | Idle
    | Owner
    | LockFailed(swapped: int)  // in fail_fn, having exchanged `swapped` out of the count
    | Waiting                   // has exchanged in a negative value and did not get 1
    | TryWindow(prev: int)      // between the two exchanges of the trylock

  datatype State = State(count: int, threads: seq<Phase>)

  datatype Action =
    | Lock(t: nat)
    | SlowExchange(t: nat, v: int)
    | Unlock(t: nat)
    | TryFirst(t: nat)
    | TrySecond(t: nat)

  function Init(n: nat): State { State(1, seq(n, _ => Idle)) }

  predicate Enabled(s: State, a: Action) {
    a.t < |s.threads| &&
    var p := s.threads[a.t];
    match a
    case Lock(_) => p.Idle?
    case SlowExchange(_, v) => (p.LockFailed? || p.Waiting?) && v < 0
    case Unlock(_) => p.Owner?
    case TryFirst(_) => p.Idle?
    case TrySecond(_) => p.TryWindow?
  }

  /** Every step is one atomic_xchg: the value stored, and the phase that follows the value returned. */
  function Stored(s: State, a: Action): int
    requires Enabled(s, a)
  {
    match a
    case Lock(_) => 0
    case SlowExchange(_, v) => v
    case Unlock(_) => 1
    case TryFirst(_) => 0
    case TrySecond(t) => s.threads[t].prev
  }

  function Next(s: State, a: Action): Phase
    requires Enabled(s, a)
  {
    var was := s.count;
    match a
    case Lock(_) => if was != 1 then LockFailed(was) else Owner
    case SlowExchange(_, _) => if was == 1 then Owner else Waiting
    case Unlock(_) => Idle
    case TryFirst(_) => if was < 0 then TryWindow(was) else if was == 1 then Owner else Idle
    case TrySecond(_) => if was == 1 then Owner else Idle
  }

  function Apply(s: State, a: Action): State {
    if Enabled(s, a) then State(Stored(s, a), s.threads[a.t := Next(s, a)]) else s
  }

  function Run(s: State, run: seq<Action>): State {
    if run == [] then s else Apply(Run(s, run[..|run| - 1]), run[|run| - 1])
  }

  /** The unlocker saw a value other than 0 and calls fail_fn. */
  predicate SlowUnlock(s: State, a: Action) {
    a.Unlock? && Enabled(s, a) && s.count != 0
  }

  // ----- one owner -----

  ghost predicate OnlyOwner(threads: seq<Phase>, t: nat) {
    && t < |threads| && threads[t].Owner?
    && forall j :: 0 <= j < |threads| && j != t ==> !threads[j].Owner?
  }

  ghost predicate NoOwner(threads: seq<Phase>) {
    forall j :: 0 <= j < |threads| ==> !threads[j].Owner?
  }

  /** The value 1 is a token: it is in the count, or one thread took it out and owns the mutex. */
  ghost predicate Inv(s: State) {
    && s.count <= 1
    && (forall j :: 0 <= j < |s.threads| && s.threads[j].TryWindow? ==> s.threads[j].prev < 0)
    && if s.count == 1 then NoOwner(s.threads) else exists t :: OnlyOwner(s.threads, t)
  }

  ghost function Meaning(s: State): Mutex
    requires Inv(s)
  {
    if s.count == 1 then Free else var t :| OnlyOwner(s.threads, t); Held(t)
  }

  function EventOf(s: State, a: Action): Event {
    if !Enabled(s, a) then Internal(a.t)
    else match a
      case Unlock(t) => Release(t)
      case TryFirst(t) => if s.count < 0 then Internal(t) else if s.count == 1 then Acquire(t) else Refuse(t)
      case _ => if Next(s, a).Owner? then Acquire(a.t) else Refuse(a.t)
  }

  lemma StepFrame(s: State, a: Action)
    ensures |Apply(s, a).threads| == |s.threads|
    ensures forall i :: 0 <= i < |s.threads| && i != a.t ==> Apply(s, a).threads[i] == s.threads[i]
  {
  }

  /** Every exchange keeps the token and is a step of the abstract mutex. */
  lemma StepRefines(s: State, a: Action)
    requires Inv(s)
    ensures Inv(Apply(s, a))
    ensures Step(Meaning(s), EventOf(s, a), Meaning(Apply(s, a)))
  {
    var s' := Apply(s, a);
    StepFrame(s, a);
    if Enabled(s, a) {
      if s'.count != 1 {
        var t := if s.count == 1 then a.t else Meaning(s).owner;
        assert OnlyOwner(s'.threads, t);
      } else {
        assert a.Unlock?;
        assert OnlyOwner(s.threads, a.t);
      }
    }
  }

  lemma {:induction false} RunInv(n: nat, run: seq<Action>)
    ensures Inv(Run(Init(n), run)) && |Run(Init(n), run).threads| == n
    decreases |run|
  {
    if run != [] {
      RunInv(n, run[..|run| - 1]);
      StepRefines(Run(Init(n), run[..|run| - 1]), run[|run| - 1]);
    }
  }

  /** In every interleaving: at most one owner, count at most 1, and 1 exactly when nobody owns it. */
  lemma MutualExclusion(n: nat, run: seq<Action>, i: nat, j: nat)
    requires i < n && j < n
    ensures var s := Run(Init(n), run);
            && s.count <= 1 && |s.threads| == n
            && (s.threads[i].Owner? && s.threads[j].Owner? ==> i == j)
            && (s.threads[i].Owner? ==> s.count != 1)
            && (s.count == 1 <==> NoOwner(s.threads))
  {
    RunInv(n, run);
  }

  ghost function States(n: nat, run: seq<Action>): seq<Mutex>
  {
    seq(|run| + 1, k requires 0 <= k <= |run| => RunInv(n, run[..k]); Meaning(Run(Init(n), run[..k])))
  }

  function Events(n: nat, run: seq<Action>): seq<Event> {
    seq(|run|, k requires 0 <= k < |run| => EventOf(Run(Init(n), run[..k]), run[k]))
  }

  /** Every run, read as events, is a history of the abstract mutex. */
  lemma Refinement(n: nat, run: seq<Action>)
    ensures Allowed(States(n, run), Events(n, run))
  {
    forall k | 0 <= k < |run|
      ensures Step(States(n, run)[k], Events(n, run)[k], States(n, run)[k + 1])
    {
      RunInv(n, run[..k]);
      RunInv(n, run[..k + 1]);
      assert run[..k + 1][..k] == run[..k];
      StepRefines(Run(Init(n), run[..k]), run[k]);
    }
    assert run[..0] == [];
  }

  /** A trylock whose second exchange brings back 1 owns the mutex alone and leaves it marked contended. */
  lemma SecondExchangeOwns(s: State, t: nat)
    requires Inv(s) && Enabled(s, TrySecond(t))
    ensures var s' := Apply(s, TrySecond(t));
            && Inv(s') && s'.count == s.threads[t].prev < 0
            && (s.count == 1 <==> OnlyOwner(s'.threads, t))
            && (s.count != 1 ==> s'.threads[t].Idle? && Meaning(s') == Meaning(s))
  {
    StepRefines(s, TrySecond(t));
  }

  // ----- the contention mark -----

  /** Thread t has exchanged the mark out and its next exchange puts a negative value back. */
  predicate Carries(p: Phase) {
    (p.LockFailed? && p.swapped < 0) || (p.TryWindow? && p.prev < 0)
  }

  ghost predicate Marked(s: State) {
    s.count < 0 || exists t :: 0 <= t < |s.threads| && Carries(s.threads[t])
  }

  lemma MarkStep(s: State, a: Action)
    requires Inv(s) && Marked(s) && !SlowUnlock(s, a)
    ensures Marked(Apply(s, a))
  {
    StepFrame(s, a);
    var s' := Apply(s, a);
    if Enabled(s, a) {
      if s.count < 0 {
        assert s'.count < 0 || Carries(s'.threads[a.t]);
      } else {
        var t :| 0 <= t < |s.threads| && Carries(s.threads[t]);
        assert s'.count < 0 || Carries(s'.threads[t]);
      }
    }
  }

  /** From step `from` on, no unlocker in the run has called fail_fn. */
  ghost predicate NoSlowUnlock(n: nat, run: seq<Action>, from: nat) {
    forall k :: from <= k < |run| ==> !SlowUnlock(Run(Init(n), run[..k]), run[k])
  }

  lemma NoSlowUnlockBefore(n: nat, run: seq<Action>, from: nat)
    requires from < |run| && NoSlowUnlock(n, run, from)
    ensures NoSlowUnlock(n, run[..|run| - 1], from)
  {
    var before := run[..|run| - 1];
    forall k | from <= k < |before| ensures !SlowUnlock(Run(Init(n), before[..k]), before[k]) {
      assert before[..k] == run[..k] && before[k] == run[k];
      assert !SlowUnlock(Run(Init(n), run[..k]), run[k]);
    }
  }

  /**
   Once the count is negative the mark is never lost: until an unlocker calls fail_fn, the count is
   negative or a thread that exchanged the mark out is still in flight.
   */
  lemma {:induction false} MarkPersists(n: nat, run: seq<Action>, from: nat)
    requires from <= |run| && Run(Init(n), run[..from]).count < 0 && NoSlowUnlock(n, run, from)
    ensures Marked(Run(Init(n), run))
    decreases |run|
  {
    if from == |run| {
      assert run[..from] == run;
    } else {
      var before := run[..|run| - 1];
      assert before[..from] == run[..from];
      NoSlowUnlockBefore(n, run, from);
      MarkPersists(n, before, from);
      RunInv(n, before);
      assert !SlowUnlock(Run(Init(n), before), run[|run| - 1]);
      MarkStep(Run(Init(n), before), run[|run| - 1]);
    }
  }

  /**
   So a waiter is never abandoned: if no unlocker has called fail_fn since the mark was set and the
   mutex is free, some thread is in flight whose next exchange takes the mutex.
   */
  lemma FreeWithMarkIsTaken(n: nat, run: seq<Action>, from: nat) returns (t: nat)
    requires from <= |run| && Run(Init(n), run[..from]).count < 0 && NoSlowUnlock(n, run, from)
    requires Run(Init(n), run).count == 1
    ensures t < n == |Run(Init(n), run).threads| && Carries(Run(Init(n), run).threads[t])
    ensures forall a: Action :: a.t == t && Enabled(Run(Init(n), run), a)
                                ==> OnlyOwner(Apply(Run(Init(n), run), a).threads, t)
  {
    MarkPersists(n, run, from);
    RunInv(n, run);
    var s := Run(Init(n), run);
    var i :| 0 <= i < |s.threads| && Carries(s.threads[i]);
    t := i;
  }

  /** An unlocker calls fail_fn exactly when it finds the mutex marked contended. */
  lemma SlowUnlockSeesMark(s: State, t: nat)
    requires Inv(s) && Enabled(s, Unlock(t))
    ensures SlowUnlock(s, Unlock(t)) <==> s.count < 0
  {
  }

  /**
   The race of the trylock's window does happen: the mark is out, the owner unlocks on the fast path,
   and the second exchange takes the mutex and puts the mark back.
   */
  lemma WindowRace()
    ensures var run := [Lock(0), Lock(1), SlowExchange(1, -1), TryFirst(2), Unlock(0)];
            var s := Run(Init(3), run);
            && Run(Init(3), run[..3]).count == -1
            && |s.threads| == 3 && !SlowUnlock(Run(Init(3), run[..4]), Unlock(0)) && s.count == 1 && Carries(s.threads[2])
            && Apply(s, TrySecond(2)).threads[2].Owner? && Apply(s, TrySecond(2)).count == -1
  {
    var s1 := Apply(Init(3), Lock(0));
    var s2 := Apply(s1, Lock(1));
    var s3 := Apply(s2, SlowExchange(1, -1));
    var s4 := Apply(s3, TryFirst(2));
    var run := [Lock(0), Lock(1), SlowExchange(1, -1), TryFirst(2), Unlock(0)];
    assert run[..4] == [Lock(0), Lock(1), SlowExchange(1, -1), TryFirst(2)];
    assert run[..4][..3] == run[..3] == [Lock(0), Lock(1), SlowExchange(1, -1)];
    assert run[..3][..2] == [Lock(0), Lock(1)];
    assert run[..3][..2][..1] == [Lock(0)];
    assert Run(Init(3), [Lock(0)]) == s1;
    assert Run(Init(3), [Lock(0), Lock(1)]) == s2;
    assert Run(Init(3), run[..3]) == s3;
    assert Run(Init(3), run[..4]) == s4;
  }

  /** No slow path has put a mark in the count in this run. */
  ghost predicate NoSlowExchange(n: nat, run: seq<Action>) {
    run != [] ==>
      var before, a := run[..|run| - 1], run[|run| - 1];
      NoSlowExchange(n, before) && !(a.SlowExchange? && Enabled(Run(Init(n), before), a))
  }

  /**
   Nor is the mark invented: in every run in which no slow path has exchanged one in, the count is 0
   exactly while the mutex is owned and 1 otherwise, so no trylock opens a window and no unlocker
   calls fail_fn.
   */
  lemma {:induction false} MarkNotInvented(n: nat, run: seq<Action>)
    requires NoSlowExchange(n, run)
    ensures var s := Run(Init(n), run);
            && s.count == (if NoOwner(s.threads) then 1 else 0)
            && (forall t :: 0 <= t < |s.threads| ==> !s.threads[t].TryWindow?)
            && (forall t :: !SlowUnlock(s, Unlock(t)))
    decreases |run|
  {
    RunInv(n, run);
    if run != [] {
      var before := run[..|run| - 1];
      MarkNotInvented(n, before);
      StepFrame(Run(Init(n), before), run[|run| - 1]);
    }
  }

  // ----- the functions of the header -----

  ghost predicate ByOthers(t: nat, run: seq<Action>) {
    forall i :: 0 <= i < |run| ==> run[i].t != t
  }

  lemma {:induction false} OthersFrame(s: State, t: nat, run: seq<Action>)
    requires Inv(s) && t < |s.threads| && ByOthers(t, run)
    ensures Inv(Run(s, run)) && |Run(s, run).threads| == |s.threads|
    ensures Run(s, run).threads[t] == s.threads[t]
    decreases |run|
  {
    if run != [] {
      OthersFrame(s, t, run[..|run| - 1]);
      StepFrame(Run(s, run[..|run| - 1]), run[|run| - 1]);
      StepRefines(Run(s, run[..|run| - 1]), run[|run| - 1]);
    }
  }

  /** The count of a struct mutex, with the standing of every thread beside it. */
  class FastMutex {
    var count: int
    var threads: seq<Phase>

    function Abs(): State
      reads this
    {
      State(count, threads)
    }

    ghost predicate Valid()
      reads this
    {
      Inv(Abs())
    }

    ghost predicate At(t: nat, p: Phase)
      reads this
    {
      t < |threads| && threads[t] == p
    }

    constructor (n: nat)
      ensures Valid() && Abs() == Init(n)
    {
      count, threads := 1, Init(n).threads;
    }

    /** atomic_xchg on the count alone. */
    method Xchg(v: int) returns (prev: int)
      modifies this`count
      ensures prev == old(count) && count == v
    {
      prev, count := count, v;
    }

    /** The caller owns the mutex, or it was held and fail_fn is due. */
    method FastpathLock(t: nat) returns (failed: bool)
      requires Valid() && At(t, Idle)
      modifies this
      ensures Valid() && Abs() == Apply(old(Abs()), Lock(t)) && count == 0
      ensures if failed then old(Meaning(Abs())).Held? && Meaning(Abs()) == old(Meaning(Abs()))
              else old(Meaning(Abs())) == Free && Meaning(Abs()) == Held(t)
    {
      StepRefines(Abs(), Lock(t));
      var prev := Xchg(0);
      failed := prev != 1;
      threads := threads[t := if failed then LockFailed(prev) else Owner];
    }

    /** Returns 0 when the fast path succeeds and whatever fail_fn returns otherwise. */
    method FastpathLockRetval(t: nat, failFn: int) returns (ret: int)
      requires Valid() && At(t, Idle)
      modifies this
      ensures Valid() && Abs() == Apply(old(Abs()), Lock(t)) && count == 0
      ensures ret == if old(count) == 1 then 0 else failFn
      ensures old(count) == 1 <==> Meaning(Abs()) == Held(t)
    {
      StepRefines(Abs(), Lock(t));
      var prev := Xchg(0);
      threads := threads[t := if prev != 1 then LockFailed(prev) else Owner];
      if prev != 1 {
        return failFn;
      }
      return 0;
    }

    /** Frees the mutex; fail_fn is due exactly when it was marked contended. */
    method FastpathUnlock(t: nat) returns (slow: bool)
      requires Valid() && At(t, Owner)
      modifies this
      ensures Valid() && Abs() == Apply(old(Abs()), Unlock(t))
      ensures Meaning(Abs()) == Free && count == 1
      ensures slow <==> old(count) < 0
    {
      StepRefines(Abs(), Unlock(t));
      var prev := Xchg(1);
      slow := prev != 0;
      threads := threads[t := Idle];
    }

    /**
     The two-exchange trylock; `env` is what other threads do in its window.  It returns 1 exactly
     when the caller now owns the mutex; it always leaves the count below 1, and when it found the
     mutex marked contended it leaves the mark on, whatever happened in the window.
     */
    method FastpathTrylock(t: nat, env: seq<Action>) returns (ret: int)
      requires Valid() && At(t, Idle) && ByOthers(t, env)
      modifies this
      ensures Valid() && count < 1
      ensures ret == 1 || ret == 0
      ensures ret == 1 <==> Meaning(Abs()) == Held(t)
      ensures At(t, if ret == 1 then Owner else Idle)
      ensures if old(count) < 0
              then count == old(count) && Abs() == Run(old(Abs()), [TryFirst(t)] + env + [TrySecond(t)])
              else count == 0 && Abs() == Apply(old(Abs()), TryFirst(t))
    {
      ghost var s := Abs();
      StepRefines(s, TryFirst(t));
      var prev := Xchg(0);
      if prev < 0 {
        threads := threads[t := TryWindow(prev)];
        ghost var s1 := Abs();
        OthersFrame(s1, t, env);
        var others := Run(Abs(), env);
        count, threads := others.count, others.threads;
        StepRefines(Abs(), TrySecond(t));
        TrylockRun(s, t, env);
        prev := Xchg(prev);
        if prev < 0 {
          prev := 0;
        }
        threads := threads[t := if prev == 1 then Owner else Idle];
      } else {
        threads := threads[t := if prev == 1 then Owner else Idle];
      }
      return prev;
    }
  }

  lemma {:induction false} RunAppend(s: State, xs: seq<Action>, ys: seq<Action>)
    ensures Run(s, xs + ys) == Run(Run(s, xs), ys)
    decreases |ys|
  {
    if ys == [] {
      assert xs + ys == xs;
    } else {
      assert (xs + ys)[..|xs + ys| - 1] == xs + ys[..|ys| - 1];
      RunAppend(s, xs, ys[..|ys| - 1]);
    }
  }

  lemma TrylockRun(s: State, t: nat, env: seq<Action>)
    ensures Run(s, [TryFirst(t)] + env + [TrySecond(t)])
            == Apply(Run(Apply(s, TryFirst(t)), env), TrySecond(t))
  {
    RunAppend(s, [TryFirst(t)] + env, [TrySecond(t)]);
    RunAppend(s, [TryFirst(t)], env);
    assert [TryFirst(t)][..0] == [] && [TrySecond(t)][..0] == [];
    assert Run(s, [TryFirst(t)]) == Apply(s, TryFirst(t));
    var mid := Run(s, [TryFirst(t)] + env);
    assert Run(mid, [TrySecond(t)]) == Apply(mid, TrySecond(t));
  }
}
