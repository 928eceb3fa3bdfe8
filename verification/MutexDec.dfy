/**
 The decrement-based mutex fast path (asm-generic/mutex-dec.h).  A locker decrements the
 count and owns the mutex if the result is 0; an unlocker increments it and, if the result
 is still not positive, leaves the store of 1 to the slow path, because
 __mutex_slowpath_needs_to_unlock() is 1.  Between that increment and that store the mutex
 belongs to the unlocking thread.

 The slow lock is given by its contract: it exchanges in -1 and owns the mutex if and only
 if it got 1 back, and repeats.
 */
module MutexDec {
  import opened Threads
  import opened MutexSpec
  import opened Words

  const CONTENDED := -1

  /** With more threads the pending decrements can wrap the count around; see BoundIsExact. */
  const MAX_THREADS := 0x8000_0000

  datatype Phase =
    | Idle
    | Owner
    | LockFailed  // in the slow lock, its decrement still in the count
    | Waiting     // in the slow lock, has exchanged in -1 and did not get 1
    | Releasing   // in the slow unlock, the store of 1 still due

  datatype State = State(count: int, threads: seq<Phase>)

  datatype Action =
    | Lock(t: nat)
    | SlowExchange(t: nat)
    | Unlock(t: nat)
    | SlowStore(t: nat)
    | TryLock(t: nat)

  function Init(n: nat): State { State(1, seq(n, _ => Idle)) }

  predicate Enabled(s: State, a: Action) {
    a.t < |s.threads| &&
    var p := s.threads[a.t];
    match a
    case Lock(_) => p.Idle?
    case SlowExchange(_) => p.LockFailed? || p.Waiting?
    case Unlock(_) => p.Owner?
    case SlowStore(_) => p.Releasing?
    case TryLock(_) => p.Idle?
  }

  function Stored(s: State, a: Action): int
    requires Enabled(s, a)
  {
    match a
    case Lock(_) => ToInt(s.count - 1)
    case SlowExchange(_) => CONTENDED
    case Unlock(_) => ToInt(s.count + 1)
    case SlowStore(_) => 1
    case TryLock(_) => if s.count == 1 then 0 else s.count
  }

  function Next(s: State, a: Action): Phase
    requires Enabled(s, a)
  {
    match a
    case Lock(_) => if Stored(s, a) < 0 then LockFailed else Owner
    case SlowExchange(_) => if s.count == 1 then Owner else Waiting
    case Unlock(_) => if Stored(s, a) <= 0 then Releasing else Idle
    case SlowStore(_) => Idle
    case TryLock(_) => if s.count == 1 then Owner else Idle
  }

  function Apply(s: State, a: Action): State {
    if Enabled(s, a) then State(Stored(s, a), s.threads[a.t := Next(s, a)]) else s
  }

  function Run(s: State, run: seq<Action>): State {
    if run == [] then s else Apply(Run(s, run[..|run| - 1]), run[|run| - 1])
  }

  // ----- one owner -----

  predicate HasToken(p: Phase) { p.Owner? || p.Releasing? }

  ghost predicate OnlyHolder(threads: seq<Phase>, t: nat) {
    && t < |threads| && HasToken(threads[t])
    && forall j :: 0 <= j < |threads| && j != t ==> !HasToken(threads[j])
  }

  ghost predicate NoHolder(threads: seq<Phase>) {
    forall j :: 0 <= j < |threads| ==> !HasToken(threads[j])
  }

  function FailedWeight(p: Phase): int { if p.LockFailed? then 1 else 0 }

  /** The token is in the count or with one thread, and only pending decrements push the count below -1. */
  ghost predicate Inv(s: State) {
    && |s.threads| <= MAX_THREADS
    && CONTENDED - Sum(s.threads, FailedWeight) <= s.count <= 1
    && if s.count == 1 then NoHolder(s.threads) else exists t :: OnlyHolder(s.threads, t)
  }

  ghost function Meaning(s: State): Mutex
    requires Inv(s)
  {
    if s.count == 1 then Free else var t :| OnlyHolder(s.threads, t); Held(t)
  }

  function EventOf(s: State, a: Action): Event {
    if !Enabled(s, a) then Internal(a.t)
    else match a
      case Unlock(t) => if Next(s, a).Idle? then Release(t) else Internal(t)
      case SlowStore(t) => Release(t)
      case _ => if Next(s, a).Owner? then Acquire(a.t) else Refuse(a.t)
  }

  lemma StepFrame(s: State, a: Action)
    ensures |Apply(s, a).threads| == |s.threads|
    ensures forall i :: 0 <= i < |s.threads| && i != a.t ==> Apply(s, a).threads[i] == s.threads[i]
  {
  }

  /** Beside a thread that has the mutex, not every thread can be a failed locker. */
  lemma FailedBesideHolder(threads: seq<Phase>, t: nat)
    requires t < |threads| && !threads[t].LockFailed?
    ensures 0 <= Sum(threads, FailedWeight) <= |threads| - 1
  {
    SumUpdate(threads, t, LockFailed, FailedWeight);
    SumRange(threads[t := LockFailed], FailedWeight);
    SumRange(threads, FailedWeight);
  }

  /** No decrement or increment wraps around, and only failed lockers push the count below -1. */
  lemma StepKeepsRange(s: State, a: Action)
    requires Inv(s)
    ensures var s' := Apply(s, a); CONTENDED - Sum(s'.threads, FailedWeight) <= s'.count <= 1
    ensures Enabled(s, a) && a.Lock? ==> Stored(s, a) == s.count - 1
    ensures Enabled(s, a) && a.Unlock? ==> Stored(s, a) == s.count + 1
  {
    SumRange(s.threads, FailedWeight);
    if Enabled(s, a) {
      SumUpdate(s.threads, a.t, Next(s, a), FailedWeight);
      SumRange(s.threads[a.t := Next(s, a)], FailedWeight);
      if a.Lock? && s.count != 1 {
        var t :| OnlyHolder(s.threads, t);
        SumUpdate(s.threads, a.t, LockFailed, FailedWeight);
        FailedBesideHolder(s.threads[a.t := LockFailed], t);
      }
    }
  }

  /** Every step keeps the token and is a step of the abstract mutex. */
  lemma StepRefines(s: State, a: Action)
    requires Inv(s)
    ensures Inv(Apply(s, a))
    ensures Step(Meaning(s), EventOf(s, a), Meaning(Apply(s, a)))
  {
    var s' := Apply(s, a);
    StepFrame(s, a);
    StepKeepsRange(s, a);
    if Enabled(s, a) {
      if s'.count != 1 {
        var t := if s.count == 1 then a.t else Meaning(s).owner;
        assert OnlyHolder(s'.threads, t);
      } else {
        assert OnlyHolder(s.threads, a.t);
      }
    }
  }

  lemma {:induction false} RunInv(n: nat, run: seq<Action>)
    requires n <= MAX_THREADS
    ensures Inv(Run(Init(n), run)) && |Run(Init(n), run).threads| == n
    decreases |run|
  {
    if run == [] {
      SumZero(Init(n).threads, FailedWeight);
    } else {
      RunInv(n, run[..|run| - 1]);
      StepRefines(Run(Init(n), run[..|run| - 1]), run[|run| - 1]);
    }
  }

  /** In every interleaving at most one thread owns or is releasing the mutex, and then the count is not 1. */
  lemma MutualExclusion(n: nat, run: seq<Action>, i: nat, j: nat)
    requires n <= MAX_THREADS && i < n && j < n
    ensures var s := Run(Init(n), run);
            && s.count <= 1 && |s.threads| == n
            && (HasToken(s.threads[i]) && HasToken(s.threads[j]) ==> i == j)
            && (s.count == 1 <==> NoHolder(s.threads))
  {
    RunInv(n, run);
  }

  ghost function States(n: nat, run: seq<Action>): seq<Mutex>
    requires n <= MAX_THREADS
  {
    seq(|run| + 1, k requires 0 <= k <= |run| => RunInv(n, run[..k]); Meaning(Run(Init(n), run[..k])))
  }

  function Events(n: nat, run: seq<Action>): seq<Event> {
    seq(|run|, k requires 0 <= k < |run| => EventOf(Run(Init(n), run[..k]), run[k]))
  }

  /** Every run, read as events, is a history of the same abstract mutex as the exchange version. */
  lemma Refinement(n: nat, run: seq<Action>)
    requires n <= MAX_THREADS
    ensures Allowed(States(n, run), Events(n, run))
  {
    forall k | 0 <= k < |run|
      ensures Step(States(n, run)[k], Events(n, run)[k], States(n, run)[k + 1])
    {
      RunInv(n, run[..k]);
      RunInv(n, run[..k + 1]);
      assert run[..k + 1][..k] == run[..k];
      StepRefines(Run(Init(n), run[..k]), run[k]);
    }
    assert run[..0] == [];
  }

  ghost predicate ByOthers(t: nat, run: seq<Action>) {
    forall i :: 0 <= i < |run| ==> run[i].t != t
  }

  lemma {:induction false} OthersFrame(s: State, t: nat, run: seq<Action>)
    requires Inv(s) && t < |s.threads| && ByOthers(t, run)
    ensures Inv(Run(s, run)) && |Run(s, run).threads| == |s.threads|
    ensures Run(s, run).threads[t] == s.threads[t]
    decreases |run|
  {
    if run != [] {
      OthersFrame(s, t, run[..|run| - 1]);
      StepFrame(Run(s, run[..|run| - 1]), run[|run| - 1]);
      StepRefines(Run(s, run[..|run| - 1]), run[|run| - 1]);
    }
  }

  /**
   The slow store of 1 never frees a mutex someone else holds: whatever the others do after an
   increment with a result that is not positive, nobody gets the mutex until the store.
   */
  lemma SlowStoreFreesOwn(s: State, t: nat, env: seq<Action>)
    requires Inv(s) && Enabled(s, Unlock(t)) && ByOthers(t, env)
    requires Apply(s, Unlock(t)).count <= 0
    ensures var window := Run(Apply(s, Unlock(t)), env);
            && Inv(window) && window.count <= 0 && OnlyHolder(window.threads, t)
            && Enabled(window, SlowStore(t))
            && Inv(Apply(window, SlowStore(t))) && Meaning(Apply(window, SlowStore(t))) == Free
  {
    StepRefines(s, Unlock(t));
    var s1 := Apply(s, Unlock(t));
    OthersFrame(s1, t, env);
    StepRefines(Run(s1, env), SlowStore(t));
  }

  // ----- the contention mark -----

  /** The count is negative, or an unlocker that found it so is on its slow path. */
  ghost predicate Marked(s: State) {
    s.count < 0 || exists t :: 0 <= t < |s.threads| && s.threads[t].Releasing?
  }

  /** The mark is lost by a slow store and by no other step. */
  lemma MarkStep(s: State, a: Action)
    requires Inv(s) && Marked(s)
    ensures Marked(Apply(s, a)) <==> !(a.SlowStore? && Enabled(s, a))
  {
    StepKeepsRange(s, a);
    StepFrame(s, a);
    var s' := Apply(s, a);
    if Enabled(s, a) && !a.SlowStore? {
      if s.count < 0 {
        assert s'.count < 0 || s'.threads[a.t].Releasing?;
      } else {
        var t :| 0 <= t < |s.threads| && s.threads[t].Releasing?;
        assert s'.threads[t].Releasing?;
      }
    }
  }

  /** A slow store may wipe out a negative count that no unlocker has met: a locker came after the increment. */
  lemma SlowStoreErasesMark()
    ensures var s := Run(Init(3), [Lock(0), Lock(1), SlowExchange(1), Unlock(0), Lock(2)]);
            s.count < 0 && Enabled(s, SlowStore(0)) && Apply(s, SlowStore(0)).count == 1
  {
    var s1 := Apply(Init(3), Lock(0));
    var s2 := Apply(s1, Lock(1));
    var s3 := Apply(s2, SlowExchange(1));
    var s4 := Apply(s3, Unlock(0));
    var run := [Lock(0), Lock(1), SlowExchange(1), Unlock(0), Lock(2)];
    assert run[..4] == [Lock(0), Lock(1), SlowExchange(1), Unlock(0)];
    assert run[..4][..3] == [Lock(0), Lock(1), SlowExchange(1)];
    assert run[..4][..3][..2] == [Lock(0), Lock(1)];
    assert run[..4][..3][..2][..1] == [Lock(0)];
    assert Run(Init(3), [Lock(0)]) == s1;
    assert Run(Init(3), [Lock(0), Lock(1)]) == s2;
    assert Run(Init(3), [Lock(0), Lock(1), SlowExchange(1)]) == s3;
    assert Run(Init(3), run[..4]) == s4;
  }

  /** From step `from` on, no slow store has been made in the run. */
  ghost predicate NoSlowStore(n: nat, run: seq<Action>, from: nat) {
    forall k :: from <= k < |run| ==> !(run[k].SlowStore? && Enabled(Run(Init(n), run[..k]), run[k]))
  }

  lemma NoSlowStoreBefore(n: nat, run: seq<Action>, from: nat)
    requires from < |run| && NoSlowStore(n, run, from)
    ensures NoSlowStore(n, run[..|run| - 1], from)
  {
    var before := run[..|run| - 1];
    forall k | from <= k < |before|
      ensures !(before[k].SlowStore? && Enabled(Run(Init(n), before[..k]), before[k]))
    {
      assert before[..k] == run[..k] && before[k] == run[k];
      assert !(run[k].SlowStore? && Enabled(Run(Init(n), run[..k]), run[k]));
    }
  }

  /**
   Once the count is negative the mark is kept in every run: until the slow store of an unlocker, the
   count is negative or that unlocker is on its slow path.
   */
  lemma {:induction false} MarkPersists(n: nat, run: seq<Action>, from: nat)
    requires n <= MAX_THREADS && from <= |run| && Run(Init(n), run[..from]).count < 0 && NoSlowStore(n, run, from)
    ensures Marked(Run(Init(n), run))
    decreases |run|
  {
    if from == |run| {
      assert run[..from] == run;
    } else {
      var before := run[..|run| - 1];
      assert before[..from] == run[..from];
      NoSlowStoreBefore(n, run, from);
      MarkPersists(n, before, from);
      RunInv(n, before);
      assert !(run[|before|].SlowStore? && Enabled(Run(Init(n), before), run[|before|]));
      MarkStep(Run(Init(n), before), run[|run| - 1]);
    }
  }

  /** So meanwhile nobody releases the mutex on the fast path, past the waiters, and it is not free. */
  lemma NoFastRelease(n: nat, run: seq<Action>, from: nat, t: nat)
    requires n <= MAX_THREADS && from <= |run| && Run(Init(n), run[..from]).count < 0 && NoSlowStore(n, run, from)
    ensures var s := Run(Init(n), run);
            && Inv(s) && Meaning(s).Held?
            && (Enabled(s, Unlock(t)) ==> Apply(s, Unlock(t)).threads[t].Releasing?)
  {
    MarkPersists(n, run, from);
    RunInv(n, run);
    StepKeepsRange(Run(Init(n), run), Unlock(t));
  }

  // ----- without slow steps -----

  function OwnerWeight(p: Phase): int { if p.Owner? then 1 else 0 }

  /** No slow path has changed the count in this run. */
  ghost predicate NoSlowStep(n: nat, run: seq<Action>) {
    run != [] ==>
      var before, a := run[..|run| - 1], run[|run| - 1];
      NoSlowStep(n, before) && !((a.SlowExchange? || a.SlowStore?) && Enabled(Run(Init(n), before), a))
  }

  /** In every such run the count is 1 less the owner and less the failed lockers. */
  lemma {:induction false} FastAccount(n: nat, run: seq<Action>)
    requires n <= MAX_THREADS && NoSlowStep(n, run)
    ensures var s := Run(Init(n), run);
            s.count == 1 - Sum(s.threads, OwnerWeight) - Sum(s.threads, FailedWeight)
    decreases |run|
  {
    if run == [] {
      SumZero(Init(n).threads, OwnerWeight);
      SumZero(Init(n).threads, FailedWeight);
    } else {
      var before, a := run[..|run| - 1], run[|run| - 1];
      var s := Run(Init(n), before);
      FastAccount(n, before);
      RunInv(n, before);
      StepKeepsRange(s, a);
      if Enabled(s, a) {
        SumUpdate(s.threads, a.t, Next(s, a), OwnerWeight);
        SumUpdate(s.threads, a.t, Next(s, a), FailedWeight);
      }
    }
  }

  lemma OneOwner(threads: seq<Phase>, t: nat)
    requires OnlyHolder(threads, t) && threads[t].Owner?
    ensures Sum(threads, OwnerWeight) == 1
  {
    SumUpdate(threads, t, Idle, OwnerWeight);
    SumZero(threads[t := Idle], OwnerWeight);
  }

  /** So an unlock goes to its slow path if and only if a locker has failed; otherwise it frees the mutex at once. */
  lemma UnlockIsFastExactly(n: nat, run: seq<Action>, t: nat)
    requires n <= MAX_THREADS && NoSlowStep(n, run) && Enabled(Run(Init(n), run), Unlock(t))
    ensures var s := Run(Init(n), run);
            var s' := Apply(s, Unlock(t));
            && (s'.threads[t].Idle? <==> Sum(s.threads, FailedWeight) == 0)
            && (s'.threads[t].Idle? ==> s'.count == 1 && NoHolder(s'.threads))
  {
    FastAccount(n, run);
    RunInv(n, run);
    var s := Run(Init(n), run);
    OneOwner(s.threads, t);
    StepKeepsRange(s, Unlock(t));
    StepRefines(s, Unlock(t));
    SumRange(s.threads, FailedWeight);
  }

  /** No locker has failed at any moment of the run. */
  ghost predicate NeverFailed(n: nat, run: seq<Action>) {
    && (forall t :: 0 <= t < |Run(Init(n), run).threads| ==> !Run(Init(n), run).threads[t].LockFailed?)
    && (run != [] ==> NeverFailed(n, run[..|run| - 1]))
  }

  /** Every thread is idle or the owner, and the count is 0 exactly while there is one. */
  ghost predicate Calm(s: State) {
    && (forall t :: 0 <= t < |s.threads| ==> s.threads[t].Idle? || s.threads[t].Owner?)
    && s.count == (if NoHolder(s.threads) then 1 else 0)
  }

  /** A step from such a state after which no locker has failed leads to such a state. */
  lemma CalmStep(s: State, a: Action)
    requires Inv(s) && Calm(s) && Inv(Apply(s, a))
    requires forall t :: 0 <= t < |s.threads| ==> !Apply(s, a).threads[t].LockFailed?
    ensures Calm(Apply(s, a))
  {
    StepFrame(s, a);
    StepKeepsRange(s, a);
    if Enabled(s, a) {
      assert !Apply(s, a).threads[a.t].LockFailed?;
      assert HasToken(s.threads[a.t]) <==> a.Unlock?;
    }
  }

  lemma {:induction false} Uncontended(n: nat, run: seq<Action>)
    requires n <= MAX_THREADS && NeverFailed(n, run)
    ensures Calm(Run(Init(n), run))
    decreases |run|
  {
    RunInv(n, run);
    if run != [] {
      var before := run[..|run| - 1];
      RunInv(n, before);
      Uncontended(n, before);
      CalmStep(Run(Init(n), before), run[|run| - 1]);
    }
  }

  /** Then every unlock is fast and leaves the mutex free. */
  lemma UncontendedUnlock(n: nat, run: seq<Action>, t: nat)
    requires n <= MAX_THREADS && NeverFailed(n, run) && Enabled(Run(Init(n), run), Unlock(t))
    ensures var s' := Apply(Run(Init(n), run), Unlock(t));
            s'.threads[t].Idle? && s'.count == 1 && Inv(s') && Meaning(s') == Free
  {
    Uncontended(n, run);
    RunInv(n, run);
    StepRefines(Run(Init(n), run), Unlock(t));
  }

  // ----- the thread bound is exact -----

  lemma RunSnoc(s: State, run: seq<Action>, a: Action)
    ensures Run(s, run + [a]) == Apply(Run(s, run), a)
  {
    assert (run + [a])[..|run|] == run;
  }

  /** The locker of turn j: every thread but 1 in turn. */
  function Locker(j: nat): nat { if j == 0 then 0 else j + 1 }

  /** Thread 1 gets the mutex by its exchange, which leaves the mark on, and k others run into it. */
  function Crowding(k: nat): seq<Action> {
    if k == 0 then [Lock(0)] + [Lock(1)] + [Unlock(0)] + [SlowStore(0)] + [SlowExchange(1)]
    else Crowding(k - 1) + [Lock(Locker(k - 1))]
  }

  function Crowd(n: nat, k: nat): seq<Phase> {
    seq(n, i => if i == 1 then Owner else if i == 0 then (if k > 0 then LockFailed else Idle)
                else if i <= k then LockFailed else Idle)
  }

  lemma CrowdStart(n: nat)
    requires n >= 2
    ensures Run(Init(n), Crowding(0)) == State(CONTENDED, Crowd(n, 0))
  {
    var s1 := Apply(Init(n), Lock(0));
    var s2 := Apply(s1, Lock(1));
    var s3 := Apply(s2, Unlock(0));
    var s4 := Apply(s3, SlowStore(0));
    var s5 := Apply(s4, SlowExchange(1));
    assert s5.threads == Crowd(n, 0);
    RunSnoc(Init(n), [], Lock(0));
    assert [] + [Lock(0)] == [Lock(0)];
    RunSnoc(Init(n), [Lock(0)], Lock(1));
    RunSnoc(Init(n), [Lock(0)] + [Lock(1)], Unlock(0));
    RunSnoc(Init(n), [Lock(0)] + [Lock(1)] + [Unlock(0)], SlowStore(0));
    RunSnoc(Init(n), [Lock(0)] + [Lock(1)] + [Unlock(0)] + [SlowStore(0)], SlowExchange(1));
  }

  lemma CrowdStep(n: nat, k: nat)
    requires n > MAX_THREADS && 0 < k < MAX_THREADS
    ensures Apply(State(CONTENDED - (k - 1), Crowd(n, k - 1)), Lock(Locker(k - 1))) == State(CONTENDED - k, Crowd(n, k))
  {
    assert Crowd(n, k) == Crowd(n, k - 1)[Locker(k - 1) := LockFailed];
  }

  lemma {:induction false} CrowdRun(n: nat, k: nat)
    requires n > MAX_THREADS && k < MAX_THREADS
    ensures Run(Init(n), Crowding(k)) == State(CONTENDED - k, Crowd(n, k))
  {
    if k == 0 {
      CrowdStart(n);
    } else {
      CrowdRun(n, k - 1);
      RunSnoc(Init(n), Crowding(k - 1), Lock(Locker(k - 1)));
      CrowdStep(n, k);
    }
  }

  /** At most one thread owns or is releasing the mutex, in every run of n threads. */
  ghost predicate Excludes(n: nat) {
    forall run: seq<Action>, i: nat, j: nat :: i < j < |Run(Init(n), run).threads| ==>
      !(HasToken(Run(Init(n), run).threads[i]) && HasToken(Run(Init(n), run).threads[j]))
  }

  /** With one thread more than the bound, the last decrement wraps to a positive count and gets in. */
  lemma BeyondTheBound(n: nat, k: nat) returns (run: seq<Action>)
    requires n > MAX_THREADS && k == MAX_THREADS
    ensures var s := Run(Init(n), run); |s.threads| == n && s.threads[1].Owner? && s.threads[k].Owner?
  {
    CrowdRun(n, k - 1);
    run := Crowding(k - 1) + [Lock(Locker(k - 1))];
    RunSnoc(Init(n), Crowding(k - 1), Lock(Locker(k - 1)));
  }

  /** The mutex excludes in every run of n threads if and only if n is at most 2^31. */
  lemma BoundIsExact(n: nat)
    ensures Excludes(n) <==> n <= MAX_THREADS
  {
    if n <= MAX_THREADS {
      forall run: seq<Action>, i: nat, j: nat | i < j < |Run(Init(n), run).threads|
        ensures !(HasToken(Run(Init(n), run).threads[i]) && HasToken(Run(Init(n), run).threads[j]))
      {
        RunInv(n, run);
        MutualExclusion(n, run, i, j);
      }
    } else {
      var run := BeyondTheBound(n, MAX_THREADS);
    }
  }

  // ----- the functions of the header -----

  /** The count of a struct mutex, with the standing of every thread beside it. */
  class FastMutex {
    var count: int
    var threads: seq<Phase>

    function Abs(): State
      reads this
    {
      State(count, threads)
    }

    ghost predicate Valid()
      reads this
    {
      Inv(Abs())
    }

    ghost predicate At(t: nat, p: Phase)
      reads this
    {
      t < |threads| && threads[t] == p
    }

    constructor (n: nat)
      requires n <= MAX_THREADS
      ensures Valid() && Abs() == Init(n)
    {
      count, threads := 1, Init(n).threads;
      SumZero(Init(n).threads, FailedWeight);
    }

    /** atomic_dec_return and atomic_inc_return on the count alone. */
    method AddReturn(delta: int) returns (tmp: int)
      modifies this`count
      ensures tmp == count == ToInt(old(count) + delta)
    {
      count := ToInt(count + delta);
      tmp := count;
    }

    /** atomic_cmpxchg on the count alone. */
    method Cmpxchg(expected: int, desired: int) returns (prev: int)
      modifies this`count
      ensures prev == old(count) && count == if prev == expected then desired else prev
    {
      prev := count;
      if prev == expected {
        count := desired;
      }
    }

    /** The caller owns the mutex, or it was held and fail_fn is due. */
    method FastpathLock(t: nat) returns (failed: bool)
      requires Valid() && At(t, Idle)
      modifies this
      ensures Valid() && Abs() == Apply(old(Abs()), Lock(t)) && count == old(count) - 1 < 1
      ensures if failed then old(Meaning(Abs())).Held? && Meaning(Abs()) == old(Meaning(Abs()))
              else old(Meaning(Abs())) == Free && Meaning(Abs()) == Held(t)
    {
      StepRefines(Abs(), Lock(t));
      StepKeepsRange(Abs(), Lock(t));
      var tmp := AddReturn(-1);
      failed := tmp < 0;
      threads := threads[t := if failed then LockFailed else Owner];
    }

    /** Returns 0 when the fast path succeeds and whatever fail_fn returns otherwise. */
    method FastpathLockRetval(t: nat, failFn: int) returns (ret: int)
      requires Valid() && At(t, Idle)
      modifies this
      ensures Valid() && Abs() == Apply(old(Abs()), Lock(t)) && count == old(count) - 1 < 1
      ensures ret == if old(count) == 1 then 0 else failFn
      ensures old(count) == 1 <==> Meaning(Abs()) == Held(t)
    {
      StepRefines(Abs(), Lock(t));
      StepKeepsRange(Abs(), Lock(t));
      var tmp := AddReturn(-1);
      threads := threads[t := if tmp < 0 then LockFailed else Owner];
      if tmp < 0 {
        return failFn;
      }
      return 0;
    }

    /** Frees the mutex, or keeps it for the slow path exactly when the count was negative. */
    method FastpathUnlock(t: nat) returns (slow: bool)
      requires Valid() && At(t, Owner)
      modifies this
      ensures Valid() && Abs() == Apply(old(Abs()), Unlock(t))
      ensures slow <==> old(count) < 0
      ensures count == old(count) + 1
      ensures Meaning(Abs()) == if slow then Held(t) else Free
    {
      StepRefines(Abs(), Unlock(t));
      StepKeepsRange(Abs(), Unlock(t));
      var tmp := AddReturn(1);
      slow := tmp <= 0;
      threads := threads[t := if slow then Releasing else Idle];
    }

    /** Returns 1 exactly when the mutex was free and is now the caller's; otherwise changes nothing. */
    method FastpathTrylock(t: nat) returns (ret: int)
      requires Valid() && At(t, Idle)
      modifies this
      ensures Valid() && Abs() == Apply(old(Abs()), TryLock(t)) && count < 1
      ensures ret == 1 || ret == 0
      ensures ret == 1 <==> old(Meaning(Abs())) == Free
      ensures Meaning(Abs()) == if ret == 1 then Held(t) else old(Meaning(Abs()))
      ensures count == if ret == 1 then 0 else old(count)
    {
      StepRefines(Abs(), TryLock(t));
      var prev := Cmpxchg(1, 0);
      threads := threads[t := if prev == 1 then Owner else Idle];
      if prev == 1 {
        return 1;
      }
      return 0;
    }
  }
}
