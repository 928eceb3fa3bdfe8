/**
 The counting read-write semaphore: one signed word that packs active entries,
 writers and a waiting mark (asm-generic/rwsem.h).

 Every function of the header is one or two atomic steps on `count`.  A state holds
 the word and, per thread, where that thread stands; a run is any sequence of steps
 of any threads.  The slow paths are given by what the header offers them: a failed
 thread withdraws its bias through `rwsem_atomic_update` and joins the queue, a
 non-empty queue keeps one waiting bias in the word, and a queued thread is granted
 entry by adding its bias back when the word shows that this is compatible.
 */
module RwSemaphore {
  import opened Threads

  /** CONFIG_PPC64 selects the mask; `long` has twice the mask's width. */
  datatype Config = Ppc32 | Ppc64

  function ActiveMask(c: Config): int {
    match c case Ppc32 => 0xffff case Ppc64 => 0xffff_ffff
  }

  const UNLOCKED_VALUE := 0
  const ACTIVE_READ_BIAS := 1

  function WaitingBias(c: Config): int { -ActiveMask(c) - 1 }

  function ActiveWriteBias(c: Config): int { WaitingBias(c) + 1 }

  function LongModulus(c: Config): int {
    match c case Ppc32 => 0x1_0000_0000 case Ppc64 => 0x1_0000_0000_0000_0000
  }

  /** Two's complement wrap-around of a `long`. */
  function ToLong(c: Config, x: int): int {
    if -LongModulus(c) / 2 <= x < LongModulus(c) / 2 then x else
      match c
      case Ppc32 => (x + 0x8000_0000) % 0x1_0000_0000 - 0x8000_0000
      case Ppc64 => (x + 0x8000_0000_0000_0000) % 0x1_0000_0000_0000_0000 - 0x8000_0000_0000_0000
  }

  /** `x & RWSEM_ACTIVE_MASK` of a two's complement word. */
  function Masked(c: Config, x: int): int {
    match c case Ppc32 => x % 0x1_0000 case Ppc64 => x % 0x1_0000_0000
  }

  datatype Phase =
    | Idle
    | TryingRead(seen: nat)  // between the load and the compare-and-exchange of the read trylock
    | Reading
    | Writing
    | ReadFailed             // bias added, about to call rwsem_down_read_failed
    | WriteFailed            // bias added, about to call rwsem_down_write_failed
    | ReadQueued
    | WriteQueued

  datatype State = State(count: int, threads: seq<Phase>)

  datatype Action =
    | DownRead(t: nat)
    | ReadLoad(t: nat)
    | ReadCas(t: nat)
    | DownWrite(t: nat)
    | TryWrite(t: nat)
    | UpRead(t: nat)
    | UpWrite(t: nat)
    | Downgrade(t: nat)
    | Enqueue(t: nat)
    | Grant(t: nat)

  function Init(n: nat): State {
    State(UNLOCKED_VALUE, seq(n, _ => Idle))
  }

  /** Add `delta` to the word and move thread t to phase p, atomically. */
  function Move(c: Config, s: State, t: nat, delta: int, p: Phase): State
    requires t < |s.threads|
  {
    State(ToLong(c, s.count + delta), s.threads[t := p])
  }

  predicate Enabled(c: Config, s: State, a: Action) {
    a.t < |s.threads| &&
    var p := s.threads[a.t];
    match a
    case DownRead(_) => p.Idle?
    case ReadLoad(_) => p.Idle?
    case ReadCas(_) => p.TryingRead?
    case DownWrite(_) => p.Idle?
    case TryWrite(_) => p.Idle?
    case UpRead(_) => p.Reading?
    case UpWrite(_) => p.Writing?
    case Downgrade(_) => p.Writing?
    case Enqueue(_) => p.ReadFailed? || p.WriteFailed?
    // a reader may enter when no writer entry is left, a writer when no entry is left
    case Grant(_) => (p.ReadQueued? && s.count >= WaitingBias(c))
                     || (p.WriteQueued? && Masked(c, s.count) == 0)
  }

  /** What an enabled step adds to the word and where it takes its thread. */
  function Delta(c: Config, s: State, a: Action): int
    requires Enabled(c, s, a)
  {
    match a
    case DownRead(_) => ACTIVE_READ_BIAS
    case ReadLoad(_) => 0
    case ReadCas(t) => if s.count == s.threads[t].seen then ACTIVE_READ_BIAS else 0
    case DownWrite(_) => ActiveWriteBias(c)
    case TryWrite(_) => if s.count == UNLOCKED_VALUE then ActiveWriteBias(c) else 0
    case UpRead(_) => -ACTIVE_READ_BIAS
    case UpWrite(_) => -ActiveWriteBias(c)
    case Downgrade(_) => -WaitingBias(c)
    // the first thread to queue adds the waiting mark, the last one to leave takes it away
    case Enqueue(t) =>
      (if s.threads[t].ReadFailed? then -ACTIVE_READ_BIAS else -ActiveWriteBias(c))
      + if Queued(s.threads) == 0 then WaitingBias(c) else 0
    case Grant(t) =>
      (if s.threads[t].ReadQueued? then ACTIVE_READ_BIAS else ActiveWriteBias(c))
      - if Queued(s.threads) == 1 then WaitingBias(c) else 0
  }

  function Next(c: Config, s: State, a: Action): Phase
    requires Enabled(c, s, a)
  {
    var tmp := ToLong(c, s.count + Delta(c, s, a));
    match a
    case DownRead(_) => if tmp <= 0 then ReadFailed else Reading
    case ReadLoad(_) => if tmp >= 0 then TryingRead(tmp) else Idle
    case ReadCas(t) => if s.count == s.threads[t].seen then Reading else Idle
    case DownWrite(_) => if tmp != ActiveWriteBias(c) then WriteFailed else Writing
    case TryWrite(_) => if s.count == UNLOCKED_VALUE then Writing else Idle
    case UpRead(_) => Idle
    case UpWrite(_) => Idle
    case Downgrade(_) => Reading
    case Enqueue(t) => if s.threads[t].ReadFailed? then ReadQueued else WriteQueued
    case Grant(t) => if s.threads[t].ReadQueued? then Reading else Writing
  }

  /** One atomic step; a step that is not enabled changes nothing. */
  function Apply(c: Config, s: State, a: Action): State {
    if Enabled(c, s, a) then Move(c, s, a.t, Delta(c, s, a), Next(c, s, a)) else s
  }

  /** Whether the step calls rwsem_wake or rwsem_downgrade_wake. */
  predicate CallsWake(c: Config, s: State, a: Action) {
    Enabled(c, s, a) &&
    var tmp := Apply(c, s, a).count;
    match a
    case UpRead(_) => tmp < -1 && Masked(c, tmp) == 0
    case UpWrite(_) => tmp < 0
    case Downgrade(_) => tmp < 0
    case _ => false
  }

  function Run(c: Config, s: State, run: seq<Action>): State
    decreases |run|
  {
    if run == [] then s else Apply(c, Run(c, s, run[..|run| - 1]), run[|run| - 1])
  }

  // ----- the account -----

  function ActiveWeight(p: Phase): int {
    if p.Reading? || p.Writing? || p.ReadFailed? || p.WriteFailed? then 1 else 0
  }

  function WriteWeight(p: Phase): int {
    if p.Writing? || p.WriteFailed? then 1 else 0
  }

  function QueueWeight(p: Phase): int {
    if p.ReadQueued? || p.WriteQueued? then 1 else 0
  }

  function MarkWeight(p: Phase): int { WriteWeight(p) + QueueWeight(p) }

  /** Active and pending entries. */
  function Active(threads: seq<Phase>): int { Sum(threads, ActiveWeight) }

  /** Writers and pending writers. */
  function Writers(threads: seq<Phase>): int { Sum(threads, WriteWeight) }

  function Queued(threads: seq<Phase>): int { Sum(threads, QueueWeight) }

  /** Writers, pending writers and the waiting mark of a non-empty queue. */
  function Marks(threads: seq<Phase>): int {
    Writers(threads) + if Queued(threads) == 0 then 0 else 1
  }

  /** Active entries in the low part, one waiting bias for each mark. */
  function Packed(c: Config, active: int, marks: int): int {
    match c
    case Ppc32 => active - 0x1_0000 * marks
    case Ppc64 => active - 0x1_0000_0000 * marks
  }

  function Account(c: Config, threads: seq<Phase>): int {
    Packed(c, Active(threads), Marks(threads))
  }

  predicate Holds(p: Phase) { p.Reading? || p.Writing? }

  ghost predicate Exclusive(threads: seq<Phase>) {
    forall i, j :: 0 <= i < |threads| && 0 <= j < |threads| && i != j && threads[i].Writing?
                   ==> !Holds(threads[j])
  }

  ghost predicate Inv(c: Config, s: State) {
    s.count == Account(c, s.threads) && Exclusive(s.threads)
  }

  function MaxThreads(c: Config): int { (ActiveMask(c) + 1) / 2 }

  // ----- reading the word -----

  /** Within the thread bound every test the header makes on the word decodes the account. */
  lemma Decode(c: Config, active: int, marks: int)
    requires 0 <= active <= MaxThreads(c) && 0 <= marks <= MaxThreads(c)
    ensures var w := Packed(c, active, marks);
            && ToLong(c, w) == w
            && (w >= 0 <==> marks == 0)
            && (w > 0 <==> marks == 0 && active > 0)
            && (w == 0 <==> marks == 0 && active == 0)
            && (w == ActiveWriteBias(c) <==> marks == 1 && active == 1)
            && (w >= WaitingBias(c) <==> marks <= 1)
            && Masked(c, w) == active
  {
  }

  /** Active entries and marks never outnumber the threads: a mark needs a writer entry or a queued thread. */
  lemma AccountBounds(threads: seq<Phase>)
    ensures 0 <= Active(threads) <= |threads|
    ensures 0 <= Writers(threads) <= Marks(threads) <= |threads|
    ensures Active(threads) >= Writers(threads)
    ensures Queued(threads) >= 0
  {
    SumRange(threads, ActiveWeight);
    SumRange(threads, WriteWeight);
    SumRange(threads, QueueWeight);
    SumRange(threads, MarkWeight);
    SumOfSums(threads, WriteWeight, QueueWeight, MarkWeight);
    var rest := p => ActiveWeight(p) - WriteWeight(p);
    SumRange(threads, rest);
    SumOfSums(threads, WriteWeight, rest, ActiveWeight);
  }

  lemma Decoded(c: Config, s: State)
    requires s.count == Account(c, s.threads) && |s.threads| <= MaxThreads(c)
    ensures ToLong(c, s.count) == s.count
    ensures s.count >= 0 <==> Marks(s.threads) == 0
    ensures s.count == 0 <==> Marks(s.threads) == 0 && Active(s.threads) == 0
    ensures s.count >= WaitingBias(c) <==> Marks(s.threads) <= 1
    ensures Masked(c, s.count) == Active(s.threads)
  {
    AccountBounds(s.threads);
    Decode(c, Active(s.threads), Marks(s.threads));
  }

  lemma NoEntries(threads: seq<Phase>)
    requires Active(threads) == 0
    ensures forall i :: 0 <= i < |threads| ==> ActiveWeight(threads[i]) == 0
  {
    forall i | 0 <= i < |threads| ensures ActiveWeight(threads[i]) == 0 {
      SumAtLeastOne(threads, i, ActiveWeight);
    }
  }

  lemma NoWriterEntries(threads: seq<Phase>)
    requires Writers(threads) == 0
    ensures forall i :: 0 <= i < |threads| ==> WriteWeight(threads[i]) == 0
  {
    forall i | 0 <= i < |threads| ensures WriteWeight(threads[i]) == 0 {
      SumAtLeastOne(threads, i, WriteWeight);
    }
  }

  // ----- every step keeps the account -----

  /** How the account changes when one thread changes phase. */
  lemma AccountMove(threads: seq<Phase>, t: nat, p: Phase)
    requires t < |threads|
    ensures var q := threads[t];
            var moved := threads[t := p];
            && Active(moved) == Active(threads) - ActiveWeight(q) + ActiveWeight(p)
            && Writers(moved) == Writers(threads) - WriteWeight(q) + WriteWeight(p)
            && Queued(moved) == Queued(threads) - QueueWeight(q) + QueueWeight(p)
            && 0 <= Queued(moved) && QueueWeight(q) <= Queued(threads)
  {
    SumUpdate(threads, t, p, ActiveWeight);
    SumUpdate(threads, t, p, WriteWeight);
    SumUpdate(threads, t, p, QueueWeight);
    SumRange(threads[t := p], QueueWeight);
    SumAtLeastOne(threads, t, QueueWeight);
  }

  /** Every step adds to the word exactly what its thread's move adds to the account. */
  lemma DeltaIsAccountChange(c: Config, s: State, a: Action)
    requires Enabled(c, s, a)
    ensures Account(c, s.threads[a.t := Next(c, s, a)]) == Account(c, s.threads) + Delta(c, s, a)
  {
    AccountMove(s.threads, a.t, Next(c, s, a));
  }

  /** So the word stays the account, and no step wraps around. */
  lemma StepKeepsAccount(c: Config, s: State, a: Action)
    requires s.count == Account(c, s.threads) && |s.threads| <= MaxThreads(c)
    ensures Apply(c, s, a).count == Account(c, Apply(c, s, a).threads)
    ensures Enabled(c, s, a) ==> Apply(c, s, a).count == s.count + Delta(c, s, a)
  {
    if Enabled(c, s, a) {
      var moved := s.threads[a.t := Next(c, s, a)];
      DeltaIsAccountChange(c, s, a);
      AccountBounds(moved);
      Decode(c, Active(moved), Marks(moved));
    }
  }

  /** A step takes effect on its own thread only. */
  lemma StepFrame(c: Config, s: State, a: Action)
    ensures |Apply(c, s, a).threads| == |s.threads|
    ensures forall i :: 0 <= i < |s.threads| && i != a.t ==> Apply(c, s, a).threads[i] == s.threads[i]
  {
  }

  // ----- what each entry means -----

  /** The fast read entry succeeds exactly when there is no writer entry and no queue. */
  lemma DownReadEnters(c: Config, s: State, t: nat)
    requires Inv(c, s) && |s.threads| <= MaxThreads(c) && t < |s.threads| && s.threads[t].Idle?
    ensures Apply(c, s, DownRead(t)).threads[t] == (if Marks(s.threads) == 0 then Reading else ReadFailed)
  {
    StepKeepsAccount(c, s, DownRead(t));
    var s' := Apply(c, s, DownRead(t));
    AccountMove(s.threads, t, s'.threads[t]);
    AccountBounds(s.threads);
    AccountBounds(s'.threads);
    Decode(c, Active(s'.threads), Marks(s'.threads));
  }

  /** The fast write entry succeeds exactly when there is no entry at all and no queue. */
  lemma DownWriteEnters(c: Config, s: State, t: nat)
    requires Inv(c, s) && |s.threads| <= MaxThreads(c) && t < |s.threads| && s.threads[t].Idle?
    ensures Apply(c, s, DownWrite(t)).threads[t]
            == (if Marks(s.threads) == 0 && Active(s.threads) == 0 then Writing else WriteFailed)
  {
    StepKeepsAccount(c, s, DownWrite(t));
    var s' := Apply(c, s, DownWrite(t));
    AccountMove(s.threads, t, s'.threads[t]);
    AccountBounds(s'.threads);
    Decode(c, Active(s'.threads), Marks(s'.threads));
    AccountBounds(s.threads);
  }

  /** No step, fast or slow, lets a writer in beside another holder. */
  lemma StepKeepsExclusion(c: Config, s: State, a: Action)
    requires Inv(c, s) && |s.threads| <= MaxThreads(c)
    ensures Exclusive(Apply(c, s, a).threads)
  {
    if Enabled(c, s, a) {
      StepFrame(c, s, a);
      Decoded(c, s);
      AccountBounds(s.threads);
      AccountMove(s.threads, a.t, s.threads[a.t]);
      if a.DownRead? { DownReadEnters(c, s, a.t); }
      if a.DownWrite? { DownWriteEnters(c, s, a.t); }
      if Active(s.threads) == 0 { NoEntries(s.threads); }
      if Writers(s.threads) == 0 { NoWriterEntries(s.threads); }
    }
  }

  lemma StepKeepsInv(c: Config, s: State, a: Action)
    requires Inv(c, s) && |s.threads| <= MaxThreads(c)
    ensures Inv(c, Apply(c, s, a)) && |Apply(c, s, a).threads| == |s.threads|
  {
    StepKeepsAccount(c, s, a);
    StepKeepsExclusion(c, s, a);
    StepFrame(c, s, a);
  }

  lemma {:induction false} RunKeepsInv(c: Config, s: State, run: seq<Action>)
    requires Inv(c, s) && |s.threads| <= MaxThreads(c)
    ensures Inv(c, Run(c, s, run)) && |Run(c, s, run).threads| == |s.threads|
    decreases |run|
  {
    if run != [] {
      RunKeepsInv(c, s, run[..|run| - 1]);
      StepKeepsInv(c, Run(c, s, run[..|run| - 1]), run[|run| - 1]);
    }
  }

  lemma InitInv(c: Config, n: nat)
    ensures Inv(c, Init(n)) && |Init(n).threads| == n
  {
    SumZero(Init(n).threads, ActiveWeight);
    SumZero(Init(n).threads, WriteWeight);
    SumZero(Init(n).threads, QueueWeight);
  }

  /**
   The main safety theorem: in every run of at most MaxThreads threads the word is the
   account, it is a `long` with no wrap-around, and a writer holds alone.
   */
  lemma Safety(c: Config, n: nat, run: seq<Action>)
    requires n <= MaxThreads(c)
    ensures var s := Run(c, Init(n), run);
            && s.count == Packed(c, Active(s.threads), Marks(s.threads))
            && -LongModulus(c) / 2 <= s.count < LongModulus(c) / 2
            && Exclusive(s.threads)
  {
    InitInv(c, n);
    RunKeepsInv(c, Init(n), run);
    Decoded(c, Run(c, Init(n), run));
  }

  /**
   The three releases call their wake exactly when someone is there to be woken: the read
   release when the last entry leaves a non-empty queue, the write release and the downgrade
   when a queued thread or a pending writer remains.
   */
  lemma WakesExactly(c: Config, s: State, a: Action)
    requires Inv(c, s) && |s.threads| <= MaxThreads(c)
    requires Enabled(c, s, a) && (a.UpRead? || a.UpWrite? || a.Downgrade?)
    ensures var after := Apply(c, s, a).threads;
            CallsWake(c, s, a) <==>
            if a.UpRead? then Active(after) == 0 && Queued(after) > 0
            else Writers(after) > 0 || Queued(after) > 0
  {
    StepKeepsInv(c, s, a);
    var s' := Apply(c, s, a);
    Decoded(c, s');
    AccountBounds(s'.threads);
    Decode(c, Active(s'.threads), Marks(s'.threads));
  }

  /** A queue is left without any entry only by a release that calls wake or inside the slow path. */
  lemma NoSilentStranding(c: Config, s: State, a: Action)
    requires Inv(c, s) && |s.threads| <= MaxThreads(c)
    requires Active(s.threads) > 0 || Queued(s.threads) == 0
    requires var after := Apply(c, s, a).threads; Active(after) == 0 && Queued(after) > 0
    ensures a.Enqueue? || CallsWake(c, s, a)
  {
    AccountMove(s.threads, a.t, Next(c, s, a));
    AccountBounds(s.threads);
    if a.UpRead? || a.UpWrite? || a.Downgrade? { WakesExactly(c, s, a); }
  }

  /** Downgrading turns the one holder, a writer, into the one holder, a reader. */
  lemma DowngradeHandsOver(c: Config, s: State, t: nat)
    requires Inv(c, s) && |s.threads| <= MaxThreads(c) && t < |s.threads| && s.threads[t].Writing?
    ensures var s' := Apply(c, s, Downgrade(t));
            && Inv(c, s')
            && forall i :: 0 <= i < |s'.threads| ==> (Holds(s'.threads[i]) <==> i == t) && !s'.threads[i].Writing?
  {
    StepKeepsInv(c, s, Downgrade(t));
  }

  // ----- the thread bound is exact -----

  /** The account describes the word in every run of n threads. */
  ghost predicate Accounted(c: Config, n: nat) {
    forall run: seq<Action> ::
      Run(c, Init(n), run).count == Account(c, Run(c, Init(n), run).threads)
  }

  /** A writer holds alone in every run of n threads. */
  ghost predicate Excludes(c: Config, n: nat) {
    forall run: seq<Action> :: Exclusive(Run(c, Init(n), run).threads)
  }

  lemma RunSnoc(c: Config, s: State, run: seq<Action>, a: Action)
    ensures Run(c, s, run + [a]) == Apply(c, Run(c, s, run), a)
  {
    assert (run + [a])[..|run|] == run;
  }

  /** Thread 0 writes, thread 1 is queued for reading, and k more writers run into them. */
  function Convoying(k: nat): seq<Action> {
    if k == 0 then [DownWrite(0)] + [Action.DownRead(1)] + [Enqueue(1)] else Convoying(k - 1) + [DownWrite(k + 1)]
  }

  function Convoy(n: nat, k: nat): seq<Phase> {
    seq(n, i => if i == 0 then Writing else if i == 1 then ReadQueued else if i < k + 2 then WriteFailed else Idle)
  }

  /** The word of the convoy: k + 1 write entries and the mark of the queue, wrapped. */
  function ConvoyWord(c: Config, k: nat): int { ToLong(c, Packed(c, k + 1, k + 2)) }

  /** It is negative until the last thread over the bound comes, and then positive. */
  lemma ConvoyWraps(c: Config, k: nat)
    requires k + 1 <= MaxThreads(c)
    ensures k + 1 < MaxThreads(c) ==> ConvoyWord(c, k) == Packed(c, k + 1, k + 2) < WaitingBias(c)
    ensures k + 1 == MaxThreads(c) ==> ConvoyWord(c, k) > 0
  {
  }

  /** The next write entry adds its bias and never finds the semaphore free. */
  lemma ConvoyCount(c: Config, k: nat)
    requires 0 < k && k + 1 <= MaxThreads(c)
    ensures ToLong(c, ConvoyWord(c, k - 1) + ActiveWriteBias(c)) == ConvoyWord(c, k) != ActiveWriteBias(c)
  {
    ConvoyWraps(c, k - 1);
    ConvoyWraps(c, k);
  }

  lemma StartWords(c: Config)
    ensures ToLong(c, ActiveWriteBias(c)) == Packed(c, 1, 1) == ActiveWriteBias(c)
    ensures ToLong(c, Packed(c, 1, 1) + ACTIVE_READ_BIAS) == Packed(c, 2, 1) <= 0
    ensures ToLong(c, Packed(c, 2, 1) - ACTIVE_READ_BIAS + WaitingBias(c)) == ConvoyWord(c, 0)
  {
  }

  lemma FirstTwo(c: Config, n: nat)
    requires n >= 2
    ensures Run(c, Init(n), [DownWrite(0)] + [Action.DownRead(1)])
            == State(Packed(c, 2, 1), Init(n).threads[0 := Writing][1 := ReadFailed])
  {
    RunSnoc(c, Init(n), [], DownWrite(0));
    assert [] + [DownWrite(0)] == [DownWrite(0)];
    RunSnoc(c, Init(n), [DownWrite(0)], Action.DownRead(1));
    StartWords(c);
    assert Apply(c, Init(n), DownWrite(0)) == State(Packed(c, 1, 1), Init(n).threads[0 := Writing]);
  }

  lemma ConvoyStart(c: Config, n: nat)
    requires n >= 2
    ensures Run(c, Init(n), Convoying(0)) == State(ConvoyWord(c, 0), Convoy(n, 0))
  {
    FirstTwo(c, n);
    RunSnoc(c, Init(n), [DownWrite(0)] + [Action.DownRead(1)], Enqueue(1));
    var threads := Init(n).threads[0 := Writing][1 := ReadFailed];
    StartWords(c);
    SumZero(threads, QueueWeight);
    assert Convoy(n, 0) == threads[1 := ReadQueued];
  }

  lemma ConvoyStep(c: Config, n: nat, k: nat)
    requires 0 < k && k + 1 <= MaxThreads(c) < n
    ensures Apply(c, State(ConvoyWord(c, k - 1), Convoy(n, k - 1)), DownWrite(k + 1))
            == State(ConvoyWord(c, k), Convoy(n, k))
  {
    ConvoyCount(c, k);
    assert Convoy(n, k) == Convoy(n, k - 1)[k + 1 := WriteFailed];
  }

  lemma {:induction false} ConvoyRun(c: Config, n: nat, k: nat)
    requires k + 1 <= MaxThreads(c) < n
    ensures Run(c, Init(n), Convoying(k)) == State(ConvoyWord(c, k), Convoy(n, k))
  {
    if k == 0 {
      ConvoyStart(c, n);
    } else {
      ConvoyRun(c, n, k - 1);
      ConvoyStep(c, n, k);
      RunSnoc(c, Init(n), Convoying(k - 1), DownWrite(k + 1));
    }
  }

  /** With one thread more than the bound the word wraps, and a reader enters beside a writer. */
  lemma BeyondTheBound(c: Config, n: nat) returns (run: seq<Action>)
    requires n > MaxThreads(c)
    ensures var s := Run(c, Init(n), run); |s.threads| == n && s.threads[0].Writing? && s.threads[1].Reading?
  {
    var k := MaxThreads(c) - 1;
    ConvoyRun(c, n, k);
    ConvoyWraps(c, k);
    run := Convoying(k) + [Grant(1)];
    RunSnoc(c, Init(n), Convoying(k), Grant(1));
  }

  /** A writer holds alone in every run of n threads if and only if n is at most half the mask's range. */
  lemma ExclusionExactly(c: Config, n: nat)
    ensures Excludes(c, n) <==> n <= MaxThreads(c)
    ensures MaxThreads(c) == if c.Ppc32? then 0x8000 else 0x8000_0000
  {
    if n <= MaxThreads(c) {
      forall run: seq<Action> ensures Exclusive(Run(c, Init(n), run).threads) {
        Safety(c, n, run);
      }
    } else {
      var run := BeyondTheBound(c, n);
      assert !Exclusive(Run(c, Init(n), run).threads);
    }
  }

  /** The account holds in every run of n threads under the same condition. */
  lemma BoundIsExact(c: Config, n: nat)
    ensures Accounted(c, n) <==> n <= MaxThreads(c)
  {
    if n <= MaxThreads(c) {
      forall run: seq<Action>
        ensures Run(c, Init(n), run).count == Account(c, Run(c, Init(n), run).threads)
      {
        Safety(c, n, run);
      }
    } else {
      var k := MaxThreads(c) - 1;
      ConvoyRun(c, n, k);
      ConvoyWraps(c, k);
      ConvoyAccount(c, n, k);
      assert Run(c, Init(n), Convoying(k)).count != Account(c, Run(c, Init(n), Convoying(k)).threads);
    }
  }

  lemma {:induction false} ConvoyAccount(c: Config, n: nat, k: nat)
    requires k + 2 <= n
    ensures Account(c, Convoy(n, k)) == Packed(c, k + 1, k + 2)
  {
    if k == 0 {
      var start := seq(n, _ => Idle);
      SumZero(start, ActiveWeight);
      SumZero(start, WriteWeight);
      SumZero(start, QueueWeight);
      AccountMove(start, 0, Writing);
      AccountMove(start[0 := Writing], 1, ReadQueued);
      assert Convoy(n, 0) == start[0 := Writing][1 := ReadQueued];
    } else {
      ConvoyAccount(c, n, k - 1);
      assert Convoy(n, k) == Convoy(n, k - 1)[k + 1 := WriteFailed];
      AccountMove(Convoy(n, k - 1), k + 1, WriteFailed);
      SumAtLeastOne(Convoy(n, k - 1), 1, QueueWeight);
      assert Packed(c, k + 1, k + 2) == Packed(c, k, k + 1) + ActiveWriteBias(c);
    }
  }

  // ----- the functions of the header -----

  /** What other threads do around a failed attempt: between its load and its exchange, and before the next load. */
  datatype Round = Round(window: seq<Action>, gap: seq<Action>)

  function AfterRound(c: Config, s: State, r: Round): State { Run(c, Run(c, s, r.window), r.gap) }

  function RunRounds(c: Config, s: State, rounds: seq<Round>): State {
    if rounds == [] then s else AfterRound(c, RunRounds(c, s, rounds[..|rounds| - 1]), rounds[|rounds| - 1])
  }

  lemma RoundsSnoc(c: Config, s: State, rounds: seq<Round>, k: nat)
    requires k < |rounds|
    ensures RunRounds(c, s, rounds[..k + 1]) == AfterRound(c, RunRounds(c, s, rounds[..k]), rounds[k])
  {
    assert rounds[..k + 1][..k] == rounds[..k];
  }

  /**
   A trylock whose last load was in state `loaded` found a mark there and changed nothing, or entered
   after the next window, where the word was still the one it loaded and there was no mark.
   */
  ghost predicate TrylockOutcome(c: Config, loaded: State, t: nat, env: seq<Round>, taken: bool, after: State) {
    if taken then
      var s := if env == [] then loaded else Run(c, loaded, env[0].window);
      && s.count == loaded.count && Marks(s.threads) == 0
      && after == Run(c, s, [ReadLoad(t), ReadCas(t)])
    else Marks(loaded.threads) > 0 && after == loaded
  }

  ghost predicate ByOthers(t: nat, run: seq<Action>) {
    forall i :: 0 <= i < |run| ==> run[i].t != t
  }

  lemma {:induction false} OthersFrame(c: Config, s: State, t: nat, run: seq<Action>)
    requires t < |s.threads| && ByOthers(t, run)
    ensures |Run(c, s, run).threads| == |s.threads|
    ensures Run(c, s, run).threads[t] == s.threads[t]
    decreases |run|
  {
    if run != [] {
      OthersFrame(c, s, t, run[..|run| - 1]);
      StepFrame(c, Run(c, s, run[..|run| - 1]), run[|run| - 1]);
    }
  }

  /** struct rw_semaphore, with the standing of every thread beside its word. */
  class Semaphore {
    const c: Config
    var count: int
    var threads: seq<Phase>

    function Abs(): State
      reads this
    {
      State(count, threads)
    }

    ghost predicate Valid()
      reads this
    {
      Inv(c, Abs()) && |threads| <= MaxThreads(c)
    }

    ghost predicate At(t: nat, p: Phase)
      reads this
    {
      t < |threads| && threads[t] == p
    }

    constructor (c: Config, n: nat)
      requires n <= MaxThreads(c)
      ensures Valid() && this.c == c && Abs() == Init(n)
    {
      this.c := c;
      this.count := UNLOCKED_VALUE;
      this.threads := Init(n).threads;
      InitInv(c, n);
    }

    /** atomic_long_add_return: the word alone. */
    method AddReturn(delta: int) returns (tmp: int)
      modifies this`count
      ensures count == ToLong(c, old(count) + delta) == tmp
    {
      count := ToLong(c, count + delta);
      tmp := count;
    }

    /** cmpxchg on the word alone. */
    method Cmpxchg(expected: int, desired: int) returns (prev: int)
      modifies this`count
      ensures prev == old(count)
      ensures count == if prev == expected then desired else old(count)
    {
      prev := count;
      if prev == expected {
        count := desired;
      }
    }

    /** Other threads run for a while. */
    method Interfere(t: nat, run: seq<Action>)
      requires Valid() && At(t, Idle) && ByOthers(t, run)
      modifies this
      ensures Valid() && At(t, Idle) && Abs() == Run(c, old(Abs()), run)
    {
      var s := Run(c, Abs(), run);
      RunKeepsInv(c, Abs(), run);
      OthersFrame(c, Abs(), t, run);
      count, threads := s.count, s.threads;
    }

    /** Enters, or is left for the slow path exactly when a writer entry or a queue is present. */
    method DownRead(t: nat) returns (failed: bool)
      requires Valid() && At(t, Idle)
      modifies this
      ensures Valid() && Abs() == Apply(c, old(Abs()), Action.DownRead(t))
      ensures failed <==> Marks(old(threads)) > 0
      ensures At(t, if failed then ReadFailed else Reading)
    {
      DownReadEnters(c, Abs(), t);
      StepKeepsInv(c, Abs(), Action.DownRead(t));
      AccountBounds(threads);
      var tmp := AddReturn(ACTIVE_READ_BIAS);
      failed := tmp <= 0;
      threads := threads[t := if failed then ReadFailed else Reading];
    }

    /** The compare-and-exchange of one attempt: enters if the word is still the one that was read. */
    method TryEnter(t: nat, tmp: nat) returns (swapped: bool)
      requires Valid() && At(t, Idle)
      modifies this
      ensures Valid() && (swapped <==> old(count) == tmp)
      ensures swapped ==> Abs() == Run(c, old(Abs()), [ReadLoad(t), ReadCas(t)]) && At(t, Reading)
      ensures swapped ==> Marks(old(threads)) == 0
      ensures !swapped ==> Abs() == old(Abs())
    {
      ghost var s := Abs();
      Decoded(c, s);
      var prev := Cmpxchg(tmp, ToLong(c, tmp + ACTIVE_READ_BIAS));
      swapped := prev == tmp;
      if swapped {
        threads := threads[t := Reading];
        TrylockSteps(c, s, t);
        RunKeepsInv(c, s, [ReadLoad(t), ReadCas(t)]);
      }
    }

    /** One turn of the loop: `env` holds the rounds that are still to come. */
    method Attempt(t: nat, env: seq<Round>) returns (done: bool, taken: bool)
      requires Valid() && At(t, Idle)
      requires forall i :: 0 <= i < |env| ==> ByOthers(t, env[i].window) && ByOthers(t, env[i].gap)
      modifies this
      ensures Valid()
      ensures done ==> At(t, if taken then Reading else Idle) && TrylockOutcome(c, old(Abs()), t, env, taken, Abs())
      ensures !done ==> At(t, Idle) && env != [] && Abs() == AfterRound(c, old(Abs()), env[0])
    {
      var tmp := count;
      Decoded(c, Abs());
      if tmp < 0 {
        AccountBounds(threads);
        return true, false;
      }
      if env != [] {
        Interfere(t, env[0].window);
      }
      var swapped := TryEnter(t, tmp);
      if swapped {
        return true, true;
      }
      Interfere(t, env[0].gap);
      return false, false;
    }

    /**
     The compare-and-exchange retry loop, with others at work between its load and its exchange and
     between a failed exchange and the next load.  Its last load comes after k failed attempts.  It
     ends because a failed exchange uses up a round.
     */
    method DownReadTrylock(t: nat, env: seq<Round>) returns (taken: bool, k: nat)
      requires Valid() && At(t, Idle)
      requires forall i :: 0 <= i < |env| ==> ByOthers(t, env[i].window) && ByOthers(t, env[i].gap)
      modifies this
      ensures Valid() && k <= |env| && At(t, if taken then Reading else Idle)
      ensures TrylockOutcome(c, RunRounds(c, old(Abs()), env[..k]), t, env[k..], taken, Abs())
    {
      var done := false;
      k, taken := 0, false;
      while !done
        invariant Valid() && k <= |env| && At(t, if done && taken then Reading else Idle)
        invariant done ==> TrylockOutcome(c, RunRounds(c, old(Abs()), env[..k]), t, env[k..], taken, Abs())
        invariant !done ==> Abs() == RunRounds(c, old(Abs()), env[..k])
        decreases |env| - k, !done
      {
        done, taken := Attempt(t, env[k..]);
        if !done {
          RoundsSnoc(c, old(Abs()), env, k);
          k := k + 1;
        }
      }
    }

    /** Enters, or is left for the slow path exactly when any entry or a queue is present. */
    method DownWriteNested(t: nat, subclass: int) returns (failed: bool)
      requires Valid() && At(t, Idle)
      modifies this
      ensures Valid() && Abs() == Apply(c, old(Abs()), DownWrite(t))
      ensures failed <==> Marks(old(threads)) > 0 || Active(old(threads)) > 0
      ensures At(t, if failed then WriteFailed else Writing)
    {
      DownWriteEnters(c, Abs(), t);
      StepKeepsInv(c, Abs(), DownWrite(t));
      AccountBounds(threads);
      var tmp := AddReturn(ActiveWriteBias(c));
      failed := tmp != ActiveWriteBias(c);
      threads := threads[t := if failed then WriteFailed else Writing];
    }

    method DownWriteTrylock(t: nat) returns (taken: bool)
      requires Valid() && At(t, Idle)
      modifies this
      ensures Valid() && Abs() == Apply(c, old(Abs()), TryWrite(t))
      ensures taken <==> Marks(old(threads)) == 0 && Active(old(threads)) == 0
      ensures At(t, if taken then Writing else Idle)
    {
      Decoded(c, Abs());
      StepKeepsInv(c, Abs(), TryWrite(t));
      var tmp := Cmpxchg(UNLOCKED_VALUE, ActiveWriteBias(c));
      taken := tmp == UNLOCKED_VALUE;
      threads := threads[t := if taken then Writing else Idle];
    }

    /** Wakes exactly when the last entry leaves a non-empty queue. */
    method UpRead(t: nat) returns (wake: bool)
      requires Valid() && At(t, Reading)
      modifies this
      ensures Valid() && Abs() == Apply(c, old(Abs()), Action.UpRead(t))
      ensures wake <==> Active(threads) == 0 && Queued(threads) > 0
    {
      WakesExactly(c, Abs(), Action.UpRead(t));
      StepKeepsInv(c, Abs(), Action.UpRead(t));
      var tmp := AddReturn(-ACTIVE_READ_BIAS);
      wake := tmp < -1 && Masked(c, tmp) == 0;
      threads := threads[t := Idle];
    }

    /** Wakes exactly when a queued thread or a pending writer remains. */
    method UpWrite(t: nat) returns (wake: bool)
      requires Valid() && At(t, Writing)
      modifies this
      ensures Valid() && Abs() == Apply(c, old(Abs()), Action.UpWrite(t))
      ensures wake <==> Writers(threads) > 0 || Queued(threads) > 0
    {
      WakesExactly(c, Abs(), Action.UpWrite(t));
      StepKeepsInv(c, Abs(), Action.UpWrite(t));
      var tmp := AddReturn(-ActiveWriteBias(c));
      wake := tmp < 0;
      threads := threads[t := Idle];
    }

    method DowngradeWrite(t: nat) returns (wake: bool)
      requires Valid() && At(t, Writing)
      modifies this
      ensures Valid() && Abs() == Apply(c, old(Abs()), Downgrade(t))
      ensures wake <==> Writers(threads) > 0 || Queued(threads) > 0
      ensures forall i :: 0 <= i < |threads| ==> (Holds(threads[i]) <==> i == t) && !threads[i].Writing?
    {
      WakesExactly(c, Abs(), Downgrade(t));
      DowngradeHandsOver(c, Abs(), t);
      StepKeepsInv(c, Abs(), Downgrade(t));
      var tmp := AddReturn(-WaitingBias(c));
      wake := tmp < 0;
      threads := threads[t := Reading];
    }
  }

  /** An undisturbed load and exchange of a non-negative word. */
  lemma TrylockSteps(c: Config, s: State, t: nat)
    requires t < |s.threads| && s.threads[t].Idle? && 0 <= s.count && ToLong(c, s.count) == s.count
    ensures Run(c, s, [ReadLoad(t), ReadCas(t)])
            == State(ToLong(c, s.count + ACTIVE_READ_BIAS), s.threads[t := Reading])
  {
    RunSnoc(c, s, [], ReadLoad(t));
    assert [] + [ReadLoad(t)] == [ReadLoad(t)];
    RunSnoc(c, s, [ReadLoad(t)], ReadCas(t));
    assert [ReadLoad(t)] + [ReadCas(t)] == [ReadLoad(t), ReadCas(t)];
  }
}
