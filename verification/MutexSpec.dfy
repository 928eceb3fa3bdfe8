/**
 The mutex that both fast-path headers implement: at most one owner, taken only when
 free and released only by its owner.  A history is the sequence of events of an
 implementation's run; each event is what one thread's atomic step means to callers.
 */
module MutexSpec {

  datatype Mutex = Free | Held(owner: nat)

  datatype Event =
    | Acquire(t: nat)
    | Refuse(t: nat)   // an attempt that found the mutex held
    | Release(t: nat)
    | Internal(t: nat)

  predicate Step(m: Mutex, e: Event, m': Mutex) {
    match e
    case Acquire(t) => m == Free && m' == Held(t)
    case Refuse(_) => m.Held? && m' == m
    case Release(t) => m == Held(t) && m' == Free
    case Internal(_) => m' == m
  }

  /** A history of the abstract mutex: every event is a step from each state to the next. */
  ghost predicate Allowed(states: seq<Mutex>, events: seq<Event>) {
    && |states| == |events| + 1
    && states[0] == Free
    && forall k :: 0 <= k < |events| ==> Step(states[k], events[k], states[k + 1])
  }

  ghost function Acquisitions(events: seq<Event>): int {
    if events == [] then 0
    else Acquisitions(events[..|events| - 1]) + if events[|events| - 1].Acquire? then 1 else 0
  }

  ghost function Releases(events: seq<Event>): int {
    if events == [] then 0
    else Releases(events[..|events| - 1]) + if events[|events| - 1].Release? then 1 else 0
  }

  /** Acquisitions and releases alternate: they differ by one exactly while the mutex is held. */
  lemma {:induction false} Alternation(states: seq<Mutex>, events: seq<Event>)
    requires Allowed(states, events)
    ensures Acquisitions(events) == Releases(events) + if states[|events|].Held? then 1 else 0
    decreases |events|
  {
    if events != [] {
      var last := |events| - 1;
      assert forall k :: 0 <= k < last ==> Step(states[k], events[k], states[k + 1]);
      Alternation(states[..last + 1], events[..last]);
      assert Step(states[last], events[last], states[last + 1]);
    }
  }
}
