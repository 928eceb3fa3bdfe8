/**
 Weighted sums over a sequence of threads: the accounting device shared by the
 lock and reference-count protocols.  A protocol gives each thread phase a weight
 and ties a shared counter to the sum of the weights.
 */
module Threads {

  function Sum<T>(s: seq<T>, w: T -> int): int {
    if s == [] then 0 else w(s[0]) + Sum(s[1..], w)
  }

  /** One thread moving from one phase to another changes the sum by the difference of the two weights. */
  lemma {:induction false} SumUpdate<T>(s: seq<T>, i: nat, v: T, w: T -> int)
    requires i < |s|
    ensures Sum(s[i := v], w) == Sum(s, w) - w(s[i]) + w(v)
  {
    if i == 0 {
      assert s[i := v][1..] == s[1..];
    } else {
      assert s[i := v][1..] == s[1..][i - 1 := v];
      SumUpdate(s[1..], i - 1, v, w);
    }
  }

  /** A sum of weights between 0 and 1 lies between 0 and the number of threads. */
  lemma {:induction false} SumRange<T>(s: seq<T>, w: T -> int)
    requires forall i :: 0 <= i < |s| ==> 0 <= w(s[i]) <= 1
    ensures 0 <= Sum(s, w) <= |s|
  {
    if s != [] {
      assert forall i :: 0 <= i < |s[1..]| ==> s[1..][i] == s[i + 1];
      SumRange(s[1..], w);
    }
  }

  lemma {:induction false} SumNonNegative<T>(s: seq<T>, w: T -> int)
    requires forall i :: 0 <= i < |s| ==> 0 <= w(s[i])
    ensures 0 <= Sum(s, w)
  {
    if s != [] {
      assert forall i :: 0 <= i < |s[1..]| ==> s[1..][i] == s[i + 1];
      SumNonNegative(s[1..], w);
    }
  }

  /** No single weight exceeds a sum of non-negative weights. */
  lemma {:induction false} SumAtLeastOne<T>(s: seq<T>, i: nat, w: T -> int)
    requires i < |s|
    requires forall k :: 0 <= k < |s| ==> 0 <= w(s[k])
    ensures w(s[i]) <= Sum(s, w)
  {
    assert forall k :: 0 <= k < |s[1..]| ==> s[1..][k] == s[k + 1];
    if i == 0 {
      SumNonNegative(s[1..], w);
    } else {
      SumAtLeastOne(s[1..], i - 1, w);
    }
  }

  lemma {:induction false} SumZero<T>(s: seq<T>, w: T -> int)
    requires forall i :: 0 <= i < |s| ==> w(s[i]) == 0
    ensures Sum(s, w) == 0
  {
    if s != [] {
      assert forall i :: 0 <= i < |s[1..]| ==> s[1..][i] == s[i + 1];
      SumZero(s[1..], w);
    }
  }

  lemma {:induction false} SumOfSums<T>(s: seq<T>, u: T -> int, v: T -> int, w: T -> int)
    requires forall i :: 0 <= i < |s| ==> w(s[i]) == u(s[i]) + v(s[i])
    ensures Sum(s, w) == Sum(s, u) + Sum(s, v)
  {
    if s != [] {
      assert forall i :: 0 <= i < |s[1..]| ==> s[1..][i] == s[i + 1];
      SumOfSums(s[1..], u, v, w);
    }
  }
}
