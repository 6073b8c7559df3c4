/**
 The retry loop of the Kafka set-up, with its doubling, capped waits in 64-bit arithmetic:
 every operation on int64 below is checked not to overflow.
 */
module Backoff {
  import opened Domain

  newtype int64 = x: int | -0x8000_0000_0000_0000 <= x < 0x8000_0000_0000_0000

  /** nextBackoff */
  function NextBackoff(current: int64, maximum: int64): (next: int64)
    requires 0 < current
    ensures next as int == Min(2 * current as int, maximum as int)
  {
    if current >= maximum || current > maximum - current then maximum else current * 2
  }

  function Min(a: int, b: int): int {
    if a <= b then a else b
  }

  function Power2(k: nat): (p: nat)
    ensures p > k
  {
    if k == 0 then 1 else 2 * Power2(k - 1)
  }

  /** The k-th wait, counted from 0. */
  function Wait(initial: int, maximum: int, k: nat): int {
    Min(initial * Power2(k), maximum)
  }

  lemma Multiple(a: int, b: int)
    requires a > 0 && b > 0
    ensures a * b >= b
  {
    assert (a - 1) * b >= 0;
  }

  lemma WaitNext(initial: int, maximum: int, k: nat)
    requires 0 < initial <= maximum
    ensures Wait(initial, maximum, k + 1) == Min(2 * Wait(initial, maximum, k), maximum)
    ensures 0 < Wait(initial, maximum, k) <= maximum
  {
    assert initial * Power2(k + 1) == 2 * (initial * Power2(k));
    Multiple(initial, Power2(k));
  }

  /** Waits never shrink. */
  lemma {:induction false} WaitsGrow(initial: int, maximum: int, j: nat, k: nat)
    requires 0 < initial <= maximum && j <= k
    ensures Wait(initial, maximum, j) <= Wait(initial, maximum, k)
    decreases k - j
  {
    if j < k {
      WaitsGrow(initial, maximum, j, k - 1);
      WaitNext(initial, maximum, k - 1);
    }
  }

  /** From some attempt on, every wait is the maximum. */
  lemma WaitsReachMaximum(initial: int, maximum: int, k: nat)
    requires 0 < initial <= maximum && k >= maximum
    ensures Wait(initial, maximum, k) == maximum
  {
    Multiple(initial, Power2(k));
  }

  /** validateRetryConfig, with the blank check of the broker list. */
  method ValidateRetryConfig(brokers: seq<string>, dialTimeout: int64, retryInitial: int64, retryMax: int64)
    returns (ok: bool)
    ensures ok <==>
      && brokers != [] && (forall i | 0 <= i < |brokers| :: !Blank(brokers[i]))
      && dialTimeout > 0 && 0 < retryInitial <= retryMax
  {
    if |brokers| == 0 { return false; }
    for i := 0 to |brokers|
      invariant forall k | 0 <= k < i :: !Blank(brokers[k])
    {
      if Blank(brokers[i]) { return false; }
    }
    return dialTimeout > 0 && retryInitial > 0 && retryMax >= retryInitial;
  }

  /** What one turn of the loop meets. */
  datatype Attempt = Attempt(cancelledBefore: bool, outcome: Result, cancelledAfter: bool, waitFails: bool)

  datatype Result = Succeeded | Temporary | Permanent

  datatype Verdict = Success | ContextError | PermanentError | WaitError | StillRetrying

  /** The turn sends the loop into its next one. */
  predicate Continues(a: Attempt) {
    !a.cancelledBefore && a.outcome.Temporary? && !a.cancelledAfter && !a.waitFails
  }

  /** The turns before n all failed for the time being, waited and went on. */
  ghost predicate RetriedUntil(attempts: seq<Attempt>, n: nat)
    requires n <= |attempts|
  {
    forall k | 0 <= k < n ::
      && !attempts[k].cancelledBefore && attempts[k].outcome.Temporary?
      && !attempts[k].cancelledAfter && !attempts[k].waitFails
  }

  /** How the loop ends at a turn that does not continue. */
  function VerdictOf(a: Attempt): Verdict
    requires !Continues(a)
  {
    if a.cancelledBefore then ContextError
    else if a.outcome.Succeeded? then Success
    else if a.cancelledAfter then ContextError
    else if a.outcome.Permanent? then PermanentError
    else WaitError
  }

  /**
   retryWithBackoff over any course of attempts: it stops at the first turn that does not
   continue, and the waits it asked for are exactly min(initial * 2^k, maximum).
   */
  method RetryWithBackoff(retryInitial: int64, retryMax: int64, attempts: seq<Attempt>)
    returns (verdict: Verdict, waits: seq<int64>)
    requires 0 < retryInitial <= retryMax
    ensures forall k | 0 <= k < |waits| :: waits[k] as int == Wait(retryInitial as int, retryMax as int, k)
    ensures |waits| <= |attempts|
    ensures forall k | 0 <= k < |waits| - 1 :: Continues(attempts[k])
    ensures verdict.StillRetrying? ==> |waits| == |attempts| && forall k | 0 <= k < |attempts| :: Continues(attempts[k])
    ensures !verdict.StillRetrying? ==> exists n | 0 <= n < |attempts| ::
      && (forall k | 0 <= k < n :: Continues(attempts[k])) && !Continues(attempts[n])
      && verdict == VerdictOf(attempts[n])
      && |waits| == if verdict == WaitError then n + 1 else n
    ensures verdict == Success <==> exists n | 0 <= n < |attempts| ::
      RetriedUntil(attempts, n) && !attempts[n].cancelledBefore && attempts[n].outcome.Succeeded?
    ensures verdict == ContextError <==> exists n | 0 <= n < |attempts| ::
      RetriedUntil(attempts, n)
      && (attempts[n].cancelledBefore || (!attempts[n].outcome.Succeeded? && attempts[n].cancelledAfter))
    ensures verdict == PermanentError <==> exists n | 0 <= n < |attempts| ::
      RetriedUntil(attempts, n) && !attempts[n].cancelledBefore && !attempts[n].cancelledAfter
      && attempts[n].outcome.Permanent?
    ensures verdict == WaitError <==> exists n | 0 <= n < |attempts| ::
      RetriedUntil(attempts, n) && !attempts[n].cancelledBefore && !attempts[n].cancelledAfter
      && attempts[n].outcome.Temporary? && attempts[n].waitFails
  {
    var backoff := retryInitial;
    waits := [];
    for n := 0 to |attempts|
      invariant |waits| == n && forall k | 0 <= k < n :: Continues(attempts[k])
      invariant forall k | 0 <= k < n :: waits[k] as int == Wait(retryInitial as int, retryMax as int, k)
      invariant 0 < backoff <= retryMax && backoff as int == Wait(retryInitial as int, retryMax as int, n)
    {
      var a := attempts[n];
      if a.cancelledBefore { return ContextError, waits; }
      if a.outcome.Succeeded? { return Success, waits; }
      if a.cancelledAfter { return ContextError, waits; }
      if a.outcome.Permanent? { return PermanentError, waits; }
      waits := waits + [backoff];
      if a.waitFails { return WaitError, waits; }
      WaitNext(retryInitial as int, retryMax as int, n);
      backoff := NextBackoff(backoff, retryMax);
    }
    return StillRetrying, waits;
  }
}
