/** retryWithBackoff of pkg/client/client.go. */
module Retry {
  import opened Clock

  datatype Outcome = Success | Collision | Failure

  datatype Verdict = Done | GaveCollision | Cancelled | Exhausted

  function Pow2(i: nat): nat {
    if i == 0 then 1 else 2 * Pow2(i - 1)
  }

  function Min(a: int, b: int): int {
    if a <= b then a else b
  }

  /** The wait before retry i + 1: the doubled second, cut at thirty. */
  function Wait(i: nat): int {
    Min(30 * SECOND, Pow2(i) * SECOND)
  }

  function Sum(waits: seq<int>): int {
    if waits == [] then 0 else Sum(waits[..|waits| - 1]) + waits[|waits| - 1]
  }

  lemma {:induction false} Pow2Large(i: nat)
    requires i >= 5
    ensures Pow2(i) >= 32
  {
    if i == 5 {
      assert Pow2(1) == 2 && Pow2(2) == 4 && Pow2(3) == 8 && Pow2(4) == 16;
    } else {
      Pow2Large(i - 1);
    }
  }

  lemma WaitDoubles(i: nat)
    ensures Wait(i + 1) == Min(30 * SECOND, Wait(i) * 2)
  {
    if i >= 5 {
      Pow2Large(i);
    }
  }

  /** outcome(i) is what the i-th call returns; cancelled(i) is whether the context ends during
      the wait after it. */
  method RetryWithBackoff(maxRetries: int, outcome: nat -> Outcome, cancelled: nat -> bool)
    returns (verdict: Verdict, calls: nat, waits: seq<int>)
    ensures calls <= if maxRetries >= 0 then maxRetries + 1 else 0
    ensures forall i :: 0 <= i < calls - 1 ==> outcome(i) == Failure && !cancelled(i)
    ensures verdict == Done <==> calls > 0 && outcome(calls - 1) == Success
    ensures verdict == GaveCollision <==> calls > 0 && outcome(calls - 1) == Collision
    ensures verdict == Cancelled <==> 0 < calls <= maxRetries && outcome(calls - 1) == Failure
    ensures verdict == Cancelled ==> cancelled(calls - 1)
    ensures verdict == Exhausted ==> calls == if maxRetries >= 0 then maxRetries + 1 else 0
    ensures |waits| == if calls > 0 then calls - 1 else 0
    ensures forall i :: 0 <= i < |waits| ==> waits[i] == Wait(i)
  {
    calls, waits := 0, [];
    var backoff := SECOND;
    var attempt := 0;
    while attempt <= maxRetries
      invariant 0 <= attempt == calls && (maxRetries >= 0 ==> attempt <= maxRetries + 1)
      invariant maxRetries < 0 ==> attempt == 0
      invariant forall i :: 0 <= i < calls ==> outcome(i) == Failure
      invariant forall i :: 0 <= i < calls && i < maxRetries ==> !cancelled(i)
      invariant attempt <= maxRetries ==> |waits| == calls && backoff == Wait(attempt)
      invariant attempt > maxRetries ==> |waits| == if calls > 0 then calls - 1 else 0
      invariant forall i :: 0 <= i < |waits| ==> waits[i] == Wait(i)
      decreases maxRetries + 1 - attempt
    {
      calls := calls + 1;
      match outcome(attempt) {
        case Success =>
          return Done, calls, waits;
        case Collision =>
          return GaveCollision, calls, waits;
        case Failure =>
          if attempt < maxRetries {
            if cancelled(attempt) {
              return Cancelled, calls, waits;
            }
            waits := waits + [backoff];
            WaitDoubles(attempt);
            backoff := backoff * 2;
            if backoff > 30 * SECOND {
              backoff := 30 * SECOND;
            }
          }
      }
      attempt := attempt + 1;
    }
    return Exhausted, calls, waits;
  }

  /** The total of n waits: 2^n - 1 seconds for up to five, then thirty more for each. */
  lemma {:induction false} TotalWait(waits: seq<int>)
    requires forall i :: 0 <= i < |waits| ==> waits[i] == Wait(i)
    ensures |waits| <= 5 ==> Sum(waits) == (Pow2(|waits|) - 1) * SECOND
    ensures |waits| > 5 ==> Sum(waits) == (31 + 30 * (|waits| - 5)) * SECOND
  {
    if waits != [] {
      var n := |waits| - 1;
      TotalWait(waits[..n]);
      assert Pow2(0) == 1 && Pow2(1) == 2 && Pow2(2) == 4 && Pow2(3) == 8 && Pow2(4) == 16 && Pow2(5) == 32;
      if n >= 5 {
        Pow2Large(n);
      }
    }
  }
}
