/** The retry loop and its exponential backoff, without jitter.  Durations are in nanoseconds. */
module Retry {
  import opened Common
  import opened Powers

  datatype Policy = Policy(maxRetries: nat, baseDelay: nat, maxDelay: nat)

  datatype OpError = OpError(retryable: bool, reason: string)

  /** A 32-bit one shifted left; the shift distance is taken modulo 32. */
  function ShiftedOne(attempt: nat): nat {
    Pow2(attempt % 32)
  }

  /** First the saturating multiplication's limit, then the policy's. */
  function Capped(p: Policy, delay: nat): nat {
    Min(Min(delay, MAX_DURATION), p.maxDelay)
  }

  function DelayForAttempt(p: Policy, attempt: nat): nat {
    Capped(p, p.baseDelay * ShiftedOne(attempt))
  }

  // ----- the loop

  predicate GoesOn<T>(r: Result<T, OpError>) {
    r.Err? && r.error.retryable
  }

  /** Attempts 1 to n-1 fail in a retryable way; attempt n does not, or is the last one allowed. */
  ghost predicate StopsAfter<T>(p: Policy, operation: nat -> Result<T, OpError>, n: nat) {
    && 1 <= n <= p.maxRetries + 1
    && (forall a: nat | 1 <= a < n :: GoesOn(operation(a)))
    && (GoesOn(operation(n)) ==> n == p.maxRetries + 1)
  }

  /** What attempt number a yields is operation(a); `slept` are the delays between attempts. */
  method RetryWithOutcome<T>(p: Policy, operation: nat -> Result<T, OpError>)
    returns (result: Result<T, OpError>, attempts: nat, slept: seq<nat>)
    ensures StopsAfter(p, operation, attempts) && result == operation(attempts)
    ensures 1 <= attempts <= p.maxRetries + 1
    ensures forall a: nat | 1 <= a < attempts :: operation(a).Err? && operation(a).error.retryable
    ensures result.Err? && result.error.retryable ==> attempts == p.maxRetries + 1
    ensures |slept| == attempts - 1
    ensures forall k | 0 <= k < |slept| :: slept[k] == DelayForAttempt(p, k)
  {
    attempts, slept := 0, [];
    while true
      invariant attempts <= p.maxRetries && |slept| == attempts
      invariant forall a: nat | 1 <= a <= attempts :: GoesOn(operation(a))
      invariant forall k | 0 <= k < |slept| :: slept[k] == DelayForAttempt(p, k)
      decreases p.maxRetries - attempts
    {
      attempts := attempts + 1;
      result := operation(attempts);
      match result {
        case Ok(_) =>
          return;
        case Err(e) =>
          var retriesLeft := if p.maxRetries >= attempts - 1 then p.maxRetries - (attempts - 1) else 0;
          if !e.retryable || retriesLeft == 0 {
            return;
          }
      }
      slept := slept + [DelayForAttempt(p, attempts - 1)];
    }
  }

  /** The number of attempts is the smaller of the first one that does not go on and the limit. */
  lemma AttemptsAreMinimum<T>(p: Policy, operation: nat -> Result<T, OpError>, n: nat, k: nat)
    requires StopsAfter(p, operation, n)
    requires k >= 1 && !GoesOn(operation(k)) && forall a: nat | 1 <= a < k :: GoesOn(operation(a))
    ensures n == Min(k, p.maxRetries + 1)
  {
    if n < k {
      assert GoesOn(operation(n));
    }
  }

  // ----- the delays

  /** In plain terms: the base times a power of two whose exponent wraps at 32, limited first by the longest
      duration and then by the policy. */
  lemma DelayInPlainTerms(p: Policy, attempt: nat)
    ensures var delay := p.baseDelay * Pow2(attempt % 32);
      DelayForAttempt(p, attempt) ==
        if delay <= p.maxDelay && delay <= MAX_DURATION then delay
        else if p.maxDelay <= MAX_DURATION then p.maxDelay else MAX_DURATION
  {
    hide Pow2;
  }

  lemma DelayNeverExceedsCap(p: Policy, attempt: nat)
    ensures DelayForAttempt(p, attempt) <= p.maxDelay
  {
  }

  function Cap(p: Policy): nat {
    Min(p.maxDelay, MAX_DURATION)
  }

  lemma CappedIsMin(p: Policy, delay: nat)
    ensures Capped(p, delay) == Min(delay, Cap(p))
  {
  }

  /** Delays do not decrease until the shift distance wraps around. */
  lemma DelaysGrowUntilWrap(p: Policy, a: nat, b: nat)
    requires a <= b && a / 32 == b / 32
    ensures DelayForAttempt(p, a) <= DelayForAttempt(p, b)
  {
    Pow2Monotone(a % 32, b % 32);
    assert ShiftedOne(a) <= ShiftedOne(b);
    hide ShiftedOne, Capped;
    MulAtMost(ShiftedOne(a), ShiftedOne(b), p.baseDelay);
    CappedIsMin(p, p.baseDelay * ShiftedOne(a));
    CappedIsMin(p, p.baseDelay * ShiftedOne(b));
  }

  /** At every multiple of 32 the sequence starts over. */
  lemma DelaysRepeat(p: Policy, attempt: nat)
    ensures DelayForAttempt(p, attempt + 32) == DelayForAttempt(p, attempt)
  {
    assert (attempt + 32) % 32 == attempt % 32;
  }

  lemma CappedGrowth(base: nat, factor: nat, cap: nat)
    requires factor >= 2
    ensures Min(base, cap) < Min(base * factor, cap) <==> base > 0 && cap > base
  {
    MulAtMost(2, factor, base);
  }

  lemma WrapFactors()
    ensures ShiftedOne(32) == 1 && ShiftedOne(31) >= 2
  {
    Pow2Monotone(1, 31);
    assert Pow2(1) == 2;
  }

  /** So the 33rd delay is shorter than the 32nd, exactly if delays grow at all under the caps. */
  lemma DelayFallsAtWrap(p: Policy)
    ensures DelayForAttempt(p, 32) < DelayForAttempt(p, 31)
       <==> p.baseDelay > 0 && Min(p.maxDelay, MAX_DURATION) > p.baseDelay
  {
    WrapFactors();
    hide ShiftedOne, Capped;
    var top := ShiftedOne(31);
    CappedIsMin(p, p.baseDelay);
    CappedIsMin(p, p.baseDelay * top);
    hide Min;
    CappedGrowth(p.baseDelay, top, Cap(p));
  }

  ghost function TotalDelay(p: Policy, r: nat): nat {
    if r == 0 then 0 else TotalDelay(p, r - 1) + DelayForAttempt(p, r - 1)
  }

  lemma DelayBeforeWrap(p: Policy, attempt: nat)
    requires attempt < 32
    ensures DelayForAttempt(p, attempt) == Capped(p, p.baseDelay * Pow2(attempt))
  {
    hide Pow2, Capped;
    assert attempt % 32 == attempt;
  }

  lemma UncappedIsItself(p: Policy, delay: nat)
    requires delay <= Cap(p)
    ensures Capped(p, delay) == delay
  {
  }

  /** An uncapped delay is a power of two times the base. */
  lemma UncappedDelay(p: Policy, attempt: nat)
    requires attempt < 32 && p.baseDelay * Pow2(attempt) <= Cap(p)
    ensures DelayForAttempt(p, attempt) == p.baseDelay * Pow2(attempt)
  {
    hide Pow2, ShiftedOne, Capped, Cap, DelayForAttempt, Min;
    DelayBeforeWrap(p, attempt);
    UncappedIsItself(p, p.baseDelay * Pow2(attempt));
  }

  /** If a delay is not capped, neither is the one before. */
  lemma UncappedBefore(p: Policy, attempt: nat)
    requires attempt > 0 && p.baseDelay * Pow2(attempt) <= Cap(p)
    ensures p.baseDelay * Pow2(attempt - 1) <= Cap(p)
  {
    Pow2Monotone(attempt - 1, attempt);
    hide Pow2, Cap;
    MulAtMost(Pow2(attempt - 1), Pow2(attempt), p.baseDelay);
  }

  /** While no delay is capped, r retries wait 2^r - 1 times the base delay in all. */
  lemma {:induction false} UncappedDelaysAddUp(p: Policy, r: nat)
    requires r <= 32
    requires r > 0 ==> p.baseDelay * Pow2(r - 1) <= Min(p.maxDelay, MAX_DURATION)
    ensures TotalDelay(p, r) == p.baseDelay * (Pow2(r) - 1)
  {
    if r == 0 {
      assert Pow2(0) == 1;
    } else {
      assert Pow2(r) == 2 * Pow2(r - 1);
      hide Pow2, DelayForAttempt, Min;
      UncappedDelay(p, r - 1);
      if r > 1 {
        UncappedBefore(p, r - 1);
      }
      UncappedDelaysAddUp(p, r - 1);
      Doubling(p.baseDelay, Pow2(r - 1), TotalDelay(p, r - 1));
    }
  }

  lemma Doubling(base: nat, q: nat, total: nat)
    requires q > 0 && total == base * (q - 1)
    ensures total + base * q == base * (2 * q - 1)
  {
  }
}
