/** Bounded retries (internal/report/dispatcher.go, internal/reader/config.go). */
module Delivery {
  import opened Wrappers
  import opened Bits

  const MAX_INT64 := 0x7fff_ffff_ffff_ffff

  // ---------------------------------------------------------------- backoff

  function Min(a: int, b: int): int {
    if a < b then a else b
  }

  function Max(a: int, b: int): int {
    if a < b then b else a
  }

  /** The intended delay after a failed attempt: the base doubled per attempt, capped. */
  function Backoff(base: int, max: int, attempt: nat): int
    requires attempt >= 1
  {
    Min(base * Pow2(attempt - 1), max)
  }

  /** The sum of two signed 64-bit durations, as the machine adds them. */
  function Wrapped(sum: int): int {
    if sum > MAX_INT64 then sum - 2 * (MAX_INT64 + 1)
    else if sum < -MAX_INT64 - 1 then sum + 2 * (MAX_INT64 + 1)
    else sum
  }

  function Double(wait: int): int {
    Wrapped(2 * wait)
  }

  /** The dispatcher's loop on machine integers. */
  function MachineBackoff(wait: int, max: int, steps: nat): (r: int)
    ensures r <= max
    decreases steps
  {
    if steps == 0 || wait >= max then Min(wait, max) else MachineBackoff(Double(wait), max, steps - 1)
  }

  method DispatcherBackoff(base: int, max: int, attempt: nat) returns (wait: int)
    requires attempt >= 1
    ensures wait == MachineBackoff(base, max, attempt - 1)
    ensures 0 < base <= max <= (MAX_INT64 + 1) / 2 ==> wait == Backoff(base, max, attempt)
  {
    if 0 < base <= max <= (MAX_INT64 + 1) / 2 {
      MachineIsIntended(base, max, attempt - 1);
      assert Backoff(base, max, attempt) == Min(base * Pow2(attempt - 1), max);
    }
    wait := base;
    var i := 1;
    while i < attempt && wait < max
      invariant 1 <= i <= attempt
      invariant MachineBackoff(base, max, attempt - 1) == MachineBackoff(wait, max, attempt - i)
    {
      wait := Double(wait);
      i := i + 1;
    }
    wait := Min(wait, max);
  }

  /** A value from here on is too large to double. */
  const HALF_RANGE := (MAX_INT64 + 1) / 2

  /** After j doublings the loop holds a value below the cap that is too large to double. */
  predicate OverflowsAt(base: int, max: int, j: nat) {
    HALF_RANGE <= base * Pow2(j) < max
  }

  /** Some doubling on the way to attempt n overflows. */
  predicate Overflows(base: int, max: int, n: nat) {
    exists j: nat | j + 2 <= n :: OverflowsAt(base, max, j)
  }

  lemma DoubledFirst(wait: int, j: nat)
    ensures wait * Pow2(j + 1) == (2 * wait) * Pow2(j) == 2 * (wait * Pow2(j))
    ensures wait * Pow2(0) == wait
  {
    assert Pow2(j + 1) == 2 * Pow2(j);
  }

  /** As long as no doubling overflows the loop computes the capped power. */
  lemma {:induction false} MachineIsExact(wait: int, max: int, steps: nat)
    requires 0 < wait && forall j: nat | j < steps :: !OverflowsAt(wait, max, j)
    ensures MachineBackoff(wait, max, steps) == Min(wait * Pow2(steps), max)
    decreases steps
  {
    Doublings(wait, 0, steps);
    DoubledFirst(wait, 0);
    if 0 < steps && wait < max {
      assert !OverflowsAt(wait, max, 0);
      forall j: nat | j < steps - 1
        ensures !OverflowsAt(2 * wait, max, j)
      {
        DoubledFirst(wait, j);
        assert !OverflowsAt(wait, max, j + 1);
      }
      DoubledFirst(wait, steps - 1);
      MachineIsExact(2 * wait, max, steps - 1);
    }
  }

  /** The doubling that overflows makes the loop's value negative. */
  lemma {:induction false} MachineOverflows(wait: int, max: int, j: nat)
    requires 0 < wait && max <= MAX_INT64 && OverflowsAt(wait, max, j)
    ensures MachineBackoff(wait, max, j + 1) < 0
    decreases j
  {
    DoubledFirst(wait, 0);
    if j == 0 {
      assert MachineBackoff(Double(wait), max, 0) == Double(wait) < 0;
    } else {
      Doublings(wait, 1, j);
      DoubledFirst(wait, j - 1);
      MachineOverflows(2 * wait, max, j - 1);
    }
  }

  /** The loop computes the intended delay at every attempt up to n if and only if no doubling until there overflows. */
  lemma BackoffExact(base: int, max: int, n: nat)
    requires 0 < base <= max <= MAX_INT64
    ensures (forall m: nat | 1 <= m <= n :: MachineBackoff(base, max, m - 1) == Backoff(base, max, m)) <==>
            !Overflows(base, max, n)
  {
    hide MachineBackoff;
    if !Overflows(base, max, n) {
      hide OverflowsAt;
      forall m: nat | 1 <= m <= n
        ensures MachineBackoff(base, max, m - 1) == Backoff(base, max, m)
      {
        MachineIsExact(base, max, m - 1);
      }
    } else {
      var j: nat :| j + 2 <= n && OverflowsAt(base, max, j);
      MachineOverflows(base, max, j);
      Doublings(base, 0, j + 1);
      DoubledFirst(base, 0);
      assert MachineBackoff(base, max, j + 2 - 1) != Backoff(base, max, j + 2);
    }
  }

  /** While the cap is at most 2^62 it stops the doubling before that can overflow. */
  lemma MachineIsIntended(wait: int, max: int, steps: nat)
    requires 0 < wait && max <= HALF_RANGE
    ensures MachineBackoff(wait, max, steps) == Min(wait * Pow2(steps), max)
  {
    MachineIsExact(wait, max, steps);
  }

  /** The dispatcher's delay is right for every base and attempt. */
  ghost predicate NeverOverflows(max: int) {
    forall base, attempt: nat | 0 < base <= max && attempt >= 1 ::
      MachineBackoff(base, max, attempt - 1) == Backoff(base, max, attempt)
  }

  /** On its own, for any base and attempt, the loop is right exactly for caps of at most 2^62. */
  lemma OverflowBound(max: int)
    requires 0 < max <= MAX_INT64
    ensures NeverOverflows(max) <==> max <= (MAX_INT64 + 1) / 2
  {
    if max <= (MAX_INT64 + 1) / 2 {
      forall base, attempt: nat | 0 < base <= max && attempt >= 1
        ensures MachineBackoff(base, max, attempt - 1) == Backoff(base, max, attempt)
      {
        MachineIsIntended(base, max, attempt - 1);
      }
    } else {
      var base := max - 1;
      assert Pow2(1) == 2;
      assert MachineBackoff(base, max, 1) == MachineBackoff(Double(base), max, 0) == Double(base) < 0;
      assert Backoff(base, max, 2) == max;
    }
  }

  /** The reader's loop guards the doubling instead of capping afterwards. */
  method ReaderBackoff(base: int, max: int, retry: nat) returns (delay: int)
    requires retry >= 1 && 0 < base <= max <= MAX_INT64
    ensures delay == Backoff(base, max, retry)
  {
    delay := base;
    var i := 1;
    assert base * Pow2(0) == base;
    while i < retry && delay < max
      invariant 1 <= i <= retry && 0 < delay <= max
      invariant delay == base * Pow2(i - 1) || (delay == max && base * Pow2(i - 1) >= max)
    {
      assert base * Pow2(i) == base * (2 * Pow2(i - 1)) == 2 * (base * Pow2(i - 1));
      if delay > max / 2 {
        Doublings(base, i, retry - 1);
        return max;
      }
      delay := 2 * delay;
      i := i + 1;
    }
    Doublings(base, i - 1, retry - 1);
  }

  lemma {:induction false} Doublings(base: int, i: nat, j: nat)
    requires 0 < base && i <= j
    ensures base * Pow2(i) <= base * Pow2(j)
    decreases j - i
  {
    if i < j {
      Doublings(base, i, j - 1);
      DoubledFirst(base, j - 1);
      assert base * Pow2(j - 1) >= 0;
    }
  }

  // ---------------------------------------------------------------- deliver

  /** What one delivery attempt answers: nil, a permanent error, or one worth retrying, perhaps with a hint. */
  datatype Answer = Delivered | Permanent(hint: Option<int>) | Temporary(hint: Option<int>)

  /** One attempt as the environment plays it; a sleep is exact unless the shutdown deadline cuts it. */
  datatype Attempt = Attempt(answer: Answer, duration: nat, aborted: bool, sleepAborted: bool)

  datatype Limits = Limits(maxAttempts: nat, base: int, max: int, budget: int)

  const HOUR := 3_600_000_000_000

  /** What the configuration check demands, in nanoseconds; it leaves the backoff cap unbounded. */
  predicate ValidLimits(c: Limits) {
    1 <= c.maxAttempts <= 100 && 0 < c.base <= c.max <= MAX_INT64 && 0 < c.budget <= HOUR
  }

  datatype Fate = FateDelivered | FateFailed | FateUndelivered

  function HintOf(a: Answer): Option<int> {
    match a
    case Delivered => None
    case Permanent(hint) => hint
    case Temporary(hint) => hint
  }

  /** The wait before the next attempt: backoff, or a longer hint, capped. */
  function Wait(c: Limits, attempt: nat, hint: Option<int>): int
    requires attempt >= 1
  {
    var own := MachineBackoff(c.base, c.max, attempt - 1);
    if hint.Some? && hint.value > own then Min(hint.value, c.max) else own
  }

  /** The wait that is meant: the larger of the capped doubling and the capped hint. */
  function IntendedWait(c: Limits, attempt: nat, hint: Option<int>): int
    requires attempt >= 1
  {
    var own := Min(c.base * Pow2(attempt - 1), c.max);
    if hint.Some? then Max(own, Min(hint.value, c.max)) else own
  }

  /** When attempt k starts, counted from the start of the first; a negative wait is none. */
  function StartOf(c: Limits, env: nat -> Attempt, k: nat): nat
    requires k >= 1
    decreases k, 0
  {
    if k == 1 then 0 else ElapsedAt(c, env, k - 1) + Max(Wait(c, k - 1, HintOf(env(k - 1).answer)), 0)
  }

  /** When attempt k has failed. */
  function ElapsedAt(c: Limits, env: nat -> Attempt, k: nat): nat
    requires k >= 1
    decreases k, 1
  {
    StartOf(c, env, k) + env(k).duration
  }

  /** The budget test adds machine integers: the elapsed time, which saturates, and the wait. */
  predicate BudgetSpent(c: Limits, elapsed: nat, wait: int) {
    Wrapped(Min(elapsed, MAX_INT64) + wait) > c.budget
  }

  /** Attempt k ends the retrying: attempts or budget are spent, or the error is permanent. */
  predicate Final(c: Limits, env: nat -> Attempt, k: nat)
    requires k >= 1
  {
    || env(k).answer.Permanent?
    || k >= c.maxAttempts
    || BudgetSpent(c, ElapsedAt(c, env, k), Wait(c, k, HintOf(env(k).answer)))
  }

  /** Attempt k fails and leads to another one. */
  predicate Retried(c: Limits, env: nat -> Attempt, k: nat)
    requires k >= 1
  {
    !env(k).answer.Delivered? && !env(k).aborted && !Final(c, env, k) && !env(k).sleepAborted
  }

  /** Delivering gets as far as attempt n: every attempt before it is retried. */
  ghost predicate Attempted(c: Limits, env: nat -> Attempt, n: nat) {
    n >= 1 && forall k: nat | 1 <= k < n :: Retried(c, env, k)
  }

  /** The sum in attempt k's budget test stays within the machine's range. */
  predicate SumFits(c: Limits, env: nat -> Attempt, k: nat)
    requires k >= 1
  {
    ElapsedAt(c, env, k) + Wait(c, k, HintOf(env(k).answer)) <= MAX_INT64
  }

  /** All the budget tests on the way to attempt n stay within range. */
  ghost predicate SumsFit(c: Limits, env: nat -> Attempt, n: nat) {
    forall k: nat | 1 <= k < n :: SumFits(c, env, k)
  }

  /** A retried attempt whose sum fits waited no longer than the budget, and the next one starts within it. */
  lemma RetriedWaits(c: Limits, env: nat -> Attempt, k: nat)
    requires ValidLimits(c) && k >= 1 && Retried(c, env, k) && SumFits(c, env, k)
    requires 0 < MachineBackoff(c.base, c.max, k - 1)
    ensures MachineBackoff(c.base, c.max, k - 1) <= c.budget && StartOf(c, env, k + 1) <= c.budget
  {
    var wait := Wait(c, k, HintOf(env(k).answer));
    assert MachineBackoff(c.base, c.max, k - 1) <= wait;
    hide Wait, MachineBackoff;
    assert !BudgetSpent(c, ElapsedAt(c, env, k), wait);
    assert StartOf(c, env, k + 1) == ElapsedAt(c, env, k) + wait;
    hide StartOf;
  }

  /** A delay of at most an hour is none that the next doubling overflows from. */
  lemma NextFits(base: int, max: int, n: nat)
    requires n >= 2 && Backoff(base, max, n - 1) <= HOUR && !Overflows(base, max, n - 1)
    ensures !Overflows(base, max, n)
  {
    assert !OverflowsAt(base, max, n - 2);
  }

  /** The delay of an attempt before which no doubling overflows. */
  lemma DelayIsIntended(c: Limits, n: nat)
    requires ValidLimits(c) && n >= 1 && !Overflows(c.base, c.max, n)
    ensures MachineBackoff(c.base, c.max, n - 1) == Backoff(c.base, c.max, n) > 0
  {
    hide MachineBackoff, Overflows;
    BackoffExact(c.base, c.max, n);
    Doublings(c.base, 0, n - 1);
    DoubledFirst(c.base, 0);
  }

  /**
   * Whatever the cap, no doubling in a delivery overflows while its budget tests stay within range: a retried attempt
   * then waited at most the budget, of at most an hour, and the doubling after it is far within the machine's range.
   */
  lemma {:induction false} BackoffIsIntended(c: Limits, env: nat -> Attempt, n: nat)
    requires ValidLimits(c) && Attempted(c, env, n) && SumsFit(c, env, n)
    ensures !Overflows(c.base, c.max, n)
    ensures MachineBackoff(c.base, c.max, n - 1) == Backoff(c.base, c.max, n) > 0
    ensures StartOf(c, env, n) <= c.budget
    decreases n
  {
    if n > 1 {
      hide MachineBackoff, Retried, StartOf, SumFits, Overflows, Backoff;
      assert Retried(c, env, n - 1) && SumFits(c, env, n - 1);
      BackoffIsIntended(c, env, n - 1);
      RetriedWaits(c, env, n - 1);
      NextFits(c.base, c.max, n);
    }
    DelayIsIntended(c, n);
  }

  /** Every wait before which no doubling overflows is the larger of the capped doubling and the capped hint. */
  lemma WaitIsIntended(c: Limits, n: nat, hint: Option<int>)
    requires ValidLimits(c) && n >= 1 && !Overflows(c.base, c.max, n)
    ensures 0 < Wait(c, n, hint) == IntendedWait(c, n, hint) <= c.max
  {
    hide MachineBackoff, Overflows;
    DelayIsIntended(c, n);
  }

  lemma {:induction false} StartsInOrder(c: Limits, env: nat -> Attempt, j: nat, k: nat)
    requires 1 <= j <= k
    ensures StartOf(c, env, j) <= StartOf(c, env, k)
    decreases k - j
  {
    hide Wait;
    if j < k {
      StartsInOrder(c, env, j, k - 1);
    }
  }

  /** Attempt n starts within the budget if and only if every budget test before it stayed within range. */
  lemma {:induction false} BudgetKept(c: Limits, env: nat -> Attempt, n: nat)
    requires ValidLimits(c) && Attempted(c, env, n)
    ensures StartOf(c, env, n) <= c.budget <==> SumsFit(c, env, n)
    decreases n
  {
    if SumsFit(c, env, n) {
      BackoffIsIntended(c, env, n);
    } else {
      hide Retried, Wait;
      var k: nat :| 1 <= k < n && !SumFits(c, env, k);
      StartsInOrder(c, env, k + 1, n);
    }
  }

  /** No attempt lasts longer than this. */
  ghost predicate NoneLonger(env: nat -> Attempt, longest: nat) {
    forall k: nat :: env(k).duration <= longest
  }

  /** The cap leaves the budget test room for the longest attempt, and for the budget when a second retry can come. */
  predicate HasRoom(c: Limits, longest: nat) {
    c.maxAttempts == 1 ||
    c.max + longest + (if c.maxAttempts >= 3 && c.base <= c.budget then c.budget else 0) <= MAX_INT64
  }

  /** Whatever the environment does, no attempt starts after the budget. */
  ghost predicate AlwaysKept(c: Limits, longest: nat) {
    forall env: nat -> Attempt, n: nat | NoneLonger(env, longest) && Attempted(c, env, n) ::
      StartOf(c, env, n) <= c.budget
  }

  lemma {:induction false} RoomSuffices(c: Limits, env: nat -> Attempt, n: nat, longest: nat)
    requires ValidLimits(c) && Attempted(c, env, n) && HasRoom(c, longest) && NoneLonger(env, longest)
    ensures SumsFit(c, env, n) && (n >= 2 ==> c.base <= c.budget)
    decreases n
  {
    if n > 1 {
      hide Retried, MachineBackoff, StartOf, BudgetSpent, Backoff, Overflows;
      RoomSuffices(c, env, n - 1, longest);
      BackoffIsIntended(c, env, n - 1);
      WaitIsIntended(c, n - 1, HintOf(env(n - 1).answer));
      assert Retried(c, env, n - 1);
      FirstStart(c, env);
      RetriedWithin(c, env, n - 1);
      if n == 2 {
        RetriedWaits(c, env, 1);
        FirstBackoff(c);
      }
    }
  }

  lemma RetriedWithin(c: Limits, env: nat -> Attempt, k: nat)
    requires k >= 1 && Retried(c, env, k)
    ensures k < c.maxAttempts
  {
  }

  lemma FirstStart(c: Limits, env: nat -> Attempt)
    ensures StartOf(c, env, 1) == 0
  {
  }

  lemma FirstBackoff(c: Limits)
    requires ValidLimits(c)
    ensures MachineBackoff(c.base, c.max, 0) == c.base
  {
  }

  /** An attempt that lasts as long as it may and asks for the longest wait. */
  function Late(c: Limits, longest: nat): Attempt {
    Attempt(Temporary(Some(c.max)), longest, false, false)
  }

  /** Without that room a late attempt is retried although the budget is spent: its sum wraps around. */
  lemma LateRetried(c: Limits, env: nat -> Attempt, k: nat, longest: nat)
    requires ValidLimits(c) && 1 <= k < c.maxAttempts && env(k) == Late(c, longest)
    requires StartOf(c, env, k) + longest + c.max > MAX_INT64
    ensures Retried(c, env, k) && Wait(c, k, Some(c.max)) == c.max && StartOf(c, env, k + 1) > c.budget
  {
    assert MachineBackoff(c.base, c.max, k - 1) <= c.max;
    hide MachineBackoff;
    assert Wait(c, k, Some(c.max)) == c.max;
    assert ElapsedAt(c, env, k) == StartOf(c, env, k) + longest;
    assert StartOf(c, env, k + 1) == ElapsedAt(c, env, k) + c.max;
  }

  /** Without that room some environment has every attempt up to the limit, the second or third after the budget. */
  lemma RoomNeeded(c: Limits, longest: nat) returns (env: nat -> Attempt, n: nat)
    requires ValidLimits(c) && !HasRoom(c, longest)
    ensures NoneLonger(env, longest) && Attempted(c, env, n) && StartOf(c, env, n) > c.budget
    ensures Attempted(c, env, c.maxAttempts)
  {
    hide StartOf, Retried, Wait, MachineBackoff;
    FirstBackoff(c);
    if c.max + longest > MAX_INT64 {
      env, n := _ => Late(c, longest), 2;
      assert NoneLonger(env, longest);
      forall k: nat | 1 <= k < c.maxAttempts
        ensures Retried(c, env, k) && (k == 1 ==> StartOf(c, env, 2) > c.budget)
      {
        LateRetried(c, env, k, longest);
      }
    } else {
      var first := if longest >= c.budget then Attempt(Temporary(None), c.budget - c.base, false, false)
                   else Attempt(Temporary(Some(c.budget)), 0, false, false);
      assert first.duration <= longest;
      var late := Late(c, longest);
      assert late.duration <= longest;
      env, n := (k: nat) => if k == 1 then first else late, 3;
      assert NoneLonger(env, longest);
      SecondStart(c, env, longest);
      forall k: nat | 1 <= k < c.maxAttempts
        ensures Retried(c, env, k) && (k == 2 ==> StartOf(c, env, 3) > c.budget)
      {
        if k > 1 {
          StartsInOrder(c, env, 2, k);
          LateRetried(c, env, k, longest);
        }
      }
    }
    assert Retried(c, env, n - 1);
  }

  /** A first attempt that uses up the whole budget is retried. */
  lemma SecondStart(c: Limits, env: nat -> Attempt, longest: nat)
    requires ValidLimits(c) && c.maxAttempts >= 2 && c.base <= c.budget <= Max(longest, c.max)
    requires env(1) == if longest >= c.budget then Attempt(Temporary(None), c.budget - c.base, false, false)
                       else Attempt(Temporary(Some(c.budget)), 0, false, false)
    ensures Retried(c, env, 1) && StartOf(c, env, 2) == c.budget
  {
    FirstBackoff(c);
    assert StartOf(c, env, 1) == 0;
    hide MachineBackoff;
    assert ElapsedAt(c, env, 1) + Wait(c, 1, HintOf(env(1).answer)) == c.budget;
  }

  /** The exact condition under which no environment makes an attempt start after the budget. */
  lemma RoomDecides(c: Limits, longest: nat)
    requires ValidLimits(c)
    ensures AlwaysKept(c, longest) <==> HasRoom(c, longest)
  {
    if HasRoom(c, longest) {
      forall env: nat -> Attempt, n: nat | NoneLonger(env, longest) && Attempted(c, env, n)
        ensures StartOf(c, env, n) <= c.budget
      {
        RoomSuffices(c, env, n, longest);
        BackoffIsIntended(c, env, n);
      }
    } else {
      hide HasRoom, ValidLimits, StartOf;
      var env, n := RoomNeeded(c, longest);
    }
  }

  /** Whatever the environment does, every wait a delivery comes to is the intended one. */
  ghost predicate AlwaysIntended(c: Limits, longest: nat) {
    forall env: nat -> Attempt, n: nat, hint: Option<int> | NoneLonger(env, longest) && Attempted(c, env, n) ::
      Wait(c, n, hint) == IntendedWait(c, n, hint)
  }

  /** An attempt that is made is one of the allowed ones. */
  lemma AttemptedWithin(c: Limits, env: nat -> Attempt, n: nat)
    requires ValidLimits(c) && Attempted(c, env, n)
    ensures n <= c.maxAttempts
  {
    if n > 1 {
      RetriedWithin(c, env, n - 1);
    }
  }

  /**
   * The exact configurations under which every wait of every delivery is the intended one: those with room for the
   * budget test, and those whose base never doubles to between 2^62 and the cap within the allowed attempts.
   */
  lemma WaitsDecide(c: Limits, longest: nat)
    requires ValidLimits(c)
    ensures AlwaysIntended(c, longest) <==> HasRoom(c, longest) || !Overflows(c.base, c.max, c.maxAttempts)
    ensures c.max <= HALF_RANGE ==> AlwaysIntended(c, longest)
  {
    hide HasRoom, StartOf, Retried, Wait, IntendedWait, MachineBackoff;
    assert c.max <= HALF_RANGE ==> !Overflows(c.base, c.max, c.maxAttempts);
    hide OverflowsAt;
    if HasRoom(c, longest) || !Overflows(c.base, c.max, c.maxAttempts) {
      forall env: nat -> Attempt, n: nat, hint: Option<int> | NoneLonger(env, longest) && Attempted(c, env, n)
        ensures Wait(c, n, hint) == IntendedWait(c, n, hint)
      {
        AttemptedWithin(c, env, n);
        if HasRoom(c, longest) {
          RoomSuffices(c, env, n, longest);
          BackoffIsIntended(c, env, n);
        }
        WaitIsIntended(c, n, hint);
      }
    } else {
      var env, n := RoomNeeded(c, longest);
      var j: nat :| j + 2 <= c.maxAttempts && OverflowsAt(c.base, c.max, j);
      assert Attempted(c, env, j + 2);
      WaitOverflows(c, j);
    }
  }

  /** The wait after the doubling that overflows is negative, and not the intended one. */
  lemma WaitOverflows(c: Limits, j: nat)
    requires ValidLimits(c) && OverflowsAt(c.base, c.max, j)
    ensures Wait(c, j + 2, None) < 0 < IntendedWait(c, j + 2, None)
  {
    hide MachineBackoff, OverflowsAt;
    MachineOverflows(c.base, c.max, j);
    Doublings(c.base, 0, j + 1);
    DoubledFirst(c.base, 0);
  }

  /**
   * The configuration check does not ask for that room: with the largest cap, a first attempt of two nanoseconds passes
   * the budget test by wrapping around, and the next doubling overflows.
   */
  lemma BudgetTestWraps() returns (c: Limits, env: nat -> Attempt)
    ensures ValidLimits(c) && Attempted(c, env, 2) && !SumsFit(c, env, 2)
    ensures StartOf(c, env, 2) > c.budget && Wait(c, 2, None) < 0
  {
    c := Limits(5, MAX_INT64 - 1, MAX_INT64, HOUR);
    env := (_: nat) => Attempt(Temporary(None), 2, false, false);
    assert MachineBackoff(c.base, c.max, 0) == c.base;
    assert Wait(c, 1, None) == c.base;
    assert StartOf(c, env, 1) == 0 && ElapsedAt(c, env, 1) == 2;
    assert Retried(c, env, 1) && !SumFits(c, env, 1);
    assert MachineBackoff(c.base, c.max, 1) == MachineBackoff(Double(c.base), c.max, 0) == Double(c.base) < 0;
  }

  /** How a batch whose last attempt is k ends. */
  function FateAt(c: Limits, env: nat -> Attempt, k: nat): Fate
    requires k >= 1
  {
    if env(k).answer.Delivered? then FateDelivered
    else if env(k).aborted then FateUndelivered
    else if Final(c, env, k) then FateFailed
    else FateUndelivered
  }

  /** What is known of a delivery when attempt n begins. */
  lemma SoFar(c: Limits, env: nat -> Attempt, n: nat)
    requires ValidLimits(c) && Attempted(c, env, n)
    ensures StartOf(c, env, n) <= c.budget <==> SumsFit(c, env, n)
    ensures SumsFit(c, env, n) ==> !Overflows(c.base, c.max, n)
    ensures forall longest: nat | NoneLonger(env, longest) && HasRoom(c, longest) :: SumsFit(c, env, n)
  {
    hide StartOf, Retried, SumsFit, Overflows, HasRoom, NoneLonger;
    BudgetKept(c, env, n);
    if SumsFit(c, env, n) {
      BackoffIsIntended(c, env, n);
    }
    forall longest: nat | NoneLonger(env, longest) && HasRoom(c, longest)
      ensures SumsFit(c, env, n)
    {
      RoomSuffices(c, env, n, longest);
    }
  }

  /** The budget test fires when the wait would end after the budget, unless the sum has wrapped around. */
  lemma BudgetMeans(c: Limits, env: nat -> Attempt, k: nat)
    requires ValidLimits(c) && k >= 1 && !Overflows(c.base, c.max, k)
    ensures var hint := HintOf(env(k).answer);
      && Wait(c, k, hint) == IntendedWait(c, k, hint)
      && (BudgetSpent(c, ElapsedAt(c, env, k), Wait(c, k, hint)) <==>
            c.budget < ElapsedAt(c, env, k) + IntendedWait(c, k, hint) <= MAX_INT64)
  {
    WaitIsIntended(c, k, HintOf(env(k).answer));
    hide Wait, IntendedWait, StartOf;
  }

  /**
   * How the answers decide, given when each attempt started: only an attempt answered by a temporary error, before the
   * deadline, is followed by another one, after the whole wait. A permanent error, the last allowed attempt, or a wait
   * the budget has no time for fails the batch. Otherwise only the deadline ends it.
   */
  ghost predicate Decides(c: Limits, env: nat -> Attempt, starts: seq<nat>, waits: seq<int>, fate: Fate, retries: nat) {
    var n := |starts|;
    && 1 <= n <= c.maxAttempts && |waits| == n - 1 && starts[0] == 0
    && (forall k: nat | 1 <= k < n ::
          && env(k).answer.Temporary? && !env(k).aborted && !env(k).sleepAborted
          && starts[k] == starts[k - 1] + env(k).duration + (if waits[k - 1] > 0 then waits[k - 1] else 0))
    && (fate.FateDelivered? <==> env(n).answer.Delivered?)
    && (env(n).answer.Permanent? || n == c.maxAttempts ==> fate.FateUndelivered? ==> env(n).aborted)
    && (fate.FateFailed? ==> !env(n).aborted)
    && (fate.FateUndelivered? ==> env(n).aborted || env(n).sleepAborted)
    && (env(n).answer.Temporary? && !env(n).aborted && n < c.maxAttempts && !env(n).sleepAborted ==> fate.FateFailed?)
    && retries == n - 1 + if fate.FateUndelivered? && !env(n).aborted then 1 else 0
  }

  /** The wait after attempt k would end at this time. */
  function Due(c: Limits, env: nat -> Attempt, starts: seq<nat>, k: nat): int
    requires 1 <= k <= |starts| && env(k).answer.Temporary?
  {
    starts[k - 1] + env(k).duration + IntendedWait(c, k, env(k).answer.hint)
  }

  /**
   * Where no doubling has overflowed, the batch fails before its last allowed attempt exactly when the wait would end
   * after the budget; a time beyond the machine's range is not noticed.
   */
  ghost predicate BudgetDecides(c: Limits, env: nat -> Attempt, starts: seq<nat>, fate: Fate) {
    var n := |starts|;
    && (forall k: nat | 1 <= k < n && !Overflows(c.base, c.max, k) && env(k).answer.Temporary? ::
          !(c.budget < Due(c, env, starts, k) <= MAX_INT64))
    && (n >= 1 && !Overflows(c.base, c.max, n) && env(n).answer.Temporary? && !env(n).aborted && n < c.maxAttempts ==>
          (fate.FateFailed? <==> c.budget < Due(c, env, starts, n) <= MAX_INT64))
  }

  lemma NextStart(c: Limits, env: nat -> Attempt, k: nat)
    requires k >= 1
    ensures StartOf(c, env, k + 1) ==
            StartOf(c, env, k) + env(k).duration + Max(Wait(c, k, HintOf(env(k).answer)), 0)
  {
    hide Wait;
  }

  /** What ending at attempt n says about the answers. */
  lemma EndDecides(c: Limits, env: nat -> Attempt, starts: seq<nat>, waits: seq<int>, retries: nat)
    requires ValidLimits(c) && |starts| >= 1 && Attempted(c, env, |starts|) && !Retried(c, env, |starts|)
    requires |waits| == |starts| - 1 && retries == |starts| - 1 +
      if FateAt(c, env, |starts|).FateUndelivered? && !env(|starts|).aborted then 1 else 0
    requires forall k: nat | 1 <= k <= |starts| :: starts[k - 1] == StartOf(c, env, k)
    requires forall k: nat | 1 <= k < |starts| :: waits[k - 1] == Wait(c, k, HintOf(env(k).answer))
    ensures Decides(c, env, starts, waits, FateAt(c, env, |starts|), retries)
  {
    hide Wait, BudgetSpent;
    AttemptedWithin(c, env, |starts|);
    assert starts[1 - 1] == StartOf(c, env, 1) == 0;
    forall k: nat | 1 <= k < |starts|
      ensures env(k).answer.Temporary? && !env(k).aborted && !env(k).sleepAborted
      ensures starts[k] == starts[k - 1] + env(k).duration + (if waits[k - 1] > 0 then waits[k - 1] else 0)
    {
      assert Retried(c, env, k);
      NextStart(c, env, k);
      assert starts[k + 1 - 1] == StartOf(c, env, k + 1);
      assert starts[k - 1] == StartOf(c, env, k);
    }
  }

  lemma EndBudgets(c: Limits, env: nat -> Attempt, starts: seq<nat>)
    requires ValidLimits(c) && |starts| >= 1 && Attempted(c, env, |starts|) && !Retried(c, env, |starts|)
    requires forall k: nat | 1 <= k <= |starts| :: starts[k - 1] == StartOf(c, env, k)
    ensures BudgetDecides(c, env, starts, FateAt(c, env, |starts|))
  {
    hide Wait, BudgetSpent, IntendedWait, Overflows, StartOf;
    forall k: nat | 1 <= k <= |starts| && !Overflows(c.base, c.max, k) && env(k).answer.Temporary?
      ensures BudgetSpent(c, ElapsedAt(c, env, k), Wait(c, k, HintOf(env(k).answer))) <==>
                c.budget < Due(c, env, starts, k) <= MAX_INT64
      ensures k < |starts| ==> Retried(c, env, k)
    {
      BudgetMeans(c, env, k);
    }
    hide ElapsedAt, Due;
  }

  /**
   * Delivering one batch: it ends within the attempt limit, at the first attempt that is not retried,
   * delivered exactly when that attempt was, having counted every retry.
   */
  method Deliver(c: Limits, env: nat -> Attempt)
    returns (fate: Fate, attempts: nat, retries: nat, ghost starts: seq<nat>, ghost waits: seq<int>)
    requires ValidLimits(c)
    ensures attempts == |starts| == |waits| + 1 && Decides(c, env, starts, waits, fate, retries)
    ensures BudgetDecides(c, env, starts, fate)
    ensures 1 <= attempts <= c.maxAttempts
    ensures forall k: nat | 1 <= k < attempts :: Retried(c, env, k)
    ensures !Retried(c, env, attempts) && fate == FateAt(c, env, attempts)
    ensures fate.FateDelivered? <==> env(attempts).answer.Delivered?
    ensures forall k: nat | 1 <= k <= attempts :: starts[k - 1] == StartOf(c, env, k)
    ensures forall k: nat | 1 <= k < attempts :: waits[k - 1] == Wait(c, k, HintOf(env(k).answer))
    ensures StartOf(c, env, attempts) <= c.budget <==> SumsFit(c, env, attempts)
    ensures SumsFit(c, env, attempts) ==> !Overflows(c.base, c.max, attempts)
    ensures !Overflows(c.base, c.max, attempts) ==>
              forall k: nat | 1 <= k < attempts :: waits[k - 1] == IntendedWait(c, k, HintOf(env(k).answer)) > 0
    ensures forall longest: nat | NoneLonger(env, longest) && HasRoom(c, longest) :: SumsFit(c, env, attempts)
  {
    hide Decides, BudgetDecides, MachineBackoff, IntendedWait, BudgetSpent, SumFits, OverflowsAt, HasRoom;
    var attempt: nat := 1;
    retries, starts, waits := 0, [0], [];
    var elapsed: nat := 0;
    while true
      invariant 1 <= attempt <= c.maxAttempts && retries == attempt - 1 == |waits|
      invariant Attempted(c, env, attempt)
      invariant forall k: nat | 1 <= k < attempt :: waits[k - 1] == Wait(c, k, HintOf(env(k).answer))
      invariant !Overflows(c.base, c.max, attempt) ==>
                  forall k: nat | 1 <= k < attempt :: waits[k - 1] == IntendedWait(c, k, HintOf(env(k).answer)) > 0
      invariant |starts| == attempt && elapsed == StartOf(c, env, attempt)
      invariant forall k: nat | 1 <= k <= attempt :: starts[k - 1] == StartOf(c, env, k)
      decreases c.maxAttempts - attempt
    {
      SoFar(c, env, attempt);
      var a := env(attempt);
      if !Overflows(c.base, c.max, attempt) {
        WaitIsIntended(c, attempt, HintOf(a.answer));
      }
      elapsed := elapsed + a.duration;
      if a.answer.Delivered? {
        EndDecides(c, env, starts, waits, retries);
        EndBudgets(c, env, starts);
        return FateDelivered, attempt, retries, starts, waits;
      }
      if a.aborted {
        EndDecides(c, env, starts, waits, retries);
        EndBudgets(c, env, starts);
        return FateUndelivered, attempt, retries, starts, waits;
      }
      var wait := DispatcherBackoff(c.base, c.max, attempt);
      var hint := HintOf(a.answer);
      if hint.Some? && hint.value > wait {
        wait := Min(hint.value, c.max);
      }
      assert wait == Wait(c, attempt, hint);
      if a.answer.Permanent? || attempt >= c.maxAttempts || BudgetSpent(c, elapsed, wait) {
        EndDecides(c, env, starts, waits, retries);
        EndBudgets(c, env, starts);
        return FateFailed, attempt, retries, starts, waits;
      }
      retries := retries + 1;
      if a.sleepAborted {
        EndDecides(c, env, starts, waits, retries);
        EndBudgets(c, env, starts);
        return FateUndelivered, attempt, retries, starts, waits;
      }
      elapsed := elapsed + Max(wait, 0);
      starts, waits := starts + [elapsed], waits + [wait];
      attempt := attempt + 1;
    }
  }
}
