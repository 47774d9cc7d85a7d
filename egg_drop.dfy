/** The critical-temperature puzzle: with `k` identical samples and `n`
    temperature levels, the fewest measurements that always determine the
    critical level. A sample that reacts is used up; one that does not is reused. */
module EggDrop {

  /** The number of levels that `samples` samples and `attempts` measurements
      can settle: the value the source stores in `dp[samples][attempts]`. A
      measurement either uses the sample up (one sample and one measurement
      fewer for the levels below) or leaves it (one measurement fewer for the
      levels above), and settles the level measured. */
  function Levels(samples: nat, attempts: nat): nat {
    if samples == 0 || attempts == 0 then 0
    else Levels(samples - 1, attempts - 1) + Levels(samples, attempts - 1) + 1
  }

  /** `attempts` is the least number of measurements with which `samples`
      samples settle `n` levels. */
  ghost predicate IsLeastAttempts(samples: nat, n: nat, attempts: nat) {
    && n <= Levels(samples, attempts)
    && forall a: nat :: a < attempts ==> Levels(samples, a) < n
  }

  /** The source's `minMeasurements`: fills the table column by column until the
      entry for all `k` samples reaches `n`. With no sample and at least one
      level the source runs past the end of its table, hence the precondition. */
  method MinMeasurements(k: nat, n: nat) returns (attempts: nat)
    requires 1 <= k || n == 0
    ensures n <= Levels(k, attempts)
    ensures forall a: nat :: a < attempts ==> Levels(k, a) < n
    ensures attempts <= n
  {
    var dp := new int[k + 1, n + 1]((_, _) => 0);
    attempts := 0;
    while dp[k, attempts] < n
      invariant attempts <= n
      invariant forall i, a {:trigger dp[i, a]} :: 0 <= i <= k && 0 <= a <= attempts ==> dp[i, a] == Levels(i, a)
      invariant forall a :: 0 <= a <= n ==> dp[0, a] == 0
      invariant attempts == 0 || Levels(k, attempts - 1) < n
      decreases n - attempts
    {
      LevelsAtLeastAttempts(k, attempts);
      attempts := attempts + 1;
      ghost var done := attempts - 1;
      for i := 1 to k + 1
        invariant forall i', a {:trigger dp[i', a]} :: 0 <= i' <= k && 0 <= a <= done ==> dp[i', a] == Levels(i', a)
        invariant forall a :: 0 <= a <= n ==> dp[0, a] == 0
        invariant forall i' {:trigger dp[i', attempts]} :: 0 <= i' < i ==> dp[i', attempts] == Levels(i', attempts)
      {
        dp[i, attempts] := dp[i - 1, attempts - 1] + dp[i, attempts - 1] + 1;
      }
    }
    forall a: nat | a < attempts ensures Levels(k, a) < n {
      LevelsMonotone(k, a, attempts - 1);
    }
  }

  /** With at least one sample every measurement settles at least one more
      level, so the loop stops by `n` measurements and stays inside the table. */
  lemma {:induction false} LevelsAtLeastAttempts(samples: nat, attempts: nat)
    requires 1 <= samples
    ensures attempts <= Levels(samples, attempts)
  {
    if attempts > 0 {
      LevelsAtLeastAttempts(samples, attempts - 1);
    }
  }

  /** A single sample must be measured level by level: one level per measurement. */
  lemma {:induction false} OneSampleLevels(attempts: nat)
    ensures Levels(1, attempts) == attempts
  {
    if attempts > 0 {
      OneSampleLevels(attempts - 1);
    }
  }

  /** More measurements never settle fewer levels. */
  lemma {:induction false} LevelsMonotone(samples: nat, a: nat, b: nat)
    requires a <= b
    ensures Levels(samples, a) <= Levels(samples, b)
    decreases b
  {
    if a < b {
      LevelsMonotone(samples, a, b - 1);
    }
  }

  /** The least number of measurements is unique, and it is exactly the first
      number of measurements whose table entry reaches `n`. */
  lemma LeastAttemptsUnique(samples: nat, n: nat, a1: nat, a2: nat)
    requires IsLeastAttempts(samples, n, a1) && IsLeastAttempts(samples, n, a2)
    ensures a1 == a2
  {
  }

  /** With one sample the answer is `n` itself. */
  lemma OneSampleNeedsN(n: nat, attempts: nat)
    ensures IsLeastAttempts(1, n, attempts) <==> attempts == n
  {
    OneSampleLevels(attempts);
    if attempts > 0 {
      OneSampleLevels(attempts - 1);
    }
    forall a: nat | a < n ensures Levels(1, a) < n {
      OneSampleLevels(a);
    }
  }

  /** The worked examples: (1, 2) needs 2, (2, 6) needs 3, (3, 14) needs 4. */
  lemma Examples()
    ensures IsLeastAttempts(1, 2, 2)
    ensures IsLeastAttempts(2, 6, 3)
    ensures IsLeastAttempts(3, 14, 4)
  {
    OneSampleNeedsN(2, 2);
    assert Levels(2, 3) == 6 && Levels(2, 2) == 3;
    forall a: nat | a < 3 ensures Levels(2, a) < 6 {
      LevelsMonotone(2, a, 2);
    }
    assert Levels(3, 4) == 14 && Levels(3, 3) == 7;
    forall a: nat | a < 4 ensures Levels(3, a) < 14 {
      LevelsMonotone(3, a, 3);
    }
  }
}
