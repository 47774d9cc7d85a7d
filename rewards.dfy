/** Employee rewards: every employee receives at least one reward, and an
    employee rated higher than an adjacent colleague receives more rewards than
    that colleague; the least total that meets both rules. */
module Rewards {

  function Sum(s: seq<int>): int {
    if s == [] then 0 else Sum(s[..|s| - 1]) + s[|s| - 1]
  }

  /** `rewards` meets the two rules for `ratings`. */
  ghost predicate Fair(ratings: seq<int>, rewards: seq<int>) {
    && |rewards| == |ratings|
    && (forall i :: 0 <= i < |rewards| ==> 1 <= rewards[i])
    && (forall i :: 0 < i < |ratings| && ratings[i - 1] < ratings[i] ==> rewards[i - 1] < rewards[i])
    && (forall i :: 0 <= i < |ratings| - 1 && ratings[i + 1] < ratings[i] ==> rewards[i + 1] < rewards[i])
  }

  /** Length of the strictly rising run of ratings that ends at `i`. */
  function Rise(ratings: seq<int>, i: nat): (r: nat)
    requires i < |ratings|
    ensures 1 <= r
  {
    if i == 0 || ratings[i] <= ratings[i - 1] then 1 else Rise(ratings, i - 1) + 1
  }

  /** Length of the strictly falling run of ratings that starts at `i`. */
  function Fall(ratings: seq<int>, i: nat): (r: nat)
    requires i < |ratings|
    ensures 1 <= r
    decreases |ratings| - i
  {
    if i == |ratings| - 1 || ratings[i] <= ratings[i + 1] then 1 else Fall(ratings, i + 1) + 1
  }

  function Max(a: int, b: int): int {
    if a < b then b else a
  }

  /** The assignment the two passes produce: each employee gets the longer of
      the rising run ending at it and the falling run starting at it. */
  function Optimal(ratings: seq<int>): (rewards: seq<int>)
    ensures |rewards| == |ratings|
  {
    seq(|ratings|, i requires 0 <= i < |ratings| => Max(Rise(ratings, i), Fall(ratings, i)))
  }

  /** The source's `minRewards`: one reward each, a left-to-right pass for the
      left neighbours, a right-to-left pass for the right neighbours, then the sum. */
  method MinRewards(ratings: seq<int>) returns (total: int)
    ensures total == Sum(Optimal(ratings))
    ensures |ratings| <= total
    ensures forall rewards :: Fair(ratings, rewards) ==> total <= Sum(rewards)
  {
    if |ratings| == 0 {
      assert Optimal(ratings) == [];
      return 0;
    }
    var rewards := Passes(ratings);
    total := Total(rewards);
    OptimalIsLeast(ratings);
  }

  /** The three loops of `minRewards` that fill the reward array: all ones,
      then the rising runs from the left, then the falling runs from the right. */
  method Passes(ratings: seq<int>) returns (rewards: array<int>)
    requires |ratings| > 0
    ensures rewards[..] == Optimal(ratings)
  {
    var n := |ratings|;
    rewards := new int[n];
    for i := 0 to n
      invariant forall j :: 0 <= j < i ==> rewards[j] == 1
    {
      rewards[i] := 1;
    }
    for i := 1 to n
      invariant forall j :: 0 <= j < i ==> rewards[j] == Rise(ratings, j)
      invariant forall j :: i <= j < n ==> rewards[j] == 1
    {
      if ratings[i] > ratings[i - 1] {
        rewards[i] := rewards[i - 1] + 1;
      }
    }
    for i := n - 1 downto 0
      invariant forall j :: 0 <= j < i ==> rewards[j] == Rise(ratings, j)
      invariant forall j :: i <= j < n ==> rewards[j] == Max(Rise(ratings, j), Fall(ratings, j))
    {
      if ratings[i] > ratings[i + 1] {
        rewards[i] := Max(rewards[i], rewards[i + 1] + 1);
      }
    }
  }

  /** The last loop of `minRewards`: the sum of the array. */
  method Total(rewards: array<int>) returns (total: int)
    ensures total == Sum(rewards[..])
  {
    total := 0;
    for i := 0 to rewards.Length
      invariant total == Sum(rewards[..i])
    {
      assert rewards[..i + 1] == rewards[..i] + [rewards[i]];
      total := total + rewards[i];
    }
    assert rewards[..rewards.Length] == rewards[..];
  }

  /** The two passes' assignment is the least fair one: its total is at most
      that of any fair assignment, and at least one reward per employee. */
  lemma OptimalIsLeast(ratings: seq<int>)
    ensures |ratings| <= Sum(Optimal(ratings))
    ensures forall rewards :: Fair(ratings, rewards) ==> Sum(Optimal(ratings)) <= Sum(rewards)
  {
    OptimalIsFair(ratings);
    TotalAtLeastCount(ratings, Optimal(ratings));
    forall rewards | Fair(ratings, rewards) ensures Sum(Optimal(ratings)) <= Sum(rewards) {
      OptimalIsMinimal(ratings, rewards);
    }
  }

  /** The two passes' assignment meets both rules. */
  lemma OptimalIsFair(ratings: seq<int>)
    ensures Fair(ratings, Optimal(ratings))
  {
    var w := Optimal(ratings);
    forall i | 0 < i < |ratings| && ratings[i - 1] < ratings[i]
      ensures w[i - 1] < w[i]
    {
      assert Fall(ratings, i - 1) == 1;
      assert Rise(ratings, i) == Rise(ratings, i - 1) + 1;
    }
    forall i | 0 <= i < |ratings| - 1 && ratings[i + 1] < ratings[i]
      ensures w[i + 1] < w[i]
    {
      assert Rise(ratings, i + 1) == 1;
      assert Fall(ratings, i) == Fall(ratings, i + 1) + 1;
    }
  }

  /** Any fair assignment gives each employee at least the length of the rising
      run that ends there... */
  lemma {:induction false} FairAtLeastRise(ratings: seq<int>, rewards: seq<int>, i: nat)
    requires Fair(ratings, rewards) && i < |ratings|
    ensures Rise(ratings, i) <= rewards[i]
  {
    if i > 0 && ratings[i - 1] < ratings[i] {
      FairAtLeastRise(ratings, rewards, i - 1);
    }
  }

  /** ... and at least the length of the falling run that starts there. */
  lemma {:induction false} FairAtLeastFall(ratings: seq<int>, rewards: seq<int>, i: nat)
    requires Fair(ratings, rewards) && i < |ratings|
    ensures Fall(ratings, i) <= rewards[i]
    decreases |ratings| - i
  {
    if i < |ratings| - 1 && ratings[i + 1] < ratings[i] {
      FairAtLeastFall(ratings, rewards, i + 1);
    }
  }

  lemma {:induction false} SumMonotone(a: seq<int>, b: seq<int>)
    requires |a| == |b|
    requires forall i :: 0 <= i < |a| ==> a[i] <= b[i]
    ensures Sum(a) <= Sum(b)
  {
    if a != [] {
      SumMonotone(a[..|a| - 1], b[..|b| - 1]);
    }
  }

  /** The total is the least over every assignment that meets the two rules. */
  lemma OptimalIsMinimal(ratings: seq<int>, rewards: seq<int>)
    requires Fair(ratings, rewards)
    ensures Sum(Optimal(ratings)) <= Sum(rewards)
  {
    var w := Optimal(ratings);
    forall i | 0 <= i < |w| ensures w[i] <= rewards[i] {
      FairAtLeastRise(ratings, rewards, i);
      FairAtLeastFall(ratings, rewards, i);
    }
    SumMonotone(w, rewards);
  }

  /** Everyone gets at least one reward, so the total is at least the number of
      employees (and 0 for none). */
  lemma {:induction false} TotalAtLeastCount(ratings: seq<int>, rewards: seq<int>)
    requires Fair(ratings, rewards)
    ensures |ratings| <= Sum(rewards)
  {
    if rewards != [] {
      var r, w := ratings[..|ratings| - 1], rewards[..|rewards| - 1];
      assert Fair(r, w);
      TotalAtLeastCount(r, w);
    }
  }

  /** The worked examples: [1, 0, 2] needs 5 (2, 1, 2) and [1, 2, 2] needs 4 (1, 2, 1). */
  lemma Examples()
    ensures Optimal([1, 0, 2]) == [2, 1, 2] && Sum([2, 1, 2]) == 5
    ensures Optimal([1, 2, 2]) == [1, 2, 1] && Sum([1, 2, 1]) == 4
  {
    var a := [1, 0, 2];
    assert Rise(a, 0) == 1 && Fall(a, 0) == 2;
    assert Rise(a, 1) == 1 && Fall(a, 1) == 1;
    assert Rise(a, 2) == 2 && Fall(a, 2) == 1;
    assert Sum([2, 1, 2]) == Sum([2, 1]) + 2 == Sum([2]) + 3 == 5;
    var b := [1, 2, 2];
    assert Rise(b, 0) == 1 && Fall(b, 0) == 1;
    assert Rise(b, 1) == 2 && Fall(b, 1) == 1;
    assert Rise(b, 2) == 1 && Fall(b, 2) == 1;
    assert Sum([1, 2, 1]) == Sum([1, 2]) + 1 == Sum([1]) + 3 == 4;
  }
}
