/** The round-count control of the reflection loop in `Reviewer.run`: how
    many `re_review` rounds a review receives under an optional budget.
    Costs are exact reals read from an oracle: `cost(k)` is the running
    total after `k` rounds of this review, so `cost(0)` is the total
    before the loop. */
module Reflection {
  import opened Wrappers
  import opened PyValues

  function RMax(a: real, b: real): real {
    if a >= b then a else b
  }

  /** The floor used for a round's cost, `1e-6`. */
  const MinRoundCost: real := 0.000001

  /** Reflections are skipped when the budget is already used up to the
      pre-reflection threshold. */
  predicate Skips(budget: Option<real>, pre: real, cost: nat -> real) {
    budget.Some? && budget.value != 0.0 && cost(0) / budget.value >= pre
  }

  /** `int(max(0.0, remaining) // per_round_cost)` after the first round. */
  function Additional(b: real, post: real, cost: nat -> real): (n: int)
    ensures n >= 0
    ensures var perRound := RMax(cost(1) - cost(0), MinRoundCost);
      var remaining := RMax(0.0, b * post - cost(1));
      n as real * perRound <= remaining < (n + 1) as real * perRound
  {
    var perRound := RMax(cost(1) - cost(0), MinRoundCost);
    FloorDiv(RMax(0.0, b * post - cost(1)), perRound);
    (RMax(0.0, b * post - cost(1)) / perRound).Floor
  }

  /** `x // d` for a positive `d` is the number of whole `d`s in `x`. */
  lemma FloorDiv(x: real, d: real)
    requires d > 0.0
    ensures (x / d).Floor as real * d <= x < ((x / d).Floor + 1) as real * d
  {
    var q := x / d;
    var n := q.Floor as real;
    var e := q - n;
    assert 0.0 <= e < 1.0;
    assert x == (n + e) * d;
    assert (n + e) * d == n * d + e * d;
    assert 0.0 <= e * d < d by {
      assert d - e * d == (1.0 - e) * d;
    }
    assert (n + 1.0) * d == n * d + d;
    assert (q.Floor + 1) as real == n + 1.0;
    assert n * d <= x < (n + 1.0) * d;
  }

  /** The bound on rounds once the first round is measured. */
  function RoundLimit(num: int, budget: Option<real>, post: real, cost: nat -> real): (n: int)
    ensures n <= num
    ensures num >= 1 ==> n >= 1
  {
    if budget.None? then num else Min(num, 1 + Additional(budget.value, post, cost))
  }

  /** Reference definition: the first round count in `[k, limit]` at which
      the running cost reaches `threshold`, or `limit` if none does. */
  function FirstReached(k: nat, limit: nat, threshold: real, cost: nat -> real): (r: nat)
    requires 1 <= k <= limit
    ensures k <= r <= limit
    ensures forall j :: k <= j < r ==> cost(j) < threshold
    ensures r < limit ==> cost(r) >= threshold
    decreases limit - k
  {
    if cost(k) >= threshold || k == limit then k else FirstReached(k + 1, limit, threshold, cost)
  }

  /** A count that no earlier count beats and that stops the loop is the
      one `FirstReached` finds. */
  lemma {:induction false} FirstReachedIs(k: nat, m: nat, limit: nat, threshold: real, cost: nat -> real)
    requires 1 <= k <= m <= limit
    requires forall j :: k <= j < m ==> cost(j) < threshold
    requires cost(m) >= threshold || m == limit
    ensures FirstReached(k, limit, threshold, cost) == m
    decreases m - k
  {
    if k < m {
      FirstReachedIs(k + 1, m, limit, threshold, cost);
    }
  }

  /** The reflection loop of `Reviewer.run` for one review, returning how
      many rounds ran. A zero budget fails in `total / budget`. */
  method ReflectionRounds(numReflections: int, budget: Option<real>, pre: real, post: real, cost: nat -> real)
    returns (r: Result<nat, Exception>)
    ensures r.Failure? <==> budget == Some(0.0)
    ensures r.Failure? ==> r.error == ZeroDivisionError
    ensures r.Success? ==> r.value <= Max(numReflections, 0)
    ensures Skips(budget, pre, cost) ==> r == Success(0)
    ensures budget.None? ==> r == Success(Max(numReflections, 0))
    ensures r.Success? && !Skips(budget, pre, cost) && numReflections >= 1 ==> r.value >= 1
    ensures budget.Some? && budget.value != 0.0 && !Skips(budget, pre, cost) && numReflections >= 1 ==>
      r == Success(FirstReached(1, RoundLimit(numReflections, budget, post, cost), budget.value * post, cost))
  {
    if budget.Some? && budget.value == 0.0 {
      return Failure(ZeroDivisionError);
    }
    if budget.Some? && cost(0) / budget.value >= pre {
      return Success(0);
    }
    var maxRounds := numReflections;
    var done: nat := 0;
    var perRound: Option<real> := None;
    while done < maxRounds
      invariant done <= Max(numReflections, 0)
      invariant done <= maxRounds || numReflections < 1
      invariant perRound.None? <==> done == 0
      invariant done == 0 ==> maxRounds == numReflections
      invariant done >= 1 ==> maxRounds == RoundLimit(numReflections, budget, post, cost)
      invariant budget.Some? ==> forall j :: 1 <= j <= done ==> cost(j) < budget.value * post
      decreases numReflections - done
    {
      var start := cost(done);
      var iteration := cost(done + 1) - start;
      if perRound.None? {
        var pr := RMax(iteration, MinRoundCost);
        perRound := Some(pr);
        if budget.Some? {
          var allowed := budget.value * post;
          var remaining := allowed - cost(done + 1);
          var additional := (RMax(0.0, remaining) / pr).Floor;
          maxRounds := Min(numReflections, 1 + additional);
        }
      }
      done := done + 1;
      if budget.Some? && cost(done) >= budget.value * post {
        FirstReachedIs(1, done, RoundLimit(numReflections, budget, post, cost), budget.value * post, cost);
        return Success(done);
      }
    }
    if budget.Some? && numReflections >= 1 {
      FirstReachedIs(1, done, RoundLimit(numReflections, budget, post, cost), budget.value * post, cost);
    }
    return Success(done);
  }
}
