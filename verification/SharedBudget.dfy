/** Which buckets of one answer are solved, given that they share one budget. */
module SharedBudget {
  import opened FieldTheory
  import opened Splitting
  import opened PinSketch
  import opened Triage

  /** The i-th request is answered with the sketch of a set within its capacity. */
  ghost predicate HoldsAt(K: Field<Word>, encoded: seq<bv8>, requests: seq<BucketRequest>, sets: seq<seq<Word>>, i: nat)
    requires i < |sets| <= |requests|
  {
    Candidate(K, Answer(encoded, requests, i), requests[i].capacity, sets[i])
  }

  ghost predicate Holds(K: Field<Word>, encoded: seq<bv8>, requests: seq<BucketRequest>, sets: seq<seq<Word>>) {
    |sets| <= |requests| && forall i: nat :: i < |sets| ==> HoldsAt(K, encoded, requests, sets, i)
  }

  /** The cost of all the sets together. */
  ghost function TotalCost(K: Field<Word>, mixed: seq<Word>, sets: seq<seq<Word>>): nat
    requires IsBinaryField(K)
  {
    if sets == [] then 0 else TotalCost(K, mixed, sets[..|sets| - 1]) + Cost(K, mixed, sets[|sets| - 1])
  }

  lemma SmallIsFree(K: Field<Word>, mixed: seq<Word>, A: seq<Word>)
    requires IsBinaryField(K) && |A| < 3
    ensures Cost(K, mixed, A) == 0
  {
  }

  lemma CostNext(K: Field<Word>, mixed: seq<Word>, sets: seq<seq<Word>>, i: nat)
    requires IsBinaryField(K) && i < |sets|
    ensures TotalCost(K, mixed, sets[..i + 1]) == TotalCost(K, mixed, sets[..i]) + Cost(K, mixed, sets[i])
  {
    assert sets[..i + 1][..i] == sets[..i];
  }

  /** The work left before the i-th request: what the sets before it cost less
      than the budget, or less than nothing when they cost more. */
  lemma {:induction false} WorkLeft(K: Field<Word>, mixed: seq<Word>, encoded: seq<bv8>, requests: seq<BucketRequest>,
      outcomes: seq<Outcome>, left: seq<int>, sets: seq<seq<Word>>, i: nat)
    requires IsBinaryField(K) && Ledger(K, mixed, encoded, requests, outcomes, left)
    requires Holds(K, encoded, requests, sets) && i <= |sets| <= |outcomes|
    ensures var spent := TotalCost(K, mixed, sets[..i]);
      if spent <= MAX_FACTOR_WORK then left[i] == MAX_FACTOR_WORK - spent else left[i] < 0
  {
    if i > 0 {
      var n := i - 1;
      WorkLeft(K, mixed, encoded, requests, outcomes, left, sets, n);
      CostNext(K, mixed, sets, n);
      OnePaid(K, mixed, encoded, requests, outcomes, left, sets, n);
    }
  }

  lemma {:induction false} OnePaid(K: Field<Word>, mixed: seq<Word>, encoded: seq<bv8>, requests: seq<BucketRequest>,
      outcomes: seq<Outcome>, left: seq<int>, sets: seq<seq<Word>>, i: nat)
    requires IsBinaryField(K) && Ledger(K, mixed, encoded, requests, outcomes, left)
    requires Holds(K, encoded, requests, sets) && i < |sets| <= |outcomes|
    ensures Paid(K, mixed, sets[i], outcomes[i], left[i], left[i + 1])
    ensures |sets[i]| < 3 ==> Cost(K, mixed, sets[i]) == 0
  {
    assert HoldsAt(K, encoded, requests, sets, i);
    assert Attempted(K, mixed, encoded, requests, outcomes, left, i);
    if |sets[i]| < 3 {
      SmallIsFree(K, mixed, sets[i]);
    }
  }

  /** When the first requests hold sets within their capacities, a bucket among
      them is solved exactly when its set has up to two elements or the sets up
      to and including its own cost no more than the budget. */
  lemma SolvedIff(K: Field<Word>, mixed: seq<Word>, encoded: seq<bv8>, requests: seq<BucketRequest>,
      outcomes: seq<Outcome>, left: seq<int>, sets: seq<seq<Word>>, i: nat)
    requires IsBinaryField(K) && Ledger(K, mixed, encoded, requests, outcomes, left)
    requires Holds(K, encoded, requests, sets) && i < |sets| <= |outcomes|
    ensures outcomes[i].Solved? <==> |sets[i]| < 3 || TotalCost(K, mixed, sets[..i + 1]) <= MAX_FACTOR_WORK
  {
    WorkLeft(K, mixed, encoded, requests, outcomes, left, sets, i);
    WorkLeft(K, mixed, encoded, requests, outcomes, left, sets, i + 1);
    CostNext(K, mixed, sets, i);
    OnePaid(K, mixed, encoded, requests, outcomes, left, sets, i);
  }

  /** An answer to sets that together cost no more than the budget is decoded completely. */
  lemma AllSolved(K: Field<Word>, mixed: seq<Word>, encoded: seq<bv8>, requests: seq<BucketRequest>,
      outcomes: seq<Outcome>, left: seq<int>, sets: seq<seq<Word>>)
    requires IsBinaryField(K) && Ledger(K, mixed, encoded, requests, outcomes, left)
    requires Holds(K, encoded, requests, sets) && |sets| == |outcomes|
    requires TotalCost(K, mixed, sets) <= MAX_FACTOR_WORK
    ensures forall i :: 0 <= i < |outcomes| ==> outcomes[i].Solved?
  {
    forall i: nat | i < |outcomes|
      ensures outcomes[i].Solved?
    {
      PrefixCost(K, mixed, sets, i + 1);
      SolvedIff(K, mixed, encoded, requests, outcomes, left, sets, i);
    }
  }

  lemma {:induction false} PrefixCost(K: Field<Word>, mixed: seq<Word>, sets: seq<seq<Word>>, k: nat)
    requires IsBinaryField(K) && k <= |sets|
    ensures TotalCost(K, mixed, sets[..k]) <= TotalCost(K, mixed, sets)
    decreases |sets|
  {
    if k == |sets| {
      assert sets[..k] == sets;
    } else {
      assert sets[..|sets| - 1][..k] == sets[..k];
      PrefixCost(K, mixed, sets[..|sets| - 1], k);
    }
  }

  // ---- with buckets that hold too much

  /** What the i-th request can use up: the cost of its set when it holds one
      within its capacity, and otherwise the worst case of its capacity. */
  ghost predicate ChargeAt(K: Field<Word>, mixed: seq<Word>, encoded: seq<bv8>, requests: seq<BucketRequest>,
      charges: seq<nat>, i: nat)
    requires IsBinaryField(K) && i < |charges| <= |requests|
  {
    || (exists A ::
      Candidate(K, Answer(encoded, requests, i), requests[i].capacity, A) && Cost(K, mixed, A) <= charges[i])
    || (requests[i].capacity >= 0 && WorstCase(K, mixed, requests[i].capacity) <= charges[i])
  }

  function Sum(charges: seq<nat>): nat {
    if charges == [] then 0 else Sum(charges[..|charges| - 1]) + charges[|charges| - 1]
  }

  lemma SumNext(charges: seq<nat>, i: nat)
    requires i < |charges|
    ensures Sum(charges[..i + 1]) == Sum(charges[..i]) + charges[i]
  {
    assert charges[..i + 1][..i] == charges[..i];
  }

  lemma {:induction false} ChargesCover(K: Field<Word>, mixed: seq<Word>, encoded: seq<bv8>,
      requests: seq<BucketRequest>,
      outcomes: seq<Outcome>, left: seq<int>, charges: seq<nat>, i: nat)
    requires IsBinaryField(K) && Ledger(K, mixed, encoded, requests, outcomes, left)
    requires i <= |charges| <= |outcomes| && Sum(charges[..i]) <= MAX_FACTOR_WORK
    requires forall j: nat :: j < |charges| ==> ChargeAt(K, mixed, encoded, requests, charges, j)
    ensures left[i] >= MAX_FACTOR_WORK - Sum(charges[..i])
  {
    if i > 0 {
      var n := i - 1;
      SumNext(charges, n);
      ChargesCover(K, mixed, encoded, requests, outcomes, left, charges, n);
      assert ChargeAt(K, mixed, encoded, requests, charges, n);
      assert Attempted(K, mixed, encoded, requests, outcomes, left, n);
    }
  }

  /** A bucket that holds a set is solved when its cost and the charges of the
      requests before it fit the budget, whatever those requests hold. */
  lemma SolvedWithin(K: Field<Word>, mixed: seq<Word>, encoded: seq<bv8>, requests: seq<BucketRequest>,
      outcomes: seq<Outcome>, left: seq<int>, charges: seq<nat>, A: seq<Word>)
    requires IsBinaryField(K) && Ledger(K, mixed, encoded, requests, outcomes, left) && |charges| < |outcomes|
    requires forall j: nat :: j < |charges| ==> ChargeAt(K, mixed, encoded, requests, charges, j)
    requires Candidate(K, Answer(encoded, requests, |charges|), requests[|charges|].capacity, A)
    requires Sum(charges) + Cost(K, mixed, A) <= MAX_FACTOR_WORK
    ensures outcomes[|charges|].Solved?
  {
    assert charges[..|charges|] == charges;
    ChargesCover(K, mixed, encoded, requests, outcomes, left, charges, |charges|);
    assert Attempted(K, mixed, encoded, requests, outcomes, left, |charges|);
  }
}
