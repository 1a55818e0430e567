/**
 * Statistics of user events that are not monotonically increasing.  Each event is
 * recorded as a triple of triggers of which only the middle one carries the value;
 * a zero minimum doubles as "nothing seen yet".
 */
module UserEvents {

  datatype Stats = Stats(tricount: int, numevents: int, max: int, min: int, sum: int, sumsqr: int)

  const DEFINED := Stats(0, 0, 0, 0, 0, 0)

  class UserEvent {
    var tricount: int
    var numevents: int
    var max: int
    var min: int
    var sum: int
    var sumsqr: int

    ghost function Value(): Stats
      reads this
    {
      Stats(tricount, numevents, max, min, sum, sumsqr)
    }

    constructor ()
      ensures Value() == DEFINED
    {
      tricount, numevents, max, min, sum, sumsqr := 0, 0, 0, 0, 0, 0;
    }

    method Trigger(value: int)
      modifies this
      ensures Value() == AfterTrigger(old(Value()), value)
    {
      if tricount == 0 {
        tricount := tricount + 1;
        return;
      }
      if tricount == 2 {
        tricount := 0;
        return;
      }
      tricount := tricount + 1;
      numevents := numevents + 1;
      sum := sum + value;
      sumsqr := sumsqr + value * value;
      if value > max {
        max := value;
      }
      if value < min || min == 0 {
        min := value;
      }
    }
  }

  ghost function AfterTrigger(s: Stats, value: int): Stats {
    if s.tricount == 0 then s.(tricount := 1)
    else if s.tricount == 2 then s.(tricount := 0)
    else Stats(s.tricount + 1, s.numevents + 1,
               if value > s.max then value else s.max,
               if value < s.min || s.min == 0 then value else s.min,
               s.sum + value, s.sumsqr + value * value)
  }

  ghost function AfterAll(values: seq<int>): Stats {
    if values == [] then DEFINED
    else AfterTrigger(AfterAll(values[..|values| - 1]), values[|values| - 1])
  }

  // ---------- reference statistics ----------

  /** The recorded samples: the middle trigger of every triple, complete or not. */
  ghost function Samples(values: seq<int>): seq<int> {
    if |values| < 2 then []
    else if |values| == 2 then [values[1]]
    else [values[1]] + Samples(values[3..])
  }

  ghost function Sum(xs: seq<int>): int {
    if xs == [] then 0 else Sum(xs[..|xs| - 1]) + xs[|xs| - 1]
  }

  ghost function SumOfSquares(xs: seq<int>): int {
    if xs == [] then 0 else SumOfSquares(xs[..|xs| - 1]) + xs[|xs| - 1] * xs[|xs| - 1]
  }

  ghost predicate IsMax(m: int, xs: seq<int>) { m in xs && forall x :: x in xs ==> x <= m }

  ghost predicate IsMin(m: int, xs: seq<int>) { m in xs && forall x :: x in xs ==> m <= x }

  lemma {:induction false} SamplesSnoc(values: seq<int>, v: int)
    ensures Samples(values + [v]) == if |values| % 3 == 1 then Samples(values) + [v] else Samples(values)
    decreases |values|
  {
    if |values| >= 3 {
      assert (values + [v])[3..] == values[3..] + [v];
      SamplesSnoc(values[3..], v);
    }
  }

  /** The samples are the second, fifth, eighth, ... value. */
  lemma {:induction false} SamplesAreMiddles(values: seq<int>)
    ensures |Samples(values)| == (|values| + 1) / 3
    ensures forall k :: 0 <= k < |Samples(values)| ==> Samples(values)[k] == values[3 * k + 1]
    decreases |values|
  {
    if |values| >= 3 {
      SamplesAreMiddles(values[3..]);
      forall k | 0 < k < |Samples(values)|
        ensures Samples(values)[k] == values[3 * k + 1]
      {
        assert Samples(values)[k] == Samples(values[3..])[k - 1];
      }
    }
  }

  /** The sums, sample by sample. */
  lemma SumsGrow(xs: seq<int>, x: int)
    ensures Sum([]) == 0 && SumOfSquares([]) == 0
    ensures Sum(xs + [x]) == Sum(xs) + x && SumOfSquares(xs + [x]) == SumOfSquares(xs) + x * x
  {
    assert (xs + [x])[..|xs|] == xs;
  }

  /** Running minimum as kept, before it is compared with the true one. */
  ghost predicate KeptMin(m: int, xs: seq<int>) {
    && (xs == [] ==> m == 0)
    && (xs != [] && ((exists x :: x in xs && x < 0) || 0 !in xs) ==> IsMin(m, xs))
    && (xs != [] && (forall x :: x in xs ==> x >= 0) && 0 in xs ==>
          m >= 0 && (m == 0 <==> xs[|xs| - 1] == 0))
  }

  lemma KeptMinStep(m: int, xs: seq<int>, x: int)
    requires KeptMin(m, xs)
    ensures KeptMin(if x < m || m == 0 then x else m, xs + [x])
  {
    var ys := xs + [x];
    assert forall y :: y in ys <==> y in xs || y == x;
    assert ys[|ys| - 1] == x;
  }

  /** The statistics are those of the samples. */
  ghost predicate Summarises(s: Stats, xs: seq<int>) {
    && s.numevents == |xs| && s.sum == Sum(xs) && s.sumsqr == SumOfSquares(xs)
    && s.max >= 0 && (s.max == 0 || s.max in xs) && (forall x :: x in xs ==> x <= s.max)
    && KeptMin(s.min, xs)
  }

  lemma SampleTaken(s: Stats, xs: seq<int>, v: int)
    requires Summarises(s, xs) && s.tricount == 1
    ensures Summarises(AfterTrigger(s, v), xs + [v])
  {
    assert (xs + [v])[..|xs|] == xs;
    KeptMinStep(s.min, xs, v);
    assert v in xs + [v];
    assert forall y :: y in xs ==> y in xs + [v];
  }

  lemma SampleSkipped(s: Stats, xs: seq<int>, v: int)
    requires Summarises(s, xs) && (s.tricount == 0 || s.tricount == 2)
    ensures Summarises(AfterTrigger(s, v), xs)
  {
  }

  lemma CountTriggers(s: Stats, n: nat, v: int)
    requires s.tricount == n % 3
    ensures AfterTrigger(s, v).tricount == (n + 1) % 3
  {
  }

  /** One more trigger, sampled or not. */
  lemma TriggerSummarised(s: Stats, before: seq<int>, v: int)
    requires s.tricount == |before| % 3 && Summarises(s, Samples(before))
    ensures AfterTrigger(s, v).tricount == |before + [v]| % 3
    ensures Summarises(AfterTrigger(s, v), Samples(before + [v]))
  {
    ghost var xs := Samples(before);
    SamplesSnoc(before, v);
    CountTriggers(s, |before|, v);
    if s.tricount == 1 {
      SampleTaken(s, xs, v);
    } else {
      SampleSkipped(s, xs, v);
    }
  }

  /** Any number of triggers: the books are those of the samples. */
  lemma {:induction false} TriggersSummarised(values: seq<int>)
    ensures AfterAll(values).tricount == |values| % 3
    ensures Summarises(AfterAll(values), Samples(values))
    decreases |values|
  {
    if values != [] {
      var before, v := values[..|values| - 1], values[|values| - 1];
      TriggersSummarised(before);
      TriggerSummarised(AfterAll(before), before, v);
      assert before + [v] == values;
    }
  }

  /** The kept maximum is the maximum of the samples exactly when some sample is not negative. */
  lemma MaximumExact(values: seq<int>)
    requires Samples(values) != []
    ensures IsMax(AfterAll(values).max, Samples(values)) <==> exists x :: x in Samples(values) && x >= 0
  {
    TriggersSummarised(values);
  }

  /**
   * The kept minimum is the minimum of the samples exactly when some sample is negative,
   * or none is zero, or the last one is zero: otherwise a zero was overwritten.
   */
  lemma MinimumExact(values: seq<int>)
    requires Samples(values) != []
    ensures var xs := Samples(values);
            IsMin(AfterAll(values).min, xs) <==>
              (exists x :: x in xs && x < 0) || 0 !in xs || xs[|xs| - 1] == 0
  {
    TriggersSummarised(values);
  }

  /** The samples 0, 5 are reported with a wrong minimum. */
  lemma MinimumLosesZero()
    ensures var values := [7, 0, 7, 7, 5, 7];
            Samples(values) == [0, 5] && !IsMin(AfterAll(values).min, Samples(values))
  {
    var values := [7, 0, 7, 7, 5, 7];
    assert values[3..] == [7, 5, 7] && values[3..][3..] == [];
    assert Samples(values) == [0, 5];
    assert Samples(values)[0] == 0;
    MinimumExact(values);
  }
}
