/** The running average of `calculate_average`: the sum of the first
    `measurement_count` stored durations, accumulated in a `uint32_t`,
    divided by the count; 0 when there is nothing to average. */
module Averaging {
  import opened Uint32

  /** The exact (unbounded) sum of a run of durations. */
  function Sum(s: seq<U32>): nat
  {
    if s == [] then 0 else Sum(s[..|s| - 1]) + s[|s| - 1] as nat
  }

  /** The sum as a `uint32_t` accumulator computes it, adding left to right
      and wrapping on overflow: the exact sum reduced modulo 2^32. */
  function WrappedSum(s: seq<U32>): (r: U32)
    ensures r as int == Sum(s) % Modulus
  {
    if s == [] then 0 else Add(WrappedSum(s[..|s| - 1]), s[|s| - 1])
  }

  /** When the durations add up to less than 2^32 the accumulator does
      not wrap at all. */
  lemma NoOverflowSum(s: seq<U32>)
    requires Sum(s) < Modulus
    ensures WrappedSum(s) as int == Sum(s)
  {
  }

  /** An average kept exactly as the quotient `total / n`; `n == 0` stands
      for the literal 0 that `calculate_average` returns for an empty
      buffer (and that the firmware starts with). */
  datatype Average = Average(total: nat, n: nat)
  {
    /** The number this average denotes. */
    function Value(): (v: real)
      ensures n > 0 ==> v * n as real == total as real
      ensures n == 0 ==> v == 0.0
    {
      if n == 0 then 0.0 else total as real / n as real
    }
  }

  /** The "no data" average: the firmware's initial `current_average`. */
  const Zero: Average := Average(0, 0)

  /** What `calculate_average` returns for the buffer prefix `s` (the first
      `measurement_count` entries). */
  function MeanOf(s: seq<U32>): (a: Average)
    ensures |s| == 0 ==> a.Value() == 0.0
    ensures |s| > 0 ==> a.n == |s| && a.total == Sum(s) % Modulus
  {
    if |s| == 0 then Zero else Average(WrappedSum(s) as nat, |s|)
  }

  /** Without overflow of the accumulator the average is the exact
      arithmetic mean of the durations. */
  lemma MeanIsExactMean(s: seq<U32>)
    requires |s| > 0 && Sum(s) < Modulus
    ensures MeanOf(s).Value() == Sum(s) as real / |s| as real
  {
    NoOverflowSum(s);
  }

  /** The average is zero exactly when the buffer is empty or the
      accumulated sum is zero (a sum of zero-length durations, or one that
      wrapped to a multiple of 2^32). */
  lemma {:induction false} MeanZeroIff(s: seq<U32>)
    ensures MeanOf(s).Value() == 0.0 <==> (|s| == 0 || Sum(s) % Modulus == 0)
  {
    if |s| > 0 {
      var a := MeanOf(s);
      assert a.Value() * |s| as real == a.total as real;
    }
  }

  /** Appending one duration to a buffer prefix adds exactly that duration
      to the sum, so the average is recomputed over old entries plus the
      new one. */
  lemma SumAppend(p: seq<U32>, d: U32)
    ensures Sum(p + [d]) == Sum(p) + d as nat
  {
    assert (p + [d])[..|p + [d]| - 1] == p;
  }
}
