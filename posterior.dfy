/**
 * The log-posterior of the quantal limited dilution assay (model.cpp:59-75),
 * as a pure specification over reals. Observation `i` is a dilution at which
 * `pos[i]` of `total[i]` wells came out positive, the dilution fraction being
 * `dilution[i]`; `theta` is the number of positives in the undiluted sample.
 *
 * Each observation contributes the log of a binomial coefficient, the log
 * likelihood of the positive and negative wells, and `-rate * theta` from
 * an exponential prior on `theta`.
 */
module Posterior {
  import opened RealMath

  /** `lambda_`, the rate of the exponential prior (model.cpp:41). */
  const Lambda: real := 0.0001

  /** The three data vectors `posWells_`, `nWells_` and `dilution_`. */
  datatype Assay = Assay(pos: seq<real>, total: seq<real>, dilution: seq<real>)

  /** What the constructor insists on: one entry per observation in every vector. */
  predicate SameLength(a: Assay) {
    |a.pos| == |a.total| && |a.total| == |a.dilution|
  }

  /** The number of observations. */
  function Size(a: Assay): nat {
    |a.pos|
  }

  /** Two assays run one after the other, as one data set. */
  function Concat(a: Assay, b: Assay): (c: Assay)
    requires SameLength(a) && SameLength(b)
    ensures SameLength(c) && Size(c) == Size(a) + Size(b)
  {
    Assay(a.pos + b.pos, a.total + b.total, a.dilution + b.dilution)
  }

  /** How many whole steps of 1.0 lead from `lo` to at most `hi`. */
  function Steps(lo: real, hi: real): nat {
    if lo <= hi then (hi - lo).Floor + 1 else 0
  }

  /** log(lo) + log(lo + 1) + ... over the terms that do not exceed `hi`. */
  function LogSum(m: Elementary, lo: real, hi: real): real
    decreases Steps(lo, hi)
  {
    if lo <= hi then m.log(lo) + LogSum(m, lo + 1.0, hi) else 0.0
  }

  /**
   * log(n! / pos!) - log((n - pos)!), written as the two sums the source
   * accumulates: `lnIsum` over pos+1 .. n and `lnKsum` over 2 .. n-pos.
   */
  function LogComb(m: Elementary, pos: real, n: real): (r: real)
    ensures pos >= n ==> r == 0.0
  {
    LogSum(m, pos + 1.0, n) - LogSum(m, 2.0, n - pos)
  }

  /** The contribution of one observation, the prior having rate `rate`. */
  function ObsTerm(m: Elementary, pos: real, n: real, d: real, rate: real, theta: real): real {
    LogComb(m, pos, n)
      + pos * m.log(1.0 - m.exp(-d * theta))
      + (pos - n) * d * theta
      - rate * theta
  }

  /** The sum of the contributions of the first `k` observations. */
  function PartialLogPosterior(m: Elementary, a: Assay, rate: real, theta: real, k: nat): real
    requires SameLength(a) && k <= Size(a)
  {
    if k == 0 then 0.0
    else
      PartialLogPosterior(m, a, rate, theta, k - 1)
        + ObsTerm(m, a.pos[k - 1], a.total[k - 1], a.dilution[k - 1], rate, theta)
  }

  /** The value `logPost_(theta)` computes, the prior having rate `rate`. */
  function LogPosterior(m: Elementary, a: Assay, rate: real, theta: real): (lp: real)
    requires SameLength(a)
    ensures Size(a) == 0 ==> lp == 0.0
  {
    PartialLogPosterior(m, a, rate, theta, Size(a))
  }

  // ---------------------------------------------------------------- properties

  lemma {:induction false} PartialPriorOnce(m: Elementary, a: Assay, rate: real, theta: real, k: nat)
    requires SameLength(a) && k <= Size(a)
    ensures PartialLogPosterior(m, a, rate, theta, k)
         == PartialLogPosterior(m, a, 0.0, theta, k) - (k as real) * rate * theta
    decreases k
  {
    if k > 0 {
      PartialPriorOnce(m, a, rate, theta, k - 1);
      assert (k as real) * rate * theta == ((k - 1) as real) * rate * theta + rate * theta;
    }
  }

  /**
   * The prior term enters once per observation: the log-posterior is the
   * prior-free sum less `rate * theta` for each of the `Size(a)` entries.
   */
  lemma PriorOncePerObservation(m: Elementary, a: Assay, rate: real, theta: real)
    requires SameLength(a)
    ensures LogPosterior(m, a, rate, theta)
         == LogPosterior(m, a, 0.0, theta) - (Size(a) as real) * rate * theta
  {
    PartialPriorOnce(m, a, rate, theta, Size(a));
  }

  lemma {:induction false} PartialConcat(m: Elementary, a: Assay, b: Assay, rate: real, theta: real, k: nat)
    requires SameLength(a) && SameLength(b) && k <= Size(b)
    ensures PartialLogPosterior(m, Concat(a, b), rate, theta, Size(a) + k)
         == LogPosterior(m, a, rate, theta) + PartialLogPosterior(m, b, rate, theta, k)
    decreases k
  {
    hide ObsTerm;
    var c := Concat(a, b);
    if k == 0 {
      PartialPrefix(m, a, c, rate, theta, Size(a));
    } else {
      PartialConcat(m, a, b, rate, theta, k - 1);
      var i := Size(a) + k - 1;
      assert c.pos[i] == b.pos[k - 1] && c.total[i] == b.total[k - 1] && c.dilution[i] == b.dilution[k - 1];
    }
  }

  /** The first `k` observations alone decide the partial sum. */
  lemma {:induction false} PartialPrefix(m: Elementary, a: Assay, c: Assay, rate: real, theta: real, k: nat)
    requires SameLength(a) && SameLength(c) && k <= Size(a) && k <= Size(c)
    requires forall j :: 0 <= j < k ==> a.pos[j] == c.pos[j] && a.total[j] == c.total[j] && a.dilution[j] == c.dilution[j]
    ensures PartialLogPosterior(m, a, rate, theta, k) == PartialLogPosterior(m, c, rate, theta, k)
    decreases k
  {
    if k > 0 {
      PartialPrefix(m, a, c, rate, theta, k - 1);
    }
  }

  /**
   * Observations contribute independently: the log-posterior of two assays
   * pooled is the sum of their log-posteriors.
   */
  lemma LogPosteriorConcat(m: Elementary, a: Assay, b: Assay, rate: real, theta: real)
    requires SameLength(a) && SameLength(b)
    ensures LogPosterior(m, Concat(a, b), rate, theta)
         == LogPosterior(m, a, rate, theta) + LogPosterior(m, b, rate, theta)
  {
    PartialConcat(m, a, b, rate, theta, Size(b));
  }
}
