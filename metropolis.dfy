/**
 * The Metropolis-Hastings step of `BayesQLD::update_` (model.cpp:77-89) as a
 * pure function of the current `theta`, the normal draw `z` and the uniform
 * draw `u`, and the chain of such steps that `sampler` (model.cpp:48-57) runs.
 *
 * The proposal is a random walk on `log theta` with standard deviation 0.4, so
 * it is not symmetric in `theta`; the acceptance ratio carries the Jacobian
 * `log theta' - log theta` for that.
 */
module Metropolis {
  import opened RealMath
  import opened Posterior

  /** The proposal standard deviation `sd` of model.cpp:78. */
  const ProposalSd: real := 0.4

  const TWO32: int := 0x1_0000_0000

  /** `uint32_t`, the type of the acceptance flag and of the loop counters. */
  type uint32 = x: int | 0 <= x < TWO32

  /** What one update leaves behind: the new `theta_` and the flag it returned. */
  datatype Record = Record(theta: real, flag: uint32)

  /** The proposed value for a normal draw `z`: `theta` moved by `0.4 z` in log space. */
  function Proposal(m: Elementary, theta: real, z: real): real {
    m.exp(m.log(theta) + ProposalSd * z)
  }

  /**
   * The textbook Metropolis-Hastings log acceptance ratio for moving from
   * `theta` to `thetaPrime` under a proposal that is symmetric in log space:
   * the log-posterior difference plus the Jacobian `log thetaPrime - log theta`.
   */
  function LogAcceptRatio(m: Elementary, a: Assay, rate: real, theta: real, thetaPrime: real): real
    requires SameLength(a)
  {
    LogPosterior(m, a, rate, thetaPrime) - LogPosterior(m, a, rate, theta)
      + m.log(thetaPrime) - m.log(theta)
  }

  /**
   * One call of `update_` from `theta` with draws `z` (normal) and `u`
   * (uniform, non-zero), computed as the source does, in log space.
   */
  function MHStep(m: Elementary, a: Assay, rate: real, theta: real, z: real, u: real): (s: Record)
    requires SameLength(a)
    ensures s.flag == 0 || s.flag == 1
    ensures s.flag == 0 ==> s.theta == theta
    ensures s.flag == 1 ==> s.theta == Proposal(m, theta, z)
  {
    var lTheta := m.log(theta);
    var lThetaPrime := lTheta + ProposalSd * z;
    var lAlpha := LogPosterior(m, a, rate, m.exp(lThetaPrime)) - LogPosterior(m, a, rate, theta)
      + lThetaPrime - lTheta;
    if m.log(u) < lAlpha then Record(m.exp(lThetaPrime), 1) else Record(theta, 0)
  }

  /**
   * The step accepts exactly when `log u` is below the Metropolis-Hastings
   * ratio of the proposal: the source's shortcut of using `lThetaPrime` for
   * `log(exp(lThetaPrime))` changes nothing.
   */
  lemma MHStepIsMetropolisHastings(m: Elementary, a: Assay, rate: real, theta: real, z: real, u: real)
    requires SameLength(a) && m.Lawful()
    ensures MHStep(m, a, rate, theta, z, u).flag == 1
        <==> m.log(u) < LogAcceptRatio(m, a, rate, theta, Proposal(m, theta, z))
  {
    var lThetaPrime := m.log(theta) + ProposalSd * z;
    assert m.log(m.exp(lThetaPrime)) == lThetaPrime;
  }

  /** Whatever the draws, a positive `theta` stays positive. */
  lemma MHStepKeepsPositive(m: Elementary, a: Assay, rate: real, theta: real, z: real, u: real)
    requires SameLength(a) && m.Lawful() && theta > 0.0
    ensures MHStep(m, a, rate, theta, z, u).theta > 0.0
  {
    var lThetaPrime := m.log(theta) + ProposalSd * z;
    assert m.exp(lThetaPrime) > 0.0;
  }

  // ---------------------------------------------------------------- the chain

  /** The `theta` held after the recorded steps, `theta0` before any. */
  function Current(theta0: real, steps: seq<Record>): real {
    if |steps| == 0 then theta0 else steps[|steps| - 1].theta
  }

  /** The records of successive updates from `theta0`, the k-th using `zs[k]` and `us[k]`. */
  function Chain(m: Elementary, a: Assay, rate: real, theta0: real, zs: seq<real>, us: seq<real>): (steps: seq<Record>)
    requires SameLength(a) && |zs| == |us|
    ensures |steps| == |zs|
    decreases |zs|
  {
    if |zs| == 0 then []
    else
      var k := |zs| - 1;
      var prev := Chain(m, a, rate, theta0, zs[..k], us[..k]);
      prev + [MHStep(m, a, rate, Current(theta0, prev), zs[k], us[k])]
  }

  /** No draws, no records. */
  lemma ChainEmpty(m: Elementary, a: Assay, rate: real, theta0: real)
    requires SameLength(a)
    ensures Chain(m, a, rate, theta0, [], []) == []
  {
  }

  /** One more pair of draws adds one record, the step from where the chain stood. */
  lemma ChainExtend(m: Elementary, a: Assay, rate: real, theta0: real, zs: seq<real>, us: seq<real>, z: real, u: real)
    requires SameLength(a) && |zs| == |us|
    ensures Chain(m, a, rate, theta0, zs + [z], us + [u])
         == Chain(m, a, rate, theta0, zs, us)
            + [MHStep(m, a, rate, Current(theta0, Chain(m, a, rate, theta0, zs, us)), z, u)]
  {
    assert (zs + [z])[..|zs|] == zs;
    assert (us + [u])[..|us|] == us;
  }

  /** A chain of `k` records is the first `k` records of any longer chain. */
  lemma {:induction false} ChainPrefix(m: Elementary, a: Assay, rate: real, theta0: real, zs: seq<real>, us: seq<real>, k: nat)
    requires SameLength(a) && |zs| == |us| && k <= |zs|
    ensures Chain(m, a, rate, theta0, zs, us)[..k] == Chain(m, a, rate, theta0, zs[..k], us[..k])
    decreases |zs|
  {
    if k < |zs| {
      var n := |zs| - 1;
      ChainPrefix(m, a, rate, theta0, zs[..n], us[..n], k);
      assert zs[..n][..k] == zs[..k];
      assert us[..n][..k] == us[..k];
    } else {
      assert zs[..k] == zs;
      assert us[..k] == us;
    }
  }

  /**
   * Record `k` is the update from the `theta` that record `k - 1` left
   * (`theta0` for the first), with the k-th draws.
   */
  lemma ChainStep(m: Elementary, a: Assay, rate: real, theta0: real, zs: seq<real>, us: seq<real>, k: nat)
    requires SameLength(a) && |zs| == |us| && k < |zs|
    ensures var steps := Chain(m, a, rate, theta0, zs, us);
      steps[k] == MHStep(m, a, rate, Current(theta0, steps[..k]), zs[k], us[k])
  {
    var steps := Chain(m, a, rate, theta0, zs, us);
    ChainPrefix(m, a, rate, theta0, zs, us, k + 1);
    ChainPrefix(m, a, rate, theta0, zs, us, k);
    assert zs[..k + 1][..k] == zs[..k];
    assert us[..k + 1][..k] == us[..k];
    assert steps[k] == steps[..k + 1][k];
  }

  /** Every `theta` the chain records is positive when it starts positive. */
  lemma {:induction false} ChainPositive(m: Elementary, a: Assay, rate: real, theta0: real, zs: seq<real>, us: seq<real>)
    requires SameLength(a) && |zs| == |us| && m.Lawful() && theta0 > 0.0
    ensures forall k :: 0 <= k < |zs| ==> Chain(m, a, rate, theta0, zs, us)[k].theta > 0.0
    decreases |zs|
  {
    if |zs| > 0 {
      var n := |zs| - 1;
      var prev := Chain(m, a, rate, theta0, zs[..n], us[..n]);
      ChainPositive(m, a, rate, theta0, zs[..n], us[..n]);
      assert Current(theta0, prev) > 0.0 by {
        if n > 0 {
          assert prev[n - 1].theta > 0.0;
        }
      }
      MHStepKeepsPositive(m, a, rate, Current(theta0, prev), zs[n], us[n]);
      assert Chain(m, a, rate, theta0, zs, us) == prev + [MHStep(m, a, rate, Current(theta0, prev), zs[n], us[n])];
    }
  }

  /**
   * A record with flag 0 repeats the `theta` held before that update; one
   * with flag 1 holds the proposal made from it.
   */
  lemma ChainRejectKeeps(m: Elementary, a: Assay, rate: real, theta0: real, zs: seq<real>, us: seq<real>, k: nat)
    requires SameLength(a) && |zs| == |us| && k < |zs|
    ensures var steps := Chain(m, a, rate, theta0, zs, us);
      var before := if k == 0 then theta0 else steps[k - 1].theta;
      && (steps[k].flag == 0 ==> steps[k].theta == before)
      && (steps[k].flag == 1 ==> steps[k].theta == Proposal(m, before, zs[k]))
  {
    ChainStep(m, a, rate, theta0, zs, us, k);
  }
}
