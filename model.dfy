/**
 * The sampler object `BayesQLD` (model.cpp:40-89): the assay data, the current
 * estimate `theta_` and the random source `rng_`. `update_` rewrites `theta_`
 * in place and `sampler` appends to the caller's vectors, so both are methods
 * proved against the pure step and chain of module `Metropolis`; `logPost_`
 * runs its nested loops and is proved against `Posterior.LogPosterior`.
 */
module Model {
  import opened Results
  import opened RealMath
  import opened Posterior
  import opened Metropolis
  import Random

  /** The message the constructor throws for vectors of different lengths. */
  const SizeError: string := "ERROR: all input vectors must be of the same size"

  /**
   * The `uint32_t` loops of `sampler` count from 1 while the counter is at
   * most the bound; they end only for bounds below this one.
   */
  const MaxCount: int := TWO32 - 1

  /** The normal draws `count` successive `rnorm()` calls return from position `start`. */
  function NormalDraws(normal: nat -> real, start: nat, count: nat): (zs: seq<real>)
    ensures |zs| == count
  {
    seq(count, k requires 0 <= k < count => normal(start + k))
  }

  lemma NormalDrawsNext(normal: nat -> real, start: nat, count: nat)
    ensures NormalDraws(normal, start, count + 1) == NormalDraws(normal, start, count) + [normal(start + count)]
  {
  }

  /** The `theta` of each record, in order. */
  function Thetas(steps: seq<Record>): (ts: seq<real>)
    ensures |ts| == |steps| && forall k :: 0 <= k < |steps| ==> ts[k] == steps[k].theta
  {
    seq(|steps|, k requires 0 <= k < |steps| => steps[k].theta)
  }

  /** The flag of each record, in order. */
  function Flags(steps: seq<Record>): (fs: seq<uint32>)
    ensures |fs| == |steps| && forall k :: 0 <= k < |steps| ==> fs[k] == steps[k].flag
  {
    seq(|steps|, k requires 0 <= k < |steps| => steps[k].flag)
  }

  /**
   * `ts` and `fs` are `thetaSamp` and `accept` with the `theta` and flag of
   * every record past the first `from` appended, in order.
   */
  ghost predicate Appended(thetaSamp: seq<real>, accept: seq<uint32>, ts: seq<real>, fs: seq<uint32>, steps: seq<Record>, from: nat) {
    from <= |steps| && ts == thetaSamp + Thetas(steps[from..]) && fs == accept + Flags(steps[from..])
  }

  lemma AppendedNone(thetaSamp: seq<real>, accept: seq<uint32>, steps: seq<Record>)
    ensures Appended(thetaSamp, accept, thetaSamp, accept, steps, |steps|)
  {
    assert thetaSamp + Thetas(steps[|steps|..]) == thetaSamp;
    assert accept + Flags(steps[|steps|..]) == accept;
  }

  /** Recording one more update appends its `theta` and flag. */
  lemma AppendedNext(thetaSamp: seq<real>, accept: seq<uint32>, ts: seq<real>, fs: seq<uint32>, steps: seq<Record>, from: nat, r: Record)
    requires Appended(thetaSamp, accept, ts, fs, steps, from)
    ensures Appended(thetaSamp, accept, ts + [r.theta], fs + [r.flag], steps + [r], from)
  {
    assert (steps + [r])[from..] == steps[from..] + [r];
    assert Thetas(steps[from..] + [r]) == Thetas(steps[from..]) + [r.theta];
    assert Flags(steps[from..] + [r]) == Flags(steps[from..]) + [r.flag];
  }

  /** What the appended vectors hold: the old contents first, then record `from + k` at `k` past them. */
  lemma AppendedGives(thetaSamp: seq<real>, accept: seq<uint32>, ts: seq<real>, fs: seq<uint32>, steps: seq<Record>, from: nat)
    requires Appended(thetaSamp, accept, ts, fs, steps, from)
    ensures |ts| == |thetaSamp| + (|steps| - from) && ts[..|thetaSamp|] == thetaSamp
    ensures |fs| == |accept| + (|steps| - from) && fs[..|accept|] == accept
    ensures forall k :: |thetaSamp| <= k < |ts| ==> ts[k] == steps[from + (k - |thetaSamp|)].theta
    ensures forall k :: |accept| <= k < |fs| ==> fs[k] == steps[from + (k - |accept|)].flag
  {
  }

  class BayesQLD {
    /** `posWells_`, `nWells_`, `dilution_`: set once by the constructor. */
    const posWells: seq<real>
    const nWells: seq<real>
    const dilution: seq<real>
    /** `lambda_`, the prior rate. */
    const rate: real
    /** The `exp` and `log` of <cmath>. */
    const math: Elementary
    /** `rng_`. */
    const rng: Random.RanDraw
    /** `theta_`, the current estimate. */
    var theta: real

    function Data(): Assay {
      Assay(posWells, nWells, dilution)
    }

    /** The data are consistent, the draws well formed and `theta_` positive. */
    ghost predicate Valid()
      reads this, rng, rng.gen
    {
      && SameLength(Data())
      && rate == Lambda
      && rng.Valid()
      && math.Lawful()
      && theta > 0.0
    }

    /**
     * The constructor once the length check has passed: stores the vectors
     * and starts `theta_` at `exp` of one normal draw.
     */
    constructor (pWellN: seq<real>, totWellN: seq<real>, dilutionFrac: seq<real>, math: Elementary, rng: Random.RanDraw)
      requires |pWellN| == |totWellN| && |totWellN| == |dilutionFrac|
      requires rng.Valid() && math.Lawful()
      modifies rng
      ensures Valid()
      ensures posWells == pWellN && nWells == totWellN && dilution == dilutionFrac
      ensures rate == Lambda && this.math == math && this.rng == rng
      ensures rng.nNormal == old(rng.nNormal) + 1 && rng.nUniform == old(rng.nUniform)
      ensures theta == math.exp(rng.normal(old(rng.nNormal)))
    {
      posWells := pWellN;
      nWells := totWellN;
      dilution := dilutionFrac;
      rate := Lambda;
      this.math := math;
      this.rng := rng;
      new;
      var z := rng.RNorm();
      theta := math.exp(z);
    }

    /**
     * The constructor as the source writes it: vectors of different lengths
     * end it with the size error before anything is drawn.
     */
    static method Create(pWellN: seq<real>, totWellN: seq<real>, dilutionFrac: seq<real>, math: Elementary, rng: Random.RanDraw)
      returns (res: Result<BayesQLD>)
      requires rng.Valid() && math.Lawful()
      modifies rng
      ensures res.Err? <==> !(|pWellN| == |totWellN| && |totWellN| == |dilutionFrac|)
      ensures res.Err? ==> res.msg == SizeError && unchanged(rng)
      ensures res.Ok? ==> fresh(res.value) && res.value.Valid() && res.value.rng == rng && res.value.math == math
      ensures res.Ok? ==> res.value.Data() == Assay(pWellN, totWellN, dilutionFrac) && res.value.rate == Lambda
      ensures res.Ok? ==> res.value.theta == math.exp(rng.normal(old(rng.nNormal)))
      ensures res.Ok? ==> rng.nNormal == old(rng.nNormal) + 1 && rng.nUniform == old(rng.nUniform)
    {
      if !(|pWellN| == |totWellN| && |totWellN| == |dilutionFrac|) {
        return Err(SizeError);
      }
      var q := new BayesQLD(pWellN, totWellN, dilutionFrac, math, rng);
      return Ok(q);
    }

    /**
     * `logPost_(th)`: the nested loops over the observations and, inside, over
     * the terms of the two log-factorial sums. Reads the data only.
     */
    method LogPost(th: real) returns (lp: real)
      requires SameLength(Data())
      ensures lp == LogPosterior(math, Data(), rate, th)
    {
      lp := 0.0;
      var i := 0;
      while i < |posWells|
        invariant 0 <= i <= |posWells|
        invariant lp == PartialLogPosterior(math, Data(), rate, th, i)
      {
        var lnIsum := 0.0;
        var di := posWells[i] + 1.0;
        while di <= nWells[i]
          invariant lnIsum + LogSum(math, di, nWells[i]) == LogSum(math, posWells[i] + 1.0, nWells[i])
          decreases Steps(di, nWells[i])
        {
          lnIsum := lnIsum + math.log(di);
          di := di + 1.0;
        }
        var lnKsum := 0.0;
        var dk := 2.0;
        while dk <= nWells[i] - posWells[i]
          invariant lnKsum + LogSum(math, dk, nWells[i] - posWells[i]) == LogSum(math, 2.0, nWells[i] - posWells[i])
          decreases Steps(dk, nWells[i] - posWells[i])
        {
          lnKsum := lnKsum + math.log(dk);
          dk := dk + 1.0;
        }
        assert lnIsum == LogSum(math, posWells[i] + 1.0, nWells[i]);
        assert lnKsum == LogSum(math, 2.0, nWells[i] - posWells[i]);
        assert lnIsum - lnKsum == LogComb(math, posWells[i], nWells[i]);
        ghost var term := ObsTerm(math, posWells[i], nWells[i], dilution[i], rate, th);
        assert PartialLogPosterior(math, Data(), rate, th, i + 1) == lp + term;
        ghost var lp0 := lp;
        lp := lp + lnIsum - lnKsum
          + posWells[i] * math.log(1.0 - math.exp(-dilution[i] * th))
          + (posWells[i] - nWells[i]) * dilution[i] * th
          - rate * th;
        assert lp == lp0 + term;
        i := i + 1;
      }
    }

    /**
     * `update_()`: one normal draw for the proposal, one non-zero uniform
     * draw for the decision; the new `theta_` and the flag are the step
     * `MHStep` takes from the old `theta_` with those two draws.
     */
    method Update() returns (flag: uint32)
      requires Valid()
      modifies this, rng
      ensures Valid()
      ensures rng.nNormal == old(rng.nNormal) + 1 && old(rng.nUniform) < rng.nUniform
      ensures 0.0 < rng.uniform(rng.nUniform - 1) <= 1.0
      ensures forall k :: old(rng.nUniform) <= k < rng.nUniform - 1 ==> rng.uniform(k) == 0.0
      ensures Random.FirstNonZero(rng.uniform, old(rng.nUniform), rng.nUniform - 1)
      ensures Record(theta, flag)
           == MHStep(math, Data(), rate, old(theta), rng.normal(old(rng.nNormal)), rng.uniform(rng.nUniform - 1))
    {
      hide LogPosterior;
      var sd := ProposalSd;
      var lTheta := math.log(theta);
      var z := rng.RNorm();
      var lThetaPrime := lTheta + sd * z;
      var lpProposed := LogPost(math.exp(lThetaPrime));
      var lpCurrent := LogPost(theta);
      var lAlpha := lpProposed - lpCurrent + lThetaPrime - lTheta;
      var u := rng.RUnifNz();
      var lU := math.log(u);
      MHStepKeepsPositive(math, Data(), rate, theta, z, u);
      if lU < lAlpha {
        theta := math.exp(lThetaPrime);
        flag := 1;
      } else {
        flag := 0;
      }
    }

    /**
     * The bookkeeping of `sampler` as it runs from `theta0`, with the normal
     * stream at `n0` and the uniform stream at `u0` when it began: `zs` are
     * the normal draws made since, `ps` the positions of the uniform draws
     * the updates decided with and `us` their values, and `steps` the chain
     * of updates they give, whose last `theta` is the current one.
     */
    ghost predicate Tracks(theta0: real, n0: nat, u0: nat, zs: seq<real>, us: seq<real>, ps: seq<nat>, steps: seq<Record>)
      reads this, rng
      requires SameLength(Data())
    {
      && |zs| == |us| && rng.nNormal == n0 + |zs|
      && zs == NormalDraws(rng.normal, n0, |zs|)
      && us == Random.DrawsAt(rng.uniform, ps)
      && Random.SuccessiveNonZero(rng.uniform, u0, ps)
      && rng.nUniform == Random.NextStart(u0, ps)
      && steps == Chain(math, Data(), rate, theta0, zs, us)
      && theta == Current(theta0, steps)
    }

    lemma TracksStart()
      requires SameLength(Data())
      ensures Tracks(theta, rng.nNormal, rng.nUniform, [], [], [], [])
    {
      Random.SuccessiveNonZeroNone(rng.uniform, rng.nUniform);
      ChainEmpty(math, Data(), rate, theta);
    }

    /** One `update_()` inside `sampler`, with the bookkeeping carried along. */
    method TrackedUpdate(ghost theta0: real, ghost n0: nat, ghost u0: nat, ghost zs: seq<real>, ghost us: seq<real>, ghost ps: seq<nat>, ghost steps: seq<Record>)
      returns (flag: uint32, ghost zs': seq<real>, ghost us': seq<real>, ghost ps': seq<nat>, ghost steps': seq<Record>)
      requires Valid() && Tracks(theta0, n0, u0, zs, us, ps, steps)
      modifies this, rng
      ensures Valid() && Tracks(theta0, n0, u0, zs', us', ps', steps')
      ensures |zs'| == |zs| + 1 && steps' == steps + [Record(theta, flag)]
    {
      hide MHStep, LogPosterior, Chain, NormalDraws, Random.SuccessiveNonZero, Random.FirstNonZero, Random.NextStart, Random.DrawsAt, Random.UniformOk;
      ghost var z := rng.normal(rng.nNormal);
      flag := Update();
      ghost var p := rng.nUniform - 1;
      ghost var u := rng.uniform(p);
      Random.SuccessiveNonZeroExtend(rng.uniform, u0, ps, p);
      Random.DrawsAtExtend(rng.uniform, ps, p);
      NormalDrawsNext(rng.normal, n0, |zs|);
      ChainExtend(math, Data(), rate, theta0, zs, us, z, u);
      steps', zs', us', ps' := steps + [Record(theta, flag)], zs + [z], us + [u], ps + [p];
    }

    /**
     * `sampler(Nburnin, Nsamples, thetaSamp, accept)`: `Nburnin` updates that
     * record nothing, then `Nsamples` updates each appending the flag to
     * `accept` and the new `theta_` to `thetaSamp`, after what the vectors
     * already held. `us` are the uniform values the updates decided with, and
     * `ps` their positions in the uniform stream: each update's is the first
     * non-zero draw after the previous one's.
     */
    method Sampler(nBurnin: uint32, nSamples: uint32, thetaSamp: seq<real>, accept: seq<uint32>)
      returns (thetaSamp': seq<real>, accept': seq<uint32>, ghost us: seq<real>, ghost ps: seq<nat>)
      requires Valid()
      requires nBurnin < MaxCount && nSamples < MaxCount
      modifies this, rng
      ensures Valid()
      ensures rng.nNormal == old(rng.nNormal) + nBurnin + nSamples
      ensures |us| == nBurnin + nSamples && forall k :: 0 <= k < |us| ==> 0.0 < us[k] <= 1.0
      ensures us == Random.DrawsAt(rng.uniform, ps)
      ensures Random.SuccessiveNonZero(rng.uniform, old(rng.nUniform), ps)
      ensures rng.nUniform == Random.NextStart(old(rng.nUniform), ps)
      ensures |thetaSamp'| == |thetaSamp| + nSamples && thetaSamp'[..|thetaSamp|] == thetaSamp
      ensures |accept'| == |accept| + nSamples && accept'[..|accept|] == accept
      ensures var steps := Chain(math, Data(), rate, old(theta), NormalDraws(rng.normal, old(rng.nNormal), nBurnin + nSamples), us);
        && theta == Current(old(theta), steps)
        && (forall k :: |thetaSamp| <= k < |thetaSamp'| ==> thetaSamp'[k] == steps[nBurnin + (k - |thetaSamp|)].theta)
        && (forall k :: |accept| <= k < |accept'| ==> accept'[k] == steps[nBurnin + (k - |accept|)].flag)
      ensures forall k :: |thetaSamp| <= k < |thetaSamp'| ==> thetaSamp'[k] > 0.0
    {
      thetaSamp' := thetaSamp;
      accept' := accept;
      ghost var theta0, n0, u0 := theta, rng.nNormal, rng.nUniform;
      ghost var zs: seq<real> := [];
      ghost var steps: seq<Record> := [];
      us, ps := [], [];
      TracksStart();
      ValidGives();
      hide Tracks, Appended, Valid, MHStep, LogPosterior, Chain, Current, NormalDraws, Random.DrawsAt, Random.SuccessiveNonZero, Random.NextStart;
      var iBnin: uint32 := 1;
      while iBnin <= nBurnin
        invariant Valid() && 1 <= iBnin <= nBurnin + 1
        invariant |zs| == |steps| == iBnin - 1 && Tracks(theta0, n0, u0, zs, us, ps, steps)
        invariant thetaSamp' == thetaSamp && accept' == accept
      {
        var flag;
        flag, zs, us, ps, steps := TrackedUpdate(theta0, n0, u0, zs, us, ps, steps);
        iBnin := iBnin + 1;
      }
      AppendedNone(thetaSamp, accept, steps);
      var iSamp: uint32 := 1;
      while iSamp <= nSamples
        invariant Valid() && 1 <= iSamp <= nSamples + 1
        invariant |zs| == |steps| == nBurnin + iSamp - 1 && Tracks(theta0, n0, u0, zs, us, ps, steps)
        invariant Appended(thetaSamp, accept, thetaSamp', accept', steps, nBurnin)
      {
        var flag;
        ghost var before := steps;
        flag, zs, us, ps, steps := TrackedUpdate(theta0, n0, u0, zs, us, ps, steps);
        AppendedNext(thetaSamp, accept, thetaSamp', accept', before, nBurnin, Record(theta, flag));
        accept' := accept' + [flag];
        thetaSamp' := thetaSamp' + [theta];
        iSamp := iSamp + 1;
      }
      TracksGive(theta0, n0, u0, zs, us, ps, steps);
      ValidGives();
      ChainPositive(math, Data(), rate, theta0, zs, us);
      Random.SuccessiveNonZeroInRange(rng.uniform, u0, ps);
      AppendedGives(thetaSamp, accept, thetaSamp', accept', steps, nBurnin);
    }

    lemma ValidGives()
      requires Valid()
      ensures SameLength(Data()) && math.Lawful() && rng.Valid() && theta > 0.0
    {
    }

    lemma TracksGive(theta0: real, n0: nat, u0: nat, zs: seq<real>, us: seq<real>, ps: seq<nat>, steps: seq<Record>)
      requires SameLength(Data()) && Tracks(theta0, n0, u0, zs, us, ps, steps)
      ensures |zs| == |us| && |steps| == |zs| && rng.nNormal == n0 + |zs|
      ensures zs == NormalDraws(rng.normal, n0, |zs|)
      ensures us == Random.DrawsAt(rng.uniform, ps)
      ensures Random.SuccessiveNonZero(rng.uniform, u0, ps)
      ensures rng.nUniform == Random.NextStart(u0, ps)
      ensures steps == Chain(math, Data(), rate, theta0, zs, us)
      ensures theta == Current(theta0, steps)
    {
    }
  }
}
