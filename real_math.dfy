/**
 * The two elementary functions of <cmath> that the sampler uses. Real `exp` and
 * `log` cannot be defined in Dafny, so the model takes them as values and states
 * the only two laws it relies on; every property that needs them says so.
 */
module RealMath {

  datatype Elementary = Elementary(exp: real -> real, log: real -> real) {

    /** `exp` is positive everywhere and `log` undoes it. */
    ghost predicate Lawful() {
      && (forall x :: exp(x) > 0.0)
      && (forall x :: log(exp(x)) == x)
    }
  }
}
