/**
 * `RanDraw` (random.cpp:281-329): bounded integer sampling, the Fisher-Yates
 * shuffle with its three-xor swap, and the rejection loops around the uniform
 * draw. The generator behind it is the Mersenne Twister of module `Twister`;
 * the uniform and normal draws, whose floating-point algorithms are not part of
 * this model, are two given streams of reals read from a position that
 * advances by one per draw.
 *
 * `uint64_t` values outside the generator's state are integers in [0, 2^64)
 * here, and the xor of the swap is defined on their binary digits.
 */
module Random {
  import opened Results
  import Twister

  /** A `uint64_t` used as a number (an index, a bound, a vector entry). */
  type u64 = x: int | 0 <= x < Twister.TWO64

  // ---------------------------------------------------------------- bitwise xor on numbers

  /** Bitwise exclusive or, one binary digit at a time from the lowest. */
  function Xor(a: nat, b: nat): nat
    decreases a + b
  {
    if a == 0 && b == 0 then 0
    else 2 * Xor(a / 2, b / 2) + (if a % 2 == b % 2 then 0 else 1)
  }

  function Pow2(k: nat): nat {
    if k == 0 then 1 else 2 * Pow2(k - 1)
  }

  /** Eight more digits multiply the range by 256. */
  lemma {:induction false} Pow2Byte(k: nat)
    ensures Pow2(k + 8) == 256 * Pow2(k)
    decreases k
  {
    if k == 0 {
      assert Pow2(8) == 256;
    } else {
      Pow2Byte(k - 1);
      assert Pow2(k + 8) == 2 * Pow2(k - 1 + 8);
    }
  }

  /** A `uint64_t` holds exactly 64 binary digits. */
  lemma Pow2Word()
    ensures Pow2(64) == Twister.TWO64
  {
    Pow2Byte(0);
    Pow2Byte(8);
    Pow2Byte(16);
    Pow2Byte(24);
    Pow2Byte(32);
    Pow2Byte(40);
    Pow2Byte(48);
    Pow2Byte(56);
  }

  /** Xor of a value with itself clears every digit. */
  lemma {:induction false} XorSelf(a: nat)
    ensures Xor(a, a) == 0
    decreases a
  {
    if a != 0 {
      XorSelf(a / 2);
    }
  }

  lemma {:induction false} XorComm(a: nat, b: nat)
    ensures Xor(a, b) == Xor(b, a)
    decreases a + b
  {
    if a != 0 || b != 0 {
      XorComm(a / 2, b / 2);
    }
  }

  /** Xor-ing the same value in twice gives back the original. */
  lemma {:induction false} XorCancel(a: nat, b: nat)
    ensures Xor(Xor(a, b), b) == a
    decreases a + b
  {
    if a != 0 || b != 0 {
      var c := Xor(a, b);
      XorCancel(a / 2, b / 2);
      assert c / 2 == Xor(a / 2, b / 2) && c % 2 == (if a % 2 == b % 2 then 0 else 1);
    }
  }

  /** Xor never sets a digit above the highest digit of its operands. */
  lemma {:induction false} XorBelow(a: nat, b: nat, k: nat)
    requires a < Pow2(k) && b < Pow2(k)
    ensures Xor(a, b) < Pow2(k)
    decreases k
  {
    if a != 0 || b != 0 {
      XorBelow(a / 2, b / 2, k - 1);
    }
  }

  /** `a ^ b` on `uint64_t`. */
  function Xor64(a: u64, b: u64): u64 {
    Pow2Word();
    XorBelow(a, b, 64);
    Xor(a, b)
  }

  // ---------------------------------------------------------------- bounded sampling

  /** The word `ranInt()` returned, read as an unsigned number. */
  function FromBits(r: bv64): u64 {
    r as int
  }

  /**
   * `sampleInt(min, max)` given the generator's next number `r`: the error of
   * the source when `min >= max`, otherwise `min + r % (max - min)`.
   */
  function SampleIntFrom(min: u64, max: u64, r: u64): (res: Result<u64>)
    ensures res.Err? <==> min >= max
    ensures res.Ok? ==> min <= res.value < max
  {
    if min >= max then Err("Lower bound not smaller than upper bound")
    else Ok(min + r % (max - min))
  }

  /**
   * Which draws give which value: `v` comes out exactly when it is in range and
   * `r` is congruent to `v - min` modulo the width, so every value in range is
   * reachable.
   */
  lemma SampleIntExactly(min: u64, max: u64, r: u64, v: u64)
    requires min < max
    ensures SampleIntFrom(min, max, r) == Ok(v) <==> min <= v < max && r % (max - min) == v - min
    ensures min <= v < max ==> SampleIntFrom(min, max, v - min) == Ok(v)
  {
    if min <= v < max {
      ModOfSmaller(v - min, max - min);
    }
  }

  /** A draw in range maps to `min` plus the draw modulo the width. */
  lemma SampleIntFromOk(min: u64, max: u64, r: u64)
    requires min < max
    ensures SampleIntFrom(min, max, r) == Ok(min + r % (max - min))
  {
  }

  lemma ModOfSmaller(x: int, w: int)
    requires 0 <= x < w
    ensures x % w == x
  {
  }

  // ---------------------------------------------------------------- the shuffle

  /** `0, 1, ..., n - 1`: the vector the shuffle starts from. */
  function Iota(n: u64): (s: seq<u64>)
    ensures |s| == n
    ensures forall k :: 0 <= k < n ==> s[k] == k
  {
    seq(n, k requires 0 <= k < n => k)
  }

  /** The three statements `s[i] ^= s[j]; s[j] ^= s[i]; s[i] ^= s[j]`. */
  function XorSwap(s: seq<u64>, i: nat, j: nat): seq<u64>
    requires i < |s| && j < |s|
  {
    var s1 := s[i := Xor64(s[i], s[j])];
    var s2 := s1[j := Xor64(s1[j], s1[i])];
    s2[i := Xor64(s2[i], s2[j])]
  }

  /** Exchanging entries `i` and `j`. */
  function Swapped(s: seq<u64>, i: nat, j: nat): seq<u64>
    requires i < |s| && j < |s|
  {
    s[i := s[j]][j := s[i]]
  }

  /** On two different slots the three xors exchange the two entries exactly. */
  lemma XorSwapExchanges(s: seq<u64>, i: nat, j: nat)
    requires i < |s| && j < |s| && i != j
    ensures XorSwap(s, i, j) == Swapped(s, i, j)
  {
    var a, b := s[i], s[j];
    XorCancel(a, b);
    XorComm(b, Xor(a, b));
    XorComm(a, b);
    XorCancel(b, a);
    assert Xor64(b, Xor64(a, b)) == a;
    assert Xor64(Xor64(a, b), a) == b;
  }

  /** On one slot they clear it: hence the `i != j` guard of random.cpp:296. */
  lemma XorSwapSameSlotZeroes(s: seq<u64>, i: nat)
    requires i < |s|
    ensures XorSwap(s, i, i) == s[i := 0]
  {
    XorSelf(s[i]);
  }

  lemma SwappedKeepsEntries(s: seq<u64>, i: nat, j: nat)
    requires i < |s| && j < |s|
    ensures multiset(Swapped(s, i, j)) == multiset(s)
  {
    if i != j {
      var t := s[i := s[j]];
      assert multiset(t) == multiset(s) - multiset{s[i]} + multiset{s[j]};
      assert multiset(t[j := s[i]]) == multiset(t) - multiset{t[j]} + multiset{s[i]};
    }
  }

  /**
   * The vector after the first `|js|` steps of the shuffle that starts at index
   * `top`: step `k` exchanges entry `top - k` with entry `js[k]`.
   */
  function ApplySwaps(s: seq<u64>, top: nat, js: seq<nat>): (t: seq<u64>)
    requires top < |s| && |js| <= top
    requires forall k :: 0 <= k < |js| ==> js[k] <= top - k
    ensures |t| == |s|
  {
    if |js| == 0 then s
    else
      var k := |js| - 1;
      Swapped(ApplySwaps(s, top, js[..k]), top - k, js[k])
  }

  /** Before any draw the arrangement is untouched. */
  lemma ApplySwapsNone(s: seq<u64>, top: nat)
    requires top < |s|
    ensures ApplySwaps(s, top, []) == s
  {
  }

  /** Whatever the draws, the shuffle only rearranges the entries. */
  lemma {:induction false} ApplySwapsPermutes(s: seq<u64>, top: nat, js: seq<nat>)
    requires top < |s| && |js| <= top
    requires forall k :: 0 <= k < |js| ==> js[k] <= top - k
    ensures multiset(ApplySwaps(s, top, js)) == multiset(s)
    decreases |js|
  {
    if |js| != 0 {
      var k := |js| - 1;
      ApplySwapsPermutes(s, top, js[..k]);
      SwappedKeepsEntries(ApplySwaps(s, top, js[..k]), top - k, js[k]);
    }
  }

  /** One more step of the shuffle extends the swaps done so far by one. */
  lemma ShuffleStep(s: seq<u64>, js: seq<nat>, i: nat, j: nat)
    requires 0 < i < |s| && |js| == |s| - 1 - i && j <= i
    requires forall k :: 0 <= k < |js| ==> js[k] <= |s| - 1 - k
    ensures forall k :: 0 <= k < |js + [j]| ==> (js + [j])[k] <= |s| - 1 - k
    ensures Swapped(ApplySwaps(s, |s| - 1, js), i, j) == ApplySwaps(s, |s| - 1, js + [j])
  {
    assert (js + [j])[..|js|] == js;
  }

  /**
   * The loop start `N - 1` of random.cpp:293 computed in `uint64_t`: for an
   * empty vector it wraps to 2^64 - 1.
   */
  function ShuffleStart(n: u64): (i: u64)
    ensures n > 0 ==> i == n - 1
    ensures n == 0 ==> i == Twister.TWO64 - 1
  {
    (n + Twister.TWO64 - 1) % Twister.TWO64
  }

  /** The bound `i + 1` passed to `sampleInt` at random.cpp:294, in `uint64_t`. */
  function DrawBound(i: u64): (b: u64)
    ensures i < Twister.TWO64 - 1 ==> b == i + 1
    ensures i == Twister.TWO64 - 1 ==> b == 0
  {
    (i + 1) % Twister.TWO64
  }

  /**
   * As written, `shuffleUint(0)` enters its loop (the start index wrapped to
   * 2^64 - 1) and its first draw asks for a number below 0, which throws
   * instead of returning the empty vector.
   */
  lemma ShuffleOfZeroThrows(r: u64)
    ensures ShuffleStart(0) > 0
    ensures SampleIntFrom(0, DrawBound(ShuffleStart(0)), r).Err?
  {
  }

  // ---------------------------------------------------------------- the uniform stream

  predicate InUnit(x: real) {
    0.0 <= x <= 1.0
  }

  predicate Interior(x: real) {
    0.0 < x < 1.0
  }

  /** Some draw at position `p` or later lies strictly inside (0, 1). */
  ghost predicate InteriorAhead(u: nat -> real, p: nat) {
    exists k :: k >= p && Interior(u(k))
  }

  /**
   * What the model assumes of `runif()`: every draw lies in [0, 1], and the
   * stream never settles on the end points for good, so every rejection loop
   * ends.
   */
  ghost predicate UniformOk(u: nat -> real) {
    && (forall k :: InUnit(u(k)))
    && (forall p :: InteriorAhead(u, p))
  }

  /**
   * `p` is the first position at or after `start` whose uniform draw is not
   * 0.0: where `runifnz()` stops when the stream stands at `start`.
   */
  ghost predicate FirstNonZero(u: nat -> real, start: nat, p: nat) {
    start <= p && u(p) != 0.0 && forall q :: start <= q < p ==> u(q) == 0.0
  }

  /** That position is determined by the stream and the start. */
  lemma FirstNonZeroUnique(u: nat -> real, start: nat, p: nat, p': nat)
    requires FirstNonZero(u, start, p) && FirstNonZero(u, start, p')
    ensures p == p'
  {
  }

  /** Where the stream stands after stopping at the positions `ps`, started at `start`. */
  function NextStart(start: nat, ps: seq<nat>): nat {
    if |ps| == 0 then start else ps[|ps| - 1] + 1
  }

  /**
   * `ps` are the positions at which successive `runifnz()` calls stop, the
   * first call starting at `start` and each later one after the previous stop.
   */
  ghost predicate SuccessiveNonZero(u: nat -> real, start: nat, ps: seq<nat>) {
    forall k :: 0 <= k < |ps| ==> FirstNonZero(u, NextStart(start, ps[..k]), ps[k])
  }

  lemma SuccessiveNonZeroNone(u: nat -> real, start: nat)
    ensures SuccessiveNonZero(u, start, []) && NextStart(start, []) == start
  {
  }

  /** One more call stops at the first non-zero draw after the last stop. */
  lemma SuccessiveNonZeroExtend(u: nat -> real, start: nat, ps: seq<nat>, p: nat)
    requires SuccessiveNonZero(u, start, ps) && FirstNonZero(u, NextStart(start, ps), p)
    ensures SuccessiveNonZero(u, start, ps + [p]) && NextStart(start, ps + [p]) == p + 1
  {
    forall k | 0 <= k < |ps| + 1
      ensures FirstNonZero(u, NextStart(start, (ps + [p])[..k]), (ps + [p])[k])
    {
      if k < |ps| {
        assert (ps + [p])[..k] == ps[..k];
      } else {
        assert (ps + [p])[..k] == ps;
      }
    }
  }

  /** The draws at the positions `ps`. */
  ghost function DrawsAt(u: nat -> real, ps: seq<nat>): (vs: seq<real>)
    ensures |vs| == |ps|
  {
    seq(|ps|, k requires 0 <= k < |ps| => u(ps[k]))
  }

  lemma DrawsAtExtend(u: nat -> real, ps: seq<nat>, p: nat)
    ensures DrawsAt(u, ps + [p]) == DrawsAt(u, ps) + [u(p)]
  {
  }

  /** Every draw a `runifnz()` call stops at lies in (0, 1]. */
  lemma SuccessiveNonZeroInRange(u: nat -> real, start: nat, ps: seq<nat>)
    requires UniformOk(u) && SuccessiveNonZero(u, start, ps)
    ensures forall k :: 0 <= k < |ps| ==> 0.0 < DrawsAt(u, ps)[k] <= 1.0
  {
    forall k | 0 <= k < |ps| ensures 0.0 < DrawsAt(u, ps)[k] <= 1.0 {
      assert FirstNonZero(u, NextStart(start, ps[..k]), ps[k]);
      assert InUnit(u(ps[k]));
    }
  }

  /**
   * Successive stops are determined by the stream: two runs of the same number
   * of calls from the same start stop at the same positions.
   */
  lemma {:induction false} SuccessiveNonZeroUnique(u: nat -> real, start: nat, ps: seq<nat>, qs: seq<nat>)
    requires |ps| == |qs| && SuccessiveNonZero(u, start, ps) && SuccessiveNonZero(u, start, qs)
    ensures ps == qs
    decreases |ps|
  {
    hide SuccessiveNonZero, FirstNonZero, NextStart;
    if |ps| > 0 {
      var n := |ps| - 1;
      SuccessiveNonZeroPrefix(u, start, ps, n);
      SuccessiveNonZeroPrefix(u, start, qs, n);
      SuccessiveNonZeroUnique(u, start, ps[..n], qs[..n]);
      SuccessiveNonZeroLast(u, start, ps);
      SuccessiveNonZeroLast(u, start, qs);
      FirstNonZeroUnique(u, NextStart(start, ps[..n]), ps[n], qs[n]);
      assert ps == ps[..n] + [ps[n]] && qs == qs[..n] + [qs[n]];
    }
  }

  lemma SuccessiveNonZeroLast(u: nat -> real, start: nat, ps: seq<nat>)
    requires |ps| > 0 && SuccessiveNonZero(u, start, ps)
    ensures FirstNonZero(u, NextStart(start, ps[..|ps| - 1]), ps[|ps| - 1])
  {
  }

  /** The first `n` stops of a run are the stops of its first `n` calls. */
  lemma SuccessiveNonZeroPrefix(u: nat -> real, start: nat, ps: seq<nat>, n: nat)
    requires n <= |ps| && SuccessiveNonZero(u, start, ps)
    ensures SuccessiveNonZero(u, start, ps[..n])
  {
    forall k | 0 <= k < n ensures FirstNonZero(u, NextStart(start, ps[..n][..k]), ps[..n][k]) {
      assert ps[..n][..k] == ps[..k];
    }
  }

  // ---------------------------------------------------------------- the drawing object

  /** The identity arrangement `0 .. n-1`, filled in one slot at a time. */
  method Identity(n: u64) returns (s: seq<u64>)
    ensures s == Iota(n)
  {
    s := seq(n, _ => 0);
    var k := 0;
    while k < n
      invariant 0 <= k <= n && |s| == n
      invariant forall m :: 0 <= m < k ==> s[m] == m
    {
      s := s[k := k];
      k := k + 1;
    }
  }

  /**
   * The exchange of slots `i` and `j` by three xors, skipped when the two
   * slots coincide (the xors would zero the entry).
   */
  method ExchangeByXor(s: seq<u64>, i: nat, j: nat) returns (t: seq<u64>)
    requires i < |s| && j < |s|
    ensures t == Swapped(s, i, j)
  {
    if i == j {
      assert Swapped(s, i, j) == s;
      return s;
    }
    t := s[i := Xor64(s[i], s[j])];
    t := t[j := Xor64(t[j], t[i])];
    t := t[i := Xor64(t[i], t[j])];
    XorSwapExchanges(s, i, j);
  }

  class RanDraw {
    /** `rng_`, here always the Mersenne Twister (`kind_ == 'm'`). */
    const gen: Twister.GenerateMT
    /** The values successive `runif()` and `rnorm()` calls return. */
    const uniform: nat -> real
    const normal: nat -> real
    /** How many uniform and normal draws have been made. */
    var nUniform: nat
    var nNormal: nat

    ghost predicate Valid()
      reads this, gen
    {
      gen.Valid() && UniformOk(uniform)
    }

    constructor (seed: bv64, uniform: nat -> real, normal: nat -> real)
      requires UniformOk(uniform)
      ensures Valid() && fresh(gen) && fresh(gen.mt)
      ensures this.uniform == uniform && this.normal == normal
      ensures nUniform == 0 && nNormal == 0
    {
      gen := new Twister.GenerateMT(seed);
      this.uniform := uniform;
      this.normal := normal;
      nUniform := 0;
      nNormal := 0;
    }

    /** `this->ranInt()`: the generator's next number. */
    method RanInt() returns (r: bv64)
      requires Valid()
      modifies gen, gen.mt
      ensures Valid()
      ensures gen.mti == (if old(gen.mti) == Twister.N then 0 else old(gen.mti)) + 1
      ensures old(gen.mti) < Twister.N ==> unchanged(gen.mt)
      ensures old(gen.mti) == Twister.N ==> forall j :: 0 <= j < Twister.N ==> gen.mt[j] == Twister.Twisted(old(gen.mt[..]), j)
      ensures r == Twister.Temper(gen.mt[gen.mti - 1])
      ensures gen.State() == Twister.Advance(old(gen.State())) && r == Twister.Output(gen.State())
    {
      r := gen.RanInt();
    }

    /**
     * `sampleInt(min, max)`: throws when `min >= max` without drawing, otherwise
     * draws once and maps the number into `[min, max)`.
     */
    method SampleInt(min: u64, max: u64) returns (res: Result<u64>)
      requires Valid()
      modifies gen, gen.mt
      ensures Valid()
      ensures res.Err? <==> min >= max
      ensures res.Ok? ==> min <= res.value < max
      ensures min >= max ==> unchanged(gen) && unchanged(gen.mt)
      ensures min < max ==> gen.mti == (if old(gen.mti) == Twister.N then 0 else old(gen.mti)) + 1
      ensures min < max && old(gen.mti) == Twister.N ==> forall j :: 0 <= j < Twister.N ==> gen.mt[j] == Twister.Twisted(old(gen.mt[..]), j)
      ensures min < max ==> gen.State() == Twister.Advance(old(gen.State()))
      ensures min < max ==> res == SampleIntFrom(min, max, FromBits(Twister.Output(gen.State())))
    {
      if min >= max {
        return Err("Lower bound not smaller than upper bound");
      }
      var r := RanInt();
      res := Ok(min + FromBits(r) % (max - min));
    }

    /**
     * `shuffleUint(N)`: `0 .. N-1` rearranged by the descending Fisher-Yates
     * loop, swapping with the three xors. The empty case returns at once (see
     * `ShuffleOfZeroThrows` for the code as written). `js` are the drawn
     * partner indices, one per step: the k-th is the generator's k-th number
     * from here on, reduced modulo `n - k`.
     */
    method ShuffleUint(n: u64) returns (out: seq<u64>, ghost js: seq<nat>)
      requires Valid()
      modifies gen, gen.mt
      ensures Valid()
      ensures |out| == n
      ensures multiset(out) == multiset(Iota(n))
      ensures |js| == if n > 0 then n - 1 else 0
      ensures n > 0 ==> forall k :: 0 <= k < |js| ==> js[k] <= n - 1 - k
      ensures n > 0 ==> out == ApplySwaps(Iota(n), n - 1, js)
      ensures n > 0 ==> forall k :: 0 <= k < |js| ==> js[k] == FromBits(Twister.Output(Twister.AdvanceBy(old(gen.State()), k + 1))) % (n - k)
      ensures gen.State() == Twister.AdvanceBy(old(gen.State()), |js|)
    {
      hide Twister.Temper, FromBits, SampleIntFrom, ApplySwaps, Twister.Output, Twister.Advance, Twister.AdvanceBy;
      ghost var s0 := gen.State();
      Twister.AdvanceByNone(s0);
      js := [];
      if n == 0 {
        return [], js;
      }
      out := Identity(n);
      ApplySwapsNone(out, n - 1);
      var i: u64 := n - 1;
      while i > 0
        invariant Valid()
        invariant 0 <= i < n && |out| == n
        invariant |js| == n - 1 - i
        invariant forall k :: 0 <= k < |js| ==> js[k] <= n - 1 - k
        invariant out == ApplySwaps(Iota(n), n - 1, js)
        invariant forall k :: 0 <= k < |js| ==> js[k] == FromBits(Twister.Output(Twister.AdvanceBy(s0, k + 1))) % (n - k)
        invariant gen.State() == Twister.AdvanceBy(s0, |js|)
        decreases i
      {
        var res := SampleInt(0, i + 1);
        var j := res.value;
        Twister.AdvanceByNext(s0, |js|);
        SampleIntFromOk(0, i + 1, FromBits(Twister.Output(gen.State())));
        out := ExchangeByXor(out, i, j);
        ShuffleStep(Iota(n), js, i, j);
        js := js + [j];
        i := i - 1;
      }
      ApplySwapsPermutes(Iota(n), n - 1, js);
    }

    /** `runif()`: the next uniform draw. */
    method RUnif() returns (r: real)
      modifies this
      ensures nUniform == old(nUniform) + 1 && nNormal == old(nNormal)
      ensures r == uniform(old(nUniform))
    {
      r := uniform(nUniform);
      nUniform := nUniform + 1;
    }

    /** `rnorm()`: the next normal draw. */
    method RNorm() returns (z: real)
      modifies this
      ensures nNormal == old(nNormal) + 1 && nUniform == old(nUniform)
      ensures z == normal(old(nNormal))
    {
      z := normal(nNormal);
      nNormal := nNormal + 1;
    }

    /** `runifnz()`: draws until the value is not 0.0, so the result lies in (0, 1]. */
    method RUnifNz() returns (r: real)
      requires Valid()
      modifies this
      ensures Valid() && nNormal == old(nNormal)
      ensures old(nUniform) < nUniform && r == uniform(nUniform - 1)
      ensures 0.0 < r <= 1.0
      ensures forall k :: old(nUniform) <= k < nUniform - 1 ==> uniform(k) == 0.0
      ensures FirstNonZero(uniform, old(nUniform), nUniform - 1)
    {
      assert InteriorAhead(uniform, nUniform);
      ghost var w :| w >= nUniform && Interior(uniform(w));
      r := RUnif();
      while r == 0.0
        invariant old(nUniform) < nUniform <= w + 1 && nNormal == old(nNormal)
        invariant r == uniform(nUniform - 1)
        invariant forall k :: old(nUniform) <= k < nUniform - 1 ==> uniform(k) == 0.0
        decreases w + 1 - nUniform
      {
        r := RUnif();
      }
      assert InUnit(uniform(nUniform - 1));
    }

    /** `runifno()`: draws until the value is not 1.0, so the result lies in [0, 1). */
    method RUnifNo() returns (r: real)
      requires Valid()
      modifies this
      ensures Valid() && nNormal == old(nNormal)
      ensures old(nUniform) < nUniform && r == uniform(nUniform - 1)
      ensures 0.0 <= r < 1.0
      ensures forall k :: old(nUniform) <= k < nUniform - 1 ==> uniform(k) == 1.0
    {
      assert InteriorAhead(uniform, nUniform);
      ghost var w :| w >= nUniform && Interior(uniform(w));
      r := RUnif();
      while r == 1.0
        invariant old(nUniform) < nUniform <= w + 1 && nNormal == old(nNormal)
        invariant r == uniform(nUniform - 1)
        invariant forall k :: old(nUniform) <= k < nUniform - 1 ==> uniform(k) == 1.0
        decreases w + 1 - nUniform
      {
        r := RUnif();
      }
      assert InUnit(uniform(nUniform - 1));
    }

    /** `runifop()`: draws until the value is neither 1.0 nor 0.0, so the result lies in (0, 1). */
    method RUnifOp() returns (r: real)
      requires Valid()
      modifies this
      ensures Valid() && nNormal == old(nNormal)
      ensures old(nUniform) < nUniform && r == uniform(nUniform - 1)
      ensures 0.0 < r < 1.0
      ensures forall k :: old(nUniform) <= k < nUniform - 1 ==> uniform(k) == 1.0 || uniform(k) == 0.0
    {
      assert InteriorAhead(uniform, nUniform);
      ghost var w :| w >= nUniform && Interior(uniform(w));
      r := RUnif();
      while r == 1.0 || r == 0.0
        invariant old(nUniform) < nUniform <= w + 1 && nNormal == old(nNormal)
        invariant r == uniform(nUniform - 1)
        invariant forall k :: old(nUniform) <= k < nUniform - 1 ==> uniform(k) == 1.0 || uniform(k) == 0.0
        decreases w + 1 - nUniform
      {
        r := RUnif();
      }
      assert InUnit(uniform(nUniform - 1));
    }
  }
}
