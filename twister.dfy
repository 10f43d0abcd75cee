/**
 * The 64-bit Mersenne Twister `GenerateMT` (random.cpp:70-132): a state of 312
 * words, an index into it, seeding, the in-place regeneration ("twist") and
 * tempering of the extracted word.
 *
 * The masks keep the names they have in the source. `LM` keeps the HIGH 33 bits
 * and `UM` the LOW 31 bits, and the join takes `mt[i] & UM` and `mt[i + 1] & LM`:
 * the low 31 bits of one word with the high 33 bits of the next, the reverse of
 * the published MT19937-64. The model follows the code, so its output is not the
 * reference generator's.
 */
module Twister {

  /** Number of state words (`n_`) and the recurrence offset (`m_`). */
  const N: nat := 312
  const M: nat := 156

  const LM: bv64 := 0xFFFF_FFFF_8000_0000
  const UM: bv64 := 0x7FFF_FFFF
  /** Tempering masks `b_`, `c_`, `d_`. */
  const B: bv64 := 0x71D6_7FFF_EDA6_0000
  const C: bv64 := 0xFFF7_EEE0_0000_0000
  const D: bv64 := 0x5555_5555_5555_5555
  /** `alt_`: what the twist adds according to the lowest bit of the joined word. */
  const ALT: seq<bv64> := [0, 0xB502_6F5A_A966_19E9]
  /** The seeding multiplier `f`. */
  const SEED_MULT: bv64 := 6364136223846793005
  /** 2^64, the modulus of `size_t` arithmetic. */
  const TWO64: nat := 0x1_0000_0000_0000_0000

  // ---------------------------------------------------------------- seeding

  /** One step of the seeding recurrence: word `i` from word `i - 1`, modulo 2^64. */
  function SeedNext(prev: bv64, i: nat): bv64
    requires i < N
  {
    SEED_MULT * (prev ^ (prev >> 62)) + i as bv64
  }

  /** Word `i` of the state right after seeding with `seed`. */
  function SeedWord(seed: bv64, i: nat): bv64
    requires i < N
  {
    if i == 0 then seed else SeedNext(SeedWord(seed, i - 1), i)
  }

  /** The seeding loop of the constructor: a fresh state whose words follow `SeedWord`. */
  method Seed(seed: bv64) returns (mt: array<bv64>)
    ensures fresh(mt) && mt.Length == N
    ensures forall i :: 0 <= i < N ==> mt[i] == SeedWord(seed, i)
  {
    mt := new bv64[N];
    mt[0] := seed;
    var i := 1;
    while i < N
      invariant 1 <= i <= N
      invariant forall j :: 0 <= j < i ==> mt[j] == SeedWord(seed, j)
    {
      mt[i] := SeedNext(mt[i - 1], i);
      i := i + 1;
    }
  }

  // ---------------------------------------------------------------- twist

  /** `(a & um_) | (b & lm_)`: the low 31 bits of `a` with the high 33 bits of `b`. */
  function Join(a: bv64, b: bv64): (x: bv64)
    ensures x & 0x7FFF_FFFF == a & 0x7FFF_FFFF
    ensures x >> 31 == b >> 31
  {
    (a & UM) | (b & LM)
  }

  /** `static_cast<size_t>(x_ & 1ULL)`, the index into `alt_`. */
  function AltIndex(x: bv64): (k: nat)
    ensures k < |ALT|
    ensures k == 0 <==> x & 1 == 0
  {
    (x & 1) as nat
  }

  /**
   * One word of the twist: `cur` and `next` are joined, and the result is the
   * word `mid` (`m_` positions ahead) xor the join shifted right by one, xor
   * `alt_` chosen by the join's lowest bit.
   */
  function Recur(cur: bv64, next: bv64, mid: bv64): bv64 {
    var x := Join(cur, next);
    mid ^ (x >> 1) ^ ALT[AltIndex(x)]
  }

  /**
   * `i + (m_ - n_)` at random.cpp:114: `m_ - n_` is the int -156, which becomes
   * 2^64 - 156 as a `size_t`; the sum wraps back to `i - 156`.
   */
  function WrapIndex(i: nat): (k: nat)
    requires N - M <= i < N - 1
    ensures k == i - (N - M) && k <= N - M - 2
  {
    (i + (TWO64 + M - N)) % TWO64
  }

  /** New word `j` of the first half, which reads old words only. */
  function Early(s: seq<bv64>, j: nat): bv64
    requires |s| == N && j < N - M
  {
    Recur(s[j], s[j + 1], s[j + M])
  }

  /** New word `j` of the second half, which reads the new word `m_` positions back. */
  function Late(s: seq<bv64>, j: nat): bv64
    requires |s| == N && N - M <= j < N - 1
  {
    Recur(s[j], s[j + 1], Early(s, j - (N - M)))
  }

  lemma EarlyIsStep(s: seq<bv64>, j: nat)
    requires |s| == N && j < N - M
    ensures Early(s, j) == Recur(s[j], s[j + 1], s[j + M])
  {
  }

  lemma LateIsStep(s: seq<bv64>, j: nat)
    requires |s| == N && N - M <= j < N - 1
    ensures Late(s, j) == Recur(s[j], s[j + 1], Early(s, j - (N - M)))
  {
  }

  /**
   * New word `j` after the in-place regeneration of the state `s`: the second
   * half reads, `m_` positions back, words the first half already rewrote,
   * and the last word also reads the new word 0.
   */
  function Twisted(s: seq<bv64>, j: nat): bv64
    requires |s| == N && j < N
  {
    if j < N - M then Early(s, j)
    else if j < N - 1 then Late(s, j)
    else Recur(s[j], Early(s, 0), Early(s, M - 1))
  }

  /**
   * The Mersenne Twister as a linear recurrence over an unbounded stream of
   * words: the first `n_` are the state, and each later word combines the words
   * `n_`, `n_ - 1` and `n_ - m_` places before it.
   */
  function Stream(s: seq<bv64>, k: nat): bv64
    requires |s| == N
    decreases k
  {
    if k < N then s[k]
    else Recur(Stream(s, k - N), Stream(s, k - N + 1), Stream(s, k - N + M))
  }

  /**
   * Rewriting the state in place, in index order, yields exactly the next `n_`
   * words of the stream: no step reads a word that the recurrence wants old
   * after it was overwritten, or new before it was written.
   */
  lemma {:induction false} TwistIsRecurrence(s: seq<bv64>, j: nat)
    requires |s| == N && j < N
    ensures Twisted(s, j) == Stream(s, N + j)
  {
    assert Stream(s, N + j) == Recur(Stream(s, j), Stream(s, j + 1), Stream(s, j + M));
    if j < N - M {
      assert Stream(s, j + M) == s[j + M];
    } else if j < N - 1 {
      TwistIsRecurrence(s, j - (N - M));
      assert Stream(s, j + 1) == s[j + 1];
    } else {
      TwistIsRecurrence(s, 0);
      TwistIsRecurrence(s, M - 1);
    }
  }

  /** The first loop of the regeneration: words `0 .. n_-m_-1`. */
  method TwistFirstHalf(mt: array<bv64>, ghost s: seq<bv64>)
    requires mt.Length == N && mt[..] == s
    modifies mt
    ensures forall j :: 0 <= j < N - M ==> mt[j] == Early(s, j)
    ensures forall j :: N - M <= j < N ==> mt[j] == s[j]
  {
    hide Recur, Early;
    var i := 0;
    while i < N - M
      invariant 0 <= i <= N - M
      invariant forall j :: 0 <= j < i ==> mt[j] == Early(s, j)
      invariant forall j :: i <= j < N ==> mt[j] == s[j]
    {
      EarlyIsStep(s, i);
      mt[i] := Recur(mt[i], mt[i + 1], mt[i + M]);
      i := i + 1;
    }
  }

  /** The second loop: words `n_-m_ .. n_-2`, reading `m_` positions back. */
  method TwistSecondHalf(mt: array<bv64>, ghost s: seq<bv64>)
    requires mt.Length == N && |s| == N
    requires forall j :: 0 <= j < N - M ==> mt[j] == Early(s, j)
    requires forall j :: N - M <= j < N ==> mt[j] == s[j]
    modifies mt
    ensures forall j :: 0 <= j < N - M ==> mt[j] == Early(s, j)
    ensures forall j :: N - M <= j < N - 1 ==> mt[j] == Late(s, j)
    ensures mt[N - 1] == s[N - 1]
  {
    hide Recur, WrapIndex, Early, Late;
    var i := N - M;
    while i < N - 1
      invariant N - M <= i <= N - 1
      invariant forall j :: 0 <= j < N - M ==> mt[j] == Early(s, j)
      invariant forall j :: N - M <= j < i ==> mt[j] == Late(s, j)
      invariant forall j :: i <= j < N ==> mt[j] == s[j]
    {
      var k := WrapIndex(i);
      LateIsStep(s, i);
      mt[i] := Recur(mt[i], mt[i + 1], mt[k]);
      i := i + 1;
    }
  }

  /** The whole regeneration: both loops, then the last word, which wraps to word 0. */
  method Regenerate(mt: array<bv64>)
    requires mt.Length == N
    modifies mt
    ensures forall j :: 0 <= j < N ==> mt[j] == Twisted(old(mt[..]), j)
  {
    hide Recur;
    ghost var s := mt[..];
    TwistFirstHalf(mt, s);
    TwistSecondHalf(mt, s);
    mt[N - 1] := Recur(mt[N - 1], mt[0], mt[M - 1]);
  }

  // ---------------------------------------------------------------- tempering

  /** The four xor-shift/mask steps applied to the extracted word, in order. */
  function TemperA(y: bv64): bv64 { y ^ ((y >> 29) & D) }
  function TemperB(y: bv64): bv64 { y ^ ((y << 17) & B) }
  function TemperC(y: bv64): bv64 { y ^ ((y << 37) & C) }
  function TemperD(y: bv64): bv64 { y ^ (y >> 43) }

  function Temper(y: bv64): bv64 {
    TemperD(TemperC(TemperB(TemperA(y))))
  }

  /** Undoes `TemperA`: three rounds recover all 64 bits, 29 at a time. */
  function UntemperA(y: bv64): bv64 {
    var t1 := y ^ ((y >> 29) & D);
    var t2 := y ^ ((t1 >> 29) & D);
    y ^ ((t2 >> 29) & D)
  }

  /** Undoes `TemperB`: four rounds recover all 64 bits, 17 at a time. */
  function UntemperB(y: bv64): bv64 {
    var t1 := y ^ ((y << 17) & B);
    var t2 := y ^ ((t1 << 17) & B);
    var t3 := y ^ ((t2 << 17) & B);
    y ^ ((t3 << 17) & B)
  }

  /** The inverse of tempering; `TemperC` and `TemperD` shift by more than half a word and undo themselves. */
  function Untemper(r: bv64): bv64 {
    UntemperA(UntemperB(TemperC(TemperD(r))))
  }

  lemma UntemperAInverts(y: bv64)
    ensures UntemperA(TemperA(y)) == y
  {
    var z := y ^ ((y >> 29) & D);
    assert TemperA(y) == z;
  }

  lemma UntemperBInverts(y: bv64)
    ensures UntemperB(TemperB(y)) == y
  {
    var z := y ^ ((y << 17) & B);
    assert TemperB(y) == z;
  }

  lemma TemperCSelfInverse(y: bv64)
    ensures TemperC(TemperC(y)) == y
  {
    var z := y ^ ((y << 37) & C);
    assert TemperC(y) == z;
  }

  lemma TemperDSelfInverse(y: bv64)
    ensures TemperD(TemperD(y)) == y
  {
    var z := y ^ (y >> 43);
    assert TemperD(y) == z;
  }

  /** Tempering loses nothing: the returned number determines the state word. */
  lemma TemperInvertible(y: bv64)
    ensures Untemper(Temper(y)) == y
  {
    var y1 := TemperA(y);
    var y2 := TemperB(y1);
    var y3 := TemperC(y2);
    TemperDSelfInverse(y3);
    TemperCSelfInverse(y2);
    UntemperBInverts(y1);
    UntemperAInverts(y);
  }

  // ---------------------------------------------------------------- the generator as a value

  /** The generator's state as a value: the words `mt_` and the index `mti_`. */
  datatype MTState = MTState(words: seq<bv64>, index: nat)

  predicate WellFormed(s: MTState) {
    |s.words| == N && s.index <= N
  }

  /**
   * The state after one `ranInt()`: when every word has been used the words are
   * regenerated and the index restarts, then the index moves past the word used.
   */
  function Advance(s: MTState): (t: MTState)
    requires WellFormed(s)
    ensures WellFormed(t) && 1 <= t.index
  {
    if s.index == N then MTState(seq(N, j requires 0 <= j < N => Twisted(s.words, j)), 1)
    else MTState(s.words, s.index + 1)
  }

  /** The number the last `ranInt()` returned, given the state it left. */
  function Output(s: MTState): bv64
    requires WellFormed(s) && 1 <= s.index
  {
    Temper(s.words[s.index - 1])
  }

  /** The state after `c` more calls of `ranInt()`. */
  function AdvanceBy(s: MTState, c: nat): (t: MTState)
    requires WellFormed(s)
    ensures WellFormed(t) && (c > 0 ==> 1 <= t.index)
  {
    if c == 0 then s else Advance(AdvanceBy(s, c - 1))
  }

  lemma AdvanceByNone(s: MTState)
    requires WellFormed(s)
    ensures AdvanceBy(s, 0) == s
  {
  }

  lemma AdvanceByNext(s: MTState, c: nat)
    requires WellFormed(s)
    ensures AdvanceBy(s, c + 1) == Advance(AdvanceBy(s, c))
  {
  }

  /**
   * Once the words have been used up, the regenerated state holds the next
   * `n_` words of the stream, and the calls that follow return them tempered
   * in order.
   */
  lemma AdvanceContinuesStream(s: MTState, j: nat)
    requires WellFormed(s) && s.index == N && j < N
    ensures AdvanceBy(s, j + 1).words == Advance(s).words
    ensures Output(AdvanceBy(s, j + 1)) == Temper(Stream(s.words, N + j))
  {
    AdvanceWithin(s, j);
    TwistIsRecurrence(s.words, j);
  }

  /** Within one regeneration, each call only moves the index. */
  lemma {:induction false} AdvanceWithin(s: MTState, j: nat)
    requires WellFormed(s) && s.index == N && j < N
    ensures AdvanceBy(s, j + 1) == MTState(Advance(s).words, j + 1)
    decreases j
  {
    if j > 0 {
      AdvanceWithin(s, j - 1);
    }
  }

  // ---------------------------------------------------------------- the generator

  class GenerateMT {
    /** `mt_`, the state words. */
    const mt: array<bv64>
    /** `mti_`, the index of the next word to extract. */
    var mti: nat
    /** `x_`, the scratch word (a `mutable` member in the source). */
    var x: bv64

    ghost predicate Valid()
      reads this
    {
      mt.Length == N && mti <= N
    }

    /** The state as a value. */
    function State(): (s: MTState)
      reads this, mt
      requires Valid()
      ensures WellFormed(s)
    {
      MTState(mt[..], mti)
    }

    /** Seeds the state (the seed is a parameter here; the source reads the time-stamp counter). */
    constructor (seed: bv64)
      ensures Valid() && fresh(mt)
      ensures forall i :: 0 <= i < N ==> mt[i] == SeedWord(seed, i)
      ensures mti == N
    {
      var a := Seed(seed);
      mt := a;
      mti := N;
      x := 0;
    }

    /**
     * Returns the next number: regenerates the state first when every word has
     * been used, then tempers word `mti` and advances the index by one.
     */
    method RanInt() returns (r: bv64)
      requires Valid()
      modifies this, mt
      ensures Valid()
      ensures old(mti) == N ==> forall j :: 0 <= j < N ==> mt[j] == Twisted(old(mt[..]), j)
      ensures old(mti) < N ==> unchanged(mt)
      ensures mti == (if old(mti) == N then 0 else old(mti)) + 1
      ensures r == Temper(mt[mti - 1]) && x == r
      ensures Untemper(r) == mt[mti - 1]
      ensures State() == Advance(old(State())) && r == Output(State())
    {
      if mti == N {
        Regenerate(mt);
        mti := 0;
      }
      ghost var y := mt[mti];
      x := mt[mti];
      mti := mti + 1;
      x := TemperA(x);
      x := TemperB(x);
      x := TemperC(x);
      x := TemperD(x);
      r := x;
      TemperInvertible(y);
    }
  }
}
