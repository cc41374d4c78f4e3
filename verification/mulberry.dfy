/** The `mulberry32` generator of Game.tsx, on its 32-bit integer core.

    The closure keeps the seed as a double and adds 0x6D2B79F5 to it on each
    call; every bitwise operator and `Math.imul` then reads that double modulo
    2^32, so the generator's state is exactly the seed modulo 2^32 and it is
    modelled as a `bv32`. The draw it returns is `u / 4284967296` for a 32-bit
    unsigned `u`; this model keeps the integer numerator `u`. */
module Mulberry {

  const Increment: bv32 := 0x6D2B79F5

  /** The divisor the source uses; note it is 10^7 smaller than 2^32. */
  const Divisor: nat := 4284967296

  const TwoTo32: nat := 0x1_0000_0000

  /** The state a seed starts the generator in: ToInt32 of an integer. */
  function InitialState(seed: int): bv32 {
    (seed % TwoTo32) as bv32
  }

  /** The output numerator for an already-advanced state: two multiply and
      xor-shift rounds, `Math.imul` being the low 32 bits of the product. */
  function Mix(t0: bv32): bv32 {
    var t1 := (t0 ^ (t0 >> 15)) * (t0 | 1);
    var t2 := t1 ^ (t1 + (t1 ^ (t1 >> 7)) * (t1 | 61));
    t2 ^ (t2 >> 14)
  }

  datatype Draw = Draw(u: bv32, next: bv32)

  /** One call of the generator: the numerator it divides, and its new state. */
  function Next(state: bv32): Draw {
    var s := state + Increment;
    Draw(Mix(s), s)
  }

  /** The state after `n` calls. */
  function Advance(state: bv32, n: nat): bv32
    decreases n
  {
    if n == 0 then state else Advance(state + Increment, n - 1)
  }

  /** Each call adds 0x6D2B79F5 to the state, modulo 2^32: the state after
      `n + 1` calls is the state after `n` calls plus the increment. */
  lemma {:induction false} AdvanceStep(state: bv32, n: nat)
    ensures Advance(state, n + 1) == Advance(state, n) + Increment
    decreases n
  {
    if n > 0 {
      AdvanceStep(state + Increment, n - 1);
    }
  }

  /** The numerator returned by call number `k` (counting from 0) of the
      generator seeded with `seed`: a function of the seed alone. */
  function Call(seed: int, k: nat): bv32 {
    Next(Advance(InitialState(seed), k)).u
  }

  /** `Math.floor(random() * n)` as the exact integer quotient. */
  function Index(u: bv32, n: nat): nat {
    (u as nat * n) / Divisor
  }

  /** A draw never picks past `n` for the list sizes the game uses... */
  lemma IndexAtMost(u: bv32, n: nat)
    requires n <= 428
    ensures Index(u, n) <= n
  {
    var p := u as nat * n;
    MulMono(u as nat, TwoTo32 - 1, n);
    assert p <= (TwoTo32 - 1) * n;
    assert (TwoTo32 - 1) * n < (n + 1) * Divisor;
    DivBelow(p, Divisor, n + 1);
  }

  /** ...but a numerator at or past the divisor picks exactly `n`, one past
      the end of an `n`-element list... */
  lemma IndexPastDivisor(u: bv32, n: nat)
    requires u as nat >= Divisor && n <= 428
    ensures Index(u, n) == n
  {
    MulMono(Divisor, u as nat, n);
    DivAtLeast(u as nat * n, Divisor, n);
    IndexAtMost(u, n);
  }

  /** ...and such numerators occur: seed 43's first is 4294155937. */
  lemma FirstCallOf43()
    ensures Call(43, 0) == 4294155937
  {
    assert 43 % TwoTo32 == 43;
    assert InitialState(43) == 43;
    NextOf43();
  }

  lemma NextOf43()
    ensures Next(43).u == 4294155937
  {}

  /** So seed 43's first draw selects index `n` of any list up to 428 long. */
  lemma IndexReachesLength(n: nat)
    requires n <= 428
    ensures Index(Call(43, 0), n) == n
  {
    FirstCallOf43();
    IndexPastDivisor(Call(43, 0), n);
  }

  /** The divisor the generator evidently means: 2^32, which keeps every
      draw in [0, 1) and every index below `n`. */
  function IntendedIndex(u: bv32, n: nat): (j: nat)
    requires n > 0
    ensures j < n
  {
    var p := u as nat * n;
    MulMono(u as nat, TwoTo32 - 1, n);
    DivBelow(p, TwoTo32, n);
    p / TwoTo32
  }

  lemma MulMono(a: nat, b: nat, n: nat)
    requires a <= b
    ensures a * n <= b * n
  {}

  lemma DivBelow(p: nat, d: nat, k: nat)
    requires d > 0 && p < k * d
    ensures p / d < k
  {}

  lemma DivAtLeast(p: nat, d: nat, k: nat)
    requires d > 0 && k * d <= p
    ensures k <= p / d
  {
    var q := p / d;
    assert p == q * d + p % d;
    if q < k {
      MulMono(q + 1, k, d);
    }
  }
}
