/**
  The POSIX `drand48` generator family as the licensing code uses it
  (System Interfaces volume of POSIX.1-2008, IEEE Std 1003.1: drand48).

  The C library keeps one hidden 48-bit state X.  `seed48` and `srand48`
  overwrite it, `lrand48` advances it with the linear congruence
  X' = (a * X + c) mod 2^48 and returns the top 31 bits of X'.  The hidden
  state is the one field of the class `Rand48`; every routine that draws
  numbers takes that object and may modify it.
*/
module Drand48 {
  import opened WideValue

  /** `unsigned short int`, the element type of the seed arrays. */
  type u16 = x: int | 0 <= x < 0x1_0000

  /** `unsigned short int seed[3]`. */
  type SeedWords = s: seq<u16> | |s| == 3 witness [0, 0, 0]

  const Multiplier: nat := 0x5_DEEC_E66D
  const Increment: nat := 0xB
  const Modulus: nat := 0x1_0000_0000_0000

  /** The state after one step of the congruence. */
  function Next(x: nat): (r: nat)
    ensures r < Modulus
  {
    (Multiplier * x + Increment) % Modulus
  }

  /** What `lrand48` returns when the state before the call is x: bits 47..17 of the next state. */
  function Draw(x: nat): nat
  {
    Next(x) / 0x2_0000
  }

  /** `lrand48` yields a non-negative 31-bit number. */
  lemma {:induction false} DrawBound(x: nat)
    ensures Draw(x) < 0x8000_0000
  {
  }

  /** The state `seed48` installs: the three 16-bit words, least significant first. */
  function SeedState(seed: SeedWords): (x: nat)
    ensures x < Modulus
  {
    (seed[2] as int) * 0x1_0000_0000 + (seed[1] as int) * 0x1_0000 + seed[0]
  }

  /** The three seed words can be read back from the state, so distinct seeds give distinct states. */
  lemma {:induction false} SeedStateWords(seed: SeedWords)
    ensures SeedState(seed) % 0x1_0000 == seed[0]
    ensures (SeedState(seed) / 0x1_0000) % 0x1_0000 == seed[1]
    ensures SeedState(seed) / 0x1_0000_0000 == seed[2]
  {
    var x := SeedState(seed);
    var s0: nat, s1: nat, s2: nat := seed[0], seed[1], seed[2];
    assert x == (s2 * 0x1_0000 + s1) * 0x1_0000 + s0;
    MulDivCancel(s2 * 0x1_0000 + s1, s0, 0x1_0000);
    MulDivCancel(s2, s1, 0x1_0000);
    DivDiv(x, 0x1_0000, 0x1_0000);
  }

  /** The state `srand48(v)` installs: the low 32 bits of v above the constant 0x330E. */
  function SrandState(v: nat): (x: nat)
    ensures x < Modulus
  {
    (v % 0x1_0000_0000) * 0x1_0000 + 0x330E
  }

  /** The seed's low 32 bits are kept whole, so seeds below 2^32 give distinct states. */
  lemma {:induction false} SrandStateWords(v: nat)
    ensures SrandState(v) % 0x1_0000 == 0x330E
    ensures SrandState(v) / 0x1_0000 == v % 0x1_0000_0000
  {
    MulDivCancel(v % 0x1_0000_0000, 0x330E, 0x1_0000);
  }

  /** The numbers n successive `lrand48` calls return, starting from state x. */
  function Draws(x: nat, n: nat): (ds: seq<nat>)
    ensures |ds| == n
    ensures forall i :: 0 <= i < n ==> ds[i] < 0x8000_0000
    decreases n
  {
    if n == 0 then [] else DrawBound(x); [Draw(x)] + Draws(Next(x), n - 1)
  }

  /** The state after n calls. */
  function After(x: nat, n: nat): nat
    decreases n
  {
    if n == 0 then x else After(Next(x), n - 1)
  }

  /** Drawing n and then m numbers draws the first n + m numbers of the stream. */
  lemma {:induction false} DrawsSplit(x: nat, n: nat, m: nat)
    ensures Draws(x, n + m) == Draws(x, n) + Draws(After(x, n), m)
    ensures After(x, n + m) == After(After(x, n), m)
    decreases n
  {
    if n > 0 {
      DrawsSplit(Next(x), n - 1, m);
      assert n + m - 1 == (n - 1) + m;
    }
  }

  /**
    The hidden generator state shared by every `drand48` routine.
  */
  class Rand48 {
    var state: nat

    /** A generator in an arbitrary state (the C library's state before the first seeding is not relied on). */
    constructor (x: nat)
      ensures state == x
    {
      state := x;
    }

    /** seed48: install the three seed words. */
    method Seed48(seed: SeedWords)
      modifies this
      ensures state == SeedState(seed)
    {
      state := SeedState(seed);
    }

    /** srand48: install a 32-bit seed. */
    method Srand48(v: nat)
      modifies this
      ensures state == SrandState(v)
    {
      state := SrandState(v);
    }

    /** lrand48: advance the state and return its top 31 bits. */
    method Lrand48() returns (r: nat)
      modifies this
      ensures r == Draw(old(state)) && r < 0x8000_0000
      ensures state == Next(old(state))
    {
      DrawBound(state);
      r := Next(state) / 0x2_0000;
      state := Next(state);
    }
  }

  // ---------------------------------------------------------------------------
  // randomize128UsingIntSeed and randomize256UsingSeed

  /** Numbers read as consecutive 32-bit little-endian limbs. */
  function Limbs(ds: seq<nat>): nat
  {
    if |ds| == 0 then 0 else ds[0] + 0x1_0000_0000 * Limbs(ds[1..])
  }

  const LimbBase: nat := 0x1_0000_0000

  lemma {:induction false} LimbWeight(i: nat)
    ensures Pow2(32 * (i + 1)) == LimbBase * Pow2(32 * i)
  {
    assert 32 * (i + 1) == 32 + 32 * i;
    Pow2Add(32, 32 * i);
    LimbBasePower();
  }

  lemma {:induction false} LimbBasePower()
    ensures Pow2(32) == LimbBase
  {
    Pow2Small();
    Pow2Add(16, 16);
  }

  /** Limb i of the number is ds[i]. */
  lemma {:induction false} LimbsRead(ds: seq<nat>, i: nat)
    requires forall k :: 0 <= k < |ds| ==> ds[k] < 0x8000_0000
    requires i < |ds|
    ensures (Limbs(ds) / Pow2(32 * i)) % LimbBase == ds[i]
    decreases i
  {
    var rest := Limbs(ds[1..]);
    LimbsHead(ds);
    if i == 0 {
      assert Pow2(32 * i) == 1;
    } else {
      LimbsRead(ds[1..], i - 1);
      assert ds[1..][i - 1] == ds[i];
      LimbShift(Limbs(ds), rest, i - 1);
    }
  }

  /** The lowest limb and the limbs above it. */
  lemma {:induction false} LimbsHead(ds: seq<nat>)
    requires |ds| > 0 && ds[0] < 0x8000_0000
    ensures Limbs(ds) / LimbBase == Limbs(ds[1..]) && Limbs(ds) % LimbBase == ds[0]
  {
    var rest := Limbs(ds[1..]);
    assert Limbs(ds) == ds[0] + 0x1_0000_0000 * rest;
    MulDivCancel(rest, ds[0], LimbBase);
  }

  /** Shifting right by i + 1 limbs is shifting the limbs above the lowest by i limbs. */
  lemma {:induction false} LimbShift(L: nat, rest: nat, i: nat)
    requires L / LimbBase == rest
    ensures L / Pow2(32 * (i + 1)) == rest / Pow2(32 * i)
  {
    var P := Pow2(32 * i);
    LimbWeight(i);
    DivDiv(L, LimbBase, P);
  }

  /** Limbs below 2^31 make a number below 2^(32 n). */
  lemma {:induction false} LimbsBound(ds: seq<nat>)
    requires forall k :: 0 <= k < |ds| ==> ds[k] < 0x8000_0000
    ensures Limbs(ds) < Pow2(32 * |ds|)
  {
    if |ds| > 0 {
      var rest := Limbs(ds[1..]);
      var P := Pow2(32 * (|ds| - 1));
      LimbsBound(ds[1..]);
      LimbWeight(|ds| - 1);
      MulMonotone(rest + 1, P, LimbBase);
      assert Limbs(ds) < (rest + 1) * LimbBase;
    }
  }

  /** The 128-bit block randomize128UsingIntSeed derives from a 32-bit seed. */
  function Randomize128(seed: nat): nat
  {
    Limbs(Draws(SrandState(seed), 4))
  }

  /** The 256-bit block randomize256UsingSeed derives from three seed words. */
  function Randomize256(seed: SeedWords): nat
  {
    Limbs(Draws(SeedState(seed), 8))
  }

  /** The index block is a 128-bit number whose four 32-bit limbs have their top bit clear. */
  lemma {:induction false} Randomize128Layout(seed: nat, i: nat)
    requires i < 4
    ensures Randomize128(seed) < Pow2(128)
    ensures (Randomize128(seed) / Pow2(32 * i)) % LimbBase < 0x8000_0000
  {
    var ds := Draws(SrandState(seed), 4);
    LimbsBound(ds);
    LimbsRead(ds, i);
  }

  /** The salt is a 256-bit number whose eight 32-bit limbs have their top bit clear. */
  lemma {:induction false} Randomize256Layout(seed: SeedWords, i: nat)
    requires i < 8
    ensures Randomize256(seed) < Pow2(256)
    ensures (Randomize256(seed) / Pow2(32 * i)) % LimbBase < 0x8000_0000
  {
    var ds := Draws(SeedState(seed), 8);
    LimbsBound(ds);
    LimbsRead(ds, i);
  }

  /** Four draws in a row, and the state they leave. */
  lemma {:induction false} DrawsFour(x: nat)
    ensures Draws(x, 4) == [Draw(x), Draw(Next(x)), Draw(Next(Next(x))), Draw(Next(Next(Next(x))))]
    ensures After(x, 4) == Next(Next(Next(Next(x))))
  {
    var x1 := Next(x);
    var x2 := Next(x1);
    var x3 := Next(x2);
    assert Draws(x3, 1) == [Draw(x3)];
    assert Draws(x2, 2) == [Draw(x2), Draw(x3)];
    assert Draws(x1, 3) == [Draw(x1), Draw(x2), Draw(x3)];
  }

  /** randomize128UsingIntSeed: reseed with srand48 and store four draws as 32-bit limbs. */
  method Randomize128UsingIntSeed(rng: Rand48, seed: nat) returns (x: nat)
    modifies rng
    ensures x == Randomize128(seed)
    ensures rng.state == After(SrandState(seed), 4)
  {
    rng.Srand48(seed);
    ghost var x0 := rng.state;
    var l0 := rng.Lrand48();
    var l1 := rng.Lrand48();
    var l2 := rng.Lrand48();
    var l3 := rng.Lrand48();
    x := Limbs([l0, l1, l2, l3]);
    DrawsFour(x0);
  }

  /** randomize256UsingSeed: reseed with seed48 and store eight draws as 32-bit limbs. */
  method Randomize256UsingSeed(rng: Rand48, seed: SeedWords) returns (x: nat)
    modifies rng
    ensures x == Randomize256(seed)
    ensures rng.state == After(SeedState(seed), 8)
  {
    rng.Seed48(seed);
    ghost var x0 := rng.state;
    var l0 := rng.Lrand48();
    var l1 := rng.Lrand48();
    var l2 := rng.Lrand48();
    var l3 := rng.Lrand48();
    DrawsFour(x0);
    assert [l0, l1, l2, l3] == Draws(x0, 4) && rng.state == After(x0, 4);
    ghost var x4 := rng.state;
    var l4 := rng.Lrand48();
    var l5 := rng.Lrand48();
    var l6 := rng.Lrand48();
    var l7 := rng.Lrand48();
    x := Limbs([l0, l1, l2, l3, l4, l5, l6, l7]);
    DrawsFour(x4);
    assert [l4, l5, l6, l7] == Draws(x4, 4) && rng.state == After(x4, 4);
    DrawsSplit(x0, 4, 4);
    FourAndFour(l0, l1, l2, l3, l4, l5, l6, l7);
  }

  lemma {:induction false} FourAndFour(l0: nat, l1: nat, l2: nat, l3: nat, l4: nat, l5: nat, l6: nat, l7: nat)
    ensures [l0, l1, l2, l3] + [l4, l5, l6, l7] == [l0, l1, l2, l3, l4, l5, l6, l7]
  {
  }
}
