/** The linear congruential generator of the benchmarks: its period and its word-sized forms. */
module Lcg {
  import opened Numbers

  const A: nat := 1103515245
  const C: nat := 12345
  const M: nat := 0x8000_0000

  /** The generator's state after `n` steps from `seed`. */
  function Iterate(a: nat, c: nat, m: nat, seed: nat, n: nat): (r: nat)
    requires m > 0
  {
    if n == 0 then seed else (Times(Iterate(a, c, m, seed, n - 1), a) + c) % m
  }

  lemma IterateNext(a: nat, c: nat, m: nat, seed: nat, n: nat)
    requires m > 0
    ensures Iterate(a, c, m, seed, n + 1) == (a * Iterate(a, c, m, seed, n) + c) % m
  {
    AffineIsProduct(a, c, m, Iterate(a, c, m, seed, n));
  }

  lemma AffineIsProduct(a: nat, c: nat, m: nat, r: nat)
    requires m > 0
    ensures Times(r, a) + c >= 0 && a * r + c >= 0
    ensures (Times(r, a) + c) % m == (a * r + c) % m
  {
    TimesIsProduct(r, a);
    assert r * a == a * r;
  }

  // ------------------------------------------------- closed form of n steps

  /** 1 + a + ... + a^(n-1) */
  ghost function Geometric(a: nat, n: nat): nat {
    if n == 0 then 0 else 1 + Times(a, Geometric(a, n - 1))
  }

  ghost function Power(a: nat, n: nat): nat {
    if n == 0 then 1 else Times(a, Power(a, n - 1))
  }

  /** The change that the first step makes before any reduction. */
  ghost function Change(a: nat, c: nat, seed: nat): nat
    requires a >= 1
  {
    Times(a - 1, seed) + c
  }

  /** n steps without reduction add Geometric(n) times the change of the first step. */
  lemma {:induction false} ClosedForm(a: nat, c: nat, m: nat, seed: nat, n: nat)
    requires m > 0 && a >= 1
    ensures Iterate(a, c, m, seed, n) % m == (seed + Times(Geometric(a, n), Change(a, c, seed))) % m
  {
    if n > 0 {
      ClosedForm(a, c, m, seed, n - 1);
      StepForm(a, c, m, seed, Geometric(a, n - 1), Iterate(a, c, m, seed, n - 1));
    }
  }

  lemma StepForm(a: nat, c: nat, m: nat, seed: nat, g: nat, r: nat)
    requires m > 0 && a >= 1 && r % m == (seed + Times(g, Change(a, c, seed))) % m
    ensures Times(r, a) + c >= 0
    ensures ((Times(r, a) + c) % m) % m == (seed + Times(1 + Times(a, g), Change(a, c, seed))) % m
  {
    var y := seed + Times(g, Change(a, c, seed));
    StepProduct(a, c, seed, g, Change(a, c, seed), y);
    ReducedStep(a, c, m, r, y);
  }

  /** Congruent states have congruent successors. */
  lemma ReducedStep(a: nat, c: nat, m: nat, r: nat, y: nat)
    requires m > 0 && r % m == y % m
    ensures Times(r, a) + c >= 0 && Times(y, a) + c >= 0
    ensures ((Times(r, a) + c) % m) % m == (Times(y, a) + c) % m
  {
    AffineIsProduct(a, c, m, r);
    AffineIsProduct(a, c, m, y);
    ModAffine(a, r, c, m);
    ModAffine(a, y, c, m);
    ModIdempotent(Times(r, a) + c, m);
  }

  lemma StepProduct(a: nat, c: nat, seed: nat, g: nat, d: nat, y: nat)
    requires a >= 1 && d == Change(a, c, seed) && y == seed + Times(g, d)
    ensures Times(y, a) + c == seed + Times(1 + Times(a, g), d)
  {
    TimesIsProduct(a - 1, seed);
    TimesIsProduct(g, d);
    TimesIsProduct(a, g);
    TimesIsProduct(1 + Times(a, g), d);
    TimesIsProduct(y, a);
    ProductOfStep(a, c, seed, g, d, y);
    assert y * a == a * y;
  }

  lemma ProductOfStep(a: nat, c: nat, seed: nat, g: nat, d: nat, y: nat)
    requires a >= 1 && d == (a - 1) * seed + c && y == seed + g * d
    ensures a * y + c == seed + (1 + a * g) * d
  {
    assert a * y == a * seed + a * (g * d);
    assert a * (g * d) == (a * g) * d;
    assert (1 + a * g) * d == d + (a * g) * d;
    assert (a - 1) * seed == a * seed - seed;
  }

  lemma ModIdempotent(x: int, m: int)
    requires m > 0
    ensures (x % m) % m == x % m
  {
    ModAdd(x, 0, m);
  }

  lemma {:induction false} GeometricSum(a: nat, m: nat, n: nat)
    ensures Geometric(a, m + n) == Geometric(a, m) + Times(Power(a, m), Geometric(a, n))
  {
    var h := Geometric(a, n);
    if m > 0 {
      GeometricSum(a, m - 1, n);
      assert m + n - 1 == m - 1 + n;
      TimesOfSum(a, Geometric(a, m - 1), Power(a, m - 1), h);
    } else {
      TimesIsProduct(1, h);
    }
  }

  lemma {:induction false} TimesAdd(x: nat, y: nat, h: nat)
    ensures Times(x + y, h) == Times(x, h) + Times(y, h)
  {
    if y > 0 {
      TimesAdd(x, y - 1, h);
      assert x + y - 1 == x + (y - 1);
    }
  }

  lemma {:induction false} TimesOfSum(a: nat, g: nat, p: nat, h: nat)
    ensures Times(a, g + Times(p, h)) == Times(a, g) + Times(Times(a, p), h)
  {
    if a > 0 {
      TimesOfSum(a - 1, g, p, h);
      TimesAdd(Times(a - 1, p), p, h);
    }
  }

  // --------------------------------------------------- powers of two in it

  lemma {:induction false} PowerModFour(a: nat, n: nat)
    requires a % 4 == 1
    ensures Power(a, n) % 4 == 1
  {
    if n > 0 {
      PowerModFour(a, n - 1);
      TimesIsProduct(a, Power(a, n - 1));
      ProductModFour(a, Power(a, n - 1));
    }
  }

  lemma ProductModFour(a: nat, p: nat)
    requires a % 4 == 1 && p % 4 == 1
    ensures (a * p) % 4 == 1
  {
    var b, q := a / 4, p / 4;
    assert a * p == (4 * b + 1) * p == 4 * (b * p) + p == 4 * (b * p + q) + 1;
  }

  lemma {:induction false} GeometricParity(a: nat, n: nat)
    requires a % 2 == 1
    ensures Geometric(a, n) % 2 == n % 2
  {
    if n > 0 {
      GeometricParity(a, n - 1);
      OddTimes(a, Geometric(a, n - 1));
    }
  }

  lemma OddTimes(u: nat, y: nat)
    requires u % 2 == 1
    ensures Times(u, y) % 2 == y % 2
  {
    TimesIsProduct(u, y);
    OddProduct(u, y);
  }

  lemma OddProduct(u: nat, y: nat)
    requires u % 2 == 1
    ensures (u * y) % 2 == y % 2
  {
    var v := u / 2;
    assert u * y == (2 * v + 1) * y == 2 * (v * y) + y;
  }

  /** Halving both sides of a divisibility by a power of two. */
  lemma HalveDivisibility(x: nat, p: nat)
    requires p > 0
    ensures (2 * x) % (2 * p) == 0 <==> x % p == 0
  {
    var q, r := x / p, x % p;
    assert 2 * x == q * (2 * p) + 2 * r;
    DivModUnique(2 * x, 2 * p, q, 2 * r);
  }

  lemma OddNotDivisible(x: nat, k: nat)
    requires x % 2 == 1 && k >= 1
    ensures x % Pow2(k) != 0
  {
    var h, q, r := Pow2(k - 1), x / Pow2(k), x % Pow2(k);
    assert x == q * (2 * h) + r;
    assert q * (2 * h) == 2 * (q * h);
  }

  /** An odd factor does not matter for divisibility by a power of two. */
  lemma {:induction false} OddFactorCancels(u: nat, y: nat, k: nat)
    requires u % 2 == 1
    ensures (u * y) % Pow2(k) == 0 <==> y % Pow2(k) == 0
  {
    if k > 0 {
      OddProduct(u, y);
      if y % 2 == 1 {
        OddNotDivisible(y, k);
        OddNotDivisible(u * y, k);
      } else {
        var h, z := Pow2(k - 1), y / 2;
        assert u * y == u * (2 * z) == 2 * (u * z);
        OddFactorCancels(u, z, k - 1);
        HalveDivisibility(u * z, h);
        HalveDivisibility(z, h);
      }
    }
  }

  lemma DoubledProduct(u: nat, g: nat, p: nat)
    requires 1 + p == 2 * u
    ensures g + Times(p, g) == 2 * Times(u, g)
  {
    TimesIsProduct(p, g);
    TimesIsProduct(u, g);
    assert g + p * g == (1 + p) * g == (2 * u) * g;
  }

  /** With a = 1 mod 4, Geometric(n) is divisible by exactly the powers of two that divide n. */
  lemma {:induction false} GeometricDivisibility(a: nat, n: nat, k: nat)
    requires a % 4 == 1
    ensures Geometric(a, n) % Pow2(k) == 0 <==> n % Pow2(k) == 0
    decreases k
  {
    if k > 0 {
      GeometricParity(a, n);
      if n % 2 == 1 {
        OddNotDivisible(n, k);
        OddNotDivisible(Geometric(a, n), k);
      } else {
        var m := n / 2;
        var u := GeometricDoubles(a, m);
        GeometricDivisibility(a, m, k - 1);
        DoubleBoth(u, Geometric(a, m), m, k);
      }
    }
  }

  lemma DoubleBoth(u: nat, g: nat, m: nat, k: nat)
    requires u % 2 == 1 && k >= 1 && (g % Pow2(k - 1) == 0 <==> m % Pow2(k - 1) == 0)
    ensures Times(u, g) >= 0 && ((2 * Times(u, g)) % Pow2(k) == 0 <==> (2 * m) % Pow2(k) == 0)
  {
    var h, y := Pow2(k - 1), Times(u, g);
    TimesIsProduct(u, g);
    OddFactorCancels(u, g, k - 1);
    HalveDivisibility(y, h);
    HalveDivisibility(m, h);
  }

  lemma GeometricDoubles(a: nat, m: nat) returns (u: nat)
    requires a % 4 == 1
    ensures u % 2 == 1 && Geometric(a, 2 * m) == 2 * Times(u, Geometric(a, m))
  {
    var g, p := Geometric(a, m), Power(a, m);
    GeometricSum(a, m, m);
    PowerModFour(a, m);
    var q := p / 4;
    assert p == 4 * q + 1;
    u := 2 * q + 1;
    DoubledProduct(u, g, p);
    assert m + m == 2 * m;
  }

  // -------------------------------------------------------------- the period

  lemma {:induction false} IterateBelow(a: nat, c: nat, m: nat, seed: nat, n: nat)
    requires m > 0 && seed < m
    ensures Iterate(a, c, m, seed, n) < m
  {
  }

  lemma {:induction false} IterateAdd(a: nat, c: nat, m: nat, seed: nat, i: nat, n: nat)
    requires m > 0
    ensures Iterate(a, c, m, Iterate(a, c, m, seed, i), n) == Iterate(a, c, m, seed, i + n)
  {
    if n > 0 {
      IterateAdd(a, c, m, seed, i, n - 1);
      assert i + n - 1 == i + (n - 1);
    }
  }

  /** x + y reduces to x exactly when y is a multiple of the modulus. */
  lemma ModUnchanged(x: nat, y: int, m: nat)
    requires x < m
    ensures (x + y) % m == x <==> y % m == 0
  {
    var q, r := y / m, y % m;
    assert x + y == (x + r) + q * m;
    ModAddMultiple(x + r, q, m);
    if x + r < m {
      DivModUnique(x + r, m, 0, x + r);
    } else {
      DivModUnique(x + r, m, 1, x + r - m);
    }
  }

  lemma OddChange(a: nat, c: nat, seed: nat)
    requires a % 2 == 1 && c % 2 == 1
    ensures Change(a, c, seed) % 2 == 1
  {
    var b := (a - 1) / 2;
    TimesIsProduct(a - 1, seed);
    assert (a - 1) * seed == (2 * b) * seed == 2 * (b * seed);
  }

  /** n steps return to the seed exactly when 2^k divides n. */
  lemma {:induction false} ReturnsExactlyAfterPeriod(a: nat, c: nat, k: nat, seed: nat, n: nat)
    requires a % 4 == 1 && c % 2 == 1 && seed < Pow2(k)
    ensures Iterate(a, c, Pow2(k), seed, n) == seed <==> n % Pow2(k) == 0
  {
    ReturnsExactlyByGeometric(a, c, k, seed, n);
    GeometricDivisibility(a, n, k);
  }

  lemma {:induction false} ReturnsExactlyByGeometric(a: nat, c: nat, k: nat, seed: nat, n: nat)
    requires a % 2 == 1 && c % 2 == 1 && seed < Pow2(k)
    ensures Iterate(a, c, Pow2(k), seed, n) == seed <==> Geometric(a, n) % Pow2(k) == 0
  {
    var m := Pow2(k);
    var r, g := Iterate(a, c, m, seed, n), Geometric(a, n);
    assert r < m by {
      IterateBelow(a, c, m, seed, n);
    }
    assert r % m == (seed + Times(g, Change(a, c, seed))) % m by {
      ClosedForm(a, c, m, seed, n);
    }
    OddChangeShift(a, c, k, seed, g, r);
  }

  lemma {:induction false} OddChangeShift(a: nat, c: nat, k: nat, seed: nat, g: nat, r: nat)
    requires a % 2 == 1 && c % 2 == 1 && seed < Pow2(k) && r < Pow2(k)
    requires r % Pow2(k) == (seed + Times(g, Change(a, c, seed))) % Pow2(k)
    ensures r == seed <==> g % Pow2(k) == 0
  {
    OddChange(a, c, seed);
    OddShift(r, seed, g, Change(a, c, seed), k);
  }

  /** Adding g times an odd number changes nothing modulo 2^k exactly when 2^k divides g. */
  lemma OddShift(r: nat, seed: nat, g: nat, d: nat, k: nat)
    requires d % 2 == 1 && r < Pow2(k) && seed < Pow2(k) && r % Pow2(k) == (seed + Times(g, d)) % Pow2(k)
    ensures r == seed <==> g % Pow2(k) == 0
  {
    var m, y := Pow2(k), Times(g, d);
    TimesIsProduct(g, d);
    DivModUnique(r, m, 0, r);
    ModUnchanged(seed, y, m);
    assert y == d * g;
    OddFactorCancels(d, g, k);
  }

  /** Two positions of the stream hold the same value exactly when they differ by whole periods. */
  lemma StreamRepeats(a: nat, c: nat, k: nat, seed: nat, i: nat, j: nat)
    requires a % 4 == 1 && c % 2 == 1 && seed < Pow2(k) && i <= j
    ensures Iterate(a, c, Pow2(k), seed, i) == Iterate(a, c, Pow2(k), seed, j) <==> (j - i) % Pow2(k) == 0
  {
    IterateBelow(a, c, Pow2(k), seed, i);
    IterateAdd(a, c, Pow2(k), seed, i, j - i);
    ReturnsExactlyAfterPeriod(a, c, k, Iterate(a, c, Pow2(k), seed, i), j - i);
  }

  /** Value `v` appears among the first 2^k positions. */
  ghost predicate Visits(a: nat, c: nat, k: nat, seed: nat, v: nat) {
    exists i: nat :: i < Pow2(k) && Iterate(a, c, Pow2(k), seed, i) == v
  }

  ghost predicate FullPeriod(a: nat, c: nat, k: nat, seed: nat) {
    forall v: nat :: v < Pow2(k) ==> Visits(a, c, k, seed, v)
  }

  lemma HasFullPeriod(a: nat, c: nat, k: nat, seed: nat)
    requires a % 4 == 1 && c % 2 == 1 && seed < Pow2(k)
    ensures FullPeriod(a, c, k, seed)
  {
    var m := Pow2(k);
    var s := seq(m, (i: nat) => Iterate(a, c, m, seed, i));
    forall i, j | 0 <= i < j < m ensures s[i] != s[j] {
      StreamRepeats(a, c, k, seed, i, j);
      DivModUnique(j - i, m, 0, j - i);
    }
    forall i | 0 <= i < m ensures s[i] < m {
      IterateBelow(a, c, m, seed, i);
    }
    Pigeonhole(s);
    forall v: nat | v < m ensures Visits(a, c, k, seed, v) {
      assert v in s;
      var i :| 0 <= i < m && s[i] == v;
      assert Iterate(a, c, m, seed, i) == v;
    }
  }

  /** From modulus 4 on, the conditions on a and c are also necessary, whatever the seed. */
  lemma FullPeriodExactly(a: nat, c: nat, k: nat, seed: nat)
    requires k >= 2 && seed < Pow2(k)
    ensures FullPeriod(a, c, k, seed) <==> a % 4 == 1 && c % 2 == 1
  {
    if a % 4 == 1 && c % 2 == 1 {
      HasFullPeriod(a, c, k, seed);
    } else {
      var v := Unvisited(a, c, k, seed);
    }
  }

  lemma Unvisited(a: nat, c: nat, k: nat, seed: nat) returns (v: nat)
    requires k >= 2 && !(a % 4 == 1 && c % 2 == 1)
    ensures v < Pow2(k) && !Visits(a, c, k, seed, v)
  {
    v := Missed(a % 4, c % 4, seed % 4);
    ParityModFour(c);
    AtLeastFour(k);
    forall i: nat | i < Pow2(k) ensures Iterate(a, c, Pow2(k), seed, i) != v {
      ResiduesModFour(a, c, k, seed, i);
    }
  }

  lemma AtLeastFour(k: nat)
    requires k >= 2
    ensures Pow2(k) >= 4
  {
    assert Pow2(k - 1) == 2 * Pow2(k - 2);
  }

  lemma ParityModFour(x: nat)
    ensures x % 2 == (x % 4) % 2
  {
  }

  predicate IsOdd(x: nat) {
    x == 1 || x == 3
  }

  /** The residues modulo 4 that a stream from residue `y` can reach after `n` steps when one of the
      conditions fails; `x` and `z` are the residues of a and c. */
  ghost predicate Reachable(x: nat, z: nat, y: nat, n: nat, r: nat) {
    && r < 4 && (n == 0 ==> r == y)
    && (!IsOdd(z) && IsOdd(x) ==> (IsOdd(r) <==> IsOdd(y)))
    && (!IsOdd(z) && !IsOdd(x) && n > 0 ==> !IsOdd(r))
    && (IsOdd(z) && !IsOdd(x) && n > 0 ==> IsOdd(r))
    && (IsOdd(z) && x == 3 ==> r == if n % 2 == 0 then y else (z + 4 - y) % 4)
  }

  /** A residue that such a stream never reaches. */
  function Missed(x: nat, z: nat, y: nat): (v: nat)
    requires x < 4 && z < 4 && y < 4
    ensures v < 4
    ensures !(x == 1 && IsOdd(z)) ==> forall n :: !Reachable(x, z, y, n, v)
  {
    if !IsOdd(z) && IsOdd(x) then if IsOdd(y) then 0 else 1
    else if !IsOdd(z) then if y == 1 then 3 else 1
    else if !IsOdd(x) then if y == 0 then 2 else 0
    else (y + 2) % 4
  }

  lemma {:induction false} ResiduesModFour(a: nat, c: nat, k: nat, seed: nat, n: nat)
    requires k >= 2
    ensures Reachable(a % 4, c % 4, seed % 4, n, Iterate(a, c, Pow2(k), seed, n) % 4)
  {
    if n > 0 {
      ResiduesModFour(a, c, k, seed, n - 1);
      ResidueStep(a, c, k, seed, n);
      SmallAffine(a % 4, c % 4, seed % 4, n - 1, Iterate(a, c, Pow2(k), seed, n - 1) % 4);
    }
  }

  lemma ResidueStep(a: nat, c: nat, k: nat, seed: nat, n: nat)
    requires k >= 2 && n > 0
    ensures Iterate(a, c, Pow2(k), seed, n) % 4
            == ((a % 4) * (Iterate(a, c, Pow2(k), seed, n - 1) % 4) + c % 4) % 4
  {
    var r, p := Iterate(a, c, Pow2(k), seed, n - 1), Pow2(k - 2);
    IterateNext(a, c, Pow2(k), seed, n - 1);
    assert Pow2(k) == 2 * Pow2(k - 1) == 4 * p;
    ModOfMod(a * r + c, 4, p);
    AffineModFour(a, r, c);
  }

  lemma SmallAffine(x: nat, z: nat, y: nat, n: nat, r: nat)
    requires x < 4 && z < 4 && y < 4 && Reachable(x, z, y, n, r)
    ensures Reachable(x, z, y, n + 1, (x * r + z) % 4)
  {
    assert x * r == if x == 0 then 0 else if x == 1 then r else if x == 2 then 2 * r else 3 * r;
  }

  lemma AffineModFour(a: nat, r: nat, c: nat)
    ensures (a * r + c) % 4 == ((a % 4) * (r % 4) + c % 4) % 4
  {
    var x, y, u, v := a / 4, a % 4, r / 4, r % 4;
    var s, t := x * r, y * u;
    assert a * r == (4 * x + y) * r == 4 * s + y * r;
    assert y * r == y * (4 * u + v) == 4 * t + y * v;
    ModAddMultiple(y * v + c, s + t, 4);
    ModAdd(c, y * v, 4);
  }

  // ------------------------------------------------------ the word-sized forms

  /** One step of unbounded arithmetic. */
  function Step(seed: nat): nat {
    (A * seed + C) % M
  }

  /** The 32-bit form: multiply and add wrap around at 2^32, then the state is reduced. */
  function Next(seed: nat): (r: nat)
    ensures r == Step(seed) == (1103515245 * seed + 12345) % 0x8000_0000
  {
    WrappingIsExact(seed);
    var v := (A * seed) % 0x1_0000_0000;
    var w := (v + C) % 0x1_0000_0000;
    w % M
  }

  /** The generator object of the Rust benchmark. */
  class Generator {
    var seed: nat

    constructor (seed: nat)
      ensures this.seed == seed
    {
      this.seed := seed;
    }

    method Draw() returns (r: nat)
      modifies this
      ensures r == seed == Step(old(seed))
    {
      seed := Next(seed);
      r := seed;
    }
  }

  /** Wrapping at 2^32 before the reduction modulo 2^31 loses nothing. */
  lemma WrappingIsExact(seed: nat)
    ensures (((A * seed) % 0x1_0000_0000 + C) % 0x1_0000_0000) % M == Step(seed)
  {
    ModAdd(A * seed, C, 0x1_0000_0000);
    ModOfMod(A * seed + C, M, 2);
  }

  /** So does wrapping at 2^64. */
  lemma WideWrappingIsExact(seed: nat)
    ensures ((seed * A) % 0x1_0000_0000_0000_0000 + C) % 0x1_0000_0000_0000_0000 % 2147483648 == Step(seed)
  {
    ModAdd(seed * A, C, 0x1_0000_0000_0000_0000);
    ModOfMod(seed * A + C, M, 0x2_0000_0000);
  }

  /** The 64-bit form of the shared benchmarks. */
  function NextWide(seed: nat): (r: nat)
    ensures r == Step(seed) == (1103515245 * seed + 12345) % 0x8000_0000
  {
    WideWrappingIsExact(seed);
    ((seed * A) % 0x1_0000_0000_0000_0000 + C) % 0x1_0000_0000_0000_0000 % 2147483648
  }

  /** Position n + 1 of the stream is one step from position n. */
  lemma StepIsIterate(seed: nat, n: nat)
    ensures Step(Iterate(A, C, M, seed, n)) == Iterate(A, C, M, seed, n + 1)
  {
    IterateNext(A, C, M, seed, n);
  }

  /** The state after `n` draws of the 32-bit form. */
  function Draws(seed: nat, n: nat): nat {
    if n == 0 then seed else Next(Draws(seed, n - 1))
  }

  /** The state after `n` draws of the 64-bit form. */
  function WideDraws(seed: nat, n: nat): nat {
    if n == 0 then seed else NextWide(WideDraws(seed, n - 1))
  }

  /** The n-th value of each form is the n-th value of the same stream modulo 2^31. */
  lemma {:induction false} DrawsAreTheStream(seed: nat, n: nat)
    ensures Draws(seed, n) == Iterate(A, C, M, seed, n)
    ensures WideDraws(seed, n) == Iterate(A, C, M, seed, n)
  {
    if n > 0 {
      DrawsAreTheStream(seed, n - 1);
      StepIsIterate(seed, n - 1);
    }
  }

  /** The first draws from the two seeds of the cache benchmarks. */
  lemma FirstDraws()
    ensures Draws(0, 1) == 12345 && Draws(0, 2) == 1406932606
    ensures Draws(1, 1) == 1103527590 && Draws(1, 2) == 377401575
  {
    assert Draws(0, 0) == 0 && Draws(1, 0) == 1;
    assert Next(0) == 12345 && Next(12345) == 1406932606;
    assert Next(1) == 1103527590 && Next(1103527590) == 377401575;
  }

  /** The generator's own constants: from any seed, the stream runs through all 2^31 states. */
  lemma BenchmarkGeneratorPeriod(seed: nat, i: nat, j: nat)
    requires seed < M && i <= j
    ensures Iterate(A, C, M, seed, i) == Iterate(A, C, M, seed, j) <==> (j - i) % M == 0
    ensures FullPeriod(A, C, 31, seed)
  {
    Pow2Constants();
    StreamRepeats(A, C, 31, seed, i, j);
    HasFullPeriod(A, C, 31, seed);
  }
}
