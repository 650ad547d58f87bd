/** The reciprocal and power tables of the shortest-float formatter. */
module FloatCache {
  import opened Numbers

  const POWER_BITS: nat := 125
  const INVERSE_COUNT: nat := 292
  const POWER_COUNT: nat := 327

  function Pow5(e: nat): (r: nat)
    ensures r >= 1
  {
    if e == 0 then 1 else 5 * Pow5(e - 1)
  }

  /** The powers of five, and the generator's constants. */
  lemma Pow5Laws(e: nat)
    ensures Pow5(0) == 1 && Pow5(e + 1) == 5 * Pow5(e)
    ensures POWER_BITS == 125 && INVERSE_COUNT == 292 && POWER_COUNT == 327
  {
  }

  function BitLength(v: nat): nat {
    if v == 0 then 0 else 1 + BitLength(v / 2)
  }

  lemma {:induction false} BitLengthBounds(v: nat)
    requires v >= 1
    ensures BitLength(v) >= 1 && Pow2(BitLength(v) - 1) <= v < Pow2(BitLength(v))
  {
    if v > 1 {
      BitLengthBounds(v / 2);
    } else {
      assert BitLength(0) == 0 && BitLength(1) == 1 && Pow2(0) == 1 && Pow2(1) == 2;
    }
  }

  /** Division rounded up, as the generator writes it. */
  function CeilDiv(a: nat, b: nat): nat
    requires b > 0
  {
    (a + b - 1) / b
  }

  lemma CeilDivBounds(a: nat, b: nat)
    requires b > 0
    ensures CeilDiv(a, b) * b >= a && CeilDiv(a, b) * b - a < b
  {
    var q, r := (a + b - 1) / b, (a + b - 1) % b;
    assert a + b - 1 == q * b + r;
  }

  /** The reciprocal of `power`, scaled so that it has `bits` bits behind its leading one at most. */
  function InverseOf(power: nat, bits: nat): nat
    requires power >= 1 && bits >= 1
  {
    CeilDiv(Pow2(InverseShift(power, bits)), power)
  }

  /** The shift after which a product with the reciprocal is the quotient. */
  function InverseShift(power: nat, bits: nat): nat
    requires bits >= 1
  {
    bits + BitLength(power) - 1
  }

  function InversePowerOfFive(exponent: nat): nat {
    InverseOf(Pow5(exponent), POWER_BITS)
  }

  /** A value of `length` bits, shifted to 125 bits; what is shifted out rounds up. */
  function Normalize(value: nat, length: nat): nat {
    if length <= POWER_BITS then Times(value, Pow2(POWER_BITS - length)) else CeilDiv(value, Pow2(length - POWER_BITS))
  }

  function NormalizedPowerOfFive(exponent: nat): nat {
    Normalize(Pow5(exponent), BitLength(Pow5(exponent)))
  }

  /** a * p < b * p only if a < b. */
  lemma CancelFactor(a: int, b: int, p: int)
    requires p > 0 && a * p < b * p
    ensures a < b
  {
    assert (a - b) * p == a * p - b * p;
    if a >= b {
      MulAtLeast0(a - b, p);
    }
  }

  lemma MulAtLeast0(a: int, p: int)
    requires a >= 0 && p >= 0
    ensures a * p >= 0
  {
  }

  lemma ShiftFacts(power: nat, bits: nat)
    requires power >= 1 && bits >= 1
    ensures var b, s := BitLength(power), Pow2(InverseShift(power, bits));
            && b >= 1 && Pow2(b - 1) <= power < Pow2(b)
            && s == Pow2(bits - 1) * Pow2(b) && s == Pow2(bits) * Pow2(b - 1)
  {
    var b := BitLength(power);
    BitLengthBounds(power);
    Pow2Add(bits - 1, b);
    Pow2Add(bits, b - 1);
    assert bits - 1 + b == InverseShift(power, bits) && bits + (b - 1) == InverseShift(power, bits);
  }

  lemma InverseRangeOf(power: nat, bits: nat)
    requires power >= 1 && bits >= 1
    ensures Pow2(bits - 1) < InverseOf(power, bits) <= Pow2(bits)
  {
    var b, s := BitLength(power), Pow2(InverseShift(power, bits));
    ShiftFacts(power, bits);
    CeilDivBounds(s, power);
    RangeOfQuotient(power, CeilDiv(s, power), s, Pow2(bits - 1), Pow2(b), Pow2(bits), Pow2(b - 1));
  }

  /** Every cached reciprocal lies above 2^124 and not above 2^125. */
  lemma InverseRange(exponent: nat)
    ensures Pow2(POWER_BITS - 1) < InversePowerOfFive(exponent) <= Pow2(POWER_BITS)
  {
    InverseRangeOf(Pow5(exponent), POWER_BITS);
  }

  lemma RangeOfQuotient(p: nat, r: nat, s: nat, low: nat, above: nat, high: nat, below: nat)
    requires p > 0 && below <= p < above && s == low * above == high * below && low > 0
    requires r * p >= s && r * p - s < p
    ensures low < r <= high
  {
    assert low * p < low * above by {
      MulStrict(low, p, above);
    }
    CancelFactor(low, r, p);
    assert high * p >= high * below by {
      MulWeak(high, below, p);
    }
    assert (r - 1) * p == r * p - p;
    CancelFactor(r - 1, high, p);
  }

  lemma MulStrict(a: nat, x: nat, y: nat)
    requires a > 0 && x < y
    ensures a * x < a * y
  {
    assert a * y == a * x + a * (y - x);
    MulAtLeast(y - x, a);
    assert a * (y - x) == (y - x) * a;
  }

  lemma MulWeak(a: nat, x: nat, y: nat)
    requires x <= y
    ensures a * x <= a * y
  {
    assert a * y == a * x + a * (y - x);
    MulAtLeast0(a, y - x);
  }

  lemma InverseDivides(power: nat, bits: nat, m: nat)
    requires power >= 1 && bits >= 1 && m <= Pow2(bits - 1)
    ensures (m * InverseOf(power, bits)) / Pow2(InverseShift(power, bits)) == m / power
  {
    var b, s := BitLength(power), Pow2(InverseShift(power, bits));
    ShiftFacts(power, bits);
    CeilDivBounds(s, power);
    var r := CeilDiv(s, power);
    var excess := r * power - s;
    ExcessIsSmall(m, excess, Pow2(bits - 1), power, Pow2(b));
    QuotientByReciprocal(m, power, r, s, excess);
  }

  /** Multiplying by the reciprocal and shifting is division by the power of five, exactly, for
      every exponent and every dividend up to 2^124. */
  lemma ReciprocalDivides(exponent: nat, m: nat)
    requires m <= Pow2(POWER_BITS - 1)
    ensures BitLength(Pow5(exponent)) >= 1
    ensures (m * InversePowerOfFive(exponent)) / Pow2(POWER_BITS - 1 + BitLength(Pow5(exponent))) == m / Pow5(exponent)
  {
    BitLengthBounds(Pow5(exponent));
    InverseDivides(Pow5(exponent), POWER_BITS, m);
    assert InverseShift(Pow5(exponent), POWER_BITS) == POWER_BITS - 1 + BitLength(Pow5(exponent));
  }

  lemma ExcessIsSmall(m: nat, excess: nat, bound: nat, p: nat, above: nat)
    requires m <= bound && excess < p < above && bound > 0
    ensures m * excess < bound * above
  {
    MulWeak(excess, m, bound);
    assert excess * m == m * excess && excess * bound == bound * excess;
    MulStrict(bound, excess, above);
  }

  /** With r * p exceeding s by little enough, (m * r) / s is m / p. */
  lemma QuotientByReciprocal(m: nat, p: nat, r: nat, s: nat, excess: nat)
    requires p > 0 && s > 0 && r * p == s + excess && m * excess < s
    ensures (m * r) / s == m / p
  {
    var q, t := m / p, m % p;
    assert m == q * p + t;
    var rest := m * r - q * s;
    RemainderScaled(m, p, r, s, excess, q, t, rest);
    if rest < 0 {
      CancelFactor(0, rest, p);
    }
    MulWeak(s, t, p - 1);
    assert s * t == t * s && s * (p - 1) == (p - 1) * s == p * s - s;
    assert rest * p < s * p;
    CancelFactor(rest, s, p);
    if rest < 0 {
      NegativeProduct(rest, p);
    }
    DivModUnique(m * r, s, q, rest);
  }

  lemma NegativeProduct(x: int, p: int)
    requires x < 0 && p > 0
    ensures x * p < 0
  {
  }

  lemma RemainderScaled(m: nat, p: nat, r: nat, s: nat, excess: nat, q: nat, t: nat, rest: int)
    requires r * p == s + excess && m == q * p + t && rest == m * r - q * s
    ensures rest * p == t * s + m * excess
    ensures t * s + m * excess >= 0
  {
    assert rest * p == (m * r) * p - (q * s) * p;
    assert (m * r) * p == m * (r * p) == m * (s + excess) == m * s + m * excess;
    assert m * s == (q * p + t) * s == (q * p) * s + t * s;
    assert (q * p) * s == (q * s) * p;
  }

  /** A value of at most 125 bits is kept exactly. */
  lemma NormalizeShort(v: nat, b: nat)
    requires 1 <= b <= POWER_BITS && Pow2(b - 1) <= v < Pow2(b)
    ensures Normalize(v, b) == Times(v, Pow2(POWER_BITS - b))
    ensures Pow2(POWER_BITS - 1) <= Normalize(v, b) <= Pow2(POWER_BITS)
  {
    Pow2Add(b - 1, POWER_BITS - b);
    Pow2Add(b, POWER_BITS - b);
    ScaledRange(v, Pow2(POWER_BITS - b), Pow2(b - 1), Pow2(b));
  }

  lemma ScaledRange(v: nat, d: nat, low: nat, high: nat)
    requires low <= v <= high
    ensures low * d <= Times(v, d) <= high * d
  {
    TimesIsProduct(v, d);
    MulWeak(d, low, v);
    MulWeak(d, v, high);
    assert d * low == low * d && d * v == v * d && d * high == high * d;
  }

  /** A longer value keeps its leading bits, rounded up. */
  lemma NormalizeLong(v: nat, b: nat)
    requires b > POWER_BITS && Pow2(b - 1) <= v < Pow2(b)
    ensures v <= Times(Normalize(v, b), Pow2(b - POWER_BITS)) < v + Pow2(b - POWER_BITS)
    ensures Pow2(POWER_BITS - 1) <= Normalize(v, b) <= Pow2(POWER_BITS)
  {
    RoundedBits(v, b, POWER_BITS);
    TimesIsProduct(Normalize(v, b), Pow2(b - POWER_BITS));
  }

  lemma RoundedBits(v: nat, b: nat, kept: nat)
    requires b > kept >= 1 && Pow2(b - 1) <= v < Pow2(b)
    ensures var d, n := Pow2(b - kept), CeilDiv(v, Pow2(b - kept));
            v <= n * d < v + d && Pow2(kept - 1) <= n <= Pow2(kept)
  {
    Pow2Add(kept - 1, b - kept);
    Pow2Add(kept, b - kept);
    RoundedRange(v, Pow2(b - kept), Pow2(kept - 1), Pow2(kept));
  }

  lemma RoundedRange(v: nat, d: nat, low: nat, high: nat)
    requires d > 0 && low * d <= v < high * d
    ensures low <= CeilDiv(v, d) <= high && v <= CeilDiv(v, d) * d < v + d
  {
    var n := CeilDiv(v, d);
    CeilDivBounds(v, d);
    assert (n + 1) * d == n * d + d && (high + 1) * d == high * d + d;
    CancelFactor(low, n + 1, d);
    CancelFactor(n, high + 1, d);
  }

  /** `n` is the value itself, shifted, while that has at most 125 bits, and otherwise its leading
      bits rounded up; it never leaves the range from 2^124 to 2^125. */
  ghost predicate LeadingBits(v: nat, b: nat, n: nat) {
    && Pow2(POWER_BITS - 1) <= n <= Pow2(POWER_BITS)
    && (b <= POWER_BITS ==> n == Times(v, Pow2(POWER_BITS - b)))
    && (b > POWER_BITS ==> v <= Times(n, Pow2(b - POWER_BITS)) < v + Pow2(b - POWER_BITS))
  }

  lemma NormalizeKeepsLeadingBits(v: nat, b: nat)
    requires b >= 1 && Pow2(b - 1) <= v < Pow2(b)
    ensures LeadingBits(v, b, Normalize(v, b))
  {
    if b <= POWER_BITS {
      NormalizeShort(v, b);
    } else {
      NormalizeLong(v, b);
    }
  }

  lemma NormalizedPower(exponent: nat)
    ensures LeadingBits(Pow5(exponent), BitLength(Pow5(exponent)), NormalizedPowerOfFive(exponent))
  {
    BitLengthBounds(Pow5(exponent));
    NormalizeKeepsLeadingBits(Pow5(exponent), BitLength(Pow5(exponent)));
  }

  // ------------------------------------------------------------- the emitted table

  const WORD64: nat := 0x1_0000_0000_0000_0000

  /** Upper and lower 64 bits. */
  function Split(value: nat): (nat, nat) {
    (value / WORD64, value % WORD64)
  }

  /** Both halves of a table value are 64-bit words and together are the value. */
  lemma SplitLosesNothing(value: nat)
    requires value <= Pow2(POWER_BITS)
    ensures Split(value).0 < 0x1_0000_0000_0000_0000 && Split(value).1 < 0x1_0000_0000_0000_0000
    ensures Split(value).0 * 0x1_0000_0000_0000_0000 + Split(value).1 == value
  {
    TableValueFits();
  }

  lemma TableValueFits()
    ensures Pow2(POWER_BITS) < WORD64 * WORD64
  {
    Pow2Constants();
    Pow2Add(64, 64);
    var k := 126;
    Pow2Monotone(k, 128);
    assert Pow2(k) == 2 * Pow2(POWER_BITS);
  }

  /** The table: the reciprocals of the first 292 powers of five, then the first 327 powers. */
  function Table(): seq<(nat, nat)> {
    seq(INVERSE_COUNT, i requires 0 <= i => Split(InversePowerOfFive(i)))
    + seq(POWER_COUNT, i requires 0 <= i => Split(NormalizedPowerOfFive(i)))
  }

  /** The high and the low word of a table entry are those of `value`. */
  ghost predicate Holds(pair: (nat, nat), value: nat) {
    pair.1 < 0x1_0000_0000_0000_0000 && pair.0 * 0x1_0000_0000_0000_0000 + pair.1 == value
  }

  /** A reader of the table finds each reciprocal and each power at its place, high word first. */
  lemma TableEntries(e: nat)
    ensures |Table()| == INVERSE_COUNT + POWER_COUNT
    ensures e < INVERSE_COUNT ==> Holds(Table()[e], InversePowerOfFive(e))
    ensures e < POWER_COUNT ==> Holds(Table()[INVERSE_COUNT + e], NormalizedPowerOfFive(e))
  {
    InverseRange(e);
    NormalizedPower(e);
    SplitLosesNothing(InversePowerOfFive(e));
    SplitLosesNothing(NormalizedPowerOfFive(e));
  }

  /** The reciprocal is the least number whose product with the power reaches the shifted one. */
  lemma InverseIsLeast(exponent: nat)
    ensures var p, r := Pow5(exponent), InversePowerOfFive(exponent);
            r * p >= Pow2(InverseShift(p, POWER_BITS)) > (r - 1) * p
  {
    var p := Pow5(exponent);
    CeilDivBounds(Pow2(InverseShift(p, POWER_BITS)), p);
    assert (InversePowerOfFive(exponent) - 1) * p == InversePowerOfFive(exponent) * p - p;
  }
}
