/** Powers of two, factorials and the few division facts shared by the other modules. */
module Numbers {

  function Max(a: int, b: int): int {
    if a < b then b else a
  }

  function Min(a: int, b: int): int {
    if a < b then a else b
  }

  function Pow2(k: nat): (r: nat)
    ensures r >= 1
  {
    if k == 0 then 1 else 2 * Pow2(k - 1)
  }

  /** The product a * b as repeated addition, which keeps the reasoning about factorials linear. */
  function Times(a: nat, b: nat): (r: nat)
    ensures a >= 1 && b >= 1 ==> r >= 1
  {
    if a == 0 then 0 else Times(a - 1, b) + b
  }

  lemma {:induction false} TimesIsProduct(a: nat, b: nat)
    ensures Times(a, b) == a * b
  {
    if a > 0 {
      TimesIsProduct(a - 1, b);
      assert a * b == (a - 1) * b + b;
    }
  }

  lemma {:induction false} TimesMonotone(a: nat, b: nat, f: nat)
    requires a <= b
    ensures Times(a, f) <= Times(b, f)
  {
    if a < b {
      TimesMonotone(a, b - 1, f);
    }
  }

  lemma {:induction false} TimesDigitUnique(q: nat, r: nat, q': nat, r': nat, m: nat)
    requires r < m && r' < m && Times(q, m) + r == Times(q', m) + r'
    ensures q == q' && r == r'
  {
    if q > 0 && q' > 0 {
      TimesDigitUnique(q - 1, r, q' - 1, r', m);
    }
  }

  function Factorial(k: nat): (r: nat)
    ensures r >= 1
  {
    if k == 0 then 1 else Times(k, Factorial(k - 1))
  }

  lemma MulAtLeast(a: int, m: int)
    requires a >= 1 && m >= 0
    ensures a * m >= m
  {
    assert a * m == (a - 1) * m + m;
  }

  lemma {:induction false} Pow2Add(a: nat, b: nat)
    ensures Pow2(a + b) == Pow2(a) * Pow2(b)
  {
    if b > 0 {
      Pow2Add(a, b - 1);
      assert a + b - 1 == a + (b - 1);
    }
  }

  /** The powers of two the programs write as constants. */
  lemma Pow2Constants()
    ensures Pow2(24) == 0x100_0000 && Pow2(31) == 0x8000_0000 && Pow2(64) == 0x1_0000_0000_0000_0000
  {
    assert Pow2(2) == 4 && Pow2(4) == 16;
    Pow2Add(4, 4);
    Pow2Add(8, 8);
    Pow2Add(16, 8);
    assert Pow2(25) == 2 * Pow2(24) && Pow2(26) == 4 * Pow2(24) && Pow2(27) == 8 * Pow2(24);
    Pow2Add(27, 4);
    Pow2Add(16, 16);
    Pow2Add(32, 32);
  }

  lemma {:induction false} Pow2Monotone(a: nat, b: nat)
    requires a <= b
    ensures Pow2(a) <= Pow2(b)
  {
    if a < b {
      Pow2Monotone(a, b - 1);
    }
  }

  /** n! for n up to 2. */
  lemma {:induction false} FactorialSmall(k: nat)
    requires k <= 2
    ensures Factorial(k) == if k == 2 then 2 else 1
  {
    if k > 0 {
      var f := Factorial(k - 1);
      assert Times(0, f) == 0 && Times(1, f) == f && Times(2, f) == f + f;
      if k == 2 {
        FactorialSmall(1);
      }
    }
  }

  lemma {:induction false} FactorialMonotone(a: nat, b: nat)
    requires a <= b
    ensures Factorial(a) <= Factorial(b)
  {
    if a < b {
      FactorialMonotone(a, b - 1);
      TimesMonotone(1, b, Factorial(b - 1));
      assert Times(0, Factorial(b - 1)) == 0;
    }
  }

  /** Quotient and remainder are determined by their defining equation. */
  lemma DivModUnique(x: int, m: int, q: int, r: int)
    requires m > 0 && 0 <= r < m && x == q * m + r
    ensures x / m == q && x % m == r
  {
    var q', r' := x / m, x % m;
    SameQuotient(m, q, r, q', r');
  }

  lemma SameQuotient(m: int, q: int, r: int, q': int, r': int)
    requires 0 <= r < m && 0 <= r' < m && q * m + r == q' * m + r'
    ensures q == q' && r == r'
  {
    assert (q - q') * m == q * m - q' * m && (q' - q) * m == q' * m - q * m;
    if q > q' {
      MulAtLeast(q - q', m);
    } else if q < q' {
      MulAtLeast(q' - q, m);
    }
  }

  /** Adding a multiple of the modulus changes nothing. */
  lemma ModAddMultiple(x: int, k: int, m: int)
    requires m > 0
    ensures (x + k * m) % m == x % m
  {
    assert x + k * m == (x / m + k) * m + x % m;
    DivModUnique(x + k * m, m, x / m + k, x % m);
  }

  /** Reducing an addend first does not change the reduced sum. */
  lemma ModAdd(a: int, b: int, m: int)
    requires m > 0
    ensures (a % m + b) % m == (a + b) % m
  {
    assert a + b == (a % m + b) + (a / m) * m;
    ModAddMultiple(a % m + b, a / m, m);
  }

  /** Reducing the factor `r` first does not change the reduced affine step. */
  lemma ModAffine(a: int, r: int, c: int, m: int)
    requires m > 0
    ensures (a * (r % m) + c) % m == (a * r + c) % m
  {
    assert a * r + c == (a * (r % m) + c) + (a * (r / m)) * m by {
      assert r == (r / m) * m + r % m;
      assert a * r == a * ((r / m) * m) + a * (r % m);
      assert a * ((r / m) * m) == (a * (r / m)) * m;
    }
    ModAddMultiple(a * (r % m) + c, a * (r / m), m);
  }

  /** Reducing modulo a multiple first, then modulo the divisor, is the direct reduction. */
  lemma ModOfMod(x: int, m: int, k: int)
    requires m > 0 && k > 0
    ensures m * k > 0 && (x % (m * k)) % m == x % m
  {
    var q := x / (m * k);
    assert x == x % (m * k) + (q * k) * m by {
      assert x == q * (m * k) + x % (m * k);
      assert q * (m * k) == (q * k) * m;
    }
    ModAddMultiple(x % (m * k), q * k, m);
  }

  // ------------------------------------------------------------- pigeonhole

  ghost function Below(n: nat): (s: set<nat>)
    ensures forall x: nat :: x in s <==> x < n
  {
    if n == 0 then {} else Below(n - 1) + {n - 1}
  }

  lemma {:induction false} BelowSize(n: nat)
    ensures |Below(n)| == n
  {
    if n > 0 {
      BelowSize(n - 1);
    }
  }

  lemma {:induction false} DistinctSize(s: seq<nat>) returns (values: set<nat>)
    requires forall i, j :: 0 <= i < j < |s| ==> s[i] != s[j]
    ensures |values| == |s| && forall v :: v in values <==> v in s
  {
    if s == [] {
      values := {};
    } else {
      var t := DistinctSize(s[1..]);
      assert s == [s[0]] + s[1..];
      values := t + {s[0]};
    }
  }

  lemma SubsetOfSameSize<T>(a: set<T>, b: set<T>)
    requires a <= b && |a| == |b|
    ensures a == b
  {
    if a != b {
      var x :| x in b && x !in a;
      assert |b - {x}| == |b| - 1;
      SubsetSize(a, b - {x});
    }
  }

  lemma {:induction false} SubsetSize<T>(a: set<T>, b: set<T>)
    requires a <= b
    ensures |a| <= |b|
  {
    if a != {} {
      var x :| x in a;
      SubsetSize(a - {x}, b - {x});
      assert |a - {x}| == |a| - 1 && |b - {x}| == |b| - 1;
    }
  }

  /** n distinct numbers below n are all the numbers below n. */
  lemma Pigeonhole(s: seq<nat>)
    requires forall i, j :: 0 <= i < j < |s| ==> s[i] != s[j]
    requires forall i :: 0 <= i < |s| ==> s[i] < |s|
    ensures forall v :: 0 <= v < |s| ==> v in s
  {
    var values := DistinctSize(s);
    BelowSize(|s|);
    SubsetOfSameSize(values, Below(|s|));
  }
}
