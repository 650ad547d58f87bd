/** The sieve benchmark counts primes. */
module Sieve {
  import opened Numbers

  ghost predicate Divides(d: nat, k: nat)
    requires d > 0
  {
    k % d == 0
  }

  ghost predicate IsPrime(p: nat) {
    p >= 2 && forall d: nat :: 2 <= d < p ==> !Divides(d, p)
  }

  ghost function PrimesBelow(n: nat): nat {
    if n == 0 then 0 else PrimesBelow(n - 1) + if IsPrime(n - 1) then 1 else 0
  }

  /** `k` is a proper multiple of a prime below `i`. */
  ghost predicate Struck(k: nat, i: nat) {
    exists p: nat :: IsPrime(p) && p < i && p < k && Divides(p, k)
  }

  lemma DividesTransitive(a: nat, b: nat, c: nat)
    requires a > 0 && b > 0 && Divides(a, b) && Divides(b, c)
    ensures Divides(a, c)
  {
    var x, y := b / a, c / b;
    assert c == y * b && b == x * a;
    assert c == (y * x) * a;
    DivModUnique(c, a, y * x, 0);
  }

  /** Every number from 2 on has a prime divisor. */
  lemma {:induction false} PrimeDivisor(k: nat) returns (p: nat)
    requires k >= 2
    ensures IsPrime(p) && p <= k && Divides(p, k)
  {
    if IsPrime(k) {
      p := k;
      DivModUnique(k, k, 1, 0);
    } else {
      var d: nat :| 2 <= d < k && Divides(d, k);
      p := PrimeDivisor(d);
      DividesTransitive(p, d, k);
    }
  }

  /** Once all smaller primes have struck their multiples, the numbers left are the primes. */
  lemma UnstruckIsPrime(i: nat)
    requires i >= 2
    ensures !Struck(i, i) <==> IsPrime(i)
  {
    if !IsPrime(i) {
      var p := PrimeDivisor(i);
      if p == i {
        assert false;
      }
      assert Struck(i, i);
    }
  }

  /** Between two consecutive multiples of i there is no other. */
  lemma NextMultiple(i: nat, j: nat, m: nat)
    requires i >= 2 && Divides(i, j)
    ensures Divides(i, j + i)
    ensures j < m < j + i ==> !Divides(i, m)
  {
    var q := j / i;
    assert j == q * i;
    assert j + i == (q + 1) * i;
    DivModUnique(j + i, i, q + 1, 0);
    if j < m < j + i {
      DivModUnique(m, i, q, m - j);
    }
  }

  /** A composite or struck i adds no new multiples. */
  lemma StruckStep(i: nat, k: nat)
    requires i >= 2
    ensures Struck(k, i + 1) <==> Struck(k, i) || (IsPrime(i) && i < k && Divides(i, k))
  {
  }

  /** Marks every multiple of `i` from 2i on. */
  method Strike(flags: array<bool>, i: nat)
    requires i >= 2
    modifies flags
    ensures forall k :: 0 <= k < flags.Length ==> flags[k] == (old(flags[k]) || (i < k && Divides(i, k)))
  {
    var j := i + i;
    DivModUnique(j, i, 2, 0);
    NextMultipleFrom(i);
    while j < flags.Length
      invariant 2 * i <= j && Divides(i, j)
      invariant forall k :: 0 <= k < flags.Length ==> flags[k] == (old(flags[k]) || (i < k < j && Divides(i, k)))
    {
      flags[j] := true;
      forall m: nat | j < m < j + i ensures !Divides(i, m) {
        NextMultiple(i, j, m);
      }
      NextMultiple(i, j, j);
      j := j + i;
    }
  }

  lemma NextMultipleFrom(i: nat)
    requires i >= 2
    ensures forall m: nat :: i < m < 2 * i ==> !Divides(i, m)
  {
    DivModUnique(i, i, 1, 0);
    forall m: nat | i < m < 2 * i ensures !Divides(i, m) {
      NextMultiple(i, i, m);
    }
  }

  /** The count is the number of primes below n, and each flag tells the proper multiples of primes. */
  method Nsieve(n: nat) returns (count: nat, ghost struck: seq<bool>)
    ensures count == PrimesBelow(n)
    ensures |struck| == n && forall k :: 2 <= k < n ==> (struck[k] <==> !IsPrime(k))
  {
    var flags := new bool[n](k => false);
    count := 0;
    var i := 2;
    NoSmallPrimes();
    while i < n
      invariant 2 <= i && (i <= n || n < 2)
      invariant count == PrimesBelow(if i <= n then i else 0)
      invariant forall k :: 2 <= k < n ==> (flags[k] <==> Struck(k, i))
      decreases n - i
    {
      UnstruckIsPrime(i);
      if !flags[i] {
        count := count + 1;
        Strike(flags, i);
      }
      forall k | 2 <= k < n ensures Struck(k, i + 1) <==> Struck(k, i) || (IsPrime(i) && i < k && Divides(i, k)) {
        StruckStep(i, k);
      }
      i := i + 1;
    }
    struck := flags[..];
    forall k | 2 <= k < n ensures struck[k] <==> !IsPrime(k) {
      UnstruckIsPrime(k);
      StruckEarly(k, i);
    }
    if n < 2 {
      NoPrimesBelowTwo(n);
    }
  }

  lemma NoSmallPrimes()
    ensures PrimesBelow(2) == 0 && forall k :: !Struck(k, 2)
  {
    assert PrimesBelow(1) == 0;
  }

  lemma NoPrimesBelowTwo(n: nat)
    requires n < 2
    ensures PrimesBelow(n) == 0
  {
    if n == 1 {
      assert PrimesBelow(0) == 0;
    }
  }

  /** Only primes below k can strike k. */
  lemma StruckEarly(k: nat, i: nat)
    requires k <= i
    ensures Struck(k, i) <==> Struck(k, k)
  {
  }

  ghost function Primes(n: nat): set<nat> {
    set p: nat | p < n && IsPrime(p)
  }

  lemma {:induction false} PrimesAreCounted(n: nat)
    ensures PrimesBelow(n) == |Primes(n)|
  {
    if n > 0 {
      PrimesAreCounted(n - 1);
      assert Primes(n) == Primes(n - 1) + if IsPrime(n - 1) then {n - 1} else {};
    } else {
      assert Primes(n) == {};
    }
  }

  /** The primes below ten. */
  lemma SmallPrimes()
    ensures Primes(10) == {2, 3, 5, 7}
  {
    assert Divides(2, 4) && Divides(2, 6) && Divides(2, 8) && Divides(3, 9);
    assert IsPrime(2) && IsPrime(3) && IsPrime(5) && IsPrime(7);
    assert !IsPrime(4) && !IsPrime(6) && !IsPrime(8) && !IsPrime(9);
  }
}
