/** The fannkuch-redux benchmark: the order in which permutations are visited, the flip loop and
    the division into work blocks. */
module Fannkuch {
  import opened Options
  import opened Numbers
  import opened Permutations

  /** A checksum and the largest flip count. */
  datatype Totals = Totals(checksum: int, maxFlips: nat)

  // -------------------------------------------------- the sequential enumeration

  /** The counter after `i` advances from zero. */
  ghost function DigitsAt(lanes: nat, i: nat): (d: Digits)
    requires lanes >= 1
    ensures |d| == lanes
  {
    if i == 0 then ZeroDigits(lanes) else NextDigits(DigitsAt(lanes, i - 1), 1)
  }

  /** The array after `i` advances from the identity. */
  ghost function PermAt(lanes: nat, i: nat): (p: Lanes)
    requires lanes >= 1
    ensures |p| == lanes
  {
    if i == 0 then Identity(lanes) else NextArray(PermAt(lanes, i - 1), DigitsAt(lanes, i - 1), 1)
  }

  ghost predicate Arranged(lanes: nat, d: Digits, p: Lanes)
    requires |d| == |p| == lanes >= 1
  {
    ValidDigits(d) && p == Arrange(d, lanes - 1, Identity(lanes))
  }

  lemma ArrangedNext(lanes: nat, d: Digits, p: Lanes)
    requires |d| == |p| == lanes >= 1 && Arranged(lanes, d, p)
    ensures Arranged(lanes, NextDigits(d, 1), NextArray(p, d, 1))
  {
    NextDigitsShape(d, 1);
    AdvanceKeepsArrangement(d, 1, Identity(lanes));
  }

  lemma {:induction false} ArrangedAt(lanes: nat, i: nat)
    requires lanes >= 1
    ensures Arranged(lanes, DigitsAt(lanes, i), PermAt(lanes, i))
  {
    if i == 0 {
      ArrangeZero(ZeroDigits(lanes), lanes - 1, Identity(lanes));
    } else {
      ArrangedAt(lanes, i - 1);
      ArrangedNext(lanes, DigitsAt(lanes, i - 1), PermAt(lanes, i - 1));
    }
  }

  lemma {:induction false} ParityAt(lanes: nat, i: nat)
    requires lanes >= 2
    ensures ValidDigits(DigitsAt(lanes, i)) && DigitsAt(lanes, i)[1] == i % 2
  {
    if i > 0 {
      ParityAt(lanes, i - 1);
      NextDigitsShape(DigitsAt(lanes, i - 1), 1);
    }
  }

  /** The array is always the counter's arrangement, and layer 1 counts the parity. */
  lemma ArrangementAt(lanes: nat, i: nat)
    requires lanes >= 1
    ensures ValidDigits(DigitsAt(lanes, i))
    ensures PermAt(lanes, i) == Arrange(DigitsAt(lanes, i), lanes - 1, Identity(lanes))
    ensures IsPermutation(PermAt(lanes, i), lanes)
    ensures lanes >= 2 ==> DigitsAt(lanes, i)[1] == i % 2
  {
    ArrangedAt(lanes, i);
    if lanes >= 2 {
      ParityAt(lanes, i);
    }
    ArrangeIsPermutation(DigitsAt(lanes, i), lanes - 1, Identity(lanes), lanes);
  }

  /** After i < lanes! advances the counter reads i. */
  lemma {:induction false} RankAt(lanes: nat, i: nat)
    requires lanes >= 1 && i < Factorial(lanes)
    ensures ValidDigits(DigitsAt(lanes, i)) && Rank(DigitsAt(lanes, i), lanes) == i
  {
    if i == 0 {
      RankOfZero(ZeroDigits(lanes), lanes);
    } else {
      RankAt(lanes, i - 1);
      NextDigitsRank(DigitsAt(lanes, i - 1), lanes);
    }
  }

  /** Digits with value i are the counter's state after i advances. */
  lemma DigitsWithRank(d: Digits, i: nat)
    requires 1 <= |d| && ValidDigits(d) && Rank(d, |d|) == i
    ensures i < Factorial(|d|) && d == DigitsAt(|d|, i)
  {
    RankBound(d, |d|);
    RankAt(|d|, i);
    RankInjective(d, DigitsAt(|d|, i), |d|);
  }

  /** A value below n! leaves the digits from layer n on at zero, and conversely. */
  lemma {:induction false} HighDigitsZero(d: Digits, n: nat, k: nat)
    requires 1 <= n <= k <= |d| && ValidDigits(d) && Rank(d, k) < Factorial(n)
    ensures forall l :: n <= l < k ==> d[l] == 0
  {
    if k > n {
      FactorialMonotone(n, k - 1);
      HighDigitsZero(d, n, k - 1);
    }
  }

  lemma {:induction false} RankOfLowDigits(d: Digits, n: nat, k: nat)
    requires 1 <= n <= k <= |d| && ValidDigits(d) && forall l :: n <= l < k ==> d[l] == 0
    ensures Rank(d, k) == Rank(d, n) < Factorial(n)
  {
    if k > n {
      RankOfLowDigits(d, n, k - 1);
    } else {
      RankBound(d, n);
    }
  }

  lemma PermAtIsPermutation(lanes: nat, n: nat, i: nat)
    requires 1 <= n <= lanes && i < Factorial(n)
    ensures i < Factorial(lanes) && IsPermutation(PermAt(lanes, i), n)
  {
    FactorialMonotone(n, lanes);
    ArrangementAt(lanes, i);
    RankAt(lanes, i);
    var d := DigitsAt(lanes, i);
    HighDigitsZero(d, n, lanes);
    ArrangeHighZero(d, n, lanes - 1, Identity(lanes));
    ArrangeIsPermutation(d, n - 1, Identity(lanes), n);
  }

  lemma {:induction false} ArrangeHighZero(d: Digits, n: nat, k: nat, base: Lanes)
    requires 1 <= n <= k + 1 <= |d| == |base| && forall l :: n <= l <= k ==> d[l] == 0
    ensures Arrange(d, k, base) == Arrange(d, n - 1, base)
  {
    if k >= n {
      ArrangeHighZero(d, n, k - 1, base);
    }
  }

  /** Different positions below lanes! hold different permutations. */
  lemma PermAtInjective(lanes: nat, i: nat, j: nat)
    requires lanes >= 1 && i < Factorial(lanes) && j < Factorial(lanes)
    requires PermAt(lanes, i) == PermAt(lanes, j)
    ensures i == j
  {
    ArrangementAt(lanes, i);
    ArrangementAt(lanes, j);
    RankAt(lanes, i);
    RankAt(lanes, j);
    var d, e := DigitsAt(lanes, i), DigitsAt(lanes, j);
    ArrangeInjective(d, e, lanes - 1, Identity(lanes));
    RankLocal(d, e, lanes);
  }

  /** Every permutation of 0..n-1 is visited within the first n! positions. */
  lemma PermAtSurjective(p: Lanes, n: nat) returns (i: nat)
    requires 1 <= n && IsPermutation(p, n)
    ensures i < Factorial(n) && PermAt(|p|, i) == p
  {
    var lanes, base := |p|, Identity(|p|);
    PermutationHoldsAll(p, n);
    assert SameValues(p, base, n) by {
      forall v: nat ensures Holds(p, n, v) <==> Holds(base, n, v) {
        if v < n {
          assert base[v] == v;
        }
      }
    }
    var d := ArrangeSurjective(p, n - 1, base);
    ArrangeHighZero(d, n, lanes - 1, base);
    RankOfLowDigits(d, n, lanes);
    i := Rank(d, lanes);
    FactorialMonotone(n, lanes);
    DigitsWithRank(d, i);
    ArrangementAt(lanes, i);
  }

  lemma PermutationHoldsAll(p: Lanes, n: nat)
    requires IsPermutation(p, n)
    ensures forall v :: 0 <= v < n ==> Holds(p, n, v)
  {
    var s := p[..n];
    Pigeonhole(s);
    forall v | 0 <= v < n ensures Holds(p, n, v) {
      assert v in s;
      var i :| 0 <= i < |s| && s[i] == v;
      assert p[i] == v;
    }
  }

  /** The enumeration visits every permutation of 0..n-1 exactly once in its first n! positions,
      and nothing else. */
  lemma EnumeratesEachPermutationOnce(lanes: nat, n: nat, p: Lanes)
    requires 1 <= n <= lanes && |p| == lanes
    ensures IsPermutation(p, n) <==> exists i: nat :: i < Factorial(n) && PermAt(lanes, i) == p
    ensures forall i: nat, j: nat ::
              i < Factorial(n) && j < Factorial(n) && PermAt(lanes, i) == p && PermAt(lanes, j) == p ==> i == j
  {
    if IsPermutation(p, n) {
      var i := PermAtSurjective(p, n);
    }
    if i: nat :| i < Factorial(n) && PermAt(lanes, i) == p {
      PermAtIsPermutation(lanes, n, i);
    }
    FactorialMonotone(n, lanes);
    forall i: nat, j: nat |
      i < Factorial(n) && j < Factorial(n) && PermAt(lanes, i) == p && PermAt(lanes, j) == p
      ensures i == j
    {
      PermAtInjective(lanes, i, j);
    }
  }

  // ------------------------------------------------------------ the flip loop

  /** The sum of 2^(i-1) over the lanes 1 <= i < k that hold their own index. */
  ghost function Weight(p: Lanes, k: nat): nat
    requires k <= |p|
  {
    if k <= 1 then 0 else Weight(p, k - 1) + if p[k - 1] == k - 1 then Pow2(k - 2) else 0
  }

  lemma {:induction false} WeightBound(p: Lanes, k: nat)
    requires 1 <= k <= |p|
    ensures Weight(p, k) <= Pow2(k - 1) - 1
  {
    if k > 1 {
      WeightBound(p, k - 1);
    }
  }

  lemma {:induction false} WeightRisesFrom(p: Lanes, q: Lanes, f: nat, k: nat)
    requires 1 <= f < k <= |p| == |q|
    requires p[f] != f && q[f] == f && forall i :: f < i < |p| ==> p[i] == q[i]
    ensures Weight(q, k) > Weight(p, k)
  {
    if k == f + 1 {
      WeightBound(p, f);
      WeightBound(q, f);
    } else {
      WeightRisesFrom(p, q, f, k - 1);
    }
  }

  /** One flip keeps the permutation and strictly raises its weight. */
  lemma FlipRaisesWeight(p: Lanes, n: nat)
    requires 1 <= n && IsPermutation(p, n) && p[0] > 0
    ensures p[0] < n && IsPermutation(ReverseArray(p, p[0]), n)
    ensures Weight(ReverseArray(p, p[0]), n) > Weight(p, n)
  {
    var q := ReverseArray(p, p[0]);
    assert p[p[0]] != p[0];
    assert q[p[0]] == p[0];
    WeightRisesFrom(p, q, p[0], n);
  }

  /** How many times the first p[0] + 1 lanes must be reversed until 0 comes to the front. */
  ghost function Flips(p: Lanes): nat
    requires 1 <= |p| && IsPermutation(p, |p|)
    decreases Pow2(|p| - 1) - Weight(p, |p|)
  {
    if p[0] == 0 then 0
    else
      FlipRaisesWeight(p, |p|);
      WeightBound(ReverseArray(p, p[0]), |p|);
      1 + Flips(ReverseArray(p, p[0]))
  }

  /** No permutation of n elements takes more than 2^(n-1) - 1 flips. */
  lemma {:induction false} FlipsBound(p: Lanes, n: nat)
    requires 1 <= n && IsPermutation(p, n)
    ensures IsPermutation(p, |p|) && Flips(p) <= Pow2(n - 1) - 1 - Weight(p, n)
    decreases Pow2(n - 1) - Weight(p, n)
  {
    WeightBound(p, n);
    if p[0] > 0 {
      FlipRaisesWeight(p, n);
      WeightBound(ReverseArray(p, p[0]), n);
      FlipsBound(ReverseArray(p, p[0]), n);
    }
  }

  // ------------------------------------------------- what the number of flips is

  /** Reversing as many lanes as the first lane says, one more for lane 0, keeps a permutation. */
  lemma FlipKeepsPermutation(p: Lanes)
    requires 1 <= |p| && IsPermutation(p, |p|)
    ensures IsPermutation(ReverseArray(p, p[0]), |p|)
    ensures p[0] == 0 ==> ReverseArray(p, p[0]) == p
  {
    if p[0] > 0 {
      FlipRaisesWeight(p, |p|);
    } else {
      assert ReverseArray(p, p[0]) == p;
    }
  }

  /** One reversal, as long as the lane in front says. */
  ghost function Flip(p: Lanes): (q: Lanes)
    requires 1 <= |p| && IsPermutation(p, |p|)
    ensures |q| == |p| && IsPermutation(q, |p|)
  {
    FlipKeepsPermutation(p);
    ReverseArray(p, p[0])
  }

  /** The array after `k` reversals. */
  ghost function FlipTimes(p: Lanes, k: nat): (q: Lanes)
    requires 1 <= |p| && IsPermutation(p, |p|)
    ensures |q| == |p| && IsPermutation(q, |p|)
  {
    if k == 0 then p else Flip(FlipTimes(p, k - 1))
  }

  /** Reversal k + 1 turns the first lanes around, up to the one that lane 0 names. */
  lemma FlipTimesNext(p: Lanes, k: nat)
    requires 1 <= |p| && IsPermutation(p, |p|)
    ensures FlipTimes(p, 0) == p
    ensures var q := FlipTimes(p, k);
            FlipTimes(p, k + 1) == Reversed(q[..q[0] + 1]) + q[q[0] + 1..]
  {
    var q := FlipTimes(p, k);
    ReverseArrayIsPrefixReversal(q, q[0]);
  }

  /** `k` is the least number of reversals that brings 0 to the front. */
  ghost predicate BringsZero(p: Lanes, k: nat)
    requires 1 <= |p| && IsPermutation(p, |p|)
  {
    FlipTimes(p, k)[0] == 0 && forall j: nat :: j < k ==> FlipTimes(p, j)[0] > 0
  }

  lemma FlipsStep(q: Lanes)
    requires 1 <= |q| && IsPermutation(q, |q|)
    ensures Flips(q) == if q[0] == 0 then 0 else 1 + Flips(Flip(q))
  {
    if q[0] > 0 {
      FlipRaisesWeight(q, |q|);
    }
  }

  /** Each reversal leaves one less to do. */
  lemma {:induction false} FlipsLeft(p: Lanes, k: nat)
    requires 1 <= |p| && IsPermutation(p, |p|) && k <= Flips(p)
    ensures Flips(p) == k + Flips(FlipTimes(p, k))
  {
    if k > 0 {
      FlipsLeft(p, k - 1);
      OneLess(FlipTimes(p, k - 1), Flips(p), k - 1);
    }
  }

  lemma OneLess(q: Lanes, total: nat, k: nat)
    requires 1 <= |q| && IsPermutation(q, |q|) && total == k + Flips(q) && k < total
    ensures total == k + 1 + Flips(Flip(q))
  {
    FlipsStep(q);
  }

  /** That number is the flip count. */
  lemma FlipsBringZero(p: Lanes)
    requires 1 <= |p| && IsPermutation(p, |p|)
    ensures BringsZero(p, Flips(p))
  {
    FlipsLeft(p, Flips(p));
    FlipsStep(FlipTimes(p, Flips(p)));
    forall j: nat | j < Flips(p) ensures FlipTimes(p, j)[0] > 0 {
      FlipsLeft(p, j);
      FlipsStep(FlipTimes(p, j));
    }
  }

  lemma LeastIsUnique(p: Lanes, k: nat, l: nat)
    requires 1 <= |p| && IsPermutation(p, |p|) && BringsZero(p, k) && BringsZero(p, l)
    ensures k == l
  {
  }

  /** The flip count is the least number of reversals that brings 0 to the front. */
  lemma FlipsIsLeast(p: Lanes, k: nat)
    requires 1 <= |p| && IsPermutation(p, |p|)
    ensures BringsZero(p, k) <==> k == Flips(p)
  {
    FlipsBringZero(p);
    if BringsZero(p, k) {
      LeastIsUnique(p, k, Flips(p));
    }
  }

  /** Where the inner loop stands after `k` passes. */
  ghost predicate Flipped(current: Lanes, k: nat, tmp: Lanes)
    requires 1 <= |current| && IsPermutation(current, |current|)
  {
    tmp == FlipTimes(current, k) && Flips(current) == k + Flips(tmp)
  }

  /** What one pass does. */
  lemma FlipOnce(current: Lanes, k: nat, tmp: Lanes)
    requires 1 <= |current| && IsPermutation(current, |current|) && Flipped(current, k, tmp) && tmp[0] > 0
    ensures Flipped(current, k + 1, ReverseArray(tmp, tmp[0]))
  {
    FlipsStep(tmp);
  }

  lemma FlipFacts(tmp: Lanes)
    requires 1 <= |tmp| && IsPermutation(tmp, |tmp|) && tmp[0] > 0
    ensures var q := ReverseArray(tmp, tmp[0]);
            && |q| == |tmp| && IsPermutation(q, |tmp|) && q[0] == tmp[tmp[0]]
            && Weight(tmp, |tmp|) < Weight(q, |tmp|) <= Pow2(|tmp| - 1) - 1
  {
    FlipRaisesWeight(tmp, |tmp|);
    WeightBound(ReverseArray(tmp, tmp[0]), |tmp|);
  }

  lemma FlipsWithinBound(p: Lanes)
    requires 1 <= |p| && IsPermutation(p, |p|)
    ensures forall n :: 1 <= n && IsPermutation(p, n) ==> Flips(p) <= Pow2(n - 1) - 1
  {
    forall n | 1 <= n && IsPermutation(p, n) ensures Flips(p) <= Pow2(n - 1) - 1 {
      FlipsBound(p, n);
    }
  }

  /** The inner loop: flip until 0 is in front. */
  method CountFlips(current: Lanes) returns (revCount: nat, tmp: Lanes)
    requires 1 <= |current| && IsPermutation(current, |current|)
    ensures revCount == Flips(current) && BringsZero(current, revCount) && tmp == FlipTimes(current, revCount)
    ensures IsPermutation(tmp, |current|) && |tmp| == |current| && tmp[0] == 0
    ensures forall n :: 1 <= n && IsPermutation(current, n) ==> revCount <= Pow2(n - 1) - 1
  {
    tmp := current;
    revCount := 0;
    var first := tmp[0];
    while first > 0
      invariant |tmp| == |current| && IsPermutation(tmp, |tmp|) && tmp[0] == first
      invariant Flipped(current, revCount, tmp)
      decreases Pow2(|tmp| - 1) - Weight(tmp, |tmp|)
    {
      FlipFacts(tmp);
      FlipOnce(current, revCount, tmp);
      var next := tmp[first];
      tmp := ReverseArray(tmp, first);
      first := next;
      revCount := revCount + 1;
    }
    FlipsBringZero(current);
    FlipsWithinBound(current);
  }

  // --------------------------------------------------- totals over positions

  ghost function FlipsAt(lanes: nat, i: nat): nat
    requires lanes >= 1
  {
    ArrangementAt(lanes, i);
    Flips(PermAt(lanes, i))
  }

  /** The flip counts of positions lo..hi, added with alternating sign. */
  ghost function SignedSum(lanes: nat, lo: nat, hi: nat): int
    requires lanes >= 1 && lo <= hi
  {
    if lo == hi then 0
    else SignedSum(lanes, lo, hi - 1) + if (hi - 1) % 2 == 0 then FlipsAt(lanes, hi - 1) else 0 - FlipsAt(lanes, hi - 1)
  }

  ghost function MaxFlips(lanes: nat, lo: nat, hi: nat): nat
    requires lanes >= 1 && lo <= hi
  {
    if lo == hi then 0 else Max(MaxFlips(lanes, lo, hi - 1), FlipsAt(lanes, hi - 1))
  }

  ghost function TotalsOf(lanes: nat, lo: nat, hi: nat): Totals
    requires lanes >= 1 && lo <= hi
  {
    Totals(SignedSum(lanes, lo, hi), MaxFlips(lanes, lo, hi))
  }

  /** The fold step that joins the totals of two blocks. */
  function Join(a: Totals, b: Totals): Totals {
    Totals(a.checksum + b.checksum, Max(a.maxFlips, b.maxFlips))
  }

  /** Joining the totals of adjacent ranges gives the totals of the whole range. */
  lemma {:induction false} JoinAdjacent(lanes: nat, lo: nat, mid: nat, hi: nat)
    requires lanes >= 1 && lo <= mid <= hi
    ensures Join(TotalsOf(lanes, lo, mid), TotalsOf(lanes, mid, hi)) == TotalsOf(lanes, lo, hi)
  {
    if mid < hi {
      JoinAdjacent(lanes, lo, mid, hi - 1);
    }
  }

  /** What position `i` adds: its flip count, negated at odd positions. */
  ghost function Contribution(lanes: nat, i: nat): Totals
    requires lanes >= 1
  {
    var f := FlipsAt(lanes, i);
    Totals(if i % 2 == 0 then f else 0 - f, f)
  }

  lemma TotalsStep(lanes: nat, lo: nat, i: nat)
    requires lanes >= 1 && lo <= i
    ensures TotalsOf(lanes, lo, i + 1) == Join(TotalsOf(lanes, lo, i), Contribution(lanes, i))
  {
  }

  /** The totals in terms of the least numbers of reversals alone: none for no positions, and each
      position adds its number, negated at odd positions, and raises the maximum to it. */
  lemma TotalsByFlips(lanes: nat, lo: nat, i: nat, f: nat)
    requires lanes >= 1 && lo <= i
    requires IsPermutation(PermAt(lanes, i), lanes) && BringsZero(PermAt(lanes, i), f)
    ensures TotalsOf(lanes, lo, lo) == Totals(0, 0)
    ensures var t := TotalsOf(lanes, lo, i);
            TotalsOf(lanes, lo, i + 1)
            == Totals(t.checksum + (if i % 2 == 0 then f else 0 - f), if t.maxFlips < f then f else t.maxFlips)
  {
    FlipsIsLeast(PermAt(lanes, i), f);
    TotalsStep(lanes, lo, i);
  }

  /** The totals over the first n! positions. */
  ghost function AllTotals(lanes: nat, n: nat): Totals
    requires lanes >= 1
  {
    TotalsOf(lanes, 0, Factorial(n))
  }

  /** The largest flip count over the first n! positions is the largest over all permutations of
      n elements, and stays below 2^(n-1). */
  lemma MaxFlipsIsMaximum(lanes: nat, n: nat)
    requires 1 <= n <= lanes
    ensures forall p: Lanes :: |p| == lanes && IsPermutation(p, n) ==>
              IsPermutation(p, lanes) && Flips(p) <= AllTotals(lanes, n).maxFlips
    ensures exists p: Lanes :: |p| == lanes && IsPermutation(p, n) && IsPermutation(p, lanes)
              && Flips(p) == AllTotals(lanes, n).maxFlips
    ensures AllTotals(lanes, n).maxFlips <= Pow2(n - 1) - 1
  {
    forall p: Lanes | |p| == lanes && IsPermutation(p, n)
      ensures IsPermutation(p, lanes) && Flips(p) <= AllTotals(lanes, n).maxFlips
    {
      var i := PermAtSurjective(p, n);
      MaxFlipsBounds(lanes, Factorial(n), i);
    }
    var i := MaxFlipsAttained(lanes, Factorial(n));
    PermAtIsPermutation(lanes, n, i);
    FlipsBound(PermAt(lanes, i), n);
  }

  lemma {:induction false} MaxFlipsBounds(lanes: nat, hi: nat, i: nat)
    requires lanes >= 1 && i < hi
    ensures FlipsAt(lanes, i) <= MaxFlips(lanes, 0, hi)
  {
    if i < hi - 1 {
      MaxFlipsBounds(lanes, hi - 1, i);
    }
  }

  lemma {:induction false} MaxFlipsAttained(lanes: nat, hi: nat) returns (i: nat)
    requires lanes >= 1 && 1 <= hi
    ensures i < hi && FlipsAt(lanes, i) == MaxFlips(lanes, 0, hi)
  {
    if hi == 1 || MaxFlips(lanes, 0, hi) == FlipsAt(lanes, hi - 1) {
      i := hi - 1;
    } else {
      i := MaxFlipsAttained(lanes, hi - 1);
    }
  }

  // ----------------------------------------------------------- the program

  /** Two's-complement exclusive or with 0 or with -1. */
  function XorMask(x: int, mask: int): int
    requires mask == 0 || mask == -1
  {
    if mask == 0 then x else -x - 1
  }

  /** Exclusive or of the lowest `bits` binary digits. */
  function Xor(a: nat, b: nat, bits: nat): nat {
    if bits == 0 then 0 else 2 * Xor(a / 2, b / 2, bits - 1) + if a % 2 == b % 2 then 0 else 1
  }

  lemma {:induction false} XorZeros(a: nat, bits: nat)
    requires a < Pow2(bits)
    ensures Xor(a, 0, bits) == a
  {
    if bits > 0 {
      XorZeros(a / 2, bits - 1);
    }
  }

  lemma {:induction false} XorOnes(a: nat, bits: nat)
    requires a < Pow2(bits)
    ensures Xor(a, Pow2(bits) - 1, bits) == Pow2(bits) - 1 - a
  {
    if bits > 0 {
      XorOnes(a / 2, bits - 1);
      assert (Pow2(bits) - 1) / 2 == Pow2(bits - 1) - 1;
    }
  }

  /** A number as a word of `bits` binary digits, and back. */
  function Word(x: int, bits: nat): nat {
    x % Pow2(bits)
  }

  function Signed(w: nat, bits: nat): int {
    if 2 * w < Pow2(bits) then w else w - Pow2(bits)
  }

  /** On words the same hack: xor with the negated bit, then add it, negates exactly when it is one. */
  lemma ConditionalNegation(x: nat, c: nat, bits: nat)
    requires bits >= 1 && x < Pow2(bits - 1) && c <= 1
    ensures Signed(Word(Xor(x, Word(0 - c, bits), bits) + c, bits), bits) == XorMask(x, 0 - c) + c
    ensures XorMask(x, 0 - c) + c == if c == 1 then 0 - x else x
  {
    var m := Pow2(bits);
    assert m == 2 * Pow2(bits - 1);
    if c == 0 {
      DivModUnique(0, m, 0, 0);
      DivModUnique(x, m, 0, x);
      XorZeros(x, bits);
    } else {
      DivModUnique(-1, m, -1, m - 1);
      XorOnes(x, bits);
      if x == 0 {
        DivModUnique(m, m, 1, 0);
      } else {
        DivModUnique(m - x, m, 0, m - x);
      }
    }
  }

  /** In words of at least as many digits as there are lanes (32 and 16 in the program), each
      permutation adds its flip count to the checksum, negated at odd positions. */
  lemma ChecksumTerm(lanes: nat, i: nat, bits: nat)
    requires 2 <= lanes <= bits
    ensures var f, c := FlipsAt(lanes, i), i % 2;
            Signed(Word(Xor(f, Word(0 - c, bits), bits) + c, bits), bits) == Contribution(lanes, i).checksum
  {
    FlipsFit(lanes, i, bits);
    ConditionalNegation(FlipsAt(lanes, i), i % 2, bits);
  }

  lemma FlipsFit(lanes: nat, i: nat, bits: nat)
    requires 2 <= lanes <= bits
    ensures FlipsAt(lanes, i) < Pow2(bits - 1)
  {
    ArrangementAt(lanes, i);
    FlipsBound(PermAt(lanes, i), lanes);
    Pow2Monotone(lanes - 1, bits - 1);
  }

  method AdvanceArray(arr: Lanes, count: array<nat>) returns (r: Lanes)
    requires 1 <= |arr| == count.Length
    modifies count
    ensures r == NextArray(arr, old(count[..]), 1)
    ensures count[..] == NextDigits(old(count[..]), 1)
  {
    r := arr;
    var layer := 1;
    while layer < count.Length
      invariant 1 <= layer <= count.Length == |r|
      invariant NextArray(r, count[..], layer) == NextArray(arr, old(count[..]), 1)
      invariant NextDigits(count[..], layer) == NextDigits(old(count[..]), 1)
    {
      ghost var before := count[..];
      r := RotateArray(r, layer);
      count[layer] := count[layer] + 1;
      if count[layer] <= layer {
        assert count[..] == before[layer := before[layer] + 1];
        return;
      }
      count[layer] := 0;
      assert count[..] == before[layer := 0];
      layer := layer + 1;
    }
  }

  /** The array rotated 0, 1, ..., layer times: one start per work block. */
  method BlockStarts(start: Lanes, layer: nat) returns (arrays: seq<Lanes>)
    requires layer < |start|
    ensures |arrays| == layer + 1
    ensures forall j :: 0 <= j <= layer ==> arrays[j] == RotateTimes(start, layer, j)
  {
    var current := start;
    arrays := [current];
    for i := 1 to layer + 1
      invariant |arrays| == i && current == RotateTimes(start, layer, i - 1)
      invariant forall j :: 0 <= j < i ==> arrays[j] == RotateTimes(start, layer, j)
    {
      current := RotateArray(current, layer);
      assert current == RotateTimes(start, layer, i);
      arrays := arrays + [current];
    }
  }

  /** The position at which the block with rotation counts `r1` and `r2` starts. */
  ghost function BlockPosition(n: nat, r1: nat, r2: nat): nat
    requires n >= 2
  {
    Times(r1, Factorial(n - 1)) + Times(r2, Factorial(n - 2))
  }

  /** Blocks follow each other without gap, up to n!. */
  lemma BlockPositions(n: nat, r1: nat, r2: nat)
    requires 3 <= n && r1 < n && r2 < n - 1
    ensures BlockPosition(n, r1, r2 + 1) == BlockPosition(n, r1, r2) + Factorial(n - 2)
    ensures BlockPosition(n, r1, n - 1) == BlockPosition(n, r1 + 1, 0)
    ensures BlockPosition(n, r1, 0) <= BlockPosition(n, r1, r2)
    ensures BlockPosition(n, 0, 0) == 0 && BlockPosition(n, n, 0) == Factorial(n)
  {
    assert Times(0, Factorial(n - 1)) == 0 && Times(0, Factorial(n - 2)) == 0;
  }

  /** The state in which that block starts. */
  lemma BlockStart(lanes: nat, n: nat, r1: nat, r2: nat)
    requires 3 <= n <= lanes && r1 < n && r2 < n - 1
    ensures var d := ZeroDigits(lanes)[n - 1 := r1][n - 2 := r2];
            && Rank(d, n - 2) == 0
            && d == DigitsAt(lanes, BlockPosition(n, r1, r2))
            && RotateTimes(RotateTimes(Identity(lanes), n - 1, r1), n - 2, r2)
               == PermAt(lanes, BlockPosition(n, r1, r2))
  {
    var lo := BlockPosition(n, r1, r2);
    var d := ZeroDigits(lanes)[n - 1 := r1][n - 2 := r2];
    FactorialMonotone(n, lanes);
    RankOfZero(d, n - 2);
    assert Rank(d, n - 1) == Times(r2, Factorial(n - 2));
    RankOfLowDigits(d, n, lanes);
    DigitsWithRank(d, lo);
    ArrangementAt(lanes, lo);
    ArrangeTwoLayers(d, n, r1, r2);
  }

  lemma ArrangeTwoLayers(d: Digits, n: nat, r1: nat, r2: nat)
    requires 3 <= n <= |d| && r1 < n && r2 < n - 1 && d == ZeroDigits(|d|)[n - 1 := r1][n - 2 := r2]
    ensures Arrange(d, |d| - 1, Identity(|d|)) == RotateTimes(RotateTimes(Identity(|d|), n - 1, r1), n - 2, r2)
  {
    var base := Identity(|d|);
    var top := RotateTimes(base, n - 1, r1);
    ArrangeHighZero(d, n, |d| - 1, base);
    assert Arrange(d, n - 2, top) == Arrange(d, n - 3, RotateTimes(top, n - 2, r2));
    ArrangeZero(d, n - 3, RotateTimes(top, n - 2, r2));
  }

  /** `done` positions into the block that starts at `lo` and has `size` positions. */
  ghost predicate InBlock(d: Digits, k: nat, rotateCount: nat, done: nat, size: nat)
    requires k < |d|
  {
    && (done < size ==> d[k] == rotateCount && Rank(d, k) == done)
    && (done == size ==> d[k] != rotateCount)
  }

  /** Layer `k` changes its count exactly when all k! states of the layers below have passed. */
  lemma BlockStep(d: Digits, k: nat, rotateCount: nat, done: nat)
    requires 1 <= k < |d| && ValidDigits(d) && done < Factorial(k) && InBlock(d, k, rotateCount, done, Factorial(k))
    ensures InBlock(NextDigits(d, 1), k, rotateCount, done + 1, Factorial(k))
  {
    NextDigitsRank(d, k);
  }

  /** What one iteration of a block's loop does to the position, the counter and the totals. */
  lemma BlockIteration(lanes: nat, lo: nat, k: nat, rotateCount: nat, done: nat)
    requires 1 <= k < lanes && done < Factorial(k)
    requires InBlock(DigitsAt(lanes, lo + done), k, rotateCount, done, Factorial(k))
    ensures InBlock(DigitsAt(lanes, lo + done + 1), k, rotateCount, done + 1, Factorial(k))
    ensures DigitsAt(lanes, lo + done)[1] == (lo + done) % 2
    ensures DigitsAt(lanes, lo + done + 1) == NextDigits(DigitsAt(lanes, lo + done), 1)
    ensures PermAt(lanes, lo + done + 1) == NextArray(PermAt(lanes, lo + done), DigitsAt(lanes, lo + done), 1)
    ensures TotalsOf(lanes, lo, lo + done + 1) == Join(TotalsOf(lanes, lo, lo + done), Contribution(lanes, lo + done))
  {
    ArrangementAt(lanes, lo + done);
    TotalsStep(lanes, lo, lo + done);
    BlockStep(DigitsAt(lanes, lo + done), k, rotateCount, done);
  }

  /** The contribution of one position to the totals of its block. */
  method Evaluate(current: Lanes, odd: int, ghost i: nat) returns (t: Totals)
    requires 2 <= |current| && current == PermAt(|current|, i)
    requires odd == i % 2
    ensures t == Contribution(|current|, i)
  {
    t := Totals(0, 0);
    ArrangementAt(|current|, i);
    if current[0] > 0 {
      var revCount, tmp := CountFlips(current);
      t := Totals(XorMask(revCount, -odd) + odd, revCount);
    }
  }

  /** One work block: advance while layer n - 2 keeps its count. */
  method WorkBlock(start: Lanes, count: array<nat>, n: nat, rotateCount: nat, ghost lo: nat) returns (t: Totals)
    requires 3 <= n <= |start| == count.Length
    requires count[..] == DigitsAt(|start|, lo) && start == PermAt(|start|, lo)
    requires Rank(count[..], n - 2) == 0 && count[n - 2] == rotateCount
    modifies count
    ensures t == TotalsOf(|start|, lo, lo + Factorial(n - 2))
  {
    var current := start;
    t := Totals(0, 0);
    ghost var lanes, done, size := |start|, 0, Factorial(n - 2);
    while count[n - 2] == rotateCount
      invariant 0 <= done <= size && |current| == lanes
      invariant t == TotalsOf(lanes, lo, lo + done)
      invariant InBlock(count[..], n - 2, rotateCount, done, size)
      invariant count[..] == DigitsAt(lanes, lo + done)
      invariant current == PermAt(lanes, lo + done)
      decreases size - done
    {
      ghost var i := lo + done;
      BlockIteration(lanes, lo, n - 2, rotateCount, done);
      var contribution := Evaluate(current, count[1], i);
      t := Join(t, contribution);
      current := AdvanceArray(current, count);
      done := done + 1;
    }
  }

  /** The totals of the blocks before `r2` that share the outer rotation count `r1`. */
  ghost predicate BlockTotals(lanes: nat, n: nat, r1: nat, r2: nat, t: Totals)
    requires lanes >= 1 && n >= 2
  {
    && BlockPosition(n, r1, 0) <= BlockPosition(n, r1, r2)
    && t == TotalsOf(lanes, BlockPosition(n, r1, 0), BlockPosition(n, r1, r2))
  }

  lemma NoBlocks(lanes: nat, n: nat, r1: nat)
    requires lanes >= 1 && n >= 2
    ensures BlockTotals(lanes, n, r1, 0, Totals(0, 0))
  {
  }

  /** What block `r2` needs and what its totals add. */
  lemma BlockFollows(lanes: nat, n: nat, r1: nat, r2: nat, t0: Totals)
    requires 3 <= n <= lanes && r1 < n && r2 < n - 1 && BlockTotals(lanes, n, r1, r2, t0)
    ensures BlockPosition(n, r1, r2 + 1) == BlockPosition(n, r1, r2) + Factorial(n - 2)
    ensures BlockTotals(lanes, n, r1, r2 + 1,
                        Join(t0, TotalsOf(lanes, BlockPosition(n, r1, r2), BlockPosition(n, r1, r2 + 1))))
  {
    BlockPositions(n, r1, r2);
    JoinAdjacent(lanes, BlockPosition(n, r1, 0), BlockPosition(n, r1, r2), BlockPosition(n, r1, r2 + 1));
  }

  lemma AllBlocks(lanes: nat, n: nat, r1: nat, t: Totals)
    requires 3 <= n <= lanes && r1 < n && BlockTotals(lanes, n, r1, n - 1, t)
    ensures BlockPosition(n, r1, 0) <= BlockPosition(n, r1 + 1, 0)
    ensures t == TotalsOf(lanes, BlockPosition(n, r1, 0), BlockPosition(n, r1 + 1, 0))
  {
    BlockPositions(n, r1, n - 2);
  }

  /** Sets the counter for block `r2`, runs it and adds its totals to those of the blocks before. */
  method AddBlock(start: Lanes, n: nat, r1: nat, r2: nat, t0: Totals) returns (t: Totals)
    requires 3 <= n <= |start| && r1 < n && r2 < n - 1
    requires start == RotateTimes(RotateTimes(Identity(|start|), n - 1, r1), n - 2, r2)
    requires BlockTotals(|start|, n, r1, r2, t0)
    ensures BlockTotals(|start|, n, r1, r2 + 1, t)
  {
    ghost var lanes, mid := |start|, BlockPosition(n, r1, r2);
    BlockFollows(lanes, n, r1, r2, t0);
    BlockStart(lanes, n, r1, r2);
    var count := new nat[|start|](i => 0);
    count[n - 1] := r1;
    count[n - 2] := r2;
    assert count[..] == ZeroDigits(lanes)[n - 1 := r1][n - 2 := r2];
    var block := WorkBlock(start, count, n, r2, mid);
    t := Join(t0, block);
  }

  /** The blocks that share one rotation count of layer n - 1. */
  method WorkBlocks(start: Lanes, n: nat, r1: nat) returns (t: Totals)
    requires 3 <= n <= |start| && r1 < n && start == RotateTimes(Identity(|start|), n - 1, r1)
    ensures BlockPosition(n, r1, 0) <= BlockPosition(n, r1 + 1, 0)
    ensures t == TotalsOf(|start|, BlockPosition(n, r1, 0), BlockPosition(n, r1 + 1, 0))
  {
    var arrays := BlockStarts(start, n - 2);
    t := Totals(0, 0);
    NoBlocks(|start|, n, r1);
    for r2 := 0 to n - 1
      invariant BlockTotals(|start|, n, r1, r2, t)
    {
      t := AddBlock(arrays[r2], n, r1, r2, t);
    }
    AllBlocks(|start|, n, r1, t);
  }

  /** The benchmark, for any number of lanes: None where the program's assertion fails, otherwise
      the totals of one sequential pass over the n! permutations. */
  method FannkuchRedux(n: nat, lanes: nat) returns (r: Option<Totals>)
    requires lanes >= 1
    ensures r.None? <==> n > lanes
    ensures r.Some? ==> r.value == AllTotals(lanes, n)
  {
    if n > lanes {
      return None;
    }
    if n <= 1 {
      OneElement(lanes, n);
      return Some(Totals(0, 0));
    }
    if n == 2 {
      TwoElements(lanes, n);
      return Some(Totals(-1, 1));
    }
    var current := Identity(lanes);
    var arrays := BlockStarts(current, n - 1);
    var t := Totals(0, 0);
    BlockPositions(n, 0, 0);
    for r1 := 0 to n
      invariant t == TotalsOf(lanes, 0, BlockPosition(n, r1, 0))
    {
      var block := WorkBlocks(arrays[r1], n, r1);
      JoinAdjacent(lanes, 0, BlockPosition(n, r1, 0), BlockPosition(n, r1 + 1, 0));
      t := Join(t, block);
    }
    r := Some(t);
  }

  lemma OneElement(lanes: nat, n: nat)
    requires n <= 1 <= lanes
    ensures AllTotals(lanes, n) == Totals(0, 0)
  {
    FactorialSmall(n);
    FirstPermutation(lanes, 0);
    TotalsStep(lanes, 0, 0);
  }

  lemma FirstPermutation(lanes: nat, i: nat)
    requires i == 0 < lanes
    ensures FlipsAt(lanes, i) == 0 && TotalsOf(lanes, i, i) == Totals(0, 0)
  {
    ArrangementAt(lanes, i);
    assert PermAt(lanes, i)[0] == 0;
  }

  lemma TwoElements(lanes: nat, n: nat)
    requires n == 2 <= lanes
    ensures AllTotals(lanes, n) == Totals(-1, 1)
  {
    FactorialSmall(n);
    FactorialSmall(n - 1);
    OneElement(lanes, n - 1);
    SecondPermutation(lanes, n - 1);
    TotalsStep(lanes, 0, n - 1);
  }

  lemma SecondPermutation(lanes: nat, i: nat)
    requires i == 1 < lanes
    ensures FlipsAt(lanes, i) == 1
  {
    var d, p := DigitsAt(lanes, i - 1), PermAt(lanes, i);
    assert d == ZeroDigits(lanes) && PermAt(lanes, i - 1) == Identity(lanes);
    assert p == RotateArray(Identity(lanes), 1);
    ArrangementAt(lanes, i);
    FlipRaisesWeight(p, lanes);
    var q := ReverseArray(p, p[0]);
    assert q[0] == 0;
    assert Flips(q) == 0;
  }

  // ------------------------------------------------------------- three elements

  /** Three values in front and every other lane in place. */
  ghost function Front(lanes: nat, a: nat, b: nat, c: nat): (p: Lanes)
    requires lanes >= 3
    ensures |p| == lanes && p[0] == a && p[1] == b && p[2] == c
  {
    seq(lanes, i => if i == 0 then a else if i == 1 then b else if i == 2 then c else i)
  }

  ghost function LowDigits(lanes: nat, one: nat, two: nat): (d: Digits)
    requires lanes >= 3
    ensures |d| == lanes && d[1] == one && d[2] == two
  {
    seq(lanes, i => if i == 1 then one else if i == 2 then two else 0)
  }

  /** A step that counts layer 1. */
  lemma CountStep(lanes: nat, i: nat, a: nat, b: nat, c: nat, two: nat)
    requires lanes >= 3 && PermAt(lanes, i) == Front(lanes, a, b, c) && DigitsAt(lanes, i) == LowDigits(lanes, 0, two)
    ensures DigitsAt(lanes, i + 1) == LowDigits(lanes, 1, two) && PermAt(lanes, i + 1) == Front(lanes, b, a, c)
  {
    var d, p := DigitsAt(lanes, i), PermAt(lanes, i);
    assert d[1 := 1] == LowDigits(lanes, 1, two);
    assert NextDigits(d, 1) == d[1 := 1];
    assert RotateArray(p, 1) == Front(lanes, b, a, c);
  }

  /** A step that carries into layer 2. */
  lemma CarryStep(lanes: nat, i: nat, a: nat, b: nat, c: nat, two: nat)
    requires lanes >= 3 && PermAt(lanes, i) == Front(lanes, a, b, c) && DigitsAt(lanes, i) == LowDigits(lanes, 1, two)
    requires two < 2
    ensures DigitsAt(lanes, i + 1) == LowDigits(lanes, 0, two + 1) && PermAt(lanes, i + 1) == Front(lanes, a, c, b)
  {
    var d, p := DigitsAt(lanes, i), PermAt(lanes, i);
    var e: Digits, q := d[1 := 0], RotateArray(p, 1);
    assert e[2 := two + 1] == LowDigits(lanes, 0, two + 1);
    assert NextDigits(d, 1) == NextDigits(e, 2) == e[2 := two + 1];
    assert q == Front(lanes, b, a, c);
    assert RotateArray(q, 2) == Front(lanes, a, c, b);
    assert NextArray(p, d, 1) == NextArray(q, e, 2) == RotateArray(q, 2);
  }

  /** The first positions, in the order in which the program visits them. */
  lemma FirstSixPermutations(lanes: nat, i: nat)
    requires lanes >= 3 && i == 0
    ensures PermAt(lanes, i) == Front(lanes, 0, 1, 2) && PermAt(lanes, i + 1) == Front(lanes, 1, 0, 2)
    ensures PermAt(lanes, i + 2) == Front(lanes, 1, 2, 0) && PermAt(lanes, i + 3) == Front(lanes, 2, 1, 0)
    ensures PermAt(lanes, i + 4) == Front(lanes, 2, 0, 1) && PermAt(lanes, i + 5) == Front(lanes, 0, 2, 1)
  {
    assert Identity(lanes) == Front(lanes, 0, 1, 2);
    assert ZeroDigits(lanes) == LowDigits(lanes, 0, 0);
    CountStep(lanes, i, 0, 1, 2, 0);
    CarryStep(lanes, i + 1, 1, 0, 2, 0);
    CountStep(lanes, i + 2, 1, 2, 0, 1);
    CarryStep(lanes, i + 3, 2, 1, 0, 1);
    CountStep(lanes, i + 4, 2, 0, 1, 2);
  }

  lemma FlipsAfterOne(p: Lanes, q: Lanes, f: nat)
    requires 1 <= |p| == |q| && IsPermutation(p, |p|) && IsPermutation(q, |q|) && p[0] > 0
    requires q == ReverseArray(p, p[0]) && Flips(q) == f
    ensures Flips(p) == f + 1
  {
    FlipRaisesWeight(p, |p|);
  }

  predicate AllOfThree(a: nat, b: nat, c: nat) {
    a < 3 && b < 3 && c < 3 && a != b && b != c && a != c
  }

  lemma FrontIsPermutation(lanes: nat, a: nat, b: nat, c: nat)
    requires lanes >= 3 && AllOfThree(a, b, c)
    ensures IsPermutation(Front(lanes, a, b, c), 3)
  {
  }

  function FlipsByHand(a: nat, b: nat): nat {
    if a == 0 then 0 else if b == (if a == 1 then 2 else 0) then 2 else 1
  }

  /** How often three elements are flipped in each order. */
  lemma FlipsOfThree(lanes: nat, a: nat, b: nat, c: nat)
    requires lanes >= 3 && AllOfThree(a, b, c)
    ensures IsPermutation(Front(lanes, a, b, c), lanes)
    ensures Flips(Front(lanes, a, b, c)) == FlipsByHand(a, b)
    decreases FlipsByHand(a, b)
  {
    var p := Front(lanes, a, b, c);
    FrontIsPermutation(lanes, a, b, c);
    if a == 1 {
      var q := Front(lanes, b, a, c);
      assert ReverseArray(p, a) == q;
      FlipRaisesWeight(p, 3);
      FlipsOfThree(lanes, b, a, c);
      FlipsAfterOne(p, q, Flips(q));
    } else if a == 2 {
      var q := Front(lanes, c, b, a);
      assert ReverseArray(p, a) == q;
      FlipRaisesWeight(p, 3);
      FlipsOfThree(lanes, c, b, a);
      FlipsAfterOne(p, q, Flips(q));
    }
  }

  lemma FlipsAtFront(lanes: nat, i: nat, a: nat, b: nat, c: nat)
    requires lanes >= 3 && AllOfThree(a, b, c) && PermAt(lanes, i) == Front(lanes, a, b, c)
    ensures FlipsAt(lanes, i) == FlipsByHand(a, b)
  {
    FlipsOfThree(lanes, a, b, c);
  }

  /** An even position and the one after it. */
  lemma TwoPositions(lanes: nat, i: nat, t: Totals, a: nat, b: nat, c: nat, d: nat, e: nat, f: nat)
    requires lanes >= 3 && i % 2 == 0 && TotalsOf(lanes, 0, i) == t
    requires AllOfThree(a, b, c) && PermAt(lanes, i) == Front(lanes, a, b, c)
    requires AllOfThree(d, e, f) && PermAt(lanes, i + 1) == Front(lanes, d, e, f)
    ensures TotalsOf(lanes, 0, i + 2)
            == Totals(t.checksum + FlipsByHand(a, b) - FlipsByHand(d, e),
                      Max(Max(t.maxFlips, FlipsByHand(a, b)), FlipsByHand(d, e)))
  {
    FlipsAtFront(lanes, i, a, b, c);
    FlipsAtFront(lanes, i + 1, d, e, f);
    TotalsStep(lanes, 0, i);
    TotalsStep(lanes, 0, i + 1);
  }

  /** With three elements the program returns checksum 2 and maximum 2. */
  lemma ThreeElements(lanes: nat, n: nat)
    requires n == 3 <= lanes
    ensures AllTotals(lanes, n) == Totals(2, 2)
  {
    var i := n - 3;
    FactorialSmall(n - 1);
    SixIsThreeTimesTwo(n, 2);
    FirstSixPermutations(lanes, i);
    TwoPositions(lanes, i, Totals(0, 0), 0, 1, 2, 1, 0, 2);
    TwoPositions(lanes, i + 2, Totals(-1, 1), 1, 2, 0, 2, 1, 0);
    TwoPositions(lanes, i + 4, Totals(0, 2), 2, 0, 1, 0, 2, 1);
  }

  lemma SixIsThreeTimesTwo(a: nat, b: nat)
    requires a == 3 && b == 2
    ensures Times(a, b) == 6
  {
    TimesIsProduct(a, b);
  }
}
