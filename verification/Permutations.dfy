/** Lane shuffles, the factorial-base counter and the permutations it walks through
    (the pure part of the fannkuch-redux benchmark).

    A `u128` of byte lanes is a sequence with one entry per lane; the lane count, 16 in the
    program, is the length of the sequence. */
module Permutations {
  import opened Numbers

  type Lanes = seq<nat>

  function Identity(lanes: nat): Lanes {
    seq(lanes, i => i)
  }

  /** Lane i of the result is the lane of `arr` that the mask names for i. */
  function Shuffle(arr: Lanes, mask: Lanes): Lanes
    requires |mask| == |arr| && forall i :: 0 <= i < |mask| ==> mask[i] < |arr|
  {
    seq(|arr|, i requires 0 <= i < |arr| => arr[mask[i]])
  }

  /** Row `last` of the reversal masks: lanes 0..last in opposite order, the rest in place. */
  function ReverseMask(lanes: nat, last: nat): (m: Lanes)
    requires last < lanes
    ensures |m| == lanes && forall i :: 0 <= i < lanes ==> m[i] < lanes
  {
    seq(lanes, i requires 0 <= i < lanes => if i <= last then last - i else i)
  }

  /** Row `layer` of the rotation masks: lanes 0..layer move one place down, the rest stay. */
  function RotateMask(lanes: nat, layer: nat): (m: Lanes)
    requires layer < lanes
    ensures |m| == lanes && forall i :: 0 <= i < lanes ==> m[i] < lanes
  {
    seq(lanes, i requires 0 <= i < lanes => if i < layer then i + 1 else if i == layer then 0 else i)
  }

  function ReverseArray(arr: Lanes, last: nat): Lanes
    requires last < |arr|
  {
    Shuffle(arr, ReverseMask(|arr|, last))
  }

  function RotateArray(arr: Lanes, layer: nat): Lanes
    requires layer < |arr|
  {
    Shuffle(arr, RotateMask(|arr|, layer))
  }

  /** The sequence from last to first. */
  function Reversed(s: Lanes): (r: Lanes)
    ensures |r| == |s|
  {
    if s == [] then [] else Reversed(s[1..]) + [s[0]]
  }

  lemma {:induction false} ReversedAt(s: Lanes, i: nat)
    requires i < |s|
    ensures Reversed(s)[i] == s[|s| - 1 - i]
  {
    if i < |s| - 1 {
      ReversedAt(s[1..], i);
    }
  }

  /** The reversal masks reverse the first last + 1 lanes and leave the others alone. */
  lemma ReverseArrayIsPrefixReversal(arr: Lanes, last: nat)
    requires last < |arr|
    ensures ReverseArray(arr, last) == Reversed(arr[..last + 1]) + arr[last + 1..]
  {
    var p := arr[..last + 1];
    forall i | 0 <= i < |p| ensures Reversed(p)[i] == p[|p| - 1 - i] {
      ReversedAt(p, i);
    }
  }

  /** The rotation masks move the first lane behind the next `layer` lanes. */
  lemma RotateArrayIsPrefixRotation(arr: Lanes, layer: nat)
    requires layer < |arr|
    ensures RotateArray(arr, layer) == arr[1..layer + 1] + [arr[0]] + arr[layer + 1..]
  {
  }

  // ---------------------------------------------------------------- rotations

  function RotateTimes(arr: Lanes, layer: nat, times: nat): (r: Lanes)
    requires layer < |arr|
    ensures |r| == |arr|
  {
    if times == 0 then arr else RotateArray(RotateTimes(arr, layer, times - 1), layer)
  }

  /** `times` rotations of a layer move lane (i + times) mod (layer + 1) to lane i. */
  lemma {:induction false} RotateTimesAt(arr: Lanes, layer: nat, times: nat)
    requires layer < |arr| && times <= layer + 1
    ensures forall i :: 0 <= i <= layer ==>
              RotateTimes(arr, layer, times)[i] ==
              arr[if i + times <= layer then i + times else i + times - (layer + 1)]
    ensures forall i :: layer < i < |arr| ==> RotateTimes(arr, layer, times)[i] == arr[i]
  {
    if times > 0 {
      RotateTimesAt(arr, layer, times - 1);
    }
  }

  /** A carry costs nothing: rotating a layer once for each of its lanes is the identity. */
  lemma FullRotation(arr: Lanes, layer: nat)
    requires layer < |arr|
    ensures RotateTimes(arr, layer, layer + 1) == arr
  {
    RotateTimesAt(arr, layer, layer + 1);
  }

  // ------------------------------------------------- the factorial-base counter

  type Digits = seq<nat>

  ghost predicate ValidDigits(d: Digits) {
    forall l :: 0 <= l < |d| ==> d[l] <= l
  }

  function ZeroDigits(lanes: nat): Digits {
    seq(lanes, i => 0)
  }

  /** The counter after the increment that starts at `layer`. */
  function NextDigits(d: Digits, layer: nat): (r: Digits)
    requires layer <= |d|
    ensures |r| == |d|
    decreases |d| - layer
  {
    if layer == |d| then d
    else if d[layer] + 1 <= layer then d[layer := d[layer] + 1]
    else NextDigits(d[layer := 0], layer + 1)
  }

  /** The array after the same increment. */
  function NextArray(arr: Lanes, d: Digits, layer: nat): (r: Lanes)
    requires layer <= |d| == |arr|
    ensures |r| == |arr|
    decreases |d| - layer
  {
    if layer == |d| then arr
    else if d[layer] + 1 <= layer then RotateArray(arr, layer)
    else NextArray(RotateArray(arr, layer), d[layer := 0], layer + 1)
  }

  /** The value of the digits below layer `k`; digit l weighs l!. */
  ghost function Rank(d: Digits, k: nat): nat
    requires k <= |d|
  {
    if k <= 1 then 0 else Rank(d, k - 1) + Times(d[k - 1], Factorial(k - 1))
  }

  lemma {:induction false} RankBound(d: Digits, k: nat)
    requires 1 <= k <= |d| && ValidDigits(d)
    ensures Rank(d, k) < Factorial(k)
  {
    if k > 1 {
      RankBound(d, k - 1);
      TimesMonotone(d[k - 1], k - 1, Factorial(k - 1));
    }
  }

  lemma {:induction false} RankLocal(d: Digits, e: Digits, k: nat)
    requires k <= |d| && k <= |e| && forall l :: 1 <= l < k ==> d[l] == e[l]
    ensures Rank(d, k) == Rank(e, k)
  {
    if k > 1 {
      RankLocal(d, e, k - 1);
    }
  }

  /** Digits are determined by their value. */
  lemma {:induction false} RankInjective(d: Digits, e: Digits, k: nat)
    requires 1 <= k <= |d| && k <= |e| && ValidDigits(d) && ValidDigits(e) && Rank(d, k) == Rank(e, k)
    ensures forall l :: 1 <= l < k ==> d[l] == e[l]
  {
    if k > 1 {
      RankBound(d, k - 1);
      RankBound(e, k - 1);
      TimesDigitUnique(d[k - 1], Rank(d, k - 1), e[k - 1], Rank(e, k - 1), Factorial(k - 1));
      RankInjective(d, e, k - 1);
    }
  }

  /** The layer at which the increment that starts at `layer` stops carrying. */
  ghost function CarryStop(d: Digits, layer: nat): (m: nat)
    requires layer <= |d| && ValidDigits(d)
    ensures layer <= m <= |d|
    ensures forall l :: layer <= l < m ==> d[l] == l
    ensures m < |d| ==> d[m] < m
    decreases |d| - layer
  {
    if layer == |d| || d[layer] + 1 <= layer then layer else CarryStop(d, layer + 1)
  }

  /** `r` is `d` with the digits from `layer` to below `m` cleared and digit `m` counted up. */
  ghost predicate Carried(d: Digits, r: Digits, layer: nat, m: nat) {
    && |r| == |d| && layer <= m <= |d|
    && (forall l :: 0 <= l < layer ==> r[l] == d[l])
    && (forall l :: layer <= l < m ==> r[l] == 0)
    && (m < |d| ==> r[m] == d[m] + 1)
    && (forall l :: m < l < |d| ==> r[l] == d[l])
  }

  /** One increment clears the full digits and adds one to the first that is not full. */
  lemma {:induction false} NextDigitsShape(d: Digits, layer: nat)
    requires layer <= |d| && ValidDigits(d)
    ensures Carried(d, NextDigits(d, layer), layer, CarryStop(d, layer))
    ensures ValidDigits(NextDigits(d, layer))
    decreases |d| - layer
  {
    if layer < |d| && d[layer] + 1 > layer {
      var d' := d[layer := 0];
      NextDigitsShape(d', layer + 1);
      CarryStopLocal(d, d', layer + 1);
      CarriedFurther(d, NextDigits(d', layer + 1), layer, CarryStop(d, layer + 1));
    }
  }

  lemma CarriedFurther(d: Digits, r: Digits, layer: nat, m: nat)
    requires layer < |d| && Carried(d[layer := 0], r, layer + 1, m)
    ensures Carried(d, r, layer, m)
  {
    assert r[layer] == 0;
  }

  lemma {:induction false} CarryStopLocal(d: Digits, e: Digits, layer: nat)
    requires layer <= |d| == |e| && ValidDigits(d) && ValidDigits(e) && forall l :: layer <= l < |d| ==> d[l] == e[l]
    ensures CarryStop(d, layer) == CarryStop(e, layer)
    decreases |d| - layer
  {
    if layer < |d| && d[layer] + 1 > layer {
      CarryStopLocal(d, e, layer + 1);
    }
  }

  /** The increment adds one to the value of the lowest `k` layers, or wraps them to zero and
      counts layer `k`, which itself wraps after `k`. */
  lemma NextDigitsRank(d: Digits, k: nat)
    requires 1 <= k <= |d| && ValidDigits(d)
    ensures ValidDigits(NextDigits(d, 1))
    ensures var r := NextDigits(d, 1);
            if Rank(d, k) + 1 < Factorial(k) then
              Rank(r, k) == Rank(d, k) + 1 && forall l :: k <= l < |d| ==> r[l] == d[l]
            else
              Rank(r, k) == 0 && (k < |d| ==> r[k] == if d[k] < k then d[k] + 1 else 0)
  {
    NextDigitsShape(d, 1);
    if k <= CarryStop(d, 1) {
      CarryReaches(d, k);
    } else {
      CarryStopsBelow(d, k);
    }
  }

  lemma CarryReaches(d: Digits, k: nat)
    requires 1 <= k <= |d| && ValidDigits(d) && k <= CarryStop(d, 1)
    ensures Rank(d, k) + 1 == Factorial(k) && Rank(NextDigits(d, 1), k) == 0
    ensures k < |d| ==> NextDigits(d, 1)[k] == if d[k] < k then d[k] + 1 else 0
  {
    NextDigitsShape(d, 1);
    RankOfFull(d, k);
    RankOfZero(NextDigits(d, 1), k);
  }

  lemma CarryStopsBelow(d: Digits, k: nat)
    requires 1 <= k <= |d| && ValidDigits(d) && CarryStop(d, 1) < k
    ensures Rank(NextDigits(d, 1), k) == Rank(d, k) + 1 < Factorial(k)
    ensures forall l :: k <= l < |d| ==> NextDigits(d, 1)[l] == d[l]
  {
    NextDigitsShape(d, 1);
    RankAfterCarry(d, NextDigits(d, 1), CarryStop(d, 1), k);
    RankBound(NextDigits(d, 1), k);
  }

  lemma {:induction false} RankOfFull(d: Digits, k: nat)
    requires 1 <= k <= |d| && forall l :: 1 <= l < k ==> d[l] == l
    ensures Rank(d, k) == Factorial(k) - 1
  {
    if k > 1 {
      RankOfFull(d, k - 1);
    }
  }

  lemma {:induction false} RankOfZero(d: Digits, k: nat)
    requires k <= |d| && forall l :: 1 <= l < k ==> d[l] == 0
    ensures Rank(d, k) == 0
  {
    if k > 1 {
      RankOfZero(d, k - 1);
    }
  }

  lemma {:induction false} RankAfterCarry(d: Digits, r: Digits, m: nat, k: nat)
    requires 1 <= m < k <= |d| == |r|
    requires forall l :: 1 <= l < m ==> d[l] == l && r[l] == 0
    requires r[m] == d[m] + 1 && forall l :: m < l < |d| ==> r[l] == d[l]
    ensures Rank(r, k) == Rank(d, k) + 1
  {
    if k == m + 1 {
      RankOfFull(d, m);
      RankOfZero(r, m);
    } else {
      RankAfterCarry(d, r, m, k - 1);
    }
  }

  // ---------------------------------------------- from digits to arrangements

  /** R1^d1(R2^d2(... Rk^dk(base))), where Rl rotates layer l. */
  ghost function Arrange(d: Digits, k: nat, base: Lanes): (r: Lanes)
    requires k < |d| == |base|
    ensures |r| == |base|
  {
    if k == 0 then base else Arrange(d, k - 1, RotateTimes(base, k, d[k]))
  }

  lemma {:induction false} ArrangeLocal(d: Digits, e: Digits, k: nat, base: Lanes)
    requires k < |d| == |e| == |base| && forall l :: 1 <= l <= k ==> d[l] == e[l]
    ensures Arrange(d, k, base) == Arrange(e, k, base)
  {
    if k > 0 {
      ArrangeLocal(d, e, k - 1, RotateTimes(base, k, d[k]));
    }
  }

  lemma {:induction false} ArrangeZero(d: Digits, k: nat, base: Lanes)
    requires k < |d| == |base| && forall l :: 1 <= l <= k ==> d[l] == 0
    ensures Arrange(d, k, base) == base
  {
    if k > 0 {
      ArrangeZero(d, k - 1, base);
    }
  }

  /** With the digits below `layer` cleared, one more rotation of `layer` is the arrangement of
      the digits in which `layer` has been counted up, wrapping to zero after `layer`. */
  lemma {:induction false} RotateArrangement(d: Digits, layer: nat, k: nat, base: Lanes)
    requires 1 <= layer <= k < |d| == |base| && ValidDigits(d)
    requires forall l :: 1 <= l < layer ==> d[l] == 0
    ensures RotateArray(Arrange(d, k, base), layer) ==
            Arrange(d[layer := if d[layer] + 1 <= layer then d[layer] + 1 else 0], k, base)
  {
    var e := d[layer := if d[layer] + 1 <= layer then d[layer] + 1 else 0];
    if k > layer {
      RotateArrangement(d, layer, k - 1, RotateTimes(base, k, d[k]));
    } else {
      ArrangeZero(d, k - 1, RotateTimes(base, k, d[k]));
      ArrangeZero(e, k - 1, RotateTimes(base, k, e[k]));
      FullRotation(base, layer);
    }
  }

  /** Advancing keeps the array equal to the arrangement of the counter. */
  lemma {:induction false} AdvanceKeepsArrangement(d: Digits, layer: nat, base: Lanes)
    requires 1 <= layer <= |d| == |base| && ValidDigits(d)
    requires forall l :: 1 <= l < layer ==> d[l] == 0
    ensures NextArray(Arrange(d, |d| - 1, base), d, layer) == Arrange(NextDigits(d, layer), |d| - 1, base)
    decreases |d| - layer
  {
    if layer < |d| {
      RotateArrangement(d, layer, |d| - 1, base);
      if d[layer] + 1 > layer {
        AdvanceKeepsArrangement(d[layer := 0], layer + 1, base);
      }
    }
  }

  // -------------------------------------------------------------- permutations

  ghost predicate Distinct(p: Lanes) {
    forall i, j :: 0 <= i < j < |p| ==> p[i] != p[j]
  }

  /** A permutation of 0..n-1 in the first n lanes; the lanes above hold their own index. */
  ghost predicate IsPermutation(p: Lanes, n: nat) {
    && n <= |p|
    && Distinct(p)
    && (forall i :: 0 <= i < n ==> p[i] < n)
    && (forall i :: n <= i < |p| ==> p[i] == i)
  }

  lemma RotateKeepsPermutation(p: Lanes, n: nat, layer: nat, times: nat)
    requires IsPermutation(p, n) && layer < n && times <= layer + 1
    ensures IsPermutation(RotateTimes(p, layer, times), n)
  {
    RotateTimesAt(p, layer, times);
  }

  lemma {:induction false} ArrangeIsPermutation(d: Digits, k: nat, base: Lanes, n: nat)
    requires k < n && n <= |d| == |base| && ValidDigits(d) && IsPermutation(base, n)
    ensures IsPermutation(Arrange(d, k, base), n)
  {
    if k > 0 {
      RotateKeepsPermutation(base, n, k, d[k]);
      ArrangeIsPermutation(d, k - 1, RotateTimes(base, k, d[k]), n);
    }
  }

  lemma {:induction false} ArrangeKeepsAbove(d: Digits, k: nat, base: Lanes)
    requires k < |d| == |base| && ValidDigits(d)
    ensures forall i :: k < i < |base| ==> Arrange(d, k, base)[i] == base[i]
  {
    if k > 0 {
      RotateTimesAt(base, k, d[k]);
      ArrangeKeepsAbove(d, k - 1, RotateTimes(base, k, d[k]));
    }
  }

  /** Different digits arrange distinct lanes differently. */
  lemma {:induction false} ArrangeInjective(d: Digits, e: Digits, k: nat, base: Lanes)
    requires k < |d| == |e| == |base| && ValidDigits(d) && ValidDigits(e) && Distinct(base)
    requires Arrange(d, k, base) == Arrange(e, k, base)
    ensures forall l :: 1 <= l <= k ==> d[l] == e[l]
  {
    if k > 0 {
      var b, c := RotateTimes(base, k, d[k]), RotateTimes(base, k, e[k]);
      RotateTimesAt(base, k, d[k]);
      RotateTimesAt(base, k, e[k]);
      ArrangeKeepsAbove(d, k - 1, b);
      ArrangeKeepsAbove(e, k - 1, c);
      assert b[k] == Arrange(d, k, base)[k] == Arrange(e, k, base)[k] == c[k];
      assert d[k] == e[k];
      ArrangeInjective(d, e, k - 1, b);
    }
  }

  /** Value `v` is in one of the first `k` lanes. */
  ghost predicate Holds(p: Lanes, k: nat, v: nat)
    requires k <= |p|
  {
    exists i :: 0 <= i < k && p[i] == v
  }

  ghost predicate SameValues(p: Lanes, q: Lanes, k: nat)
    requires k <= |p| && k <= |q|
  {
    forall v :: Holds(p, k, v) <==> Holds(q, k, v)
  }

  /** Every reordering of the first k + 1 lanes is the arrangement of some digits. */
  lemma {:induction false} ArrangeSurjective(p: Lanes, k: nat, base: Lanes) returns (d: Digits)
    requires k < |p| == |base| && Distinct(p) && Distinct(base)
    requires forall i :: k < i < |p| ==> p[i] == base[i]
    requires SameValues(p, base, k + 1)
    ensures |d| == |p| && ValidDigits(d) && Arrange(d, k, base) == p
    ensures forall l :: k < l < |d| ==> d[l] == 0
  {
    if k == 0 {
      d := ZeroDigits(|p|);
      assert Holds(p, 1, p[0]);
      assert p == base;
    } else {
      var t := RotationTo(p, k, base);
      var b := RotateTimes(base, k, t);
      var e := ArrangeSurjective(p, k - 1, b);
      d := e[k := t];
      ArrangeLocal(d, e, k - 1, b);
    }
  }

  /** Some rotation of layer `k` brings the wanted value to lane `k` and leaves the right values below. */
  lemma RotationTo(p: Lanes, k: nat, base: Lanes) returns (t: nat)
    requires 0 < k < |p| == |base| && Distinct(p) && Distinct(base)
    requires forall i :: k < i < |p| ==> p[i] == base[i]
    requires SameValues(p, base, k + 1)
    ensures t <= k
    ensures var b := RotateTimes(base, k, t);
            Distinct(b) && SameValues(p, b, k) && forall i :: k <= i < |p| ==> p[i] == b[i]
  {
    assert Holds(p, k + 1, p[k]);
    var j :| 0 <= j < k + 1 && base[j] == p[k];
    t := if j == k then 0 else j + 1;
    var b := RotateTimes(base, k, t);
    RotateTimesAt(base, k, t);
    assert b[k] == p[k];
    forall v ensures Holds(p, k, v) <==> Holds(b, k, v) {
      SameBelow(p, base, k, t, v);
    }
  }

  lemma SameBelow(p: Lanes, base: Lanes, k: nat, t: nat, v: nat)
    requires 0 < k < |p| == |base| && Distinct(p) && Distinct(base) && t <= k
    requires RotateTimes(base, k, t)[k] == p[k] && SameValues(p, base, k + 1)
    ensures Holds(p, k, v) <==> Holds(RotateTimes(base, k, t), k, v)
  {
    var b := RotateTimes(base, k, t);
    RotateTimesAt(base, k, t);
    if Holds(p, k, v) {
      assert Holds(p, k + 1, v);
      var j :| 0 <= j < k + 1 && base[j] == v;
      var j' := if j >= t then j - t else j + k + 1 - t;
      assert b[j'] == v;
    }
    if Holds(b, k, v) {
      var i :| 0 <= i < k && b[i] == v;
      assert base[if i + t <= k then i + t else i + t - (k + 1)] == v;
      assert Holds(base, k + 1, v) && Holds(p, k + 1, v);
      var j :| 0 <= j < k + 1 && p[j] == v;
    }
  }
}
