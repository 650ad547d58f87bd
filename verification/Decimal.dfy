/** Decimal text of a number, as byte values. */
module Decimal {

  function FormatUint(v: nat): seq<nat> {
    if v < 10 then [48 + v] else FormatUint(v / 10) + [48 + v % 10]
  }

  /** The number that decimal digits stand for. */
  function Value(t: seq<nat>): int {
    if t == [] then 0 else 10 * Value(t[..|t| - 1]) - 48 + t[|t| - 1]
  }

  /** Digits only, no leading zero, and the value is the number. */
  lemma {:induction false} FormatUintIsDecimal(v: nat)
    ensures var t := FormatUint(v);
            && |t| >= 1 && (forall i :: 0 <= i < |t| ==> 48 <= t[i] < 58)
            && (v > 0 ==> t[0] > 48) && Value(t) == v
  {
    if v >= 10 {
      FormatUintIsDecimal(v / 10);
      ValueSnoc(FormatUint(v / 10), 48 + v % 10);
    } else {
      ValueSnoc([], 48 + v);
    }
  }

  lemma ValueSnoc(t: seq<nat>, digit: nat)
    ensures Value(t + [digit]) == 10 * Value(t) - 48 + digit
  {
    assert (t + [digit])[..|t|] == t;
  }

  /** "1203" */
  lemma FormatUintExample()
    ensures FormatUint(1203) == [49, 50, 48, 51]
  {
    assert FormatUint(12) == [49, 50];
    assert FormatUint(120) == [49, 50, 48];
  }
}
