/** The property tables: codes as inclusive start and end pairs. */
module UnicodeRanges {

  datatype Range = Range(first: int, last: int)

  /** first, first + 1, ..., last */
  ghost function Codes(first: int, last: int): seq<int>
    decreases last - first + 1
  {
    if last < first then [] else Codes(first, last - 1) + [last]
  }

  /** The codes of the ranges, one range after the other. */
  ghost function Expand(ranges: seq<Range>): seq<int> {
    if ranges == [] then []
    else
      var k := |ranges| - 1;
      Expand(ranges[..k]) + Codes(ranges[k].first, ranges[k].last)
  }

  /** Each range holds a code, and none continues the one before it. */
  ghost predicate Separated(ranges: seq<Range>) {
    && (forall i :: 0 <= i < |ranges| ==> ranges[i].first <= ranges[i].last)
    && (forall i :: 0 < i < |ranges| ==> ranges[i].first != ranges[i - 1].last + 1)
  }

  ghost predicate Follows(ranges: seq<Range>, value: int) {
    ranges != [] && value == ranges[|ranges| - 1].last + 1
  }

  /** A value right after the end of the last range extends that range, any other starts one. */
  ghost function AddValue(ranges: seq<Range>, value: int): seq<Range> {
    var k := |ranges| - 1;
    if Follows(ranges, value) then ranges[..k] + [Range(ranges[k].first, value)] else ranges + [Range(value, value)]
  }

  ghost function Grouped(values: seq<int>): seq<Range> {
    if values == [] then [] else AddValue(Grouped(values[..|values| - 1]), values[|values| - 1])
  }

  lemma ExpandSnoc(ranges: seq<Range>, r: Range)
    ensures Expand(ranges + [r]) == Expand(ranges) + Codes(r.first, r.last)
  {
    assert (ranges + [r])[..|ranges|] == ranges;
  }

  lemma GroupedSnoc(values: seq<int>, value: int)
    ensures Grouped(values + [value]) == AddValue(Grouped(values), value)
  {
    assert (values + [value])[..|values|] == values;
  }

  lemma OneCode(value: int)
    ensures Codes(value, value) == [value]
  {
    assert Codes(value, value - 1) == [];
  }

  /** The same table with a longer last range. */
  lemma LongerLast(front: seq<Range>, first: int, last: int)
    requires first <= last
    ensures Expand(front + [Range(first, last)]) == Expand(front + [Range(first, last - 1)]) + [last]
  {
    ExpandSnoc(front, Range(first, last));
    ExpandSnoc(front, Range(first, last - 1));
  }

  lemma NewLast(ranges: seq<Range>, value: int)
    ensures Expand(ranges + [Range(value, value)]) == Expand(ranges) + [value]
  {
    ExpandSnoc(ranges, Range(value, value));
    OneCode(value);
  }

  lemma SplitLast(ranges: seq<Range>)
    requires ranges != []
    ensures ranges == ranges[..|ranges| - 1] + [ranges[|ranges| - 1]]
  {
  }

  /** One value more: the table lists it after the others. */
  lemma AddValueAppends(ranges: seq<Range>, value: int)
    requires Separated(ranges)
    ensures Expand(AddValue(ranges, value)) == Expand(ranges) + [value]
  {
    if Follows(ranges, value) {
      var k := |ranges| - 1;
      SplitLast(ranges);
      LongerLast(ranges[..k], ranges[k].first, value);
    } else {
      NewLast(ranges, value);
    }
  }

  lemma AddValueSeparates(ranges: seq<Range>, value: int)
    requires Separated(ranges)
    ensures Separated(AddValue(ranges, value))
  {
  }

  /** `ranges` is the table of the values before index i. */
  ghost predicate IsTable(ranges: seq<Range>, values: seq<int>, i: nat)
    requires i <= |values|
  {
    Separated(ranges) && Expand(ranges) == values[..i]
  }

  lemma Snoc(values: seq<int>, i: nat)
    requires i < |values|
    ensures values[..i + 1] == values[..i] + [values[i]]
  {
  }

  lemma NextValue(ranges: seq<Range>, values: seq<int>, i: nat)
    requires i < |values| && IsTable(ranges, values, i)
    ensures IsTable(AddValue(ranges, values[i]), values, i + 1)
  {
    AddValueAppends(ranges, values[i]);
    AddValueSeparates(ranges, values[i]);
    Snoc(values, i);
  }

  lemma AllValues(ranges: seq<Range>, values: seq<int>)
    requires IsTable(ranges, values, |values|)
    ensures Separated(ranges) && Expand(ranges) == values
  {
    assert values[..|values|] == values;
  }

  /** The loop: the result lists exactly the values, and no two neighbouring ranges could be one. */
  method RangesFor(values: seq<int>) returns (ranges: seq<Range>)
    ensures Separated(ranges) && Expand(ranges) == values
  {
    ranges := [];
    for i := 0 to |values|
      invariant IsTable(ranges, values, i)
    {
      var value, k := values[i], |ranges| - 1;
      NextValue(ranges, values, i);
      if ranges != [] && value == ranges[k].last + 1 {
        ranges := ranges[..k] + [Range(ranges[k].first, value)];
      } else {
        ranges := ranges + [Range(value, value)];
      }
    }
    AllValues(ranges, values);
  }

  /** How a separated table arises from a smaller one and the last code. */
  lemma {:induction false} LastCodeAlone(front: seq<Range>, code: int)
    requires Separated(front + [Range(code, code)])
    ensures Separated(front) && AddValue(front, code) == front + [Range(code, code)]
  {
    var ranges := front + [Range(code, code)];
    assert ranges[|front|] == Range(code, code);
    forall i | 0 <= i < |front| ensures ranges[i] == front[i] {
    }
  }

  lemma {:induction false} LastCodeJoins(front: seq<Range>, first: int, last: int)
    requires Separated(front + [Range(first, last)]) && first < last
    ensures Separated(front + [Range(first, last - 1)])
    ensures AddValue(front + [Range(first, last - 1)], last) == front + [Range(first, last)]
  {
    var ranges, shorter := front + [Range(first, last)], front + [Range(first, last - 1)];
    assert ranges[|front|] == Range(first, last) && shorter[|front|] == Range(first, last - 1);
    forall i | 0 <= i < |front| ensures shorter[i] == ranges[i] {
    }
    assert shorter[..|front|] == front;
  }

  /** The other direction: grouping the codes of any separated table gives that table back. */
  lemma {:induction false} GroupedExpand(front: seq<Range>, first: int, last: int)
    requires Separated(front + [Range(first, last)])
    ensures Grouped(Expand(front + [Range(first, last)])) == front + [Range(first, last)]
    decreases |front|, last - first
  {
    assert first <= last by { assert (front + [Range(first, last)])[|front|] == Range(first, last); }
    if first < last {
      LastCodeJoins(front, first, last);
      GroupedExpand(front, first, last - 1);
      LongerLast(front, first, last);
      GroupedSnoc(Expand(front + [Range(first, last - 1)]), last);
    } else {
      LastCodeAlone(front, last);
      if front != [] {
        SplitLast(front);
        GroupedExpand(front[..|front| - 1], front[|front| - 1].first, front[|front| - 1].last);
      }
      NewLast(front, last);
      GroupedSnoc(Expand(front), last);
    }
  }

  /** The table is the only one of its kind: separated ranges with the same codes are the same ranges. */
  lemma SeparatedRangesUnique(a: seq<Range>, b: seq<Range>)
    requires Separated(a) && Separated(b) && Expand(a) == Expand(b)
    ensures a == b
  {
    GroupsItself(a);
    GroupsItself(b);
  }

  lemma GroupsItself(a: seq<Range>)
    requires Separated(a)
    ensures Grouped(Expand(a)) == a
  {
    if a != [] {
      SplitLast(a);
      GroupedExpand(a[..|a| - 1], a[|a| - 1].first, a[|a| - 1].last);
    }
  }

  lemma {:induction false} CodesMembers(first: int, last: int, v: int)
    ensures v in Codes(first, last) <==> first <= v <= last
    decreases last - first + 1
  {
    if first <= last {
      CodesMembers(first, last - 1, v);
    }
  }

  /** A value is listed exactly when it lies between the ends of some range, both included. */
  lemma {:induction false} ExpandMembers(ranges: seq<Range>, v: int)
    ensures v in Expand(ranges) <==> exists i :: 0 <= i < |ranges| && ranges[i].first <= v <= ranges[i].last
  {
    if ranges != [] {
      var k := |ranges| - 1;
      ExpandMembers(ranges[..k], v);
      CodesMembers(ranges[k].first, ranges[k].last, v);
      SplitLast(ranges);
      MemberOfFront(ranges, k, v);
    }
  }

  lemma MemberOfFront(ranges: seq<Range>, k: nat, v: int)
    requires |ranges| == k + 1
    ensures (exists i :: 0 <= i < |ranges| && ranges[i].first <= v <= ranges[i].last) <==>
            (exists i :: 0 <= i < k && ranges[..k][i].first <= v <= ranges[..k][i].last)
            || ranges[k].first <= v <= ranges[k].last
  {
    if i :| 0 <= i < |ranges| && ranges[i].first <= v <= ranges[i].last && i < k {
      assert ranges[..k][i] == ranges[i];
    }
    if i :| 0 <= i < k && ranges[..k][i].first <= v <= ranges[..k][i].last {
      assert ranges[..k][i] == ranges[i];
    }
  }
}
