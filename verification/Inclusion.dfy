/** The inclusion property: a larger cache always holds what a smaller one holds. */
module Inclusion {
  import opened Recency
  import opened Numbers

  /** `a` is obtained from `b` by leaving out entries. */
  ghost predicate Subsequence(a: Cache, b: Cache) {
    if a == [] then true
    else if b == [] then false
    else if a[0] == b[0] then Subsequence(a[1..], b[1..])
    else Subsequence(a, b[1..])
  }

  lemma {:induction false} SubsequenceDropLeft(a: Cache, b: Cache)
    requires a != [] && Subsequence(a, b)
    ensures Subsequence(a[1..], b) && b != [] && Subsequence(a[1..], b[1..])
    decreases |b|, |a|
  {
    if a[0] == b[0] {
      SubsequenceExtend(a[1..], b);
    } else {
      SubsequenceDropLeft(a, b[1..]);
      SubsequenceExtend(a[1..], b);
    }
  }

  lemma {:induction false} SubsequenceExtend(a: Cache, b: Cache)
    requires b != [] && Subsequence(a, b[1..])
    ensures Subsequence(a, b)
    decreases |b|, |a|
  {
    if a != [] && a[0] == b[0] {
      SubsequenceDropLeft(a, b[1..]);
    }
  }

  lemma {:induction false} SubsequenceSelf(a: Cache)
    ensures Subsequence(a, a)
  {
    if a != [] {
      SubsequenceSelf(a[1..]);
    }
  }

  lemma {:induction false} SubsequenceAppend(a: Cache, b: Cache, e: Entry)
    requires Subsequence(a, b)
    ensures Subsequence(a + [e], b + [e])
  {
    if b != [] {
      assert (b + [e])[1..] == b[1..] + [e];
      if a == [] {
        SubsequenceAppend(a, b[1..], e);
        SubsequenceExtend(a + [e], b + [e]);
      } else if a[0] == b[0] {
        SubsequenceAppend(a[1..], b[1..], e);
        assert (a + [e])[1..] == a[1..] + [e];
      } else {
        SubsequenceAppend(a, b[1..], e);
      }
    }
  }

  lemma {:induction false} SubsequenceWithout(a: Cache, b: Cache, key: Key)
    requires Subsequence(a, b)
    ensures Subsequence(Without(a, key), Without(b, key))
  {
    if a != [] {
      if a[0] == b[0] {
        SubsequenceWithout(a[1..], b[1..], key);
      } else {
        SubsequenceWithout(a, b[1..], key);
        if b[0].key != key {
          assert Without(b, key)[1..] == Without(b[1..], key);
          SubsequenceExtend(Without(a, key), Without(b, key));
        }
      }
    }
  }

  lemma {:induction false} SubsequenceMember(a: Cache, b: Cache, e: Entry)
    requires Subsequence(a, b) && e in a
    ensures e in b
  {
    if a[0] == b[0] {
      if e != a[0] {
        assert e in a[1..];
        SubsequenceMember(a[1..], b[1..], e);
      }
    } else {
      SubsequenceMember(a, b[1..], e);
    }
  }

  /** The relation between the caches of sizes `k` and `m` that every operation keeps: inclusion,
      and equality as long as the small cache has room. */
  ghost predicate Included(a: Cache, k: nat, b: Cache, m: nat) {
    && DistinctKeys(a) && |a| <= k
    && DistinctKeys(b) && |b| <= m
    && Subsequence(a, b)
    && (|a| < k ==> a == b)
  }

  lemma IncludedLookup(a: Cache, k: nat, b: Cache, m: nat, key: Key)
    requires Included(a, k, b, m)
    ensures Lookup(a, key).Some? ==> Lookup(b, key) == Lookup(a, key)
  {
    if Lookup(a, key).Some? {
      var e := Entry(key, Lookup(a, key).value);
      SubsequenceMember(a, b, e);
      var j :| 0 <= j < |b| && b[j] == e;
      LookupAt(b, j);
    }
  }

  lemma ApplyKeepsInclusion(a: Cache, k: nat, b: Cache, m: nat, op: Op)
    requires k <= m && Included(a, k, b, m)
    ensures Included(Apply(a, k, op), k, Apply(b, m, op), m)
  {
    ApplyKeepsInvariant(a, k, op);
    ApplyKeepsInvariant(b, m, op);
    IncludedLookup(a, k, b, m, op.key);
    var hitA, hitB := Lookup(a, op.key), Lookup(b, op.key);
    if hitB.Some? {
      SubsequenceWithout(a, b, op.key);
      var e := if op.DoPut? then Entry(op.key, op.value) else Entry(op.key, hitB.value);
      if hitA.Some? {
        SubsequenceAppend(Without(a, op.key), Without(b, op.key), e);
      } else {
        TouchLarger(a, k, b, m, op, e);
      }
    } else if op.DoPut? {
      InsertIntoBoth(a, k, b, m, Entry(op.key, op.value));
    }
  }

  /** Only the larger cache holds the key: the small one is full and, on a put, evicts. */
  lemma TouchLarger(a: Cache, k: nat, b: Cache, m: nat, op: Op, e: Entry)
    requires k <= m && Included(a, k, b, m) && |a| == k
    requires !Has(a, op.key) && Has(b, op.key) && Subsequence(Without(a, op.key), Without(b, op.key))
    requires op.DoPut? ==> e == Entry(op.key, op.value)
    ensures Subsequence(if op.DoGet? || a == [] then a else a[1..] + [e], Without(b, op.key) + [e])
  {
    var rest := Without(b, op.key);
    WithoutAbsent(a, op.key);
    if a != [] {
      SubsequenceDropLeft(a, rest);
      SubsequenceAppend(a[1..], rest, e);
    }
    SubsequenceAppendRight(a, rest, e);
  }

  lemma {:induction false} SubsequenceAppendRight(a: Cache, b: Cache, e: Entry)
    requires Subsequence(a, b)
    ensures Subsequence(a, b + [e])
  {
    if a != [] {
      assert (b + [e])[1..] == b[1..] + [e];
      if a[0] == b[0] {
        SubsequenceAppendRight(a[1..], b[1..], e);
      } else {
        SubsequenceAppendRight(a, b[1..], e);
      }
    }
  }

  /** Neither cache holds the key: each inserts, evicting its own oldest entry if full. */
  lemma InsertIntoBoth(a: Cache, k: nat, b: Cache, m: nat, e: Entry)
    requires k <= m && Included(a, k, b, m)
    ensures Subsequence(
              if |a| < k then a + [e] else if a == [] then [] else a[1..] + [e],
              if |b| < m then b + [e] else if b == [] then [] else b[1..] + [e])
  {
    if |a| < k {
      SubsequenceSelf(a + [e]);
    } else if a != [] {
      SubsequenceDropLeft(a, b);
      SubsequenceAppend(a[1..], b[1..], e);
      SubsequenceAppend(a[1..], b, e);
    }
  }

  /** Inclusion over every run: the small cache is a subsequence of the large one, with equal values. */
  lemma {:induction false} InclusionOverRuns(k: nat, m: nat, ops: seq<Op>)
    requires k <= m
    ensures Included(Run(k, ops), k, Run(m, ops), m)
  {
    if ops == [] {
    } else {
      InclusionOverRuns(k, m, ops[..|ops| - 1]);
      ApplyKeepsInclusion(Run(k, ops[..|ops| - 1]), k, Run(m, ops[..|ops| - 1]), m, ops[|ops| - 1]);
    }
  }

  /** A get that hits in the small cache hits in the large one with the same value, and the number
      of hits grows with the size. */
  lemma {:induction false} HitsGrowWithSize(k: nat, m: nat, ops: seq<Op>, key: Key)
    requires k <= m
    ensures Lookup(Run(k, ops), key).Some? ==> Lookup(Run(m, ops), key) == Lookup(Run(k, ops), key)
    ensures Hits(k, ops) <= Hits(m, ops)
  {
    InclusionOverRuns(k, m, ops);
    IncludedLookup(Run(k, ops), k, Run(m, ops), m, key);
    if ops != [] {
      HitsGrowWithSize(k, m, ops[..|ops| - 1], ops[|ops| - 1].key);
    }
  }

  // -------------------------------------------------------------- retention

  ghost function KeysOf(ops: seq<Op>): set<Key> {
    set i | 0 <= i < |ops| :: ops[i].key
  }

  /** Entry i is that of `key` and every younger entry has another, touched key. */
  ghost predicate RetainedAt(s: Cache, key: Key, touched: set<Key>, i: nat) {
    && i < |s| && s[i].key == key
    && forall j :: i < j < |s| ==> s[j].key in touched && s[j].key != key
  }

  ghost predicate Retained(s: Cache, key: Key, touched: set<Key>) {
    exists i :: RetainedAt(s, key, touched, i)
  }

  lemma JustUsed(size: nat, before: seq<Op>, use: Op, touched: set<Key>)
    requires size >= 1 && IsUse(Run(size, before), use)
    ensures Retained(Run(size, before + [use]), use.key, touched)
  {
    RunInvariant(size, before);
    RunSnoc(size, before, use);
    var s := Run(size, before + [use]);
    assert RetainedAt(s, use.key, touched, |s| - 1);
  }

  /** A key that is used, by a put or by a get that finds it, stays cached for as long as fewer than
      `size` other keys are mentioned afterwards. */
  lemma {:induction false} RetainedWhileFewOthers(size: nat, before: seq<Op>, use: Op, after: seq<Op>)
    requires size >= 1 && IsUse(Run(size, before), use) && |KeysOf(after) - {use.key}| < size
    ensures Retained(Run(size, before + [use] + after), use.key, KeysOf(after))
    ensures Lookup(Run(size, before + [use] + after), use.key).Some?
    decreases |after|
  {
    var ops, key := before + [use] + after, use.key;
    var s := Run(size, ops);
    if after == [] {
      assert ops == before + [use];
      JustUsed(size, before, use, KeysOf(after));
    } else {
      var front, op := after[..|after| - 1], after[|after| - 1];
      var ops' := before + [use] + front;
      assert ops == ops' + [op];
      KeysOfLast(after);
      SubsetSize(KeysOf(front) - {key}, KeysOf(after) - {key});
      RetainedWhileFewOthers(size, before, use, front);
      RunInvariant(size, ops');
      RunSnoc(size, ops', op);
      ApplyRetains(Run(size, ops'), size, op, key, KeysOf(front));
    }
    var i :| RetainedAt(s, key, KeysOf(after), i);
    assert Has(s, key);
  }

  lemma KeysOfLast(ops: seq<Op>)
    requires ops != []
    ensures KeysOf(ops) == KeysOf(ops[..|ops| - 1]) + {ops[|ops| - 1].key}
  {
    var front := ops[..|ops| - 1];
    forall i | 0 <= i < |ops| ensures ops[i].key in KeysOf(front) + {ops[|ops| - 1].key} {
      if i < |front| {
        assert front[i].key == ops[i].key;
      }
    }
    forall i | 0 <= i < |front| ensures front[i].key in KeysOf(ops) {
      assert ops[i].key == front[i].key;
    }
  }

  lemma ApplyRetains(s: Cache, size: nat, op: Op, key: Key, touched: set<Key>)
    requires DistinctKeys(s) && |s| <= size && Retained(s, key, touched)
    requires |touched + {op.key} - {key}| < size
    ensures Retained(Apply(s, size, op), key, touched + {op.key})
  {
    var i :| RetainedAt(s, key, touched, i);
    if Has(s, op.key) {
      var j :| 0 <= j < |s| && s[j].key == op.key;
      WithoutAt(s, j);
      LookupAt(s, j);
      var e := if op.DoPut? then Entry(op.key, op.value) else s[j];
      assert Apply(s, size, op) == s[..j] + s[j + 1..] + [e];
      MoveRetains(s, key, touched, i, j, e);
    } else if op.DoPut? {
      InsertRetains(s, size, key, touched, i, Entry(op.key, op.value));
    } else {
      assert RetainedAt(s, key, touched + {op.key}, i);
    }
  }

  lemma MoveRetains(s: Cache, key: Key, touched: set<Key>, i: nat, j: nat, e: Entry)
    requires DistinctKeys(s) && RetainedAt(s, key, touched, i) && j < |s| && s[j].key == e.key
    ensures Retained(s[..j] + s[j + 1..] + [e], key, touched + {e.key})
  {
    var r := s[..j] + s[j + 1..] + [e];
    var i' := if j == i then |s| - 1 else if j < i then i - 1 else i;
    assert RetainedAt(r, key, touched + {e.key}, i');
  }

  lemma InsertRetains(s: Cache, size: nat, key: Key, touched: set<Key>, i: nat, e: Entry)
    requires DistinctKeys(s) && |s| <= size && RetainedAt(s, key, touched, i) && !Has(s, e.key)
    requires |touched + {e.key} - {key}| < size
    ensures Retained(if |s| == size then s[1..] + [e] else s + [e], key, touched + {e.key})
  {
    assert e.key != key by {
      assert e.key == s[i].key ==> Has(s, e.key);
    }
    if |s| == size {
      if i == 0 {
        YoungerKeys(s, touched, key, e.key);
      }
      assert RetainedAt(s[1..] + [e], key, touched + {e.key}, i - 1);
    } else {
      assert RetainedAt(s + [e], key, touched + {e.key}, i);
    }
  }

  /** The other keys of a cache whose oldest entry is `key`, and a key it lacks, are as many as its entries. */
  lemma YoungerKeys(s: Cache, touched: set<Key>, key: Key, absent: Key)
    requires DistinctKeys(s) && RetainedAt(s, key, touched, 0) && !Has(s, absent) && absent != key
    ensures |touched + {absent} - {key}| >= |s|
  {
    var keys := seq(|s|, j requires 0 <= j < |s| => if j == 0 then absent else s[j].key);
    forall j | 1 <= j < |s| ensures s[j].key != absent {
      assert s[j].key == absent ==> Has(s, absent);
    }
    forall j, l | 0 <= j < l < |keys| ensures keys[j] != keys[l] {
    }
    var values := DistinctSize(keys);
    forall v | v in values ensures v in touched + {absent} - {key} {
      var j :| 0 <= j < |keys| && keys[j] == v;
    }
    SubsetSize(values, touched + {absent} - {key});
  }
}
