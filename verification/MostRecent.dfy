/** What the recency sequence holds after any run: the keys used last, in the order of their last
    use, each with the value last put there. */
module MostRecent {
  import opened Options
  import opened Recency

  /** The keys used in a run, one for each use. */
  function Uses(size: nat, ops: seq<Op>): seq<Key> {
    if ops == [] then []
    else
      var front, op := ops[..|ops| - 1], ops[|ops| - 1];
      Uses(size, front) + if IsUse(Run(size, front), op) then [op.key] else []
  }

  function Drop(keys: seq<Key>, key: Key): seq<Key> {
    if keys == [] then []
    else if keys[0] == key then Drop(keys[1..], key)
    else [keys[0]] + Drop(keys[1..], key)
  }

  /** The different keys of `uses` in the order of their last use. */
  function ByLastUse(uses: seq<Key>): seq<Key> {
    if uses == [] then []
    else
      var key := uses[|uses| - 1];
      Drop(ByLastUse(uses[..|uses| - 1]), key) + [key]
  }

  /** The last `n`, or all where there are fewer. */
  function LastOf(keys: seq<Key>, n: nat): seq<Key> {
    if |keys| <= n then keys else keys[|keys| - n..]
  }

  ghost predicate Distinct(keys: seq<Key>) {
    forall i, j :: 0 <= i < j < |keys| ==> keys[i] != keys[j]
  }

  // ------------------------------------------------------- the order of last uses

  /** `i` is the last index of `key`. */
  ghost predicate IsLast(uses: seq<Key>, key: Key, i: nat) {
    i < |uses| && uses[i] == key && forall j :: i < j < |uses| ==> uses[j] != key
  }

  lemma {:induction false} DropAt(keys: seq<Key>, i: nat)
    requires i < |keys| && Distinct(keys)
    ensures Drop(keys, keys[i]) == keys[..i] + keys[i + 1..]
  {
    var key := keys[i];
    if i == 0 {
      DropAbsent(keys[1..], key);
    } else {
      var t := keys[1..];
      DropAt(t, i - 1);
      assert t[..i - 1] == keys[1..i] && t[i..] == keys[i + 1..];
      assert keys[..i] == [keys[0]] + keys[1..i];
    }
  }

  lemma {:induction false} DropAbsent(keys: seq<Key>, key: Key)
    requires key !in keys
    ensures Drop(keys, key) == keys
  {
    if keys != [] {
      DropAbsent(keys[1..], key);
    }
  }

  lemma {:induction false} DropMembers(keys: seq<Key>, key: Key)
    ensures forall k :: k in Drop(keys, key) <==> k in keys && k != key
  {
    if keys != [] {
      DropMembers(keys[1..], key);
      assert keys == [keys[0]] + keys[1..];
    }
  }

  /** Each key used is listed, no other. */
  lemma {:induction false} ByLastUseMembers(uses: seq<Key>)
    ensures forall k :: k in ByLastUse(uses) <==> k in uses
  {
    if uses != [] {
      var front, key := uses[..|uses| - 1], uses[|uses| - 1];
      ByLastUseMembers(front);
      DropMembers(ByLastUse(front), key);
      assert uses == front + [key];
    }
  }

  /** Listed before another key means last used before it. */
  ghost predicate LastUsedEarlier(uses: seq<Key>, k: Key, l: Key) {
    exists i, j :: IsLast(uses, k, i) && IsLast(uses, l, j) && i < j
  }

  ghost predicate OrderedByLastUse(uses: seq<Key>, keys: seq<Key>) {
    forall i, j :: 0 <= i < j < |keys| ==> keys[i] != keys[j] && LastUsedEarlier(uses, keys[i], keys[j])
  }

  lemma {:induction false} LastIndexExists(uses: seq<Key>, key: Key) returns (i: nat)
    requires key in uses
    ensures IsLast(uses, key, i)
  {
    var k := |uses| - 1;
    if uses[k] == key {
      i := k;
    } else {
      assert uses == uses[..k] + [uses[k]];
      i := LastIndexExists(uses[..k], key);
      assert forall j :: i < j < k ==> uses[..k][j] == uses[j];
    }
  }

  lemma StillLast(uses: seq<Key>, next: Key, key: Key, i: nat)
    requires IsLast(uses, key, i) && key != next
    ensures IsLast(uses + [next], key, i)
  {
  }

  lemma StillEarlier(uses: seq<Key>, next: Key, k: Key, l: Key)
    requires LastUsedEarlier(uses, k, l) && k != next && l != next
    ensures LastUsedEarlier(uses + [next], k, l)
  {
    var i, j :| IsLast(uses, k, i) && IsLast(uses, l, j) && i < j;
    StillLast(uses, next, k, i);
    StillLast(uses, next, l, j);
  }

  lemma EarlierThanNext(uses: seq<Key>, next: Key, key: Key)
    requires key in uses && key != next
    ensures LastUsedEarlier(uses + [next], key, next)
  {
    var i := LastIndexExists(uses, key);
    StillLast(uses, next, key, i);
    assert IsLast(uses + [next], next, |uses|);
  }

  lemma OrderedIsDistinct(uses: seq<Key>, keys: seq<Key>)
    requires OrderedByLastUse(uses, keys)
    ensures Distinct(keys)
  {
  }

  lemma OrderedWithout(uses: seq<Key>, keys: seq<Key>, key: Key)
    requires OrderedByLastUse(uses, keys)
    ensures OrderedByLastUse(uses, Drop(keys, key)) && key !in Drop(keys, key)
  {
    OrderedIsDistinct(uses, keys);
    DropMembers(keys, key);
    if key in keys {
      var p :| 0 <= p < |keys| && keys[p] == key;
      DropAt(keys, p);
      var r := Drop(keys, key);
      forall i, j | 0 <= i < j < |r| ensures r[i] != r[j] && LastUsedEarlier(uses, r[i], r[j]) {
        var i', j' := if i < p then i else i + 1, if j < p then j else j + 1;
        assert r[i] == keys[i'] && r[j] == keys[j'];
      }
    } else {
      DropAbsent(keys, key);
    }
  }

  lemma OrderStep(uses: seq<Key>, rest: seq<Key>, next: Key)
    requires OrderedByLastUse(uses, rest) && next !in rest && forall k :: k in rest ==> k in uses
    ensures OrderedByLastUse(uses + [next], rest + [next])
  {
    var r := rest + [next];
    forall i, j | 0 <= i < j < |r| ensures r[i] != r[j] && LastUsedEarlier(uses + [next], r[i], r[j]) {
      assert rest[i] in rest;
      if j < |rest| {
        assert rest[j] in rest;
        StillEarlier(uses, next, rest[i], rest[j]);
      } else {
        EarlierThanNext(uses, next, rest[i]);
      }
    }
  }

  /** The list is in the order of the last uses. */
  lemma {:induction false} ByLastUseIsOrdered(uses: seq<Key>)
    ensures OrderedByLastUse(uses, ByLastUse(uses))
  {
    if uses != [] {
      var front, key := uses[..|uses| - 1], uses[|uses| - 1];
      assert uses == front + [key];
      ByLastUseIsOrdered(front);
      ByLastUseMembers(front);
      DropMembers(ByLastUse(front), key);
      OrderedWithout(front, ByLastUse(front), key);
      OrderStep(front, Drop(ByLastUse(front), key), key);
    }
  }

  // ----------------------------------------------------- the cache is its last part

  function Keys(s: Cache): (keys: seq<Key>)
    ensures |keys| == |s| && forall i :: 0 <= i < |s| ==> keys[i] == s[i].key
  {
    seq(|s|, i requires 0 <= i < |s| => s[i].key)
  }

  /** A used key moves behind the last `n`; where it was not among them, the first of them goes. */
  lemma MoveWithin(keys: seq<Key>, n: nat, i: nat)
    requires i < |keys| && |keys| - n <= i
    ensures var k := if |keys| <= n then i else i - (|keys| - n);
            && k < |LastOf(keys, n)| && LastOf(keys, n)[k] == keys[i]
            && LastOf(keys[..i] + keys[i + 1..] + [keys[i]], n)
               == LastOf(keys, n)[..k] + LastOf(keys, n)[k + 1..] + [keys[i]]
  {
    if |keys| > n {
      var d, moved := |keys| - n, keys[..i] + keys[i + 1..] + [keys[i]];
      MovedSuffix(keys, d, i);
      assert LastOf(moved, n) == moved[d..] && LastOf(keys, n) == keys[d..];
    }
  }

  lemma MovedSuffix(keys: seq<Key>, d: nat, i: nat)
    requires d <= i < |keys|
    ensures (keys[..i] + keys[i + 1..] + [keys[i]])[d..] == keys[d..][..i - d] + keys[d..][i - d + 1..] + [keys[i]]
  {
  }

  lemma MoveFromBelow(keys: seq<Key>, n: nat, i: nat)
    requires i < |keys| - n && n >= 1
    ensures LastOf(keys[..i] + keys[i + 1..] + [keys[i]], n) == LastOf(keys, n)[1..] + [keys[i]]
  {
  }

  lemma AppendNew(keys: seq<Key>, n: nat, key: Key)
    requires n >= 1
    ensures LastOf(keys + [key], n) == (if |keys| < n then keys else LastOf(keys, n)[1..]) + [key]
  {
  }

  lemma KeysOfMoved(s: Cache, i: nat, e: Entry)
    requires i < |s| && e.key == s[i].key
    ensures Keys(s[..i] + s[i + 1..] + [e]) == Keys(s)[..i] + Keys(s)[i + 1..] + [e.key]
  {
  }

  /** A use of a key that the cache holds. */
  lemma UseKept(keys: seq<Key>, s: Cache, size: nat, op: Op)
    requires Distinct(keys) && Keys(s) == LastOf(keys, size) && DistinctKeys(s)
    requires IsUse(s, op) && Has(s, op.key)
    ensures Keys(Apply(s, size, op)) == LastOf(Drop(keys, op.key) + [op.key], size)
  {
    var j :| 0 <= j < |s| && s[j].key == op.key;
    var i := if |keys| <= size then j else j + (|keys| - size);
    assert keys[i] == op.key;
    DropAt(keys, i);
    MoveWithin(keys, size, i);
    WithoutAt(s, j);
    LookupAt(s, j);
    var e := if op.DoPut? then Entry(op.key, op.value) else s[j];
    assert Apply(s, size, op) == s[..j] + s[j + 1..] + [e];
    KeysOfMoved(s, j, e);
  }

  lemma AmongLast(keys: seq<Key>, s: Cache, size: nat, i: nat)
    requires i < |keys| && Keys(s) == LastOf(keys, size)
    ensures |keys| - size <= i ==> Has(s, keys[i])
  {
    if |keys| - size <= i {
      var j := if |keys| <= size then i else i - (|keys| - size);
      assert Keys(s)[j] == keys[i];
    }
  }

  /** A put of a key that the cache does not hold. */
  lemma UseNew(keys: seq<Key>, s: Cache, size: nat, op: Op)
    requires Distinct(keys) && Keys(s) == LastOf(keys, size)
    requires op.DoPut? && !Has(s, op.key)
    ensures Keys(Apply(s, size, op)) == LastOf(Drop(keys, op.key) + [op.key], size)
  {
    var e := Entry(op.key, op.value);
    if size > 0 {
      assert Keys(s + [e]) == Keys(s) + [op.key];
      assert s != [] ==> Keys(s[1..] + [e]) == Keys(s)[1..] + [op.key];
      if op.key in keys {
        var i :| 0 <= i < |keys| && keys[i] == op.key;
        AmongLast(keys, s, size, i);
        DropAt(keys, i);
        MoveFromBelow(keys, size, i);
      } else {
        DropAbsent(keys, op.key);
        AppendNew(keys, size, op.key);
      }
    }
  }

  lemma UsesNext(size: nat, front: seq<Op>, op: Op)
    ensures Uses(size, front + [op])
            == if IsUse(Run(size, front), op) then Uses(size, front) + [op.key] else Uses(size, front)
  {
    assert (front + [op])[..|front|] == front;
  }

  lemma ByLastUseNext(uses: seq<Key>, key: Key)
    ensures ByLastUse(uses + [key]) == Drop(ByLastUse(uses), key) + [key]
  {
    assert (uses + [key])[..|uses|] == uses;
  }

  ghost predicate HoldsMostRecent(size: nat, ops: seq<Op>) {
    Keys(Run(size, ops)) == LastOf(ByLastUse(Uses(size, ops)), size)
  }

  lemma OneMore(keys: seq<Key>, s: Cache, size: nat, op: Op)
    requires Distinct(keys) && Keys(s) == LastOf(keys, size) && DistinctKeys(s)
    ensures Keys(Apply(s, size, op))
            == LastOf(if IsUse(s, op) then Drop(keys, op.key) + [op.key] else keys, size)
  {
    if Has(s, op.key) {
      UseKept(keys, s, size, op);
    } else if op.DoPut? {
      UseNew(keys, s, size, op);
    }
  }

  lemma MostRecentNext(size: nat, front: seq<Op>, op: Op)
    requires HoldsMostRecent(size, front)
    ensures HoldsMostRecent(size, front + [op])
  {
    var uses := Uses(size, front);
    RunInvariant(size, front);
    ByLastUseIsOrdered(uses);
    OrderedIsDistinct(uses, ByLastUse(uses));
    OneMore(ByLastUse(uses), Run(size, front), size, op);
    UsesNext(size, front, op);
    ByLastUseNext(uses, op.key);
    RunSnoc(size, front, op);
  }

  lemma {:induction false} RunHoldsMostRecent(size: nat, ops: seq<Op>)
    ensures HoldsMostRecent(size, ops)
  {
    if ops != [] {
      RunHoldsMostRecent(size, ops[..|ops| - 1]);
      MostRecentNext(size, ops[..|ops| - 1], ops[|ops| - 1]);
      assert ops == ops[..|ops| - 1] + [ops[|ops| - 1]];
    }
  }

  /** After every run the cache holds exactly the `size` keys used last, in the order of their last
      use, each with the value last put there. */
  lemma CacheIsMostRecent(size: nat, ops: seq<Op>)
    ensures Keys(Run(size, ops)) == LastOf(ByLastUse(Uses(size, ops)), size)
    ensures forall e :: e in Run(size, ops) ==> LastPut(ops, e.key) == Some(e.value)
  {
    RunHoldsMostRecent(size, ops);
    RunInvariant(size, ops);
    forall e | e in Run(size, ops) ensures LastPut(ops, e.key) == Some(e.value) {
      var i :| 0 <= i < |Run(size, ops)| && Run(size, ops)[i] == e;
      LookupAt(Run(size, ops), i);
      CacheIsCoherent(size, ops, e.key);
    }
  }

  /** A key is cached exactly when it was used and fewer than `size` other keys have been used since. */
  lemma CachedExactly(size: nat, ops: seq<Op>, key: Key)
    ensures var keys := ByLastUse(Uses(size, ops));
            Has(Run(size, ops), key) <==> exists i :: 0 <= i < |keys| && keys[i] == key && |keys| - 1 - i < size
  {
    var keys, s := ByLastUse(Uses(size, ops)), Run(size, ops);
    CacheIsMostRecent(size, ops);
    if Has(s, key) {
      var j :| 0 <= j < |s| && s[j].key == key;
      var i := if |keys| <= size then j else j + (|keys| - size);
      assert Keys(s)[j] == key && keys[i] == key;
    }
    if i :| 0 <= i < |keys| && keys[i] == key && |keys| - 1 - i < size {
      var j := if |keys| <= size then i else i - (|keys| - size);
      assert Keys(s)[j] == key;
    }
  }
}
