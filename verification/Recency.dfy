/** The least-recently-used cache as a plain sequence of entries, oldest first, and what holds
    over whole runs of puts and gets. */
module Recency {
  import opened Options

  /** The benchmark's keys and values are numbers; nothing below uses more than their equality. */
  type Key = nat
  type Value = nat

  datatype Entry = Entry(key: Key, value: Value)

  /** The entries of a cache, oldest first. */
  type Cache = seq<Entry>

  ghost predicate Has(s: Cache, key: Key) {
    exists i :: 0 <= i < |s| && s[i].key == key
  }

  ghost predicate DistinctKeys(s: Cache) {
    forall i, j :: 0 <= i < j < |s| ==> s[i].key != s[j].key
  }

  function Lookup(s: Cache, key: Key): (r: Option<Value>)
    ensures r.Some? <==> Has(s, key)
    ensures r.Some? ==> Entry(key, r.value) in s
  {
    if s == [] then None
    else if s[0].key == key then Some(s[0].value)
    else
      var r := Lookup(s[1..], key);
      assert forall i :: 1 <= i < |s| ==> s[1..][i - 1] == s[i];
      r
  }

  function Without(s: Cache, key: Key): (r: Cache)
    ensures |r| <= |s|
  {
    if s == [] then []
    else if s[0].key == key then Without(s[1..], key)
    else [s[0]] + Without(s[1..], key)
  }

  /** A hit moves the entry to the young end. */
  function Get(s: Cache, key: Key): (Cache, Option<Value>) {
    var r := Lookup(s, key);
    if r.Some? then (Without(s, key) + [Entry(key, r.value)], r) else (s, None)
  }

  /** An update moves the entry to the young end; an insert into a full cache drops the oldest. */
  function Put(s: Cache, size: nat, key: Key, value: Value): Cache {
    if Lookup(s, key).Some? then Without(s, key) + [Entry(key, value)]
    else if |s| == size then
      if s == [] then [] else s[1..] + [Entry(key, value)]
    else s + [Entry(key, value)]
  }

  datatype Op = DoGet(key: Key) | DoPut(key: Key, value: Value)

  function Apply(s: Cache, size: nat, op: Op): Cache {
    match op
    case DoGet(key) => Get(s, key).0
    case DoPut(key, value) => Put(s, size, key, value)
  }

  /** The cache after the operations, from empty. */
  function Run(size: nat, ops: seq<Op>): Cache {
    if ops == [] then [] else Apply(Run(size, ops[..|ops| - 1]), size, ops[|ops| - 1])
  }

  /** A put uses its key, and so does a get that finds it. */
  predicate IsUse(s: Cache, op: Op) {
    op.DoPut? || Lookup(s, op.key).Some?
  }

  predicate IsHit(s: Cache, op: Op) {
    op.DoGet? && Get(s, op.key).1.Some?
  }

  /** How many gets of the run find their key. */
  function Hits(size: nat, ops: seq<Op>): nat {
    if ops == [] then 0
    else
      var front := ops[..|ops| - 1];
      Hits(size, front) + if IsHit(Run(size, front), ops[|ops| - 1]) then 1 else 0
  }

  // ------------------------------------------------------ invariants of a run

  lemma RunSnoc(size: nat, ops: seq<Op>, op: Op)
    ensures Run(size, ops + [op]) == Apply(Run(size, ops), size, op)
    ensures Hits(size, ops + [op]) == Hits(size, ops) + if IsHit(Run(size, ops), op) then 1 else 0
  {
    assert (ops + [op])[..|ops|] == ops;
  }

  lemma {:induction false} WithoutAt(s: Cache, i: nat)
    requires i < |s| && DistinctKeys(s)
    ensures Without(s, s[i].key) == s[..i] + s[i + 1..]
  {
    var key := s[i].key;
    if i == 0 {
      WithoutAbsent(s[1..], key);
    } else {
      var t := s[1..];
      WithoutAt(t, i - 1);
      assert t[..i - 1] == s[1..i] && t[i..] == s[i + 1..];
      assert s[..i] == [s[0]] + s[1..i];
      assert Without(s, key) == [s[0]] + Without(t, key);
    }
  }

  lemma {:induction false} WithoutMembers(s: Cache, key: Key)
    ensures forall e :: e in Without(s, key) <==> e in s && e.key != key
  {
    if s != [] {
      WithoutMembers(s[1..], key);
      assert s == [s[0]] + s[1..];
    }
  }

  lemma {:induction false} WithoutAbsent(s: Cache, key: Key)
    requires forall i :: 0 <= i < |s| ==> s[i].key != key
    ensures Without(s, key) == s
  {
    if s != [] {
      WithoutAbsent(s[1..], key);
    }
  }

  /** Entry k moved to the young end. */
  ghost function Moved(s: Cache, k: nat): Cache
    requires k < |s|
  {
    s[..k] + s[k + 1..] + [s[k]]
  }

  lemma UpdatedThenMoved(s: Cache, k: nat, e: Entry)
    requires k < |s|
    ensures Moved(s[k := e], k) == s[..k] + s[k + 1..] + [e]
    ensures k == 0 ==> Moved(s[k := e], k) == s[1..] + [e]
  {
  }

  lemma LookupAt(s: Cache, i: nat)
    requires i < |s| && DistinctKeys(s)
    ensures Lookup(s, s[i].key) == Some(s[i].value)
  {
    assert Has(s, s[i].key);
  }

  /** A get: nothing found and nothing changed, or the entry's value and that entry at the young end
      behind the others in their order. */
  lemma GetEffect(s: Cache, key: Key)
    requires DistinctKeys(s)
    ensures !Has(s, key) ==> Get(s, key) == (s, None)
    ensures forall i :: 0 <= i < |s| && s[i].key == key ==>
              Get(s, key) == (s[..i] + s[i + 1..] + [s[i]], Some(s[i].value))
  {
    forall i | 0 <= i < |s| && s[i].key == key
      ensures Get(s, key) == (s[..i] + s[i + 1..] + [s[i]], Some(s[i].value))
    {
      LookupAt(s, i);
      WithoutAt(s, i);
    }
  }

  /** A put: the key's entry with the new value at the young end, in place of its old one, or of the
      oldest entry where the cache is full, or of none. */
  lemma PutEffect(s: Cache, size: nat, key: Key, value: Value)
    requires DistinctKeys(s) && |s| <= size
    ensures forall i :: 0 <= i < |s| && s[i].key == key ==>
              Put(s, size, key, value) == s[..i] + s[i + 1..] + [Entry(key, value)]
    ensures !Has(s, key) && |s| < size ==> Put(s, size, key, value) == s + [Entry(key, value)]
    ensures !Has(s, key) && |s| == size > 0 ==> Put(s, size, key, value) == s[1..] + [Entry(key, value)]
    ensures size == 0 ==> Put(s, size, key, value) == []
  {
    forall i | 0 <= i < |s| && s[i].key == key
      ensures Put(s, size, key, value) == s[..i] + s[i + 1..] + [Entry(key, value)]
    {
      LookupAt(s, i);
      WithoutAt(s, i);
    }
  }

  lemma MovedKeepsDistinct(s: Cache, i: nat, e: Entry)
    requires DistinctKeys(s) && i < |s| && e.key == s[i].key
    ensures DistinctKeys(s[..i] + s[i + 1..] + [e])
  {
    var r := s[..i] + s[i + 1..] + [e];
    forall j, l | 0 <= j < l < |r| ensures r[j].key != r[l].key {
      var j', l' := if j < i then j else j + 1, if l == |r| - 1 then i else if l < i then l else l + 1;
      assert r[j].key == s[j'].key && r[l].key == s[l'].key && j' != l';
    }
  }

  lemma AppendKeepsDistinct(s: Cache, e: Entry)
    requires DistinctKeys(s) && !Has(s, e.key)
    ensures DistinctKeys(s + [e])
    ensures s != [] ==> DistinctKeys(s[1..] + [e])
  {
    forall i | 0 <= i < |s| ensures s[i].key != e.key {
      assert s[i].key == e.key ==> Has(s, e.key);
    }
  }

  lemma ApplyKeepsInvariant(s: Cache, size: nat, op: Op)
    requires DistinctKeys(s) && |s| <= size
    ensures DistinctKeys(Apply(s, size, op)) && |s| <= |Apply(s, size, op)| <= size
  {
    if Has(s, op.key) {
      var i :| 0 <= i < |s| && s[i].key == op.key;
      var e := if op.DoPut? then Entry(op.key, op.value) else Entry(op.key, Lookup(s, op.key).value);
      WithoutAt(s, i);
      MovedKeepsDistinct(s, i, e);
      assert Apply(s, size, op) == Without(s, op.key) + [e];
    } else if op.DoPut? {
      AppendKeepsDistinct(s, Entry(op.key, op.value));
    }
  }

  lemma {:induction false} RunInvariant(size: nat, ops: seq<Op>)
    ensures DistinctKeys(Run(size, ops)) && |Run(size, ops)| <= size
  {
    if ops != [] {
      RunInvariant(size, ops[..|ops| - 1]);
      ApplyKeepsInvariant(Run(size, ops[..|ops| - 1]), size, ops[|ops| - 1]);
    }
  }

  // ------------------------------------------------------------- coherence

  /** The value of the last put to `key`. */
  function LastPut(ops: seq<Op>, key: Key): Option<Value> {
    if ops == [] then None
    else
      var op := ops[|ops| - 1];
      if op.DoPut? && op.key == key then Some(op.value) else LastPut(ops[..|ops| - 1], key)
  }

  /** Whatever the cache holds for a key is what was last put there. */
  lemma {:induction false} CacheIsCoherent(size: nat, ops: seq<Op>, key: Key)
    ensures Lookup(Run(size, ops), key).Some? ==> Lookup(Run(size, ops), key) == LastPut(ops, key)
  {
    if ops != [] && Has(Run(size, ops), key) {
      var front, op := ops[..|ops| - 1], ops[|ops| - 1];
      var s := Run(size, front);
      CacheIsCoherent(size, front, key);
      RunInvariant(size, front);
      RunInvariant(size, ops);
      var v := Lookup(Run(size, ops), key).value;
      var i :| 0 <= i < |Run(size, ops)| && Run(size, ops)[i] == Entry(key, v);
      if op.key != key {
        WithoutMembers(s, op.key);
        assert Entry(key, v) in s;
        var j :| 0 <= j < |s| && s[j] == Entry(key, v);
        LookupAt(s, j);
      } else {
        var last := Run(size, ops)[|Run(size, ops)| - 1];
        assert last.key == key ==> i == |Run(size, ops)| - 1;
      }
    }
  }

  /** The positions of the gets that find their key. */
  ghost function HitPositions(size: nat, ops: seq<Op>): set<nat> {
    set i: nat | i < |ops| && ops[i].DoGet? && Has(Run(size, ops[..i]), ops[i].key)
  }

  /** Later operations do not change which earlier gets hit. */
  lemma HitPositionsNext(size: nat, front: seq<Op>, op: Op)
    ensures HitPositions(size, front + [op])
            == HitPositions(size, front) + if IsHit(Run(size, front), op) then {|front|} else {}
  {
    var ops := front + [op];
    assert ops[..|front|] == front;
    forall i: nat | i < |front| ensures ops[..i] == front[..i] && ops[i] == front[i] {
    }
  }

  /** The hits are counted one by one. */
  lemma {:induction false} HitsAreCounted(size: nat, ops: seq<Op>)
    ensures Hits(size, ops) == |HitPositions(size, ops)|
  {
    if ops != [] {
      var front, op := ops[..|ops| - 1], ops[|ops| - 1];
      assert ops == front + [op];
      HitsAreCounted(size, front);
      HitPositionsNext(size, front, op);
      RunSnoc(size, front, op);
    }
  }
}
