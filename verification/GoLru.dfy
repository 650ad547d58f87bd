/** The cache of the Go benchmark: the same behaviour over a library list, whose order is a
    sequence of elements here. */
module GoLru {
  import opened Options
  import opened Recency
  import opened LruRounds
  import Lcg

  class Element {
    var key: Key
    var value: Value

    constructor (k: Key, v: Value)
      ensures key == k && value == v
    {
      key, value := k, v;
    }
  }

  class Lru {
    const size: nat
    var keys: map<Key, Element>
    var entries: seq<Element>

    ghost predicate Valid()
      reads this, entries
    {
      && |entries| <= size
      && Distinct(entries)
      && IndexOf(keys, entries)
    }

    static ghost predicate Distinct(entries: seq<Element>) {
      forall i, j :: 0 <= i < j < |entries| ==> entries[i] != entries[j]
    }

    /** The map holds exactly the keys of the listed elements. */
    static ghost predicate IndexOf(keys: map<Key, Element>, entries: seq<Element>)
      reads entries
    {
      && (forall k :: k in keys ==> keys[k] in entries && keys[k].key == k)
      && (forall e :: e in entries ==> e.key in keys && keys[e.key] == e)
    }

    ghost function Contents(): (s: Cache)
      reads this, entries
      ensures |s| == |entries| && forall i :: 0 <= i < |s| ==> s[i] == Entry(entries[i].key, entries[i].value)
    {
      seq(|entries|, i requires 0 <= i < |entries| reads this, entries => Entry(entries[i].key, entries[i].value))
    }

    constructor (size: nat)
      ensures Valid() && this.size == size && Contents() == []
    {
      this.size := size;
      keys := map[];
      entries := [];
    }

    lemma ContentsMatchKeys(key: Key) returns (i: nat)
      requires Valid()
      ensures DistinctKeys(Contents())
      ensures Has(Contents(), key) <==> key in keys
      ensures key in keys ==> i < |entries| && entries[i] == keys[key]
    {
      forall j, l | 0 <= j < l < |entries| ensures entries[j].key != entries[l].key {
        assert entries[j] in entries && entries[l] in entries;
      }
      i := 0;
      if key in keys {
        i :| 0 <= i < |entries| && entries[i] == keys[key];
        assert Contents()[i].key == key;
      }
    }

    /** The order after an element has been moved to the back. */
    static ghost function Back(entries: seq<Element>, i: nat): (r: seq<Element>)
      requires i < |entries|
      ensures |r| == |entries|
    {
      entries[..i] + entries[i + 1..] + [entries[i]]
    }

    static lemma BackKeepsElements(entries: seq<Element>, i: nat)
      requires i < |entries| && Distinct(entries)
      ensures Distinct(Back(entries, i))
      ensures forall x :: x in Back(entries, i) <==> x in entries
    {
      var r := Back(entries, i);
      forall j, l | 0 <= j < l < |r| ensures r[j] != r[l] {
        var j', l' := if j < i then j else j + 1, if l == |r| - 1 then i else if l < i then l else l + 1;
        assert r[j] == entries[j'] && r[l] == entries[l'] && j' != l';
      }
      forall x | x in entries ensures x in r {
        var j :| 0 <= j < |entries| && entries[j] == x;
        assert r[if j == i then |r| - 1 else if j < i then j else j - 1] == x;
      }
    }

    /** The library's MoveToBack, on an element of the list. */
    method MoveToBack(e: Element, ghost i: nat)
      requires Distinct(entries) && i < |entries| && entries[i] == e
      modifies this`entries
      ensures entries == Back(old(entries), i)
    {
      var j :| 0 <= j < |entries| && entries[j] == e;
      entries := entries[..j] + entries[j + 1..] + [e];
    }

    /** Entries that move with their elements. */
    lemma ContentsMoved(was: seq<Element>, s: Cache, k: nat)
      requires k < |was| == |s| && entries == Back(was, k)
      requires forall i :: 0 <= i < |s| ==> s[i] == Entry(was[i].key, was[i].value)
      ensures Contents() == Moved(s, k)
    {
      var r := Moved(s, k);
      forall i | 0 <= i < |entries| ensures Entry(entries[i].key, entries[i].value) == r[i] {
        var j := if i < k then i else if i < |was| - 1 then i + 1 else k;
        assert entries[i] == was[j] && r[i] == s[j];
      }
    }

    static lemma SameElements(keys: map<Key, Element>, a: seq<Element>, b: seq<Element>)
      requires IndexOf(keys, a) && forall x :: x in a <==> x in b
      ensures IndexOf(keys, b)
    {
    }

    /** Moving a listed element leaves the map as it is. */
    method Promote(e: Element, ghost i: nat)
      requires Valid() && i < |entries| && entries[i] == e
      modifies this`entries
      ensures Valid() && Contents() == Moved(old(Contents()), i) && entries == Back(old(entries), i)
      ensures forall x :: x in entries <==> x in old(entries)
    {
      ghost var was, s := entries, Contents();
      BackKeepsElements(was, i);
      SameElements(keys, was, Back(was, i));
      MoveToBack(e, i);
      ContentsMoved(was, s, i);
    }

    method Get(key: Key) returns (value: Value, ok: bool)
      requires Valid()
      modifies this`entries
      ensures Valid()
      ensures (Contents(), if ok then Some(value) else None) == Recency.Get(old(Contents()), key)
    {
      ghost var s := Contents();
      ghost var i := ContentsMatchKeys(key);
      if key in keys {
        var e := keys[key];
        Promote(e, i);
        WithoutAt(s, i);
        LookupAt(s, i);
        return e.value, true;
      } else {
        return 0, false;
      }
    }

    /** Without a slot (size 0) and without the key, the program dereferences a missing front
        element; otherwise the put is the sequence's. */
    method Put(key: Key, value: Value) returns (ok: bool)
      requires Valid()
      modifies this, entries
      ensures Valid() && (ok <==> size > 0 || Has(old(Contents()), key))
      ensures ok ==> Contents() == Recency.Put(old(Contents()), size, key, value)
      ensures !ok ==> Contents() == old(Contents())
      ensures forall e :: e in entries ==> e in old(entries) || fresh(e)
    {
      ghost var s := Contents();
      ghost var i := ContentsMatchKeys(key);
      assert |s| == |entries| && (Lookup(s, key).Some? <==> key in keys);
      ok := true;
      if key in keys {
        Update(key, value, i);
      } else if |entries| == size {
        if entries == [] {
          return false;
        }
        Evict(key, value);
      } else {
        Insert(key, value);
      }
    }

    method Insert(key: Key, value: Value)
      requires Valid() && key !in keys && |entries| < size
      modifies this
      ensures Valid() && Contents() == old(Contents()) + [Entry(key, value)]
      ensures forall e :: e in entries ==> e in old(entries) || fresh(e)
    {
      var e := new Element(key, value);
      entries := entries + [e];
      keys := keys[key := e];
    }

    method Update(key: Key, value: Value, ghost i: nat)
      requires Valid() && key in keys && i < |entries| && entries[i] == keys[key]
      requires DistinctKeys(Contents())
      modifies this`entries, entries
      ensures Valid() && Contents() == Without(old(Contents()), key) + [Entry(key, value)]
      ensures forall e :: e in entries ==> e in old(entries)
    {
      ghost var s := Contents();
      WithoutAt(s, i);
      UpdatedThenMoved(s, i, Entry(key, value));
      var e := keys[key];
      SetValue(e, value, i);
      Promote(e, i);
    }

    method SetValue(e: Element, value: Value, ghost i: nat)
      requires Valid() && i < |entries| && entries[i] == e
      modifies e
      ensures Valid() && e.key == old(e.key) && Contents() == old(Contents())[i := Entry(e.key, value)]
    {
      e.value := value;
    }

    static lemma OldestReplaced(s: Cache, e: Entry)
      requires s != []
      ensures Moved(s, 0)[|s| - 1 := e] == s[1..] + [e]
    {
    }

    /** The front element is moved first and given to the new key afterwards. */
    method Evict(key: Key, value: Value)
      requires Valid() && key !in keys && entries != []
      modifies this, entries
      ensures Valid() && Contents() == old(Contents())[1..] + [Entry(key, value)]
      ensures forall e :: e in entries ==> e in old(entries)
    {
      ghost var s := Contents();
      var front := entries[0];
      var index := keys - {front.key};
      Promote(front, 0);
      index := index[key := front];
      Rename(front, key, value, index);
      OldestReplaced(s, Entry(key, value));
    }

    method Rename(front: Element, key: Key, value: Value, index: map<Key, Element>)
      requires Valid() && key !in keys && entries != [] && entries[|entries| - 1] == front
      requires index == (keys - {front.key})[key := front]
      modifies this`keys, front
      ensures Valid() && entries == old(entries)
      ensures Contents() == old(Contents())[|entries| - 1 := Entry(key, value)]
    {
      keys := index;
      front.key := key;
      front.value := value;
    }
  }

  // ------------------------------------------------------------ the benchmark

  method PutThenGet(lru: Lru, n0: nat, n1: nat) returns (found: bool)
    requires lru.Valid() && lru.size > 0
    modifies lru, lru.entries
    ensures lru.Valid() && forall x :: x in lru.entries ==> x in old(lru.entries) || fresh(x)
    ensures var s := Put(old(lru.Contents()), lru.size, n0, n0);
            lru.Contents() == Get(s, n1).0 && (found <==> Get(s, n1).1.Some?)
  {
    var ok := lru.Put(n0, n0);
    var value;
    value, found := lru.Get(n1);
  }

  /** The program stands at game `g` after `i` rounds. */
  ghost predicate Played(lru: Lru, g: Game, i: nat, seed0: nat, seed1: nat, hit: nat, missed: nat)
    reads lru, lru.entries
  {
    lru.Valid() && lru.size > 0 && hit + missed == i && g == Game(seed0, seed1, lru.Contents(), hit)
  }

  /** One round: draw and put, draw and get, and count. */
  method Round(lru: Lru, seed0: nat, seed1: nat, modular: nat, hit: nat, missed: nat, ghost games: seq<Game>, ghost i: nat)
    returns (next0: nat, next1: nat, hit': nat, missed': nat)
    requires modular > 0 && i + 1 < |games| && Follows(lru.size, modular, games, i)
    requires Played(lru, games[i], i, seed0, seed1, hit, missed)
    modifies lru, lru.entries
    ensures Played(lru, games[i + 1], i + 1, next0, next1, hit', missed')
    ensures forall x :: x in lru.entries ==> x in old(lru.entries) || fresh(x)
  {
    next0, next1 := Lcg.Next(seed0), Lcg.Next(seed1);
    var found := PutThenGet(lru, next0 % modular, next1 % modular);
    hit', missed' := if found then hit + 1 else hit, if found then missed else missed + 1;
  }

  /** The main loop: the same hits as the sequence's run of the same operations. */
  method RunRounds(size: nat, modular: nat, n: nat) returns (hit: nat, missed: nat)
    requires size > 0 && modular > 0
    ensures hit == Hits(size, Rounds(modular, n)) && hit + missed == n
  {
    ghost var games := History(size, modular, n);
    var lru := new Lru(size);
    hit, missed := Play(lru, modular, n, games);
  }

  method Play(lru: Lru, modular: nat, n: nat, ghost games: seq<Game>) returns (hit: nat, missed: nat)
    requires modular > 0 && |games| == n + 1 && IsHistory(lru.size, modular, games)
    requires lru.Valid() && lru.size > 0 && lru.Contents() == []
    modifies lru, lru.entries
    ensures hit == games[n].hits && hit + missed == n
  {
    var seed0, seed1 := 0, 1;
    hit, missed := 0, 0;
    for i := 0 to n
      invariant forall x :: x in lru.entries ==> x in old(lru.entries) || fresh(x)
      invariant Played(lru, games[i], i, seed0, seed1, hit, missed)
    {
      seed0, seed1, hit, missed := Round(lru, seed0, seed1, modular, hit, missed, games, i);
    }
  }

  /** None where the remainder by a zero range panics. Otherwise the size is not zero either, so no
      put dereferences a missing element. */
  method Benchmark(size: nat, n: nat) returns (r: Option<(nat, nat)>)
    ensures r.None? <==> size % 0x8000_0000 == 0 && n > 0
    ensures r.Some? ==> r.value.0 + r.value.1 == n
    ensures r.Some? && n > 0 ==> KeyRange(size) > 0 && r.value.0 == Hits(size, Rounds(KeyRange(size), n))
  {
    var modular := KeyRange(size);
    KeyRangeIsZero(size);
    if n == 0 {
      return Some((0, 0));
    }
    if modular == 0 {
      return None;
    }
    var hit, missed := RunRounds(size, modular, n);
    return Some((hit, missed));
  }
}
