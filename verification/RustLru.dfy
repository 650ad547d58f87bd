/** The cache of the Rust benchmark: a key index over a hand-written doubly linked list.

    A weak pointer is a node reference; it can be upgraded as long as the node is one of `nodes`,
    the nodes that the chain of `next` pointers from `head` owns. */
module RustLru {
  import opened Options
  import opened Recency
  import opened LruRounds
  import Lcg

  class Node {
    var prev: Node?
    var next: Node?
    var data: Entry

    constructor (d: Entry)
      ensures prev == null && next == null && data == d
    {
      prev, next, data := null, null, d;
    }
  }

  ghost predicate DistinctNodes(nodes: seq<Node>) {
    forall i, j :: 0 <= i < j < |nodes| ==> nodes[i] != nodes[j]
  }

  lemma MovedNodes(nodes: seq<Node>, k: nat)
    requires k < |nodes|
    ensures forall n :: n in nodes[..k] + nodes[k + 1..] + [nodes[k]] <==> n in nodes
  {
    var r := nodes[..k] + nodes[k + 1..] + [nodes[k]];
    forall n | n in nodes ensures n in r {
      var i :| 0 <= i < |nodes| && nodes[i] == n;
      assert r[if i < k then i else if i == k then |nodes| - 1 else i - 1] == n;
    }
  }

  class LinkedList {
    var head: Node?
    var tail: Node?
    var len: nat
    ghost var nodes: seq<Node>

    /** `next` from `head` lists the nodes, `prev` is its inverse and `tail` is the last one. */
    ghost predicate Linked()
      reads this, nodes
    {
      && DistinctNodes(nodes)
      && head == (if nodes == [] then null else nodes[0])
      && tail == (if nodes == [] then null else nodes[|nodes| - 1])
      && (nodes != [] ==> nodes[0].prev == null && nodes[|nodes| - 1].next == null)
      && (forall i {:trigger nodes[i].next} :: 0 <= i < |nodes| - 1 ==> nodes[i].next == nodes[i + 1])
      && (forall i {:trigger nodes[i].prev} :: 1 <= i < |nodes| ==> nodes[i].prev == nodes[i - 1])
    }

    ghost predicate Valid()
      reads this, nodes
    {
      Linked() && len == |nodes|
    }

    ghost function Contents(): (s: Cache)
      reads this, nodes
      ensures |s| == |nodes| && forall i :: 0 <= i < |s| ==> s[i] == nodes[i].data
    {
      seq(|nodes|, i requires 0 <= i < |nodes| reads this, nodes => nodes[i].data)
    }

    constructor ()
      ensures Valid() && nodes == []
    {
      head, tail, len := null, null, 0;
      nodes := [];
    }

    method Add(data: Entry) returns (weak: Node)
      requires Valid()
      modifies this, nodes
      ensures Valid() && fresh(weak) && weak.data == data && nodes == old(nodes) + [weak]
      ensures Contents() == old(Contents()) + [data]
      ensures forall n :: n in old(nodes) ==> n.data == old(n.data)
    {
      var node := new Node(data);
      AddNode(node);
      len := len + 1;
      weak := node;
    }

    /** Links a node that is not in the list behind the last one. */
    method AddNode(node: Node)
      requires Linked() && node !in nodes
      modifies this, nodes, node
      ensures Linked() && nodes == old(nodes) + [node] && len == old(len)
      ensures forall n :: n in nodes ==> n.data == old(n.data)
    {
      node.next := null;
      if head == null {
        node.prev := null;
        head := node;
      } else if tail != null {
        node.prev := tail;
        assert tail in nodes;  // the upgrade of the weak tail succeeds
        tail.next := node;
      }
      tail := node;
      nodes := nodes + [node];
    }

    /** Unlinks a node; its own pointers and data stay as they are. */
    method Remove(node: Node, ghost k: nat)
      requires Linked() && k < |nodes| && nodes[k] == node
      modifies this, nodes
      ensures Linked() && nodes == old(nodes[..k] + nodes[k + 1..]) && len == old(len)
      ensures forall n :: n in old(nodes) ==> n.data == old(n.data)
    {
      if head != null && head == node {
        head := node.next;
      }
      if tail != null && tail == node {
        tail := node.prev;
      }
      if node.prev != null {
        assert node.prev in nodes;  // so does the upgrade of a weak `prev`
        node.prev.next := node.next;
      }
      if node.next != null {
        node.next.prev := node.prev;
      }
      nodes := nodes[..k] + nodes[k + 1..];
    }

    /** Entries that move with their nodes. */
    lemma ContentsMoved(was: seq<Node>, s: Cache, k: nat)
      requires k < |was| == |s| && nodes == was[..k] + was[k + 1..] + [was[k]]
      requires forall i :: 0 <= i < |s| ==> s[i] == was[i].data
      ensures Contents() == Moved(s, k)
    {
      var r := Moved(s, k);
      forall i | 0 <= i < |nodes| ensures nodes[i].data == r[i] {
        var j := if i < k then i else if i < |was| - 1 then i + 1 else k;
        assert nodes[i] == was[j] && r[i] == s[j];
      }
    }

    method MoveToEnd(node: Node, ghost k: nat)
      requires Valid() && k < |nodes| && nodes[k] == node
      modifies this, nodes
      ensures Valid() && nodes == old(nodes[..k] + nodes[k + 1..]) + [node]
      ensures forall n :: n in nodes ==> n.data == old(n.data)
      ensures Contents() == Moved(old(Contents()), k)
      ensures forall n :: n in nodes <==> n in old(nodes)
    {
      ghost var was, s := nodes, Contents();
      MovedNodes(was, k);
      Remove(node, k);
      AddNode(node);
      ContentsMoved(was, s, k);
    }

    /** Overwrites the entry of a listed node in place. */
    method SetData(node: Node, data: Entry, ghost k: nat)
      requires Valid() && k < |nodes| && nodes[k] == node
      modifies nodes
      ensures Valid() && nodes == old(nodes) && node.data == data
      ensures forall n :: n in nodes && n != node ==> n.data == old(n.data)
      ensures Contents() == old(Contents())[k := data]
    {
      node.data := data;
    }

    method HeadMut() returns (h: Node?)
      requires Valid()
      ensures h == if nodes == [] then null else nodes[0]
    {
      h := head;
    }
  }

  class Lru {
    const size: nat
    var keyLookup: map<Key, Node>
    const entries: LinkedList

    /** The index maps exactly the listed keys to their nodes. */
    ghost predicate Valid()
      reads this, entries, entries.nodes
    {
      && entries.Valid()
      && |entries.nodes| <= size
      && IndexOf(keyLookup, entries.nodes)
    }

    static ghost predicate IndexOf(index: map<Key, Node>, nodes: seq<Node>)
      reads nodes
    {
      && (forall k :: k in index ==> index[k] in nodes && index[k].data.key == k)
      && (forall n :: n in nodes ==> n.data.key in index && index[n.data.key] == n)
    }

    ghost function Contents(): Cache
      reads entries, entries.nodes
    {
      entries.Contents()
    }

    constructor (size: nat)
      ensures Valid() && this.size == size && Contents() == [] && fresh(entries)
      ensures entries.nodes == []
    {
      this.size := size;
      keyLookup := map[];
      entries := new LinkedList();
    }

    lemma IndexOfKey(key: Key) returns (k: nat)
      requires Valid() && key in keyLookup
      ensures k < |entries.nodes| && entries.nodes[k] == keyLookup[key] && Contents()[k].key == key
    {
      k :| 0 <= k < |entries.nodes| && entries.nodes[k] == keyLookup[key];
    }

    lemma ContentsMatchIndex(key: Key)
      requires Valid()
      ensures DistinctKeys(Contents())
      ensures Has(Contents(), key) <==> key in keyLookup
    {
      var s, nodes := Contents(), entries.nodes;
      forall i, j | 0 <= i < j < |s| ensures s[i].key != s[j].key {
        assert nodes[i] in nodes && nodes[j] in nodes;
      }
      if key in keyLookup {
        var k := IndexOfKey(key);
      }
    }

    /** Moving a listed node to the end leaves the index as it is. */
    method Promote(node: Node, ghost k: nat)
      requires Valid() && k < |entries.nodes| && entries.nodes[k] == node
      modifies entries, entries.nodes
      ensures Valid() && Contents() == Moved(old(Contents()), k)
      ensures forall n :: n in entries.nodes ==> n in old(entries.nodes)
    {
      entries.MoveToEnd(node, k);
    }

    method Get(key: Key) returns (r: Option<Value>)
      requires Valid()
      modifies this, entries, entries.nodes
      ensures Valid() && (Contents(), r) == Recency.Get(old(Contents()), key)
      ensures forall n :: n in entries.nodes ==> n in old(entries.nodes)
    {
      ContentsMatchIndex(key);
      if key in keyLookup {
        var node := keyLookup[key];
        assert node in entries.nodes;  // the upgrade succeeds
        ghost var k := IndexOfKey(key);
        LookupAt(Contents(), k);
        WithoutAt(Contents(), k);
        var v := node.data.value;
        Promote(node, k);
        return Some(v);
      }
      return None;
    }

    method Put(key: Key, value: Value)
      requires Valid()
      modifies this, entries, entries.nodes
      ensures Valid() && Contents() == Recency.Put(old(Contents()), size, key, value)
      ensures forall n :: n in entries.nodes ==> n in old(entries.nodes) || fresh(n)
    {
      ghost var s := Contents();
      ContentsMatchIndex(key);
      assert entries.len == |s| && (Lookup(s, key).Some? <==> key in keyLookup);
      if key in keyLookup {
        Update(key, value);
      } else if entries.len == size {
        var head := entries.HeadMut();
        if head != null {
          Evict(head, key, value);
        }
      } else {
        Insert(key, value);
      }
    }

    /** The branch of `Put` for a new key while there is room. */
    method Insert(key: Key, value: Value)
      requires Valid() && key !in keyLookup && entries.len < size
      modifies this, entries, entries.nodes
      ensures Valid() && Contents() == old(Contents()) + [Entry(key, value)]
      ensures forall n :: n in entries.nodes ==> n in old(entries.nodes) || fresh(n)
    {
      var node := entries.Add(Entry(key, value));
      assert IndexOf(keyLookup[key := node], entries.nodes);
      keyLookup := keyLookup[key := node];
    }

    /** The branch of `Put` for a key that is present. */
    method Update(key: Key, value: Value)
      requires Valid() && key in keyLookup && DistinctKeys(Contents())
      modifies this, entries, entries.nodes
      ensures Valid() && Contents() == Without(old(Contents()), key) + [Entry(key, value)]
      ensures forall n :: n in entries.nodes ==> n in old(entries.nodes)
    {
      var node := keyLookup[key];
      assert node in entries.nodes;  // the upgrade succeeds
      ghost var k := IndexOfKey(key);
      ghost var s, e := Contents(), Entry(key, value);
      entries.SetData(node, Entry(node.data.key, value), k);
      assert Contents() == s[k := e];
      Promote(node, k);
      assert Contents() == Without(s, key) + [e] by {
        WithoutAt(s, k);
        UpdatedThenMoved(s, k, e);
      }
    }

    /** The branch of `Put` for a new key in a full cache: the oldest node is used again. */
    method Evict(head: Node, key: Key, value: Value)
      requires Valid() && key !in keyLookup && entries.nodes != [] && entries.nodes[0] == head
      modifies this, entries, entries.nodes
      ensures Valid() && Contents() == old(Contents())[1..] + [Entry(key, value)]
      ensures forall n :: n in entries.nodes ==> n in old(entries.nodes)
    {
      UpdatedThenMoved(Contents(), 0, Entry(key, value));
      Rename(head, key, value);
      Promote(head, 0);
    }

    /** Gives the oldest node to a new key, in the list and in the index. */
    method Rename(head: Node, key: Key, value: Value)
      requires Valid() && key !in keyLookup && entries.nodes != [] && entries.nodes[0] == head
      modifies this, entries.nodes
      ensures Valid() && entries.nodes == old(entries.nodes)
      ensures Contents() == old(Contents())[0 := Entry(key, value)]
    {
      var index := keyLookup - {head.data.key};
      entries.SetData(head, Entry(key, value), 0);
      index := index[key := head];
      assert IndexOf(index, entries.nodes);
      keyLookup := index;
    }
  }

  // ------------------------------------------------------------ the benchmark

  method PutThenGet(lru: Lru, n0: nat, n1: nat) returns (found: bool)
    requires lru.Valid()
    modifies lru, lru.entries, lru.entries.nodes
    ensures lru.Valid() && forall x :: x in lru.entries.nodes ==> x in old(lru.entries.nodes) || fresh(x)
    ensures var s := Put(old(lru.Contents()), lru.size, n0, n0);
            lru.Contents() == Get(s, n1).0 && (found <==> Get(s, n1).1.Some?)
  {
    lru.Put(n0, n0);
    var r := lru.Get(n1);
    found := r.Some?;
  }

  /** The program stands at game `g` after `i` rounds. */
  ghost predicate Played(lru: Lru, g: Game, i: nat, seed0: nat, seed1: nat, hit: nat, missed: nat)
    reads lru, lru.entries, lru.entries.nodes
  {
    lru.Valid() && hit + missed == i && g == Game(seed0, seed1, lru.Contents(), hit)
  }

  /** One round: draw and put, draw and get, and count. */
  method Round(lru: Lru, seed0: nat, seed1: nat, modular: nat, hit: nat, missed: nat, ghost games: seq<Game>, ghost i: nat)
    returns (next0: nat, next1: nat, hit': nat, missed': nat)
    requires modular > 0 && i + 1 < |games| && Follows(lru.size, modular, games, i)
    requires Played(lru, games[i], i, seed0, seed1, hit, missed)
    modifies lru, lru.entries, lru.entries.nodes
    ensures Played(lru, games[i + 1], i + 1, next0, next1, hit', missed')
    ensures forall x :: x in lru.entries.nodes ==> x in old(lru.entries.nodes) || fresh(x)
  {
    next0, next1 := Lcg.Next(seed0), Lcg.Next(seed1);
    var found := PutThenGet(lru, next0 % modular, next1 % modular);
    hit', missed' := if found then hit + 1 else hit, if found then missed else missed + 1;
  }

  /** The main loop: the same hits as the sequence's run of the same operations. */
  method RunRounds(size: nat, modular: nat, n: nat) returns (hit: nat, missed: nat)
    requires modular > 0
    ensures hit == Hits(size, Rounds(modular, n)) && hit + missed == n
  {
    ghost var games := History(size, modular, n);
    var lru := new Lru(size);
    hit, missed := Play(lru, modular, n, games);
  }

  method Play(lru: Lru, modular: nat, n: nat, ghost games: seq<Game>) returns (hit: nat, missed: nat)
    requires modular > 0 && |games| == n + 1 && IsHistory(lru.size, modular, games)
    requires lru.Valid() && lru.Contents() == []
    modifies lru, lru.entries, lru.entries.nodes
    ensures hit == games[n].hits && hit + missed == n
  {
    var seed0, seed1 := 0, 1;
    hit, missed := 0, 0;
    for i := 0 to n
      invariant forall x :: x in lru.entries.nodes ==> x in old(lru.entries.nodes) || fresh(x)
      invariant Played(lru, games[i], i, seed0, seed1, hit, missed)
    {
      seed0, seed1, hit, missed := Round(lru, seed0, seed1, modular, hit, missed, games, i);
    }
  }

  /** None where the remainder by a zero range traps; otherwise the hits and misses of the run. */
  method Benchmark(size: nat, n: nat) returns (r: Option<(nat, nat)>)
    ensures r.None? <==> size % 0x8000_0000 == 0 && n > 0
    ensures r.Some? ==> r.value.0 + r.value.1 == n
    ensures r.Some? && n > 0 ==> KeyRange(size) > 0 && r.value.0 == Hits(size, Rounds(KeyRange(size), n))
  {
    var modular := KeyRange(size);
    KeyRangeIsZero(size);
    if n == 0 {
      return Some((0, 0));
    }
    if modular == 0 {
      return None;
    }
    var hit, missed := RunRounds(size, modular, n);
    return Some((hit, missed));
  }
}
