/** The in-place list rotation of the garbage-collector benchmark. */
module ListRotation {
  import opened Numbers

  class Node {
    var next: Node?

    constructor ()
      ensures next == null
    {
      next := null;
    }
  }

  /** The nodes, in this order, are linked from the first and end in nil; none appears twice. */
  ghost predicate IsChain(nodes: seq<Node>)
    reads nodes
  {
    && nodes != []
    && (forall i, j :: 0 <= i < j < |nodes| ==> nodes[i] != nodes[j])
    && (forall i {:trigger nodes[i].next} :: 0 <= i < |nodes| - 1 ==> nodes[i].next == nodes[i + 1])
    && nodes[|nodes| - 1].next == null
  }

  /** A chain of n nodes; of one node when n is not positive. */
  method Chain(n: int) returns (first: Node, ghost nodes: seq<Node>)
    ensures IsChain(nodes) && nodes[0] == first && |nodes| == Max(n, 1)
    ensures forall i :: 0 <= i < |nodes| ==> fresh(nodes[i])
  {
    first := new Node();
    nodes := [first];
    var prev := first;
    for i := 1 to Max(n, 1)
      invariant |nodes| == i && IsChain(nodes) && nodes[0] == first && nodes[|nodes| - 1] == prev
      invariant forall i :: 0 <= i < |nodes| ==> fresh(nodes[i])
    {
      var node := new Node();
      prev.next := node;
      prev := node;
      nodes := nodes + [node];
    }
  }

  method LenChain(n: Node?, ghost nodes: seq<Node>) returns (c: nat)
    requires if n == null then nodes == [] else IsChain(nodes) && nodes[0] == n
    ensures c == |nodes|
  {
    c := 0;
    var m := n;
    while m != null
      invariant 0 <= c <= |nodes| && m == if c < |nodes| then nodes[c] else null
      decreases |nodes| - c
    {
      c := c + 1;
      m := m.next;
    }
  }

  ghost function RotateLeft(nodes: seq<Node>): (r: seq<Node>)
    requires nodes != []
    ensures |r| == |nodes|
  {
    nodes[1..] + [nodes[0]]
  }

  ghost function RotateTimes(nodes: seq<Node>, rounds: nat): (r: seq<Node>)
    requires nodes != []
    ensures |r| == |nodes|
  {
    if rounds == 0 then nodes else RotateLeft(RotateTimes(nodes, rounds - 1))
  }

  /** R rounds put node (k + R) mod n in place k: a rotation by R mod n. */
  lemma {:induction false} RotateTimesIs(nodes: seq<Node>, rounds: nat)
    requires nodes != []
    ensures rounds % |nodes| < |nodes|
    ensures RotateTimes(nodes, rounds) == nodes[rounds % |nodes|..] + nodes[..rounds % |nodes|]
  {
    var n := |nodes|;
    if rounds == 0 {
      DivModUnique(0, n, 0, 0);
    } else {
      RotateTimesIs(nodes, rounds - 1);
      RotateOneMore(nodes, (rounds - 1) % n);
      NextRemainder(rounds, n);
    }
  }

  lemma NextRemainder(rounds: nat, n: nat)
    requires rounds > 0 && n > 0
    ensures rounds % n == if (rounds - 1) % n + 1 < n then (rounds - 1) % n + 1 else 0
  {
    var q, r := (rounds - 1) / n, (rounds - 1) % n;
    if r + 1 < n {
      DivModUnique(rounds, n, q, r + 1);
    } else {
      assert q * n + n == (q + 1) * n;
      DivModUnique(rounds, n, q + 1, 0);
    }
  }

  lemma RotateOneMore(nodes: seq<Node>, r: nat)
    requires r < |nodes|
    ensures RotateLeft(nodes[r..] + nodes[..r])
            == if r + 1 < |nodes| then nodes[r + 1..] + nodes[..r + 1] else nodes[0..] + nodes[..0]
  {
    assert nodes[r..] == [nodes[r]] + nodes[r + 1..];
    assert nodes[..r + 1] == nodes[..r] + [nodes[r]];
    assert RotateLeft(nodes[r..] + nodes[..r]) == nodes[r + 1..] + nodes[..r] + [nodes[r]];
  }

  /** One round: the head is cut off and linked behind the tail. None where there is no second node. */
  method RotateOnce(list: Node, ghost nodes: seq<Node>) returns (second: Node?)
    requires IsChain(nodes) && nodes[0] == list
    modifies nodes
    ensures second == null <==> |nodes| == 1
    ensures second == null ==> IsChain(nodes)
    ensures second != null ==> IsChain(RotateLeft(nodes)) && RotateLeft(nodes)[0] == second
  {
    var head := list;
    second := head.next;
    if second == null {
      return;
    }
    ghost var rest := nodes[1..];
    head.next := null;
    assert IsChain(rest) && forall i :: 0 <= i < |rest| ==> rest[i] != head;
    var tail: Node := second;
    ghost var k := 0;
    while tail.next != null
      invariant 0 <= k < |rest| && tail == rest[k]
      invariant IsChain(rest) && head.next == null
      decreases |rest| - k
    {
      tail := tail.next;
      k := k + 1;
    }
    assert k == |rest| - 1;
    tail.next := head;
    assert RotateLeft(nodes) == rest + [head];
  }

  /** The mutation rounds, which stop early at a list of one node: the given list is rotated left by
      the rounds modulo its length, nothing lost or shared. */
  method Mutate(list: Node, rounds: nat, ghost nodes: seq<Node>) returns (r: Node)
    requires IsChain(nodes) && nodes[0] == list
    modifies nodes
    ensures IsChain(RotateTimes(nodes, rounds)) && RotateTimes(nodes, rounds)[0] == r
    ensures rounds % |nodes| < |nodes|
    ensures RotateTimes(nodes, rounds) == nodes[rounds % |nodes|..] + nodes[..rounds % |nodes|]
    ensures r == nodes[rounds % |nodes|]
  {
    r := list;
    ghost var current := nodes;
    RotateTimesIs(nodes, rounds);
    for i := 0 to rounds
      invariant current == RotateTimes(nodes, i) && IsChain(current) && current[0] == r
      invariant forall j :: 0 <= j < |current| ==> current[j] in nodes
    {
      var second := RotateOnce(r, current);
      if second == null {
        RotateSingle(nodes, rounds);
        RotateSingle(nodes, i);
        return;
      }
      current := RotateLeft(current);
      r := second;
    }
  }

  lemma {:induction false} RotateSingle(nodes: seq<Node>, rounds: nat)
    requires |nodes| == 1
    ensures RotateTimes(nodes, rounds) == nodes
  {
    if rounds > 0 {
      RotateSingle(nodes, rounds - 1);
    }
  }

  /** The rounds and the count on a given list: it ends as the list rotated by the rounds modulo its
      length, and the count is that length. */
  method MutateAndCount(list: Node, rounds: nat, ghost nodes: seq<Node>) returns (r: Node, length: nat)
    requires IsChain(nodes) && nodes[0] == list
    modifies nodes
    ensures rounds % |nodes| < |nodes| && r == nodes[rounds % |nodes|]
    ensures IsChain(nodes[rounds % |nodes|..] + nodes[..rounds % |nodes|])
    ensures length == |nodes|
  {
    r := Mutate(list, rounds, nodes);
    length := LenChain(r, RotateTimes(nodes, rounds));
  }

  /** The benchmark: the chain it builds keeps its length over all rounds. */
  method BenchMutateLinks(live: int, rounds: nat) returns (length: nat)
    ensures length == Max(live, 1)
  {
    var list, nodes := Chain(live);
    list, length := MutateAndCount(list, rounds, nodes);
  }
}
