/** The messages of the broadcast and channel benchmarks and what they add up to. */
module Messages {
  import opened Numbers
  import opened Words
  import opened Channels
  import opened Decimal

  function SumOf(values: seq<nat>): nat {
    if values == [] then 0 else SumOf(values[..|values| - 1]) + values[|values| - 1]
  }

  /** Adding up with wrap-around gives the reduced sum. */
  method AddAll(start: nat, values: seq<nat>) returns (sum: nat)
    ensures sum == (start + SumOf(values)) % WORD
  {
    sum := start % WORD;
    for i := 0 to |values|
      invariant sum == (start + SumOf(values[..i])) % WORD
    {
      assert values[..i + 1][..i] == values[..i];
      ModAdd(start + SumOf(values[..i]), values[i], WORD);
      sum := (sum + values[i]) % WORD;
    }
    assert values[..|values|] == values;
  }

  /** A sum over nothing, over one value and over two parts. */
  lemma {:induction false} SumOfLaws(a: seq<nat>, b: seq<nat>, x: nat)
    ensures SumOf([]) == 0 && SumOf([x]) == x && SumOf(a + b) == SumOf(a) + SumOf(b)
  {
    assert [x][..0] == [];
    if b == [] {
      assert a + b == a;
    } else {
      SumOfLaws(a, b[..|b| - 1], x);
      assert (a + b)[..|a + b| - 1] == a + b[..|b| - 1];
    }
  }

  // ---------------------------------------------------------------- broadcast

  datatype Broadcast = Broadcast(id: nat, room: nat, body: seq<nat>, mentions: seq<nat>)

  function Rendered(m: Broadcast): nat {
    (m.id + m.room + SumOf(m.body) + SumOf(m.mentions)) % WORD
  }

  method Render(m: Broadcast) returns (sum: nat)
    ensures sum == Rendered(m)
  {
    sum := AddAll(m.id + m.room, m.body);
    var rest := AddAll(sum, m.mentions);
    ModAdd(m.id + m.room + SumOf(m.body), SumOf(m.mentions), WORD);
    sum := rest;
  }

  const TEXT: string := "The quick brown fox jumps over the lazy dog. "
  const CAPTION: string := "message "

  function Bytes(t: string): seq<nat> {
    seq(|t|, i requires 0 <= i < |t| => t[i] as nat)
  }

  /** The producer's message number i. */
  function BroadcastMessage(i: nat): Broadcast {
    Broadcast(i, i % 10, Bytes(TEXT) + Bytes(TEXT) + Bytes(TEXT) + Bytes(CAPTION) + FormatUint(i), [i % 100, i % 1000])
  }

  /** What a subscriber adds for message number i. */
  lemma RenderedMessage(i: nat)
    ensures Rendered(BroadcastMessage(i))
            == (i + i % 10 + 3 * SumOf(Bytes(TEXT)) + SumOf(Bytes(CAPTION)) + SumOf(FormatUint(i)) + i % 100 + i % 1000)
               % WORD
  {
    var t, m, d := Bytes(TEXT), Bytes(CAPTION), FormatUint(i);
    BodySum(t, m, d);
    SumOfLaws([i % 100], [i % 1000], i % 100);
    SumOfLaws([], [], i % 1000);
    assert [i % 100, i % 1000] == [i % 100] + [i % 1000];
  }

  lemma BodySum(t: seq<nat>, m: seq<nat>, d: seq<nat>)
    ensures SumOf(t + t + t + m + d) == 3 * SumOf(t) + SumOf(m) + SumOf(d)
  {
    SumOfLaws(t, t, 0);
    SumOfLaws(t + t, t, 0);
    SumOfLaws(t + t + t, m, 0);
    SumOfLaws(t + t + t + m, d, 0);
  }

  function BroadcastConfig(count: nat): Config<Broadcast> {
    Config(seq(count, i requires 0 <= i => BroadcastMessage(i)), Rendered, 4, 1024)
  }

  /** The printed checksum is four times the sum of all renderings, whatever the schedule. */
  lemma BroadcastChecksum(count: nat, events: seq<Event>, states: seq<State<Broadcast>>)
    requires IsCompleteRun(BroadcastConfig(count), events, states)
    ensures var messages := seq(count, i requires 0 <= i => BroadcastMessage(i));
            states[|events|].producer == Finished((4 * Sum(messages, Rendered)) % WORD)
  {
    CompleteRun(BroadcastConfig(count), events, states);
  }

  // ------------------------------------------------------------ channel pairs

  datatype Packet = Packet(id: nat, text: seq<nat>, values: seq<nat>)

  function Consumed(m: Packet): nat {
    m.id + |m.text| + SumOf(m.values)
  }

  function PacketOf(id: nat): Packet {
    Packet(id, FormatUint(id), Values(id, 8))
  }

  /** What a consumer adds for a packet: its id, the length of its text and its eight values. */
  lemma ConsumedPacket(id: nat)
    ensures Consumed(PacketOf(id)) % WORD == (9 * id + 28 + |FormatUint(id)|) % WORD
  {
    var m := PacketOf(id);
    ValuesSum(id, 8);
    Triangles();
    TimesIsProduct(8, id);
    ModAdd(SumOf(m.values), id + |m.text|, WORD);
    ModAdd(8 * id + 28, id + |m.text|, WORD);
  }

  function Values(id: nat, n: nat): (v: seq<nat>)
    ensures |v| == n
  {
    seq(n, j requires 0 <= j => (id + j) % WORD)
  }

  lemma ValuesNext(id: nat, n: nat)
    ensures SumOf(Values(id, n + 1)) == SumOf(Values(id, n)) + (id + n) % WORD
  {
    assert Values(id, n + 1)[..n] == Values(id, n);
  }

  lemma {:induction false} AddReduced(sum: nat, x: nat, y: nat)
    requires sum % WORD == x % WORD
    ensures (sum + y % WORD) % WORD == (x + y) % WORD
  {
    ModAdd(sum, y % WORD, WORD);
    AddWordOfSums(sum % WORD, y % WORD, x, y);
  }

  lemma {:induction false} ValuesSum(id: nat, n: nat)
    ensures SumOf(Values(id, n)) % WORD == (Times(n, id) + Triangle(n)) % WORD
  {
    if n > 0 {
      ValuesSum(id, n - 1);
      ValuesNext(id, n - 1);
      AddReduced(SumOf(Values(id, n - 1)), Times(n - 1, id) + Triangle(n - 1), id + (n - 1));
    }
  }

  /** What a producer sends that starts at `first`. */
  function Packets(first: nat, count: nat): seq<Packet> {
    seq(count, i requires 0 <= i => PacketOf((first + i) % WORD))
  }

  function PairConfig(first: nat, count: nat): Config<Packet> {
    Config(Packets(first, count), Consumed, 1, 1024)
  }

  lemma {:induction false} SumConcat<T>(a: seq<T>, b: seq<T>, weight: T -> nat)
    ensures Sum(a + b, weight) == Sum(a, weight) + Sum(b, weight)
  {
    if b == [] {
      assert a + b == a;
    } else {
      var front, m := b[..|b| - 1], b[|b| - 1];
      assert a + b == (a + front) + [m] && b == front + [m];
      SumConcat(a, front, weight);
      SumSnoc(a + front, m, weight);
      SumSnoc(front, m, weight);
    }
  }

  /** The ranges of consecutive producers join to one range, also where the first id wraps. */
  lemma PacketsJoin(sent: nat, count: nat)
    ensures Packets(0, sent) + Packets(sent % WORD, count) == Packets(0, sent + count)
  {
    var a, b, c := Packets(0, sent), Packets(sent % WORD, count), Packets(0, sent + count);
    forall i | 0 <= i < |c| ensures (a + b)[i] == c[i] {
      if i >= sent {
        ModAdd(sent, i - sent, WORD);
      }
    }
  }

  /** The wrapped sum of what the first `p` pairs report. */
  function PairTotals(results: seq<nat>, p: nat): nat
    requires p <= |results|
  {
    if p == 0 then 0 else AddWord(PairTotals(results, p - 1), results[p - 1])
  }

  /** A complete run of pair `q` that ends with its subscriber's result. */
  ghost predicate PairReports(q: nat, count: nat, events: seq<Event>, states: seq<State<Packet>>, result: nat) {
    && IsCompleteRun(PairConfig((q * count) % WORD, count), events, states)
    && states[|events|].producer == Finished(result)
  }

  /** What the packets of pair `q` add up to. */
  ghost function PairSum(q: nat, count: nat): nat {
    Sum(Packets(Times(q, count) % WORD, count), Consumed)
  }

  lemma PairResult(q: nat, count: nat, events: seq<Event>, states: seq<State<Packet>>, result: nat)
    requires PairReports(q, count, events, states, result)
    ensures result == PairSum(q, count) % WORD
  {
    TimesIsProduct(q, count);
    CompleteRun(PairConfig((q * count) % WORD, count), events, states);
  }

  /** The sum of the first `p` numbers. */
  ghost function SumFirst(own: seq<nat>, p: nat): nat
    requires p <= |own|
  {
    if p == 0 then 0 else SumFirst(own, p - 1) + own[p - 1]
  }

  lemma {:induction false} TotalOfReduced(own: seq<nat>, results: seq<nat>, p: nat)
    requires p <= |own| && p <= |results| && forall q :: 0 <= q < p ==> results[q] == own[q] % WORD
    ensures PairTotals(results, p) == SumFirst(own, p) % WORD
  {
    if p > 0 {
      TotalOfReduced(own, results, p - 1);
      AddWordOfSums(PairTotals(results, p - 1), results[p - 1], SumFirst(own, p - 1), own[p - 1]);
    }
  }

  lemma {:induction false} SumOfRange(own: seq<nat>, p: nat, count: nat)
    requires p <= |own| && forall q :: 0 <= q < p ==> own[q] == PairSum(q, count)
    ensures SumFirst(own, p) == Sum(Packets(0, Times(p, count)), Consumed)
  {
    if p == 0 {
      assert Packets(0, Times(p, count)) == [];
    } else {
      SumOfRange(own, p - 1, count);
      var sent := Times(p - 1, count);
      var before, last := Packets(0, sent), Packets(sent % WORD, count);
      PacketsJoin(sent, count);
      assert Packets(0, Times(p, count)) == before + last;
      SumConcat(before, last, Consumed);
    }
  }

  /** The pairs together report what one pair would report for all the ids, whatever the schedules. */
  lemma PairsChecksum(count: nat, p: nat, events: seq<seq<Event>>, states: seq<seq<State<Packet>>>, results: seq<nat>)
    requires p <= |results| == |events| == |states|
    requires forall q :: 0 <= q < p ==> PairReports(q, count, events[q], states[q], results[q])
    ensures PairTotals(results, p) == Sum(Packets(0, p * count), Consumed) % WORD
  {
    var own := seq(p, q requires 0 <= q => PairSum(q, count));
    forall q | 0 <= q < p ensures results[q] == own[q] % WORD {
      PairResult(q, count, events[q], states[q], results[q]);
    }
    TotalOfReduced(own, results, p);
    SumOfRange(own, p, count);
    TimesIsProduct(p, count);
  }
}
