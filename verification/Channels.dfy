/** One producer, any number of subscribers, bounded first-in first-out inboxes: every interleaving
    of the broadcast benchmark, and of the channel benchmark as its instance with one subscriber. */
module Channels {
  import opened Numbers
  import opened Words

  /** The messages to send, what one message adds to a subscriber's total, the number of
      subscribers and the capacity of an inbox. */
  datatype Config<!T> = Config(messages: seq<T>, weight: T -> nat, subscribers: nat, capacity: nat)

  /** The producer: about to send message i to subscriber s, about to close inbox s, waiting for
      the subscribers, or finished with the grand total. */
  datatype Producer = Sending(i: nat, s: nat) | Closing(s: nat) | Waiting | Finished(total: nat)

  datatype Subscriber<T> = Subscriber(inbox: seq<T>, closed: bool, received: seq<T>, total: nat, done: bool)

  datatype State<T> = State(producer: Producer, subs: seq<Subscriber<T>>)

  datatype Event = Send | Close | Receive(k: nat) | Finish(k: nat) | Join

  predicate ValidConfig<T>(c: Config<T>) {
    c.subscribers >= 1 && c.capacity >= 1
  }

  /** Where the producer stands once the first `i` messages are sent everywhere. */
  function BeforeMessage<T>(c: Config<T>, i: nat): Producer {
    if i < |c.messages| then Sending(i, 0) else Closing(0)
  }

  function Init<T>(c: Config<T>): State<T> {
    State(BeforeMessage(c, 0), seq(c.subscribers, _ => Subscriber([], false, [], 0, false)))
  }

  predicate Enabled<T>(c: Config<T>, st: State<T>, e: Event) {
    match e
    case Send =>
      && st.producer.Sending? && st.producer.s < |st.subs|
      && st.producer.i < |c.messages| && |st.subs[st.producer.s].inbox| < c.capacity
    case Close => st.producer.Closing? && st.producer.s < |st.subs|
    case Receive(k) => k < |st.subs| && !st.subs[k].done && st.subs[k].inbox != []
    case Finish(k) => k < |st.subs| && !st.subs[k].done && st.subs[k].inbox == [] && st.subs[k].closed
    case Join => st.producer.Waiting? && forall k :: 0 <= k < |st.subs| ==> st.subs[k].done
  }

  function Step<T>(c: Config<T>, st: State<T>, e: Event): State<T>
    requires Enabled(c, st, e)
  {
    match e
    case Send =>
      var Sending(i, s) := st.producer;
      var sub := st.subs[s];
      State(if s + 1 < |st.subs| then Sending(i, s + 1) else BeforeMessage(c, i + 1),
            st.subs[s := sub.(inbox := sub.inbox + [c.messages[i]])])
    case Close =>
      var s := st.producer.s;
      State(if s + 1 < |st.subs| then Closing(s + 1) else Waiting,
            st.subs[s := st.subs[s].(closed := true)])
    case Receive(k) =>
      var sub := st.subs[k];
      var m := sub.inbox[0];
      st.(subs := st.subs[k := sub.(inbox := sub.inbox[1..], received := sub.received + [m],
                                    total := AddWord(sub.total, c.weight(m)))])
    case Finish(k) => st.(subs := st.subs[k := st.subs[k].(done := true)])
    case Join => st.(producer := Finished(GrandTotal(st.subs, |st.subs|)))
  }

  /** The results of the first `n` subscribers, added up. */
  function GrandTotal<T>(subs: seq<Subscriber<T>>, n: nat): nat
    requires n <= |subs|
  {
    if n == 0 then 0 else AddWord(GrandTotal(subs, n - 1), subs[n - 1].total)
  }

  ghost function Sum<T>(messages: seq<T>, weight: T -> nat): nat {
    if messages == [] then 0 else Sum(messages[..|messages| - 1], weight) + weight(messages[|messages| - 1])
  }

  // ------------------------------------------------------------- the invariant

  /** How many messages subscriber `k` has been sent. */
  ghost function SentTo<T>(c: Config<T>, p: Producer, k: nat): nat {
    match p
    case Sending(i, s) => if k < s then i + 1 else i
    case _ => |c.messages|
  }

  ghost predicate SubscriberOk<T>(c: Config<T>, p: Producer, k: nat, sub: Subscriber<T>) {
    && SentTo(c, p, k) <= |c.messages|
    && sub.received + sub.inbox == c.messages[..SentTo(c, p, k)]
    && |sub.inbox| <= c.capacity
    && sub.total == Sum(sub.received, c.weight) % WORD
    && (sub.closed <==> p.Waiting? || p.Finished? || (p.Closing? && k < p.s))
    && (sub.done ==> sub.closed && sub.inbox == [])
  }

  ghost predicate Invariant<T>(c: Config<T>, st: State<T>) {
    && |st.subs| == c.subscribers
    && (st.producer.Sending? ==> st.producer.i < |c.messages| && st.producer.s < c.subscribers)
    && (st.producer.Closing? ==> st.producer.s < c.subscribers)
    && (forall k :: 0 <= k < |st.subs| ==> SubscriberOk(c, st.producer, k, st.subs[k]))
    && (st.producer.Finished? ==>
          && (forall k :: 0 <= k < |st.subs| ==> st.subs[k].done)
          && st.producer.total == GrandTotal(st.subs, |st.subs|))
  }

  lemma SumSnoc<T>(messages: seq<T>, m: T, weight: T -> nat)
    ensures Sum(messages + [m], weight) == Sum(messages, weight) + weight(m)
  {
    assert (messages + [m])[..|messages|] == messages;
  }

  lemma InitInvariant<T>(c: Config<T>)
    requires ValidConfig(c)
    ensures Invariant(c, Init(c))
  {
  }

  lemma ReceiveKeepsSubscriber<T>(c: Config<T>, st: State<T>, k: nat)
    requires k < |st.subs| && SubscriberOk(c, st.producer, k, st.subs[k]) && Enabled(c, st, Receive(k))
    ensures SubscriberOk(c, st.producer, k, Step(c, st, Receive(k)).subs[k])
  {
    var sub, sub' := st.subs[k], Step(c, st, Receive(k)).subs[k];
    var m := sub.inbox[0];
    assert sub'.received + sub'.inbox == sub.received + sub.inbox;
    SumSnoc(sub.received, m, c.weight);
    AddWordOfSums(sub.total, c.weight(m), Sum(sub.received, c.weight), c.weight(m));
  }

  lemma StepKeepsSubscriber<T>(c: Config<T>, st: State<T>, e: Event, k: nat)
    requires ValidConfig(c) && Invariant(c, st) && Enabled(c, st, e) && k < |st.subs|
    ensures SubscriberOk(c, Step(c, st, e).producer, k, Step(c, st, e).subs[k])
  {
    var sub, sub' := st.subs[k], Step(c, st, e).subs[k];
    assert SubscriberOk(c, st.producer, k, sub);
    match e
    case Send =>
      var Sending(i, s) := st.producer;
      if k == s {
        assert sub'.received + sub'.inbox == sub.received + sub.inbox + [c.messages[i]];
        assert c.messages[..i + 1] == c.messages[..i] + [c.messages[i]];
      }
    case Close =>
    case Receive(j) =>
      if k == j {
        ReceiveKeepsSubscriber(c, st, k);
      }
    case Finish(j) =>
    case Join =>
  }

  lemma StepKeepsInvariant<T>(c: Config<T>, st: State<T>, e: Event)
    requires ValidConfig(c) && Invariant(c, st) && Enabled(c, st, e)
    ensures Invariant(c, Step(c, st, e))
  {
    forall k | 0 <= k < |st.subs| ensures SubscriberOk(c, Step(c, st, e).producer, k, Step(c, st, e).subs[k]) {
      StepKeepsSubscriber(c, st, e, k);
    }
  }

  // ---------------------------------------------------------- runs of the system

  /** The states of a run: each step is enabled and taken. */
  ghost predicate IsRun<T>(c: Config<T>, events: seq<Event>, states: seq<State<T>>) {
    && |states| == |events| + 1
    && states[0] == Init(c)
    && forall i :: 0 <= i < |events| ==> Enabled(c, states[i], events[i]) && states[i + 1] == Step(c, states[i], events[i])
  }

  /** In every reachable state each subscriber has received a prefix of the messages, in order,
      and its inbox holds the messages that come next. */
  lemma {:induction false} RunInvariant<T>(c: Config<T>, events: seq<Event>, states: seq<State<T>>, i: nat)
    requires ValidConfig(c) && IsRun(c, events, states) && i < |states|
    ensures Invariant(c, states[i])
  {
    if i == 0 {
      InitInvariant(c);
    } else {
      RunInvariant(c, events, states, i - 1);
      assert Enabled(c, states[i - 1], events[i - 1]) && states[i - 1 + 1] == Step(c, states[i - 1], events[i - 1]);
      StepKeepsInvariant(c, states[i - 1], events[i - 1]);
    }
  }

  /** Until the producer has finished, some step is enabled. */
  lemma NoDeadlock<T>(c: Config<T>, st: State<T>) returns (e: Event)
    requires ValidConfig(c) && Invariant(c, st) && !st.producer.Finished?
    ensures Enabled(c, st, e)
  {
    match st.producer
    case Sending(i, s) =>
      assert SubscriberOk(c, st.producer, s, st.subs[s]);
      e := if |st.subs[s].inbox| < c.capacity then Send else Receive(s);
    case Closing(s) =>
      e := Close;
    case Waiting =>
      if k :| 0 <= k < |st.subs| && !st.subs[k].done {
        assert SubscriberOk(c, st.producer, k, st.subs[k]);
        e := if st.subs[k].inbox == [] then Finish(k) else Receive(k);
      } else {
        e := Join;
      }
  }

  /** The steps that subscriber `k` still takes part in. */
  ghost function WorkLeft<T>(c: Config<T>, st: State<T>, k: nat): int
    requires k < |st.subs|
  {
    var sub := st.subs[k];
    2 * (|c.messages| - SentTo(c, st.producer, k)) + |sub.inbox|
    + (if sub.closed then 0 else 1) + if sub.done then 0 else 1
  }

  ghost function TotalWork<T>(c: Config<T>, st: State<T>, n: nat): int
    requires n <= |st.subs|
  {
    if n == 0 then if st.producer.Finished? then 0 else 1
    else TotalWork(c, st, n - 1) + WorkLeft(c, st, n - 1)
  }

  /** The subscriber that a step serves. */
  ghost function Served<T>(st: State<T>, e: Event): nat {
    match e
    case Receive(k) => k
    case Finish(k) => k
    case _ => if st.producer.Sending? || st.producer.Closing? then st.producer.s else 0
  }

  lemma StepDoesOneUnit<T>(c: Config<T>, st: State<T>, e: Event, k: nat)
    requires ValidConfig(c) && Invariant(c, st) && Enabled(c, st, e) && k < |st.subs|
    ensures WorkLeft(c, Step(c, st, e), k)
            == WorkLeft(c, st, k) - if !e.Join? && k == Served(st, e) then 1 else 0
  {
    assert SubscriberOk(c, st.producer, k, st.subs[k]);
  }

  lemma {:induction false} StepDoesOneUnitInAll<T>(c: Config<T>, st: State<T>, e: Event, n: nat)
    requires ValidConfig(c) && Invariant(c, st) && Enabled(c, st, e) && n <= |st.subs|
    ensures TotalWork(c, Step(c, st, e), n)
            == TotalWork(c, st, n) - if e.Join? || Served(st, e) < n then 1 else 0
  {
    if n > 0 {
      StepDoesOneUnitInAll(c, st, e, n - 1);
      StepDoesOneUnit(c, st, e, n - 1);
    }
  }

  lemma {:induction false} WorkNonNegative<T>(c: Config<T>, st: State<T>, n: nat)
    requires Invariant(c, st) && n <= |st.subs|
    ensures TotalWork(c, st, n) >= if st.producer.Finished? then 0 else 1
  {
    if n > 0 {
      assert SubscriberOk(c, st.producer, n - 1, st.subs[n - 1]);
      WorkNonNegative(c, st, n - 1);
    }
  }

  lemma {:induction false} InitialWork<T>(c: Config<T>, n: nat)
    requires n <= c.subscribers
    ensures TotalWork(c, Init(c), n) == Times(n, 2 * |c.messages| + 2) + 1
  {
    if n > 0 {
      InitialWork(c, n - 1);
      var st := Init(c);
      assert WorkLeft(c, st, n - 1) == 2 * |c.messages| + 2;
    }
  }

  lemma {:induction false} WorkAfter<T>(c: Config<T>, events: seq<Event>, states: seq<State<T>>, i: nat)
    requires ValidConfig(c) && IsRun(c, events, states) && i < |states|
    ensures |states[i].subs| == c.subscribers
    ensures TotalWork(c, states[i], c.subscribers) == Times(c.subscribers, 2 * |c.messages| + 2) + 1 - i
  {
    RunInvariant(c, events, states, i);
    if i == 0 {
      InitialWork(c, c.subscribers);
    } else {
      WorkAfter(c, events, states, i - 1);
      RunInvariant(c, events, states, i - 1);
      assert Enabled(c, states[i - 1], events[i - 1]) && states[i - 1 + 1] == Step(c, states[i - 1], events[i - 1]);
      StepDoesOneUnitInAll(c, states[i - 1], events[i - 1], c.subscribers);
    }
  }

  /** Every run terminates: none is longer than two steps a delivery, two a subscriber and one. */
  lemma RunsAreBounded<T>(c: Config<T>, events: seq<Event>, states: seq<State<T>>)
    requires ValidConfig(c) && IsRun(c, events, states)
    ensures |events| <= c.subscribers * (2 * |c.messages| + 2) + 1
  {
    RunInvariant(c, events, states, |events|);
    WorkAfter(c, events, states, |events|);
    WorkNonNegative(c, states[|events|], c.subscribers);
    TimesIsProduct(c.subscribers, 2 * |c.messages| + 2);
  }

  lemma {:induction false} GrandTotalOfEqual<T>(subs: seq<Subscriber<T>>, n: nat, s: nat)
    requires n <= |subs| && forall k :: 0 <= k < n ==> subs[k].total == s % WORD
    ensures GrandTotal(subs, n) == Times(n, s) % WORD
  {
    if n > 0 {
      GrandTotalOfEqual(subs, n - 1, s);
      AddWordOfSums(GrandTotal(subs, n - 1), subs[n - 1].total, Times(n - 1, s), s);
    }
  }

  /** A run that can go no further. */
  ghost predicate IsCompleteRun<T>(c: Config<T>, events: seq<Event>, states: seq<State<T>>) {
    IsRun(c, events, states) && forall e :: !Enabled(c, states[|events|], e)
  }

  /** A run that can go no further has delivered every message to every subscriber, in order, and
      its total is that of any other schedule. */
  lemma CompleteRun<T>(c: Config<T>, events: seq<Event>, states: seq<State<T>>)
    requires ValidConfig(c) && IsCompleteRun(c, events, states)
    ensures var last := states[|events|];
            && last.producer == Finished((c.subscribers * Sum(c.messages, c.weight)) % WORD)
            && |last.subs| == c.subscribers
            && forall k :: 0 <= k < c.subscribers ==> last.subs[k].received == c.messages
  {
    var last := states[|events|];
    RunInvariant(c, events, states, |events|);
    if !last.producer.Finished? {
      var e := NoDeadlock(c, last);
    }
    forall k | 0 <= k < c.subscribers
      ensures last.subs[k].received == c.messages && last.subs[k].total == Sum(c.messages, c.weight) % WORD
    {
      assert SubscriberOk(c, last.producer, k, last.subs[k]);
      assert last.subs[k].received == last.subs[k].received + last.subs[k].inbox;
    }
    GrandTotalOfEqual(last.subs, c.subscribers, Sum(c.messages, c.weight));
    TimesIsProduct(c.subscribers, Sum(c.messages, c.weight));
  }
}
