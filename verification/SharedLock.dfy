/** Workers that count words in one map behind one mutex: every interleaving, with drawing, lock,
    read, write and unlock as separate steps. */
module SharedLock {
  import opened Workers
  import opened Options
  import opened Numbers
  import opened Words
  import Lcg

  datatype Config = Config(keys: seq<string>, seeds: seq<nat>, updates: nat)

  /** Where a worker stands in one update; `tmp` is the value it read. */
  datatype Pc = Idle | Drawn | Locked | Loaded(tmp: nat) | Stored

  /** `i` updates are complete; `r` is the generator's state. */
  datatype Worker = Worker(pc: Pc, i: nat, r: nat)

  datatype State = State(holder: Option<nat>, items: map<string, nat>, workers: seq<Worker>)

  predicate ValidConfig(c: Config) {
    c.keys != []
  }

  function Init(c: Config): State {
    State(None, map[], seq(|c.seeds|, w requires 0 <= w < |c.seeds| => Worker(Idle, 0, c.seeds[w])))
  }

  function KeyOf(c: Config, r: nat): string
    requires c.keys != []
  {
    c.keys[r % |c.keys|]
  }

  /** The map's value, zero where there is none. */
  function ItemAt(items: map<string, nat>, key: string): nat {
    if key in items then items[key] else 0
  }

  function ProgressOf(k: Worker): Progress {
    Progress(match k.pc { case Idle => 0 case Drawn => 1 case Locked => 2 case Loaded(_) => 3 case Stored => 4 }, k.i)
  }

  predicate Enabled(c: Config, st: State, w: nat) {
    w < |st.workers| && CanMove(ProgressOf(st.workers[w]), c.updates, st.holder.None?)
  }

  /** The next step of worker `w`. */
  function Step(c: Config, st: State, w: nat): State
    requires c.keys != [] && Enabled(c, st, w)
  {
    var k := st.workers[w];
    match k.pc
    case Idle => st.(workers := st.workers[w := k.(pc := Drawn, r := Lcg.NextWide(k.r))])
    case Drawn => State(Some(w), st.items, st.workers[w := k.(pc := Locked)])
    case Locked => st.(workers := st.workers[w := k.(pc := Loaded(ItemAt(st.items, KeyOf(c, k.r))))])
    case Loaded(tmp) =>
      State(st.holder, st.items[KeyOf(c, k.r) := AddWord(tmp, 1)], st.workers[w := k.(pc := Stored)])
    case Stored => State(None, st.items, st.workers[w := k.(pc := Idle, i := k.i + 1)])
  }

  // ------------------------------------------------------ counting occurrences

  /** How many of the first `n` keys that `seed` draws lie in `keys`. */
  ghost function DrawnIn(c: Config, seed: nat, n: nat, keys: set<string>): nat
    requires c.keys != []
  {
    if n == 0 then 0
    else DrawnIn(c, seed, n - 1, keys)
         + if KeyOf(c, Lcg.Iterate(Lcg.A, Lcg.C, Lcg.M, seed, n)) in keys then 1 else 0
  }

  /** How many updates of the worker have reached the map. */
  function Applied(k: Worker): nat {
    k.i + if k.pc == Stored then 1 else 0
  }

  /** How many updates of the first `n` workers that have reached the map have a key in `keys`. */
  ghost function AppliedIn(c: Config, workers: seq<Worker>, n: nat, keys: set<string>): nat
    requires c.keys != [] && n <= |workers| && n <= |c.seeds|
  {
    if n == 0 then 0
    else AppliedIn(c, workers, n - 1, keys) + DrawnIn(c, c.seeds[n - 1], Applied(workers[n - 1]), keys)
  }

  /** The draws, counted from 1, that name this key. */
  ghost function DrawsOf(c: Config, seed: nat, n: nat, key: string): set<nat>
    requires c.keys != []
  {
    set i: nat | 1 <= i <= n && c.keys[Lcg.Draws(seed, i) % |c.keys|] == key
  }

  lemma DrawsOfNext(c: Config, seed: nat, n: nat, key: string)
    requires c.keys != []
    ensures DrawsOf(c, seed, 0, key) == {}
    ensures DrawsOf(c, seed, n + 1, key)
            == DrawsOf(c, seed, n, key) + if c.keys[Lcg.Draws(seed, n + 1) % |c.keys|] == key then {n + 1} else {}
  {
  }

  lemma {:induction false} DrawnInCounts(c: Config, seed: nat, n: nat, key: string)
    requires c.keys != []
    ensures DrawnIn(c, seed, n, {key}) == |DrawsOf(c, seed, n, key)|
  {
    DrawsOfNext(c, seed, 0, key);
    if n > 0 {
      DrawnInCounts(c, seed, n - 1, key);
      Lcg.DrawsAreTheStream(seed, n);
      DrawsOfNext(c, seed, n - 1, key);
    }
  }

  /** What is counted for a worker and a key: the draws whose remainder by the number of keys is the
      index of that key. */
  lemma {:induction false} DrawnInIsCount(c: Config, seed: nat, n: nat, key: string, i: nat)
    requires c.keys != []
    ensures DrawnIn(c, seed, n, {key}) == |DrawsOf(c, seed, n, key)|
    ensures i in DrawsOf(c, seed, n, key) <==> 1 <= i <= n && c.keys[Lcg.Draws(seed, i) % |c.keys|] == key
  {
    DrawnInCounts(c, seed, n, key);
  }

  lemma {:induction false} DrawnInOneMore(c: Config, seed: nat, n: nat, keys: set<string>, key: string)
    requires c.keys != [] && key !in keys
    ensures DrawnIn(c, seed, n, keys + {key}) == DrawnIn(c, seed, n, keys) + DrawnIn(c, seed, n, {key})
  {
    if n > 0 {
      DrawnInOneMore(c, seed, n - 1, keys, key);
    }
  }

  lemma {:induction false} AppliedInOneMore(c: Config, workers: seq<Worker>, n: nat, keys: set<string>, key: string)
    requires c.keys != [] && n <= |workers| && n <= |c.seeds| && key !in keys
    ensures AppliedIn(c, workers, n, keys + {key}) == AppliedIn(c, workers, n, keys) + AppliedIn(c, workers, n, {key})
  {
    if n > 0 {
      AppliedInOneMore(c, workers, n - 1, keys, key);
      DrawnInOneMore(c, c.seeds[n - 1], Applied(workers[n - 1]), keys, key);
    }
  }

  lemma {:induction false} AppliedInNone(c: Config, workers: seq<Worker>, n: nat, keys: set<string>)
    requires c.keys != [] && n <= |workers| && n <= |c.seeds| && forall w :: 0 <= w < n ==> Applied(workers[w]) == 0
    ensures AppliedIn(c, workers, n, keys) == 0
  {
    if n > 0 {
      AppliedInNone(c, workers, n - 1, keys);
    }
  }

  /** One worker's change shows in the sum as that worker's change. */
  lemma {:induction false} AppliedInUpdate(c: Config, a: seq<Worker>, b: seq<Worker>, n: nat, w: nat, keys: set<string>)
    requires c.keys != [] && n <= |a| == |b| && n <= |c.seeds| && w < |a|
    requires forall v :: 0 <= v < |a| && v != w ==> Applied(a[v]) == Applied(b[v])
    ensures w < n ==>
              AppliedIn(c, b, n, keys) == AppliedIn(c, a, n, keys)
                + DrawnIn(c, c.seeds[w], Applied(b[w]), keys) - DrawnIn(c, c.seeds[w], Applied(a[w]), keys)
    ensures w >= n ==> AppliedIn(c, b, n, keys) == AppliedIn(c, a, n, keys)
  {
    if n > 0 {
      AppliedInUpdate(c, a, b, n - 1, w, keys);
    }
  }

  // ------------------------------------------------------------- the invariant

  /** The key's entry counts exactly the updates that have reached the map. */
  ghost predicate Counted(c: Config, st: State, key: string)
    requires c.keys != [] && |st.workers| == |c.seeds|
  {
    var n := AppliedIn(c, st.workers, |c.seeds|, {key});
    (key in st.items <==> n > 0) && ItemAt(st.items, key) == n % WORD
  }

  ghost predicate WorkerOk(c: Config, st: State, w: nat)
    requires c.keys != [] && w < |st.workers| == |c.seeds|
  {
    var k := st.workers[w];
    && k.i + (if k.pc == Idle then 0 else 1) <= c.updates
    && k.r == Lcg.Iterate(Lcg.A, Lcg.C, Lcg.M, c.seeds[w], k.i + if k.pc == Idle then 0 else 1)
    && (k.pc.Locked? || k.pc.Loaded? || k.pc.Stored? <==> st.holder == Some(w))
    && (k.pc.Loaded? ==> k.pc.tmp == ItemAt(st.items, KeyOf(c, k.r)))
  }

  ghost predicate Invariant(c: Config, st: State) {
    && c.keys != [] && |st.workers| == |c.seeds|
    && (st.holder.Some? ==> st.holder.value < |st.workers|)
    && (forall w :: 0 <= w < |st.workers| ==> WorkerOk(c, st, w))
    && (forall key :: Counted(c, st, key))
  }

  lemma InitInvariant(c: Config)
    requires ValidConfig(c)
    ensures Invariant(c, Init(c))
  {
    forall key ensures Counted(c, Init(c), key) {
      AppliedInNone(c, Init(c).workers, |c.seeds|, {key});
    }
  }

  lemma StepKeepsWorker(c: Config, st: State, w: nat, v: nat)
    requires ValidConfig(c) && Invariant(c, st) && Enabled(c, st, w) && v < |st.workers|
    ensures WorkerOk(c, Step(c, st, w), v)
  {
    assert WorkerOk(c, st, v) && WorkerOk(c, st, w);
    if v == w && st.workers[w].pc == Idle {
      Lcg.StepIsIterate(c.seeds[w], st.workers[w].i);
    }
  }

  lemma StepKeepsCount(c: Config, st: State, w: nat, key: string)
    requires ValidConfig(c) && Invariant(c, st) && Enabled(c, st, w)
    ensures Counted(c, Step(c, st, w), key)
  {
    var st' := Step(c, st, w);
    var k := st.workers[w];
    assert WorkerOk(c, st, w) && Counted(c, st, key);
    AppliedInUpdate(c, st.workers, st'.workers, |c.seeds|, w, {key});
    if k.pc.Loaded? && key == KeyOf(c, k.r) {
      var n := AppliedIn(c, st.workers, |c.seeds|, {key});
      AddWordOfSums(k.pc.tmp, 1, n, 1);
    }
  }

  lemma StepKeepsInvariant(c: Config, st: State, w: nat)
    requires ValidConfig(c) && Invariant(c, st) && Enabled(c, st, w)
    ensures Invariant(c, Step(c, st, w))
  {
    forall v | 0 <= v < |st.workers| ensures WorkerOk(c, Step(c, st, w), v) {
      StepKeepsWorker(c, st, w, v);
    }
    forall key ensures Counted(c, Step(c, st, w), key) {
      StepKeepsCount(c, st, w, key);
    }
  }

  // ---------------------------------------------------------- runs of the system

  /** `schedule` names the worker that moves at each step. */
  ghost predicate IsRun(c: Config, schedule: seq<nat>, states: seq<State>) {
    && c.keys != []
    && |states| == |schedule| + 1
    && states[0] == Init(c)
    && forall i :: 0 <= i < |schedule| ==>
         Enabled(c, states[i], schedule[i]) && states[i + 1] == Step(c, states[i], schedule[i])
  }

  lemma {:induction false} RunInvariant(c: Config, schedule: seq<nat>, states: seq<State>, i: nat)
    requires ValidConfig(c) && IsRun(c, schedule, states) && i < |states|
    ensures Invariant(c, states[i])
  {
    if i == 0 {
      InitInvariant(c);
    } else {
      RunInvariant(c, schedule, states, i - 1);
      assert Enabled(c, states[i - 1], schedule[i - 1]) && states[i - 1 + 1] == Step(c, states[i - 1], schedule[i - 1]);
      StepKeepsInvariant(c, states[i - 1], schedule[i - 1]);
    }
  }

  ghost function AllProgress(st: State): (ps: seq<Progress>)
    ensures |ps| == |st.workers| && forall w :: 0 <= w < |ps| ==> ps[w] == ProgressOf(st.workers[w])
  {
    seq(|st.workers|, w requires 0 <= w < |st.workers| => ProgressOf(st.workers[w]))
  }

  ghost predicate Complete(c: Config, st: State) {
    AllDone(AllProgress(st), c.updates)
  }

  lemma InvariantBoundsProgress(c: Config, st: State)
    requires Invariant(c, st)
    ensures AllWithin(AllProgress(st), c.updates)
    ensures st.holder.Some? ==> ProgressOf(st.workers[st.holder.value]).stage >= 2
  {
    forall w | 0 <= w < |st.workers| ensures Within(ProgressOf(st.workers[w]), c.updates) {
      assert WorkerOk(c, st, w);
    }
    if st.holder.Some? {
      assert WorkerOk(c, st, st.holder.value);
    }
  }

  /** Until every worker has made all its updates, some worker can move. */
  lemma NoDeadlock(c: Config, st: State) returns (w: nat)
    requires Invariant(c, st) && !Complete(c, st)
    ensures Enabled(c, st, w)
  {
    InvariantBoundsProgress(c, st);
    w := SomeCanMove(AllProgress(st), c.updates, st.holder);
  }

  lemma StepAdvances(c: Config, st: State, w: nat)
    requires c.keys != [] && Enabled(c, st, w)
    ensures Moves(AllProgress(st), AllProgress(Step(c, st, w)), w)
  {
  }

  /** Every run terminates, after at most five steps an update. */
  lemma RunsAreBounded(c: Config, schedule: seq<nat>, states: seq<State>)
    requires ValidConfig(c) && IsRun(c, schedule, states)
    ensures |schedule| <= |c.seeds| * (STAGES * c.updates)
  {
    var trace := seq(|states|, i requires 0 <= i < |states| => AllProgress(states[i]));
    forall i | 0 <= i < |schedule| ensures Moves(trace[i], trace[i + 1], schedule[i]) {
      StepAdvances(c, states[i], schedule[i]);
    }
    RunInvariant(c, schedule, states, |schedule|);
    InvariantBoundsProgress(c, states[|schedule|]);
    TracesAreBounded(|c.seeds|, c.updates, schedule, trace);
  }

  /** How often the first `n` workers draw a key of the set, over all their updates. */
  ghost function TotalDrawn(c: Config, n: nat, keys: set<string>): nat
    requires c.keys != [] && n <= |c.seeds|
  {
    if n == 0 then 0 else TotalDrawn(c, n - 1, keys) + DrawnIn(c, c.seeds[n - 1], c.updates, keys)
  }

  lemma {:induction false} AppliedInDone(c: Config, st: State, n: nat, keys: set<string>)
    requires Invariant(c, st) && Complete(c, st) && n <= |c.seeds|
    ensures AppliedIn(c, st.workers, n, keys) == TotalDrawn(c, n, keys)
  {
    if n > 0 {
      AppliedInDone(c, st, n - 1, keys);
    }
  }

  ghost predicate IsCompleteRun(c: Config, schedule: seq<nat>, states: seq<State>) {
    IsRun(c, schedule, states) && forall w :: !Enabled(c, states[|schedule|], w)
  }

  /** A run that can go no further has lost no update: the map holds, for every key, the number of
      times the workers drew it, and nothing else, whatever the schedule. */
  lemma NoLostUpdate(c: Config, schedule: seq<nat>, states: seq<State>, key: string)
    requires ValidConfig(c) && IsCompleteRun(c, schedule, states)
    ensures var items, n := states[|schedule|].items, TotalDrawn(c, |c.seeds|, {key});
            (key in items <==> n > 0) && ItemAt(items, key) == n % WORD
  {
    var last := states[|schedule|];
    RunInvariant(c, schedule, states, |schedule|);
    if !Complete(c, last) {
      var w := NoDeadlock(c, last);
    }
    AppliedInDone(c, last, |c.seeds|, {key});
    assert Counted(c, last, key);
  }

  // ------------------------------------------------------------- the report

  /** `order` lists every key of the map once: the order in which a loop happens to visit it. */
  ghost predicate Enumerates(order: seq<string>, items: map<string, nat>) {
    && (forall i, j :: 0 <= i < j < |order| ==> order[i] != order[j])
    && (forall key :: key in order <==> key in items)
  }

  /** The wrapped sum of the first `n` visited values. */
  function WrappedSum(items: map<string, nat>, order: seq<string>, n: nat): nat
    requires n <= |order| && forall key :: key in order ==> key in items
  {
    if n == 0 then 0 else AddWord(WrappedSum(items, order, n - 1), items[order[n - 1]])
  }

  /** The loop that adds up the counts and keeps the largest. */
  method Report(items: map<string, nat>) returns (total: nat, most: nat, ghost order: seq<string>)
    ensures Enumerates(order, items) && total == WrappedSum(items, order, |order|)
    ensures forall key :: key in items ==> items[key] <= most
    ensures if items == map[] then most == 0 else exists key :: key in items && items[key] == most
  {
    total, most, order := 0, 0, [];
    var rest := items.Keys;
    while rest != {}
      invariant rest <= items.Keys
      invariant forall i, j :: 0 <= i < j < |order| ==> order[i] != order[j]
      invariant forall key :: key in order <==> key in items && key !in rest
      invariant total == WrappedSum(items, order, |order|)
      invariant forall key :: key in order ==> items[key] <= most
      invariant if order == [] then most == 0 else exists key :: key in order && items[key] == most
      decreases rest
    {
      var key :| key in rest;
      WrappedSumLocal(items, order, key, |order|);
      total := AddWord(total, items[key]);
      if items[key] > most {
        most := items[key];
      }
      ghost var before := order;
      order := order + [key];
      assert order[|before|] == key && forall k :: k in before ==> k in order;
      rest := rest - {key};
    }
    assert order == [] ==> items == map[];
  }

  lemma {:induction false} WrappedSumLocal(items: map<string, nat>, order: seq<string>, key: string, n: nat)
    requires n <= |order| && key in items && forall k :: k in order ==> k in items
    ensures WrappedSum(items, order + [key], n) == WrappedSum(items, order, n)
  {
    if n > 0 {
      WrappedSumLocal(items, order, key, n - 1);
    }
  }

  lemma {:induction false} TotalDrawnOneMore(c: Config, n: nat, keys: set<string>, key: string)
    requires c.keys != [] && n <= |c.seeds| && key !in keys
    ensures TotalDrawn(c, n, keys + {key}) == TotalDrawn(c, n, keys) + TotalDrawn(c, n, {key})
  {
    if n > 0 {
      TotalDrawnOneMore(c, n - 1, keys, key);
      DrawnInOneMore(c, c.seeds[n - 1], c.updates, keys, key);
    }
  }

  lemma {:induction false} TotalDrawnNone(c: Config, n: nat)
    requires c.keys != [] && n <= |c.seeds|
    ensures TotalDrawn(c, n, {}) == 0
  {
    if n > 0 {
      TotalDrawnNone(c, n - 1);
      DrawnInNone(c, c.seeds[n - 1], c.updates);
    }
  }

  lemma {:induction false} DrawnInNone(c: Config, seed: nat, n: nat)
    requires c.keys != []
    ensures DrawnIn(c, seed, n, {}) == 0
  {
    if n > 0 {
      DrawnInNone(c, seed, n - 1);
    }
  }

  /** The first `n` visited keys. */
  ghost function Visited(order: seq<string>, n: nat): (s: set<string>)
    requires n <= |order|
    ensures forall key :: key in s <==> exists i :: 0 <= i < n && order[i] == key
  {
    if n == 0 then {} else Visited(order, n - 1) + {order[n - 1]}
  }

  /** What the first `n` visited counts add up to is how often those keys were drawn. */
  lemma {:induction false} SumOfCounts(c: Config, items: map<string, nat>, order: seq<string>, n: nat)
    requires c.keys != [] && n <= |order| && Enumerates(order, items)
    requires forall key :: key in items ==> items[key] == TotalDrawn(c, |c.seeds|, {key}) % WORD
    ensures WrappedSum(items, order, n) == TotalDrawn(c, |c.seeds|, Visited(order, n)) % WORD
  {
    if n == 0 {
      TotalDrawnNone(c, |c.seeds|);
    } else {
      SumOfCounts(c, items, order, n - 1);
      var before, key := Visited(order, n - 1), order[n - 1];
      TotalDrawnOneMore(c, |c.seeds|, before, key);
      AddWordOfSums(WrappedSum(items, order, n - 1), items[key],
                    TotalDrawn(c, |c.seeds|, before), TotalDrawn(c, |c.seeds|, {key}));
    }
  }

  lemma {:induction false} DrawnKeyCounts(c: Config, seed: nat, n: nat, j: nat)
    requires c.keys != [] && 1 <= j <= n
    ensures DrawnIn(c, seed, n, {KeyOf(c, Lcg.Iterate(Lcg.A, Lcg.C, Lcg.M, seed, j))}) > 0
  {
    if j < n {
      DrawnKeyCounts(c, seed, n - 1, j);
    }
  }

  lemma {:induction false} TotalDrawnAtLeast(c: Config, n: nat, w: nat, keys: set<string>)
    requires c.keys != [] && w < n <= |c.seeds|
    ensures TotalDrawn(c, n, keys) >= DrawnIn(c, c.seeds[w], c.updates, keys)
  {
    if w < n - 1 {
      TotalDrawnAtLeast(c, n - 1, w, keys);
    }
  }

  lemma {:induction false} DrawnInAll(c: Config, w: nat, n: nat, keys: set<string>)
    requires c.keys != [] && w < |c.seeds| && n <= c.updates
    requires forall key :: TotalDrawn(c, |c.seeds|, {key}) > 0 ==> key in keys
    ensures DrawnIn(c, c.seeds[w], n, keys) == n
  {
    if n > 0 {
      DrawnInAll(c, w, n - 1, keys);
      var key := KeyOf(c, Lcg.Iterate(Lcg.A, Lcg.C, Lcg.M, c.seeds[w], n));
      DrawnKeyCounts(c, c.seeds[w], c.updates, n);
      TotalDrawnAtLeast(c, |c.seeds|, w, {key});
    }
  }

  lemma {:induction false} TotalDrawnAll(c: Config, n: nat, keys: set<string>)
    requires c.keys != [] && n <= |c.seeds|
    requires forall key :: TotalDrawn(c, |c.seeds|, {key}) > 0 ==> key in keys
    ensures TotalDrawn(c, n, keys) == Times(n, c.updates)
  {
    if n > 0 {
      TotalDrawnAll(c, n - 1, keys);
      DrawnInAll(c, n - 1, c.updates, keys);
    }
  }

  /** The reported total is the number of all updates, for every schedule and every visiting order. */
  lemma ReportedTotal(c: Config, schedule: seq<nat>, states: seq<State>, order: seq<string>)
    requires ValidConfig(c) && IsCompleteRun(c, schedule, states)
    requires Enumerates(order, states[|schedule|].items)
    ensures WrappedSum(states[|schedule|].items, order, |order|) == (|c.seeds| * c.updates) % WORD
  {
    var items := states[|schedule|].items;
    forall key ensures key in items <==> TotalDrawn(c, |c.seeds|, {key}) > 0 {
      NoLostUpdate(c, schedule, states, key);
    }
    forall key | key in items ensures items[key] == TotalDrawn(c, |c.seeds|, {key}) % WORD {
      NoLostUpdate(c, schedule, states, key);
    }
    var keys := Visited(order, |order|);
    forall key | TotalDrawn(c, |c.seeds|, {key}) > 0 ensures key in keys {
      assert key in order;
    }
    SumOfCounts(c, items, order, |order|);
    TotalDrawnAll(c, |c.seeds|, keys);
    TimesIsProduct(|c.seeds|, c.updates);
  }
}
