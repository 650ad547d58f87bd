/** Workers that read and replace entries of one locked cache, and use an entry after unlocking:
    every interleaving. */
module SharedCache {
  import opened Workers
  import opened Options
  import opened Numbers
  import opened Words
  import opened Decimal
  import Lcg

  datatype Entry = Entry(key: nat, name: seq<nat>, data: seq<nat>)

  const NAME: seq<nat> := [101, 110, 116, 114, 121]  // "entry"

  /** The one entry ever built for a key. */
  function EntryOf(key: nat): Entry {
    Entry(key, NAME + FormatUint(key), seq(16, i requires 0 <= i => (key * 31 + i) % WORD))
  }

  /** "entry" and the key in decimal; data word i is 31 times the key and i more, wrapped. */
  lemma EntryFields(key: nat, i: nat)
    requires i < 16
    ensures var e := EntryOf(key);
            && e.key == key && e.name == [101, 110, 116, 114, 121] + FormatUint(key)
            && |e.data| == 16 && e.data[i] == (31 * key + i) % 0x1_0000_0000_0000_0000
  {
  }

  /** Adding an entry to a reader's total. */
  function Use(total: nat, e: Entry, n: nat): nat
    requires n <= |e.data|
  {
    if n == 0 then AddWord(total, AddWord(e.key, |e.name|)) else AddWord(Use(total, e, n - 1), e.data[n - 1])
  }

  /** The sum of the first `n` data words. */
  lemma {:induction false} UseOfData(total: nat, key: nat, n: nat)
    requires n <= 16
    ensures Use(total, EntryOf(key), n)
            == (total + key + 5 + |FormatUint(key)| + Times(n, key * 31) + Triangle(n)) % WORD
  {
    var e, base := EntryOf(key), key + 5 + |FormatUint(key)|;
    if n == 0 {
      ModAdd(base, total, WORD);
    } else {
      UseOfData(total, key, n - 1);
      AddWordOfSums(Use(total, e, n - 1), e.data[n - 1],
                    total + base + Times(n - 1, key * 31) + Triangle(n - 1), key * 31 + (n - 1));
    }
  }

  /** What a reader adds for a key: the key, the length of its name and its sixteen data words. */
  lemma UseOfEntry(total: nat, key: nat)
    ensures Use(total, EntryOf(key), 16) == (total + 497 * key + 125 + |FormatUint(key)|) % WORD
  {
    UseOfData(total, key, 16);
    Triangles();
    TimesIsProduct(16, key * 31);
  }

  datatype Config = Config(slots: nat, seeds: seq<nat>, operations: nat)

  /** Where a worker stands in one operation; `r` is already drawn from `Drawn` on. */
  datatype Pc = Idle | Drawn | Locked | Accessed(found: Option<Entry>) | Unlocked(found: Option<Entry>)

  datatype Worker = Worker(pc: Pc, i: nat, r: nat, total: nat)

  datatype State = State(holder: Option<nat>, items: map<nat, Entry>, workers: seq<Worker>)

  predicate ValidConfig(c: Config) {
    c.slots > 0
  }

  /** All slots are filled before the workers start. */
  function Init(c: Config): State {
    State(None, map key | 0 <= key < c.slots :: key := EntryOf(key),
          seq(|c.seeds|, w requires 0 <= w < |c.seeds| => Worker(Idle, 0, c.seeds[w], 0)))
  }

  predicate Replaces(r: nat) {
    r % 10 == 0
  }

  function ProgressOf(k: Worker): Progress {
    Progress(match k.pc { case Idle => 0 case Drawn => 1 case Locked => 2 case Accessed(_) => 3 case Unlocked(_) => 4 }, k.i)
  }

  predicate Enabled(c: Config, st: State, w: nat) {
    w < |st.workers| && CanMove(ProgressOf(st.workers[w]), c.operations, st.holder.None?)
  }

  /** The next step of worker `w`. A reader that found nothing would skip the use. */
  function Step(c: Config, st: State, w: nat): State
    requires c.slots > 0 && Enabled(c, st, w)
  {
    var k := st.workers[w];
    var key := k.r % c.slots;
    match k.pc
    case Idle => st.(workers := st.workers[w := k.(pc := Drawn, r := Lcg.NextWide(k.r))])
    case Drawn => State(Some(w), st.items, st.workers[w := k.(pc := Locked)])
    case Locked =>
      if Replaces(k.r) then
        State(st.holder, st.items[key := EntryOf(key)], st.workers[w := k.(pc := Accessed(None))])
      else
        st.(workers := st.workers[w := k.(pc := Accessed(if key in st.items then Some(st.items[key]) else None))])
    case Accessed(found) => State(None, st.items, st.workers[w := k.(pc := Unlocked(found))])
    case Unlocked(found) =>
      var total := if found.Some? then Use(k.total, found.value, |found.value.data|) else k.total;
      st.(workers := st.workers[w := k.(pc := Idle, i := k.i + 1, total := total)])
  }

  /** What a worker alone computes in its first `n` operations. */
  function Alone(c: Config, seed: nat, n: nat): nat
    requires c.slots > 0
  {
    if n == 0 then 0
    else
      var r := Lcg.Iterate(Lcg.A, Lcg.C, Lcg.M, seed, n);
      var before := Alone(c, seed, n - 1);
      if Replaces(r) then before else Use(before, EntryOf(r % c.slots), 16)
  }

  /** One operation more: a draw that is a multiple of ten adds nothing, any other adds what its key's
      entry holds. */
  lemma AloneNext(c: Config, seed: nat, n: nat)
    requires c.slots > 0
    ensures Alone(c, seed, 0) == 0
    ensures var r := Lcg.Draws(seed, n + 1);
            Alone(c, seed, n + 1)
            == if r % 10 == 0 then Alone(c, seed, n)
               else (Alone(c, seed, n) + 497 * (r % c.slots) + 125 + |FormatUint(r % c.slots)|) % WORD
  {
    Lcg.DrawsAreTheStream(seed, n + 1);
    UseOfEntry(Alone(c, seed, n), Lcg.Draws(seed, n + 1) % c.slots);
  }

  /** The program's worker, run by itself on a filled cache: it computes `Alone` and leaves every
      slot as it was. */
  method Work(c: Config, seed: nat, items0: map<nat, Entry>) returns (total: nat, items: map<nat, Entry>)
    requires c.slots > 0 && CacheOk(c, items0)
    ensures total == Alone(c, seed, c.operations) && items == items0
  {
    total, items := 0, items0;
    var r := seed;
    for i := 0 to c.operations
      invariant r == Lcg.Iterate(Lcg.A, Lcg.C, Lcg.M, seed, i)
      invariant total == Alone(c, seed, i) && items == items0
    {
      Lcg.StepIsIterate(seed, i);
      r := Lcg.NextWide(r);
      var key := r % c.slots;
      assert 0 <= key < c.slots && key in items;
      if Replaces(r) {
        items := items[key := EntryOf(key)];
      } else if key in items {
        var found := items[key];
        var sum := AddWord(total, AddWord(found.key, |found.name|));
        for n := 0 to |found.data|
          invariant sum == Use(total, found, n)
        {
          sum := AddWord(sum, found.data[n]);
        }
        total := sum;
      }
    }
  }

  // ------------------------------------------------------------- the invariant

  /** Every slot is bound, at all times, to what `EntryOf` builds for it. */
  ghost predicate CacheOk(c: Config, items: map<nat, Entry>) {
    && (forall key :: 0 <= key < c.slots <==> key in items)
    && (forall key :: key in items ==> items[key] == EntryOf(key))
  }

  ghost predicate WorkerOk(c: Config, st: State, w: nat)
    requires c.slots > 0 && w < |st.workers| == |c.seeds|
  {
    var k := st.workers[w];
    var expected := if Replaces(k.r) then None else Some(EntryOf(k.r % c.slots));
    && k.i + (if k.pc == Idle then 0 else 1) <= c.operations
    && k.r == Lcg.Iterate(Lcg.A, Lcg.C, Lcg.M, c.seeds[w], k.i + if k.pc == Idle then 0 else 1)
    && k.total == Alone(c, c.seeds[w], k.i)
    && (k.pc.Locked? || k.pc.Accessed? <==> st.holder == Some(w))
    && (k.pc.Accessed? || k.pc.Unlocked? ==> k.pc.found == expected)
  }

  ghost predicate Invariant(c: Config, st: State) {
    && c.slots > 0 && |st.workers| == |c.seeds|
    && (st.holder.Some? ==> st.holder.value < |st.workers|)
    && CacheOk(c, st.items)
    && (forall w :: 0 <= w < |st.workers| ==> WorkerOk(c, st, w))
  }

  lemma StepKeepsWorker(c: Config, st: State, w: nat, v: nat)
    requires ValidConfig(c) && Invariant(c, st) && Enabled(c, st, w) && v < |st.workers|
    ensures WorkerOk(c, Step(c, st, w), v)
  {
    assert WorkerOk(c, st, v) && WorkerOk(c, st, w);
    if v == w {
      StepKeepsMover(c, st, w);
    }
  }

  ghost predicate MoverReady(c: Config, st: State, w: nat) {
    && ValidConfig(c) && Enabled(c, st, w) && |st.workers| == |c.seeds| && WorkerOk(c, st, w) && CacheOk(c, st.items)
  }

  lemma StepKeepsMover(c: Config, st: State, w: nat)
    requires MoverReady(c, st, w)
    ensures WorkerOk(c, Step(c, st, w), w)
  {
    match st.workers[w].pc
    case Idle =>
      Lcg.StepIsIterate(c.seeds[w], st.workers[w].i);
    case Drawn =>
    case Locked =>
      AccessKeepsMover(c, st, w);
    case Accessed(found) =>
    case Unlocked(found) =>
      UseKeepsMover(c, st, w);
  }

  lemma {:induction false} AccessKeepsMover(c: Config, st: State, w: nat)
    requires MoverReady(c, st, w) && st.workers[w].pc == Locked
    ensures WorkerOk(c, Step(c, st, w), w)
  {
    assert 0 <= st.workers[w].r % c.slots < c.slots;
  }

  lemma {:induction false} UseKeepsMover(c: Config, st: State, w: nat)
    requires MoverReady(c, st, w) && st.workers[w].pc.Unlocked?
    ensures WorkerOk(c, Step(c, st, w), w)
  {
  }

  lemma StepKeepsInvariant(c: Config, st: State, w: nat)
    requires ValidConfig(c) && Invariant(c, st) && Enabled(c, st, w)
    ensures Invariant(c, Step(c, st, w))
  {
    forall v | 0 <= v < |st.workers| ensures WorkerOk(c, Step(c, st, w), v) {
      StepKeepsWorker(c, st, w, v);
    }
    assert 0 <= st.workers[w].r % c.slots < c.slots;
  }

  // ---------------------------------------------------------- runs of the system

  ghost predicate IsRun(c: Config, schedule: seq<nat>, states: seq<State>) {
    && c.slots > 0
    && |states| == |schedule| + 1
    && states[0] == Init(c)
    && forall i :: 0 <= i < |schedule| ==>
         Enabled(c, states[i], schedule[i]) && states[i + 1] == Step(c, states[i], schedule[i])
  }

  lemma {:induction false} RunInvariant(c: Config, schedule: seq<nat>, states: seq<State>, i: nat)
    requires ValidConfig(c) && IsRun(c, schedule, states) && i < |states|
    ensures Invariant(c, states[i])
  {
    if i > 0 {
      RunInvariant(c, schedule, states, i - 1);
      assert Enabled(c, states[i - 1], schedule[i - 1]) && states[i - 1 + 1] == Step(c, states[i - 1], schedule[i - 1]);
      StepKeepsInvariant(c, states[i - 1], schedule[i - 1]);
    }
  }

  /** A reader never finds an empty slot, and what it found is still the key's entry after unlocking. */
  lemma ReadersFindTheirEntry(c: Config, schedule: seq<nat>, states: seq<State>, i: nat, w: nat)
    requires ValidConfig(c) && IsRun(c, schedule, states) && i < |states| && w < |c.seeds|
    ensures |states[i].workers| == |c.seeds|
    ensures var k := states[i].workers[w];
            (k.pc.Accessed? || k.pc.Unlocked?) && !Replaces(k.r) ==> k.pc.found == Some(EntryOf(k.r % c.slots))
  {
    RunInvariant(c, schedule, states, i);
    assert WorkerOk(c, states[i], w);
  }

  ghost function AllProgress(st: State): (ps: seq<Progress>)
    ensures |ps| == |st.workers| && forall w :: 0 <= w < |ps| ==> ps[w] == ProgressOf(st.workers[w])
  {
    seq(|st.workers|, w requires 0 <= w < |st.workers| => ProgressOf(st.workers[w]))
  }

  ghost predicate Complete(c: Config, st: State) {
    AllDone(AllProgress(st), c.operations)
  }

  lemma InvariantBoundsProgress(c: Config, st: State)
    requires Invariant(c, st)
    ensures AllWithin(AllProgress(st), c.operations)
    ensures st.holder.Some? ==> ProgressOf(st.workers[st.holder.value]).stage >= 2
  {
    forall w | 0 <= w < |st.workers| ensures Within(ProgressOf(st.workers[w]), c.operations) {
      assert WorkerOk(c, st, w);
    }
    if st.holder.Some? {
      assert WorkerOk(c, st, st.holder.value);
    }
  }

  /** Until every worker has made all its operations, some worker can move. */
  lemma NoDeadlock(c: Config, st: State) returns (w: nat)
    requires Invariant(c, st) && !Complete(c, st)
    ensures Enabled(c, st, w)
  {
    InvariantBoundsProgress(c, st);
    w := SomeCanMove(AllProgress(st), c.operations, st.holder);
  }

  /** A run that can go no further gives every worker the result it would have had alone, whatever
      the schedule. */
  lemma ScheduleIndependent(c: Config, schedule: seq<nat>, states: seq<State>, w: nat)
    requires ValidConfig(c) && IsRun(c, schedule, states) && w < |c.seeds|
    requires forall v :: !Enabled(c, states[|schedule|], v)
    ensures |states[|schedule|].workers| == |c.seeds|
    ensures states[|schedule|].workers[w].total == Alone(c, c.seeds[w], c.operations)
  {
    var last := states[|schedule|];
    RunInvariant(c, schedule, states, |schedule|);
    if !Complete(c, last) {
      var v := NoDeadlock(c, last);
    }
    assert WorkerOk(c, last, w);
  }

  lemma StepAdvances(c: Config, st: State, w: nat)
    requires c.slots > 0 && Enabled(c, st, w)
    ensures Moves(AllProgress(st), AllProgress(Step(c, st, w)), w)
  {
  }

  /** Every run terminates, after at most five steps an operation. */
  lemma RunsAreBounded(c: Config, schedule: seq<nat>, states: seq<State>)
    requires ValidConfig(c) && IsRun(c, schedule, states)
    ensures |schedule| <= |c.seeds| * (STAGES * c.operations)
  {
    var trace := seq(|states|, i requires 0 <= i < |states| => AllProgress(states[i]));
    forall i | 0 <= i < |schedule| ensures Moves(trace[i], trace[i + 1], schedule[i]) {
      StepAdvances(c, states[i], schedule[i]);
    }
    RunInvariant(c, schedule, states, |schedule|);
    InvariantBoundsProgress(c, states[|schedule|]);
    TracesAreBounded(|c.seeds|, c.operations, schedule, trace);
  }

  // ------------------------------------------------------------- the checksum

  /** The results of the first `n` workers, added up. */
  function Checksum(workers: seq<Worker>, n: nat): nat
    requires n <= |workers|
  {
    if n == 0 then 0 else AddWord(Checksum(workers, n - 1), workers[n - 1].total)
  }

  /** What the first `n` workers compute when each runs by itself, added up. */
  function AloneTotal(c: Config, n: nat): nat
    requires c.slots > 0 && n <= |c.seeds|
  {
    if n == 0 then 0 else AddWord(AloneTotal(c, n - 1), Alone(c, c.seeds[n - 1], c.operations))
  }

  /** The loop that fills all slots. */
  method Fill(c: Config) returns (items: map<nat, Entry>)
    ensures CacheOk(c, items)
  {
    items := map[];
    for i := 0 to c.slots
      invariant forall key :: 0 <= key < i <==> key in items
      invariant forall key :: key in items ==> items[key] == EntryOf(key)
    {
      items := items[i := EntryOf(i)];
    }
  }

  /** The benchmark with its workers run one after another on one cache. */
  method WorkersInTurn(c: Config) returns (total: nat)
    requires ValidConfig(c)
    ensures total == AloneTotal(c, |c.seeds|)
  {
    var items := Fill(c);
    total := 0;
    for w := 0 to |c.seeds|
      invariant total == AloneTotal(c, w) && CacheOk(c, items)
    {
      var result: nat;
      result, items := Work(c, c.seeds[w], items);
      total := AddWord(total, result);
    }
  }

  /** Every schedule ends with the checksum of the workers run one after another. */
  lemma ChecksumOfAnySchedule(c: Config, schedule: seq<nat>, states: seq<State>)
    requires ValidConfig(c) && IsRun(c, schedule, states)
    requires forall v :: !Enabled(c, states[|schedule|], v)
    ensures |states[|schedule|].workers| == |c.seeds|
    ensures Checksum(states[|schedule|].workers, |c.seeds|) == AloneTotal(c, |c.seeds|)
  {
    RunInvariant(c, schedule, states, |schedule|);
    forall w | 0 <= w < |c.seeds|
      ensures states[|schedule|].workers[w].total == Alone(c, c.seeds[w], c.operations)
    {
      ScheduleIndependent(c, schedule, states, w);
    }
    ChecksumOfEqual(c, states[|schedule|].workers, |c.seeds|);
  }

  lemma {:induction false} ChecksumOfEqual(c: Config, workers: seq<Worker>, n: nat)
    requires c.slots > 0 && n <= |c.seeds| && n <= |workers|
    requires forall w :: 0 <= w < n ==> workers[w].total == Alone(c, c.seeds[w], c.operations)
    ensures Checksum(workers, n) == AloneTotal(c, n)
  {
    if n > 0 {
      ChecksumOfEqual(c, workers, n - 1);
    }
  }
}
