/** What the workers behind one mutex have in common: five steps a round, of which only the first
    two can be held up. */
module Workers {
  import opened Numbers
  import opened Options

  const STAGES: nat := 5

  /** The step a worker is at, 0 between rounds, and the rounds it has completed. */
  datatype Progress = Progress(stage: nat, rounds: nat)

  /** Between rounds a worker moves while rounds are left, at step 1 it waits for the mutex. */
  predicate CanMove(p: Progress, limit: nat, free: bool) {
    if p.stage == 0 then p.rounds < limit else p.stage == 1 ==> free
  }

  function Advance(p: Progress): Progress {
    if p.stage + 1 < STAGES then Progress(p.stage + 1, p.rounds) else Progress(0, p.rounds + 1)
  }

  predicate Within(p: Progress, limit: nat) {
    p.stage < STAGES && p.rounds + (if p.stage == 0 then 0 else 1) <= limit
  }

  ghost predicate AllWithin(ps: seq<Progress>, limit: nat) {
    forall w :: 0 <= w < |ps| ==> Within(ps[w], limit)
  }

  ghost predicate AllDone(ps: seq<Progress>, limit: nat) {
    forall w :: 0 <= w < |ps| ==> ps[w] == Progress(0, limit)
  }

  /** Until every worker has made all its rounds, some worker can move: one that waits for the mutex
      waits for its holder, and the holder can move. */
  lemma SomeCanMove(ps: seq<Progress>, limit: nat, holder: Option<nat>) returns (w: nat)
    requires AllWithin(ps, limit) && !AllDone(ps, limit)
    requires holder.Some? ==> holder.value < |ps| && ps[holder.value].stage >= 2
    ensures w < |ps| && CanMove(ps[w], limit, holder.None?)
  {
    var v :| 0 <= v < |ps| && ps[v] != Progress(0, limit);
    w := if ps[v].stage == 1 && holder.Some? then holder.value else v;
  }

  ghost function WorkLeft(p: Progress, limit: nat): int {
    STAGES * (limit - p.rounds) - p.stage
  }

  ghost function TotalWork(ps: seq<Progress>, limit: nat, n: nat): int
    requires n <= |ps|
  {
    if n == 0 then 0 else TotalWork(ps, limit, n - 1) + WorkLeft(ps[n - 1], limit)
  }

  lemma {:induction false} StepDoesOneUnit(ps: seq<Progress>, limit: nat, w: nat, n: nat)
    requires n <= |ps| && w < |ps| && ps[w].stage < STAGES
    ensures TotalWork(ps[w := Advance(ps[w])], limit, n) == TotalWork(ps, limit, n) - if w < n then 1 else 0
  {
    if n > 0 {
      StepDoesOneUnit(ps, limit, w, n - 1);
    }
  }

  lemma {:induction false} WorkNonNegative(ps: seq<Progress>, limit: nat, n: nat)
    requires n <= |ps| && AllWithin(ps, limit)
    ensures TotalWork(ps, limit, n) >= 0
  {
    if n > 0 {
      WorkNonNegative(ps, limit, n - 1);
    }
  }

  lemma {:induction false} InitialWork(ps: seq<Progress>, limit: nat, n: nat)
    requires n <= |ps| && forall w :: 0 <= w < |ps| ==> ps[w] == Progress(0, 0)
    ensures TotalWork(ps, limit, n) == Times(n, STAGES * limit)
  {
    if n > 0 {
      InitialWork(ps, limit, n - 1);
    }
  }

  /** `schedule` names the worker that moves at each step. */
  ghost predicate Moves(a: seq<Progress>, b: seq<Progress>, w: nat) {
    w < |a| && a[w].stage < STAGES && b == a[w := Advance(a[w])]
  }

  ghost predicate IsTrace(workers: nat, schedule: seq<nat>, trace: seq<seq<Progress>>) {
    && |trace| == |schedule| + 1
    && |trace[0]| == workers && (forall w :: 0 <= w < workers ==> trace[0][w] == Progress(0, 0))
    && forall i :: 0 <= i < |schedule| ==> Moves(trace[i], trace[i + 1], schedule[i])
  }

  lemma {:induction false} WorkAfter(workers: nat, limit: nat, schedule: seq<nat>, trace: seq<seq<Progress>>, i: nat)
    requires IsTrace(workers, schedule, trace) && i < |trace|
    ensures |trace[i]| == workers
    ensures TotalWork(trace[i], limit, workers) == Times(workers, STAGES * limit) - i
  {
    if i == 0 {
      InitialWork(trace[0], limit, workers);
    } else {
      WorkAfter(workers, limit, schedule, trace, i - 1);
      assert Moves(trace[i - 1], trace[i - 1 + 1], schedule[i - 1]);
      StepDoesOneUnit(trace[i - 1], limit, schedule[i - 1], workers);
    }
  }

  /** Every run is over after at most five steps a round. */
  lemma TracesAreBounded(workers: nat, limit: nat, schedule: seq<nat>, trace: seq<seq<Progress>>)
    requires IsTrace(workers, schedule, trace) && AllWithin(trace[|schedule|], limit)
    ensures |schedule| <= workers * (STAGES * limit)
  {
    WorkAfter(workers, limit, schedule, trace, |schedule|);
    WorkNonNegative(trace[|schedule|], limit, workers);
    TimesIsProduct(workers, STAGES * limit);
  }
}
