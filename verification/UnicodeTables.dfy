/** The case-mapping compressor: a mapping becomes runs, single entries and expansions.

    A mapping gives, for every code, the sequence of codes it maps to; a code that maps to itself
    needs no record. */
module UnicodeTables {

  type Mapping = seq<seq<nat>>

  datatype Run = Run(first: nat, last: nat, step: nat, target: nat)
  datatype Single = Single(code: nat, target: nat)
  datatype Expansion = Expansion(code: nat, points: seq<nat>)
  datatype Compressed = Compressed(runs: seq<Run>, singles: seq<Single>, expansions: seq<Expansion>)

  // ------------------------------------------------------------ classification

  predicate IsSingle(m: Mapping, code: int) {
    0 <= code < |m| && m[code] != [code] && |m[code]| == 1
  }

  predicate IsExpansion(m: Mapping, code: int) {
    0 <= code < |m| && m[code] != [code] && |m[code]| != 1
  }

  ghost predicate AscendingCodes(singles: seq<Single>) {
    forall i, j :: 0 <= i < j < |singles| ==> singles[i].code < singles[j].code
  }

  /** The single entries below `n`, in ascending order, and nothing else. */
  ghost predicate SinglesBelow(m: Mapping, n: nat, singles: seq<Single>) {
    && AscendingCodes(singles)
    && (forall s :: s in singles ==> s.code < n && IsSingle(m, s.code) && m[s.code] == [s.target])
    && (forall c :: 0 <= c < n && IsSingle(m, c) ==> Single(c, m[c][0]) in singles)
  }

  ghost predicate ExpansionsBelow(m: Mapping, n: nat, expansions: seq<Expansion>) {
    && (forall i, j :: 0 <= i < j < |expansions| ==> expansions[i].code < expansions[j].code)
    && (forall e :: e in expansions ==> e.code < n && IsExpansion(m, e.code) && m[e.code] == e.points)
    && (forall c :: 0 <= c < n && IsExpansion(m, c) ==> Expansion(c, m[c]) in expansions)
  }

  lemma InExtended<T>(s: seq<T>, e: T)
    ensures forall x :: x in s + [e] <==> x in s || x == e
  {
  }

  lemma SinglesExtend(m: Mapping, n: nat, singles: seq<Single>, next: seq<Single>)
    requires n < |m| && SinglesBelow(m, n, singles)
    requires next == if IsSingle(m, n) then singles + [Single(n, m[n][0])] else singles
    ensures SinglesBelow(m, n + 1, next)
  {
    if IsSingle(m, n) {
      assert m[n] == [m[n][0]];
      InExtended(singles, Single(n, m[n][0]));
      AppendAscending(singles, Single(n, m[n][0]));
    }
  }

  lemma AppendAscending(singles: seq<Single>, last: Single)
    requires AscendingCodes(singles) && forall s :: s in singles ==> s.code < last.code
    ensures AscendingCodes(singles + [last])
  {
    var all := singles + [last];
    forall i, j | 0 <= i < j < |all| ensures all[i].code < all[j].code {
      assert singles[i] in singles;
    }
  }

  lemma ExpansionsExtend(m: Mapping, n: nat, expansions: seq<Expansion>, next: seq<Expansion>)
    requires n < |m| && ExpansionsBelow(m, n, expansions)
    requires next == if IsExpansion(m, n) then expansions + [Expansion(n, m[n])] else expansions
    ensures ExpansionsBelow(m, n + 1, next)
  {
    if IsExpansion(m, n) {
      InExtended(expansions, Expansion(n, m[n]));
      forall i, j | 0 <= i < j < |next| ensures next[i].code < next[j].code {
        assert expansions[i] in expansions;
      }
    }
  }

  /** The expansions of the codes below `n`, in order. */
  ghost function ExpansionsOf(m: Mapping, n: nat): seq<Expansion>
    requires n <= |m|
  {
    if n == 0 then []
    else if IsExpansion(m, n - 1) then ExpansionsOf(m, n - 1) + [Expansion(n - 1, m[n - 1])]
    else ExpansionsOf(m, n - 1)
  }

  /** They are exactly the codes below `n` that map to no code or to several, ascending. */
  lemma {:induction false} ExpansionsOfBelow(m: Mapping, n: nat)
    requires n <= |m|
    ensures ExpansionsBelow(m, n, ExpansionsOf(m, n))
  {
    if n > 0 {
      ExpansionsOfBelow(m, n - 1);
      ExpansionsExtend(m, n - 1, ExpansionsOf(m, n - 1), ExpansionsOf(m, n));
    }
  }

  method Classify(m: Mapping) returns (singles: seq<Single>, expansions: seq<Expansion>)
    ensures SinglesBelow(m, |m|, singles)
    ensures expansions == ExpansionsOf(m, |m|) && ExpansionsBelow(m, |m|, expansions)
  {
    singles, expansions := [], [];
    for code := 0 to |m|
      invariant SinglesBelow(m, code, singles) && expansions == ExpansionsOf(m, code)
    {
      ghost var before := singles;
      if m[code] != [code] {
        if |m[code]| == 1 {
          singles := singles + [Single(code, m[code][0])];
        } else {
          expansions := expansions + [Expansion(code, m[code])];
        }
      }
      SinglesExtend(m, code, before, singles);
    }
    ExpansionsOfBelow(m, |m|);
  }

  // -------------------------------------------------------- the greedy run search

  type Lookup = map<nat, nat>

  /** The dictionary of the single entries. */
  ghost predicate IsLookup(lookup: Lookup, singles: seq<Single>) {
    && (forall s :: s in singles ==> s.code in lookup && lookup[s.code] == s.target)
    && (forall c :: c in lookup ==> Single(c, lookup[c]) in singles)
  }

  ghost predicate Bounded(lookup: Lookup, bound: nat) {
    forall c :: c in lookup ==> c < bound
  }

  method DictOf(singles: seq<Single>) returns (lookup: Lookup)
    requires AscendingCodes(singles)
    ensures IsLookup(lookup, singles)
  {
    lookup := map[];
    for i := 0 to |singles|
      invariant IsLookup(lookup, singles[..i])
    {
      lookup := lookup[singles[i].code := singles[i].target];
      assert singles[..i + 1] == singles[..i] + [singles[i]];
    }
    assert singles[..|singles|] == singles;
  }

  /** `c` can still join a run with this difference between target and code. */
  predicate Available(lookup: Lookup, used: set<nat>, delta: int, c: int) {
    c >= 0 && c in lookup && c !in used && lookup[c] - c == delta
  }

  /** The steps are one and two. */
  predicate Aligned(distance: int, step: nat) {
    step == 1 || (step == 2 && distance % 2 == 0)
  }

  /** `c` is one of first, first + step, ..., last. */
  predicate Covers(r: Run, c: int) {
    r.first <= c <= r.last && Aligned(c - r.first, r.step)
  }

  function Delta(r: Run): int {
    r.target - r.first
  }

  /** At least three codes in steps of one or two, all mapped with one difference. */
  ghost predicate IsProgression(r: Run, lookup: Lookup) {
    && (r.step == 1 || r.step == 2)
    && r.first + 2 * r.step <= r.last && Covers(r, r.last)
    && forall c: nat :: Covers(r, c) ==> c in lookup && lookup[c] - c == Delta(r)
  }

  ghost predicate Disjoint(r: Run, q: Run) {
    forall c: nat :: !(Covers(r, c) && Covers(q, c))
  }

  ghost predicate PairwiseDisjoint(runs: seq<Run>) {
    forall i, j :: 0 <= i < j < |runs| ==> Disjoint(runs[i], runs[j])
  }

  ghost predicate DisjointFrom(r: Run, runs: seq<Run>) {
    forall i :: 0 <= i < |runs| ==> Disjoint(r, runs[i])
  }

  ghost predicate Covered(runs: seq<Run>, c: nat) {
    exists i :: 0 <= i < |runs| && Covers(runs[i], c)
  }

  /** Neither the code before a run nor the code after it could have joined it. */
  ghost predicate Maximal(r: Run, lookup: Lookup, used: set<nat>) {
    && !Available(lookup, used, Delta(r), r.first - r.step)
    && !Available(lookup, used, Delta(r), r.last + r.step)
  }

  /** Three unused codes in this step, from `c` on, share one difference. */
  predicate Triple(lookup: Lookup, used: set<nat>, step: nat, c: nat) {
    && c in lookup
    && var delta := lookup[c] - c;
       && Available(lookup, used, delta, c)
       && Available(lookup, used, delta, c + step)
       && Available(lookup, used, delta, c + 2 * step)
  }

  ghost predicate RunsInvariant(lookup: Lookup, runs: seq<Run>, used: set<nat>) {
    && (forall i :: 0 <= i < |runs| ==> IsProgression(runs[i], lookup) && Maximal(runs[i], lookup, used))
    && PairwiseDisjoint(runs)
    && IsUnion(runs, used)
  }

  ghost predicate IsUnion(runs: seq<Run>, used: set<nat>) {
    forall c: nat :: c in used <==> Covered(runs, c)
  }

  /** `run` lists the codes of `r`, none of them used before. */
  ghost predicate Fresh(r: Run, run: seq<nat>, used: set<nat>) {
    && (forall c: nat :: c in run <==> Covers(r, c))
    && (forall c: nat :: c in run ==> c !in used)
  }

  /** `run` lists code, code + step, ... up to but not including `current`, all available, and
      `current` is not. */
  ghost predicate Collected(lookup: Lookup, used: set<nat>, step: nat, code: nat, delta: int, run: seq<nat>, current: nat) {
    && code <= current && Aligned(current - code, step)
    && current - code == (if step == 1 then |run| else 2 * |run|)
    && (forall c: nat :: c in run <==> code <= c < current && Aligned(c - code, step))
    && (forall c: nat :: c in run ==> Available(lookup, used, delta, c))
    && (run != [] ==> run[0] == code && run[|run| - 1] == current - step)
  }

  /** The innermost loop: follow the step while the codes are available. */
  method Follow(lookup: Lookup, used: set<nat>, step: nat, code: nat, delta: int, bound: nat)
    returns (run: seq<nat>, current: nat)
    requires (step == 1 || step == 2) && Bounded(lookup, bound)
    ensures Collected(lookup, used, step, code, delta, run, current)
    ensures !Available(lookup, used, delta, current)
  {
    run, current := [], code;
    while Available(lookup, used, delta, current)
      invariant Collected(lookup, used, step, code, delta, run, current)
      decreases bound - current
    {
      run := run + [current];
      current := current + step;
    }
  }

  /** Three unused codes in a row make a run of at least three, so a shorter run leaves none behind. */
  lemma ShortRun(lookup: Lookup, used: set<nat>, step: nat, code: nat, run: seq<nat>, current: nat)
    requires (step == 1 || step == 2) && code in lookup && |run| < 3
    requires Collected(lookup, used, step, code, lookup[code] - code, run, current)
    requires !Available(lookup, used, lookup[code] - code, current)
    ensures !Triple(lookup, used, step, code)
  {
    assert current == if step == 1 then code + |run| else code + 2 * |run|;
  }

  function SetOf(run: seq<nat>): (s: set<nat>)
    ensures forall c: nat :: c in s <==> c in run
  {
    set c | c in run
  }

  lemma UsedGrows(r: Run, lookup: Lookup, used: set<nat>, used': set<nat>)
    requires used <= used' && Maximal(r, lookup, used)
    ensures Maximal(r, lookup, used')
  {
  }

  /** What the inner loop collected is exactly a progression. */
  lemma CollectedRun(lookup: Lookup, used: set<nat>, step: nat, code: nat, run: seq<nat>, current: nat)
    requires (step == 1 || step == 2) && |run| >= 3 && code in lookup
    requires Collected(lookup, used, step, code, lookup[code] - code, run, current)
    ensures var r := Run(code, current - step, step, lookup[code]);
            IsProgression(r, lookup) && Fresh(r, run, used)
    ensures code in run && code + step in run
  {
    var r := Run(code, current - step, step, lookup[code]);
    forall c: nat ensures c in run <==> Covers(r, c) {
    }
    assert Covers(r, r.last);
  }

  lemma AppendRun(lookup: Lookup, runs: seq<Run>, used: set<nat>, r: Run, run: seq<nat>)
    requires RunsInvariant(lookup, runs, used) && IsProgression(r, lookup) && Maximal(r, lookup, used)
    requires Fresh(r, run, used)
    ensures RunsInvariant(lookup, runs + [r], used + SetOf(run))
  {
    var runs', used' := runs + [r], used + SetOf(run);
    UnionWithRun(runs, used, r, run);
    DisjointFromNew(runs, used, r, run);
    forall i | 0 <= i < |runs'| ensures IsProgression(runs'[i], lookup) && Maximal(runs'[i], lookup, used') {
      UsedGrows(runs'[i], lookup, used, used');
    }
  }

  lemma UnionWithRun(runs: seq<Run>, used: set<nat>, r: Run, run: seq<nat>)
    requires IsUnion(runs, used) && Fresh(r, run, used)
    ensures IsUnion(runs + [r], used + SetOf(run))
  {
    forall c: nat ensures c in used + SetOf(run) <==> Covered(runs + [r], c) {
      CoveredByMore(runs, r, c);
    }
  }

  lemma DisjointFromNew(runs: seq<Run>, used: set<nat>, r: Run, run: seq<nat>)
    requires PairwiseDisjoint(runs) && IsUnion(runs, used) && Fresh(r, run, used)
    ensures PairwiseDisjoint(runs + [r])
  {
    forall i | 0 <= i < |runs| ensures Disjoint(runs[i], r) {
      forall c: nat ensures !(Covers(runs[i], c) && Covers(r, c)) {
        assert Covers(runs[i], c) ==> Covered(runs, c);
      }
    }
  }

  lemma CoveredByMore(runs: seq<Run>, r: Run, c: nat)
    ensures Covered(runs + [r], c) <==> Covered(runs, c) || Covers(r, c)
  {
    var runs' := runs + [r];
    if Covered(runs, c) {
      var i :| 0 <= i < |runs| && Covers(runs[i], c);
      assert Covers(runs'[i], c);
    }
    if Covers(r, c) {
      assert Covers(runs'[|runs|], c);
    }
  }

  /** One pass over the single entries with one step. */
  method Pass(singles: seq<Single>, lookup: Lookup, step: nat, bound: nat, runs0: seq<Run>, used0: set<nat>)
    returns (runs: seq<Run>, used: set<nat>)
    requires (step == 1 || step == 2) && IsLookup(lookup, singles) && Bounded(lookup, bound)
    requires AscendingCodes(singles)
    requires RunsInvariant(lookup, runs0, used0)
    ensures RunsInvariant(lookup, runs, used) && used0 <= used
    ensures forall c :: c in lookup ==> !Triple(lookup, used, step, c)
  {
    runs, used := runs0, used0;
    for i := 0 to |singles|
      invariant RunsInvariant(lookup, runs, used) && used0 <= used
      invariant NoTripleFrom(singles, lookup, used, step, i)
    {
      ghost var before := used;
      runs, used := Visit(singles, lookup, step, bound, i, runs, used);
      TriplesVanish(singles, lookup, before, used, step, i);
    }
    forall c | c in lookup ensures !Triple(lookup, used, step, c) {
      var j :| 0 <= j < |singles| && singles[j] == Single(c, lookup[c]);
    }
  }

  /** A collected run of three or more is a maximal progression of unused codes. */
  lemma FoundRun(singles: seq<Single>, lookup: Lookup, used: set<nat>, step: nat, i: nat, run: seq<nat>, current: nat)
    requires (step == 1 || step == 2) && IsLookup(lookup, singles) && i < |singles| && |run| >= 3
    requires AscendingCodes(singles)
    requires NoTripleFrom(singles, lookup, used, step, i)
    requires singles[i].code in lookup
    requires Collected(lookup, used, step, singles[i].code, lookup[singles[i].code] - singles[i].code, run, current)
    requires !Available(lookup, used, lookup[singles[i].code] - singles[i].code, current)
    ensures var r := Run(run[0], run[|run| - 1], step, lookup[singles[i].code]);
            IsProgression(r, lookup) && Maximal(r, lookup, used) && Fresh(r, run, used)
    ensures singles[i].code in run
  {
    var code := singles[i].code;
    CollectedRun(lookup, used, step, code, run, current);
    FoundMaximal(singles, lookup, used, step, i, run, current);
  }

  lemma FoundMaximal(singles: seq<Single>, lookup: Lookup, used: set<nat>, step: nat, i: nat, run: seq<nat>, current: nat)
    requires (step == 1 || step == 2) && IsLookup(lookup, singles) && i < |singles|
    requires AscendingCodes(singles)
    requires NoTripleFrom(singles, lookup, used, step, i)
    requires singles[i].code in lookup && singles[i].code in run && singles[i].code + step in run
    requires step <= current
    requires forall c: nat :: c in run ==> Available(lookup, used, lookup[singles[i].code] - singles[i].code, c)
    requires !Available(lookup, used, lookup[singles[i].code] - singles[i].code, current)
    ensures Maximal(Run(singles[i].code, current - step, step, lookup[singles[i].code]), lookup, used)
  {
    NoEarlierNeighbour(singles, lookup, used, step, i);
  }

  /** What a collected run of three or more codes is. */
  ghost predicate IsFound(lookup: Lookup, used: set<nat>, r: Run, run: seq<nat>, code: nat) {
    IsProgression(r, lookup) && Maximal(r, lookup, used) && Fresh(r, run, used) && code in run
  }

  /** The search from one entry: a maximal progression, or too few codes to start one. */
  method Search(singles: seq<Single>, lookup: Lookup, used: set<nat>, step: nat, bound: nat, i: nat)
    returns (run: seq<nat>)
    requires (step == 1 || step == 2) && IsLookup(lookup, singles) && Bounded(lookup, bound)
    requires AscendingCodes(singles) && i < |singles| && NoTripleFrom(singles, lookup, used, step, i)
    ensures |run| < 3 ==> !Triple(lookup, used, step, singles[i].code)
    ensures |run| >= 3 ==>
              IsFound(lookup, used, Run(run[0], run[|run| - 1], step, singles[i].target), run, singles[i].code)
  {
    var code: int, target: int := singles[i].code, singles[i].target;
    assert singles[i] in singles && lookup[code] == target;
    var current;
    run, current := Follow(lookup, used, step, code, target - code, bound);
    if |run| < 3 {
      ShortRun(lookup, used, step, singles[i].code, run, current);
    } else {
      FoundRun(singles, lookup, used, step, i, run, current);
    }
  }

  /** The body of the pass: an unused entry starts a run if at least three codes can join it. */
  method Visit(singles: seq<Single>, lookup: Lookup, step: nat, bound: nat, i: nat, runs0: seq<Run>, used0: set<nat>)
    returns (runs: seq<Run>, used: set<nat>)
    requires (step == 1 || step == 2) && IsLookup(lookup, singles) && Bounded(lookup, bound)
    requires AscendingCodes(singles)
    requires RunsInvariant(lookup, runs0, used0) && i < |singles| && NoTripleFrom(singles, lookup, used0, step, i)
    ensures RunsInvariant(lookup, runs, used) && used0 <= used
    ensures !Triple(lookup, used, step, singles[i].code)
  {
    runs, used := runs0, used0;
    var code := singles[i].code;
    if code in used {
      return;
    }
    var run := Search(singles, lookup, used, step, bound, i);
    if |run| >= 3 {
      var r := Run(run[0], run[|run| - 1], step, singles[i].target);
      AppendRun(lookup, runs, used, r, run);
      runs := runs + [r];
      used := used + SetOf(run);
    }
  }

  /** No three unused codes in a row start at one of the first `n` entries. */
  ghost predicate NoTripleFrom(singles: seq<Single>, lookup: Lookup, used: set<nat>, step: nat, n: nat)
    requires n <= |singles|
  {
    forall j :: 0 <= j < n ==> !Triple(lookup, used, step, singles[j].code)
  }

  lemma TriplesVanish(singles: seq<Single>, lookup: Lookup, used: set<nat>, used': set<nat>, step: nat, n: nat)
    requires n < |singles| && used <= used' && NoTripleFrom(singles, lookup, used, step, n)
    requires !Triple(lookup, used', step, singles[n].code)
    ensures NoTripleFrom(singles, lookup, used', step, n + 1)
  {
    forall j | 0 <= j < n ensures !Triple(lookup, used', step, singles[j].code) {
      assert !Triple(lookup, used, step, singles[j].code);
    }
  }

  /** A code one step before `code`, had it been available, would have started this run itself. */
  lemma NoEarlierNeighbour(singles: seq<Single>, lookup: Lookup, used: set<nat>, step: nat, i: nat)
    requires (step == 1 || step == 2) && IsLookup(lookup, singles) && i < |singles|
    requires AscendingCodes(singles)
    requires NoTripleFrom(singles, lookup, used, step, i)
    requires singles[i].code in lookup
    requires var delta := lookup[singles[i].code] - singles[i].code;
             && Available(lookup, used, delta, singles[i].code)
             && Available(lookup, used, delta, singles[i].code + step)
    ensures !Available(lookup, used, lookup[singles[i].code] - singles[i].code, singles[i].code - step)
  {
    var code := singles[i].code;
    var c := code - step;
    if Available(lookup, used, lookup[code] - code, c) {
      assert Single(c, lookup[c]) in singles;
      var j :| 0 <= j < |singles| && singles[j] == Single(c, lookup[c]);
      assert j < i;
      assert Triple(lookup, used, step, singles[j].code);
    }
  }

  // ------------------------------------------------------------- the compressor

  /** The order in which Python sorts the run tuples. */
  predicate Before(r: Run, q: Run) {
    || r.first < q.first
    || (r.first == q.first && (r.last < q.last
                               || (r.last == q.last && (r.step < q.step || (r.step == q.step && r.target <= q.target)))))
  }

  ghost predicate Ascending(runs: seq<Run>) {
    forall i, j :: 0 <= i < j < |runs| ==> Before(runs[i], runs[j])
  }

  function Insert(r: Run, runs: seq<Run>): (s: seq<Run>)
    ensures multiset(s) == multiset(runs) + multiset{r}
  {
    if runs == [] || Before(r, runs[0]) then [r] + runs
    else
      assert runs == [runs[0]] + runs[1..];
      [runs[0]] + Insert(r, runs[1..])
  }

  /** The runs in ascending order. */
  function Sorted(runs: seq<Run>): (s: seq<Run>)
    ensures multiset(s) == multiset(runs)
  {
    if runs == [] then []
    else
      assert runs == [runs[0]] + runs[1..];
      Insert(runs[0], Sorted(runs[1..]))
  }

  lemma {:induction false} InsertAscending(r: Run, runs: seq<Run>)
    requires Ascending(runs)
    ensures Ascending(Insert(r, runs))
  {
    if runs != [] && !Before(r, runs[0]) {
      InsertAscending(r, runs[1..]);
      var rest := Insert(r, runs[1..]);
      forall i | 0 <= i < |rest| ensures Before(runs[0], rest[i]) {
        assert rest[i] in multiset(rest);
        assert rest[i] in runs[1..] || rest[i] == r;
      }
    }
  }

  lemma {:induction false} SortedAscending(runs: seq<Run>)
    ensures Ascending(Sorted(runs))
  {
    if runs != [] {
      SortedAscending(runs[1..]);
      InsertAscending(runs[0], Sorted(runs[1..]));
    }
  }

  /** Sorting keeps every property of the runs that does not speak of their order. */
  lemma {:induction false} InsertKeepsDisjoint(r: Run, runs: seq<Run>)
    requires PairwiseDisjoint(runs) && DisjointFrom(r, runs)
    ensures PairwiseDisjoint(Insert(r, runs))
  {
    if runs != [] && !Before(r, runs[0]) {
      var rest := Insert(r, runs[1..]);
      InsertKeepsDisjoint(r, runs[1..]);
      assert Disjoint(r, runs[0]);
      forall i | 0 <= i < |rest| ensures Disjoint(runs[0], rest[i]) {
        assert rest[i] in multiset(rest);
        assert rest[i] in runs[1..] || rest[i] == r;
      }
    }
  }

  lemma {:induction false} SortKeepsDisjoint(runs: seq<Run>)
    requires PairwiseDisjoint(runs)
    ensures PairwiseDisjoint(Sorted(runs))
  {
    if runs != [] {
      var rest := Sorted(runs[1..]);
      SortKeepsDisjoint(runs[1..]);
      forall i | 0 <= i < |rest| ensures Disjoint(runs[0], rest[i]) {
        assert rest[i] in multiset(rest);
        assert rest[i] in runs[1..];
      }
      InsertKeepsDisjoint(runs[0], rest);
    }
  }

  lemma SortKeepsMembers(runs: seq<Run>)
    ensures forall r :: r in Sorted(runs) <==> r in runs
  {
    forall r ensures r in Sorted(runs) <==> r in runs {
      assert r in Sorted(runs) <==> r in multiset(Sorted(runs));
      assert r in runs <==> r in multiset(runs);
    }
  }

  lemma SortKeepsInvariant(lookup: Lookup, runs: seq<Run>, used: set<nat>)
    requires RunsInvariant(lookup, runs, used)
    ensures RunsInvariant(lookup, Sorted(runs), used)
  {
    SortKeepsDisjoint(runs);
    SortKeepsMembers(runs);
    SameUnion(runs, Sorted(runs), used);
    var s := Sorted(runs);
    forall i | 0 <= i < |s| ensures IsProgression(s[i], lookup) && Maximal(s[i], lookup, used) {
      assert s[i] in runs;
    }
  }

  lemma SameUnion(runs: seq<Run>, s: seq<Run>, used: set<nat>)
    requires IsUnion(runs, used) && forall r :: r in s <==> r in runs
    ensures IsUnion(s, used)
  {
    forall c: nat ensures Covered(s, c) <==> Covered(runs, c) {
      if Covered(s, c) {
        var i :| 0 <= i < |s| && Covers(s[i], c);
        assert s[i] in runs;
      }
      if Covered(runs, c) {
        var i :| 0 <= i < |runs| && Covers(runs[i], c);
        assert runs[i] in s;
      }
    }
  }

  /** The single entries that no run took over. */
  ghost predicate IsLeftover(singles: seq<Single>, used: set<nat>, left: seq<Single>) {
    && AscendingCodes(left)
    && (forall s :: s in left <==> s in singles && s.code !in used)
  }

  method Leftover(singles: seq<Single>, used: set<nat>) returns (left: seq<Single>)
    requires AscendingCodes(singles)
    ensures IsLeftover(singles, used, left)
  {
    left := [];
    for i := 0 to |singles|
      invariant IsLeftover(singles[..i], used, left)
    {
      assert singles[..i + 1] == singles[..i] + [singles[i]];
      if singles[i].code !in used {
        left := left + [singles[i]];
      }
    }
    assert singles[..|singles|] == singles;
  }

  /** What the compressed form promises about the single entries it started from: the runs are
      maximal, disjoint progressions, the leftovers are the codes outside them, and no three
      leftovers could have made a run in either step. */
  ghost predicate Irreducible(m: Mapping, lookup: Lookup, used: set<nat>, c: Compressed) {
    && (forall k :: k in lookup <==> IsSingle(m, k))
    && (forall k :: k in lookup ==> m[k] == [lookup[k]])
    && RunsInvariant(lookup, c.runs, used) && Ascending(c.runs)
    && AscendingCodes(c.singles)
    && (forall s :: s in c.singles <==> s.code in lookup && s.code !in used && s.target == lookup[s.code])
    && (forall k :: k in lookup ==> !Triple(lookup, used, 1, k) && !Triple(lookup, used, 2, k))
    && c.expansions == ExpansionsOf(m, |m|)
  }

  /** The dictionary of a mapping's single entries. */
  ghost function LookupOf(m: Mapping): Lookup {
    map k: nat | k < |m| && IsSingle(m, k) :: m[k][0]
  }

  /** The codes below `n` that some run covers. */
  ghost function UsedBy(runs: seq<Run>, n: nat): set<nat> {
    set k: nat | k < n && Covered(runs, k)
  }

  /** `c` is the irreducible compressed form of `m`. */
  ghost predicate IsCompression(m: Mapping, c: Compressed) {
    Irreducible(m, LookupOf(m), UsedBy(c.runs, |m|), c)
  }

  lemma IrreducibleIsCompression(m: Mapping, lookup: Lookup, used: set<nat>, c: Compressed)
    requires Irreducible(m, lookup, used, c)
    ensures IsCompression(m, c)
  {
    assert lookup == LookupOf(m);
    UsedIsCovered(m, lookup, used, c);
  }

  lemma UsedIsCovered(m: Mapping, lookup: Lookup, used: set<nat>, c: Compressed)
    requires Irreducible(m, lookup, used, c)
    ensures used == UsedBy(c.runs, |m|)
  {
    forall k: nat | Covered(c.runs, k) ensures k < |m| {
      var i :| 0 <= i < |c.runs| && Covers(c.runs[i], k);
      assert IsProgression(c.runs[i], lookup) && IsSingle(m, k);
    }
  }

  method Compress(m: Mapping) returns (c: Compressed)
    ensures IsCompression(m, c)
  {
    var singles, expansions := Classify(m);
    var table := DictOf(singles);
    LookupMatches(m, singles, table);
    var runs, taken := Pass(singles, table, 1, |m|, [], {});
    ghost var after1 := taken;
    runs, taken := Pass(singles, table, 2, |m|, runs, taken);
    StillNoTriples(table, after1, taken);
    var left := Leftover(singles, taken);
    SortKeepsInvariant(table, runs, taken);
    SortedAscending(runs);
    c := Compressed(Sorted(runs), left, expansions);
    IrreducibleIsCompression(m, table, taken, c);
  }

  /** The order of the runs is that of their first codes, which differ. */
  lemma RunsAscend(m: Mapping, c: Compressed)
    requires IsCompression(m, c)
    ensures forall i, j :: 0 <= i < j < |c.runs| ==> c.runs[i].first < c.runs[j].first
  {
    forall i, j | 0 <= i < j < |c.runs| ensures c.runs[i].first < c.runs[j].first {
      var r, q := c.runs[i], c.runs[j];
      assert IsProgression(r, LookupOf(m)) && IsProgression(q, LookupOf(m));
      assert Before(r, q) && Disjoint(r, q);
      assert Covers(r, r.first) && Covers(q, q.first);
    }
  }

  /** The parts of what a compression promises, one at a time. */
  lemma {:induction false} RunFacts(m: Mapping, c: Compressed, r: Run)
    requires IsCompression(m, c) && r in c.runs
    ensures IsProgression(r, LookupOf(m)) && Maximal(r, LookupOf(m), UsedBy(c.runs, |m|))
  {
    var i :| 0 <= i < |c.runs| && c.runs[i] == r;
  }

  lemma {:induction false} LeftoverFacts(m: Mapping, c: Compressed, s: Single)
    requires IsCompression(m, c)
    ensures s in c.singles <==>
            IsFree(LookupOf(m), UsedBy(c.runs, |m|), s)
  {
  }

  lemma {:induction false} TripleFacts(m: Mapping, c: Compressed, k: nat)
    requires IsCompression(m, c) && k in LookupOf(m)
    ensures !Triple(LookupOf(m), UsedBy(c.runs, |m|), 1, k) && !Triple(LookupOf(m), UsedBy(c.runs, |m|), 2, k)
  {
  }

  lemma {:induction false} DisjointFacts(m: Mapping, c: Compressed, r: Run, q: Run, k: nat)
    requires IsCompression(m, c) && r in c.runs && q in c.runs && Covers(r, k) && Covers(q, k)
    ensures r == q
  {
    var i :| 0 <= i < |c.runs| && c.runs[i] == r;
    var j :| 0 <= j < |c.runs| && c.runs[j] == q;
    DisjointAt(c.runs, i, j, k);
  }

  lemma {:induction false} DisjointAt(runs: seq<Run>, i: nat, j: nat, k: nat)
    requires PairwiseDisjoint(runs) && i < |runs| && j < |runs| && Covers(runs[i], k) && Covers(runs[j], k)
    ensures i == j
  {
    if i < j {
      NotBoth(runs, i, j, k);
    } else if j < i {
      NotBoth(runs, j, i, k);
    }
  }

  lemma {:induction false} NotBoth(runs: seq<Run>, i: nat, j: nat, k: nat)
    requires PairwiseDisjoint(runs) && i < j < |runs|
    ensures !(Covers(runs[i], k) && Covers(runs[j], k))
  {
    assert Disjoint(runs[i], runs[j]);
  }

  lemma {:induction false} ProgressionFacts(m: Mapping, r: Run, k: nat)
    requires IsProgression(r, LookupOf(m))
    ensures (r.step == 1 || r.step == 2) && r.first + 2 * r.step <= r.last < |m|
    ensures r.step == 2 ==> (r.last - r.first) % 2 == 0
    ensures r.first <= k <= r.last && (r.step == 2 ==> (k - r.first) % 2 == 0) ==> m[k] == [r.target + (k - r.first)]
  {
    assert Covers(r, r.last);
    if r.first <= k <= r.last && (r.step == 2 ==> (k - r.first) % 2 == 0) {
      assert Covers(r, k);
      assert IsSingle(m, k) && m[k] == [LookupOf(m)[k]];
    }
  }

  /** A run: at least three codes in steps of one or two, each mapped by the run's own difference. */
  lemma {:induction false} RunMeans(m: Mapping, c: Compressed, r: Run, k: nat)
    requires IsCompression(m, c) && r in c.runs
    ensures (r.step == 1 || r.step == 2) && r.first + 2 * r.step <= r.last < |m|
    ensures r.step == 2 ==> (r.last - r.first) % 2 == 0
    ensures r.first <= k <= r.last && (r.step == 2 ==> (k - r.first) % 2 == 0) ==> m[k] == [r.target + (k - r.first)]
  {
    RunFacts(m, c, r);
    ProgressionFacts(m, r, k);
  }

  /** No code is in two runs, and none in a run and among the leftovers. */
  lemma {:induction false} CodesOccurOnce(m: Mapping, c: Compressed, r: Run, q: Run, s: Single, k: nat)
    requires IsCompression(m, c) && r in c.runs && Covers(r, k)
    ensures q in c.runs && Covers(q, k) ==> q == r
    ensures s in c.singles ==> s.code != k
  {
    if q in c.runs && Covers(q, k) {
      DisjointFacts(m, c, r, q, k);
    }
    RunFacts(m, c, r);
    LeftoverFacts(m, c, s);
    CoveredByMember(c.runs, r, k);
  }

  lemma {:induction false} CoveredByMember(runs: seq<Run>, r: Run, k: nat)
    requires r in runs && Covers(r, k)
    ensures Covered(runs, k)
  {
    var i :| 0 <= i < |runs| && runs[i] == r;
  }

  /** No leftover continues a run at either end. */
  lemma {:induction false} LeftoversExtendNoRun(m: Mapping, c: Compressed, r: Run, s: Single)
    requires IsCompression(m, c) && r in c.runs && s in c.singles && s.target - s.code == r.target - r.first
    ensures s.code != r.last + r.step && s.code + r.step != r.first
  {
    RunFacts(m, c, r);
    LeftoverFacts(m, c, s);
    NoExtension(r, LookupOf(m), UsedBy(c.runs, |m|), s);
  }

  lemma {:induction false} NoExtension(r: Run, lookup: Lookup, used: set<nat>, s: Single)
    requires Maximal(r, lookup, used) && s.target - s.code == r.target - r.first
    requires s.code in lookup && s.code !in used && s.target == lookup[s.code]
    ensures s.code != r.last + r.step && s.code + r.step != r.first
  {
    assert Available(lookup, used, Delta(r), s.code);
  }

  /** No three leftovers could have made a run in either step. */
  lemma {:induction false} NoThreeLeftovers(m: Mapping, c: Compressed, a: Single, b: Single, d: Single, step: nat)
    requires IsCompression(m, c) && a in c.singles && b in c.singles && d in c.singles
    requires (step == 1 || step == 2) && b.code == a.code + step && d.code == b.code + step
    ensures !(a.target - a.code == b.target - b.code == d.target - d.code)
  {
    LeftoverFacts(m, c, a);
    LeftoverFacts(m, c, b);
    LeftoverFacts(m, c, d);
    TripleFacts(m, c, a.code);
    NotAlike(LookupOf(m), UsedBy(c.runs, |m|), a, b, d, step);
  }

  ghost predicate IsFree(lookup: Lookup, used: set<nat>, s: Single) {
    s.code in lookup && s.code !in used && s.target == lookup[s.code]
  }

  lemma {:induction false} NotAlike(lookup: Lookup, used: set<nat>, a: Single, b: Single, d: Single, step: nat)
    requires IsFree(lookup, used, a) && IsFree(lookup, used, b) && IsFree(lookup, used, d)
    requires b.code == a.code + step && d.code == b.code + step && !Triple(lookup, used, step, a.code)
    ensures !(a.target - a.code == b.target - b.code == d.target - d.code)
  {
  }

  /** Each code that maps to one other code is a leftover or in a run, and each leftover is such a code. */
  lemma {:induction false} CodesAreKept(m: Mapping, c: Compressed, k: nat)
    requires IsCompression(m, c) && k < |m| && |m[k]| == 1
    ensures m[k] != [k] <==> Single(k, m[k][0]) in c.singles || exists r :: r in c.runs && Covers(r, k)
  {
    LeftoverFacts(m, c, Single(k, m[k][0]));
    if k in UsedBy(c.runs, |m|) {
      var i :| 0 <= i < |c.runs| && Covers(c.runs[i], k);
      assert c.runs[i] in c.runs;
    }
    if r :| r in c.runs && Covers(r, k) {
      RunFacts(m, c, r);
    }
  }

  lemma LookupMatches(m: Mapping, singles: seq<Single>, lookup: Lookup)
    requires SinglesBelow(m, |m|, singles) && IsLookup(lookup, singles)
    ensures forall k :: k in lookup <==> IsSingle(m, k)
    ensures forall k :: k in lookup ==> m[k] == [lookup[k]]
    ensures Bounded(lookup, |m|)
    ensures forall s :: s in singles <==> s.code in lookup && s.target == lookup[s.code]
  {
    forall k | k in lookup ensures IsSingle(m, k) && m[k] == [lookup[k]] {
      assert Single(k, lookup[k]) in singles;
    }
    forall k: nat | IsSingle(m, k) ensures k in lookup {
      assert Single(k, m[k][0]) in singles;
    }
    forall s ensures s in singles <==> s.code in lookup && s.target == lookup[s.code] {
      if s.code in lookup && s.target == lookup[s.code] {
        assert s == Single(s.code, lookup[s.code]);
      }
    }
  }

  lemma StillNoTriples(lookup: Lookup, used: set<nat>, used': set<nat>)
    requires used <= used' && forall k :: k in lookup ==> !Triple(lookup, used, 1, k)
    ensures forall k :: k in lookup ==> !Triple(lookup, used', 1, k)
  {
    forall k | k in lookup ensures !Triple(lookup, used', 1, k) {
      assert !Triple(lookup, used, 1, k);
    }
  }
}
