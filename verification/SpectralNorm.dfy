/** The parallel matrix product of the spectral-norm benchmark: chunks computed by workers and
    copied back in whatever order they arrive.

    Floating-point operations are parameters, so equal results mean equal bit patterns: the same
    operations on the same operands in the same order. */
module SpectralNorm {
  import opened Numbers

  datatype Arith<!F> = Arith(zero: F, add: (F, F) -> F, quotient: (F, F) -> F, ofInt: int -> F)

  datatype Chunk<+F> = Chunk(start: nat, values: seq<F>)

  function EvalA(i: nat, j: nat): int {
    var ij := i + j;
    ij * (ij + 1) / 2 + i + 1
  }

  /** The laws that fix every entry: 1 in the corner, one more for each step down an antidiagonal, and
      one more from the foot of an antidiagonal to the head of the next. */
  lemma EvalALaws(i: nat, j: nat)
    ensures EvalA(0, 0) == 1
    ensures EvalA(i + 1, j) == EvalA(i, j + 1) + 1
    ensures EvalA(0, i + 1) == EvalA(i, 0) + 1
  {
    var k := i;
    assert (k + 1) * (k + 2) == k * (k + 1) + 2 * (k + 1);
  }

  /** The n-th cell when the antidiagonals are walked downwards, one after the other. */
  function Cell(n: nat): (nat, nat) {
    if n == 0 then (0, 0)
    else
      var c := Cell(n - 1);
      if c.1 > 0 then (c.0 + 1, c.1 - 1) else (0, c.0 + 1)
  }

  lemma {:induction false} EvalAOfCell(n: nat)
    ensures EvalA(Cell(n).0, Cell(n).1) == n + 1
  {
    if n > 0 {
      var c := Cell(n - 1);
      EvalAOfCell(n - 1);
      EvalALaws(c.0, if c.1 > 0 then c.1 - 1 else 0);
    } else {
      EvalALaws(0, 0);
    }
  }

  lemma {:induction false} CellOfEvalA(i: nat, j: nat)
    ensures EvalA(i, j) >= 1 && Cell(EvalA(i, j) - 1) == (i, j)
    decreases i + j, i
  {
    if i > 0 {
      CellOfEvalA(i - 1, j + 1);
      EvalALaws(i - 1, j);
    } else if j > 0 {
      CellOfEvalA(j - 1, 0);
      EvalALaws(j - 1, 0);
    } else {
      EvalALaws(0, 0);
    }
  }

  /** The matrix entries are the reciprocals of the positive integers, each exactly once. */
  lemma EvalAIsBijection(v: int, i: nat, j: nat)
    ensures v >= 1 <==> exists k: nat, l: nat :: EvalA(k, l) == v
    ensures forall k: nat, l: nat :: EvalA(k, l) == EvalA(i, j) ==> k == i && l == j
  {
    if v >= 1 {
      EvalAOfCell(v - 1);
    }
    if k: nat, l: nat :| EvalA(k, l) == v {
      CellOfEvalA(k, l);
    }
    CellOfEvalA(i, j);
    forall k: nat, l: nat | EvalA(k, l) == EvalA(i, j) ensures k == i && l == j {
      CellOfEvalA(k, l);
    }
  }

  /** The first `n` terms of row `i`, added from the left. */
  function RowSum<F>(a: Arith<F>, input: seq<F>, transpose: bool, i: nat, n: nat): F
    requires n <= |input|
  {
    if n == 0 then a.zero
    else
      var j := n - 1;
      a.add(RowSum(a, input, transpose, i, j),
            a.quotient(input[j], a.ofInt(if transpose then EvalA(j, i) else EvalA(i, j))))
  }

  /** The sequential product. */
  ghost function Product<F>(a: Arith<F>, input: seq<F>, transpose: bool): (r: seq<F>)
    ensures |r| == |input|
  {
    seq(|input|, i requires 0 <= i => RowSum(a, input, transpose, i, |input|))
  }

  /** Term by term: row `i` of the matrix, or its column `i` for the transposed product. */
  lemma RowSumTerms<F>(a: Arith<F>, input: seq<F>, i: nat, j: nat)
    requires j < |input|
    ensures RowSum(a, input, false, i, 0) == a.zero && RowSum(a, input, true, i, 0) == a.zero
    ensures RowSum(a, input, false, i, j + 1)
            == a.add(RowSum(a, input, false, i, j), a.quotient(input[j], a.ofInt(EvalA(i, j))))
    ensures RowSum(a, input, true, i, j + 1)
            == a.add(RowSum(a, input, true, i, j), a.quotient(input[j], a.ofInt(EvalA(j, i))))
  {
  }

  /** The two products of a vector of two. */
  lemma ProductOfTwo<F>(a: Arith<F>, x: F, y: F)
    ensures Product(a, [x, y], false)
            == [a.add(a.add(a.zero, a.quotient(x, a.ofInt(1))), a.quotient(y, a.ofInt(2))),
                a.add(a.add(a.zero, a.quotient(x, a.ofInt(3))), a.quotient(y, a.ofInt(5)))]
    ensures Product(a, [x, y], true)
            == [a.add(a.add(a.zero, a.quotient(x, a.ofInt(1))), a.quotient(y, a.ofInt(3))),
                a.add(a.add(a.zero, a.quotient(x, a.ofInt(2))), a.quotient(y, a.ofInt(5)))]
  {
    assert EvalA(0, 0) == 1 && EvalA(0, 1) == 2 && EvalA(1, 0) == 3 && EvalA(1, 1) == 5;
    var v := [x, y];
    RowSumTerms(a, v, 0, 0);
    RowSumTerms(a, v, 0, 1);
    RowSumTerms(a, v, 1, 0);
    RowSumTerms(a, v, 1, 1);
  }

  method MultiplyRange<F(0)>(a: Arith<F>, input: seq<F>, start: nat, end: nat, transpose: bool) returns (c: Chunk<F>)
    requires start <= end <= |input|
    ensures c == Chunk(start, Product(a, input, transpose)[start..end])
  {
    var values := new F[end - start];
    for i := start to end
      invariant forall k :: start <= k < i ==> values[k - start] == Product(a, input, transpose)[k]
    {
      var sum := a.zero;
      for j := 0 to |input|
        invariant sum == RowSum(a, input, transpose, i, j)
      {
        if transpose {
          sum := a.add(sum, a.quotient(input[j], a.ofInt(EvalA(j, i))));
        } else {
          sum := a.add(sum, a.quotient(input[j], a.ofInt(EvalA(i, j))));
        }
      }
      values[i - start] := sum;
    }
    c := Chunk(start, values[..]);
    assert forall k :: 0 <= k < end - start ==> values[..][k] == Product(a, input, transpose)[start + k];
  }

  // ------------------------------------------------------------------- chunks

  /** Rounded up, so that `workers` chunks are enough. */
  function ChunkSize(length: nat, workers: nat): nat
    requires workers > 0
  {
    (length + workers - 1) / workers
  }

  lemma ChunksSuffice(length: nat, workers: nat)
    requires workers > 0
    ensures length <= Times(workers, ChunkSize(length, workers))
    ensures length > 0 ==> ChunkSize(length, workers) > 0
  {
    var size := ChunkSize(length, workers);
    TimesIsProduct(workers, size);
    assert length + workers - 1 == size * workers + (length + workers - 1) % workers;
    assert size * workers == workers * size;
    if size == 0 {
      assert workers * size == 0;
    }
  }

  /** Where chunk `k` starts and ends, and which chunks are started. */
  function StartOf(size: nat, k: nat): nat {
    Times(k, size)
  }

  function EndOf(length: nat, size: nat, k: nat): nat {
    Min(StartOf(size, k + 1), length)
  }

  ghost predicate IsStarted(length: nat, workers: nat, size: nat, k: nat) {
    k < workers && StartOf(size, k) < length
  }

  ghost predicate Holds(length: nat, workers: nat, size: nat, k: nat, p: nat) {
    IsStarted(length, workers, size, k) && StartOf(size, k) <= p < EndOf(length, size, k)
  }

  /** The started chunks tile the input: every position lies in exactly one of them. */
  lemma {:induction false} ChunksTile(length: nat, workers: nat, size: nat, p: nat)
    requires length <= Times(workers, size) && p < length
    ensures exists k: nat :: Holds(length, workers, size, k, p)
    ensures forall k: nat, l: nat :: Holds(length, workers, size, k, p) && Holds(length, workers, size, l, p) ==> k == l
  {
    var k := ChunkHolding(size, p, workers);
    assert Holds(length, workers, size, k, p);
    forall k: nat, l: nat | Holds(length, workers, size, k, p) && Holds(length, workers, size, l, p)
      ensures k == l
    {
      OneChunk(length, workers, size, p, k, l);
    }
  }

  lemma {:induction false} OneChunk(length: nat, workers: nat, size: nat, p: nat, k: nat, l: nat)
    requires Holds(length, workers, size, k, p) && Holds(length, workers, size, l, p)
    ensures k == l
  {
    if k < l {
      TimesMonotone(k + 1, l, size);
    } else if l < k {
      TimesMonotone(l + 1, k, size);
    }
  }

  lemma {:induction false} ChunkHolding(size: nat, p: nat, n: nat) returns (k: nat)
    requires p < StartOf(size, n)
    ensures k < n && StartOf(size, k) <= p < StartOf(size, k + 1)
  {
    if StartOf(size, n - 1) <= p {
      k := n - 1;
    } else {
      k := ChunkHolding(size, p, n - 1);
    }
  }

  ghost predicate IsChunk<F>(a: Arith<F>, input: seq<F>, transpose: bool, c: Chunk<F>) {
    c.start + |c.values| <= |input| && c.values == Product(a, input, transpose)[c.start..c.start + |c.values|]
  }

  ghost predicate InChunk<F>(c: Chunk<F>, p: nat) {
    c.start <= p < c.start + |c.values|
  }

  ghost predicate InSome<F>(chunks: seq<Chunk<F>>, p: nat) {
    exists k :: 0 <= k < |chunks| && InChunk(chunks[k], p)
  }

  /** Chunk number k of the started ones, with the right values. */
  ghost predicate IsTile<F>(a: Arith<F>, input: seq<F>, transpose: bool, workers: nat, size: nat, k: nat, c: Chunk<F>) {
    && IsChunk(a, input, transpose, c) && IsStarted(|input|, workers, size, k)
    && c.start == StartOf(size, k)
    && c.start + |c.values| == EndOf(|input|, size, k)
  }

  /** Starts one worker a chunk; `pending` holds what the workers will send. */
  method StartWorkers<F(0)>(a: Arith<F>, input: seq<F>, transpose: bool, workers: nat) returns (pending: seq<Chunk<F>>)
    requires workers > 0
    ensures var size := ChunkSize(|input|, workers);
            && (forall k :: 0 <= k < |pending| ==> IsTile(a, input, transpose, workers, size, k, pending[k]))
            && (forall k: nat :: IsStarted(|input|, workers, size, k) ==> k < |pending|)
  {
    var length, chunkSize := |input|, ChunkSize(|input|, workers);
    pending := [];
    var worker := 0;
    while worker < workers
      invariant worker == |pending| <= workers
      invariant forall k :: 0 <= k < |pending| ==> IsTile(a, input, transpose, workers, chunkSize, k, pending[k])
      decreases workers - worker
    {
      TimesIsProduct(worker, chunkSize);
      var start := worker * chunkSize;
      if start >= length {
        break;
      }
      var end := start + chunkSize;
      if end > length {
        end := length;
      }
      assert start == StartOf(chunkSize, worker) && end == EndOf(length, chunkSize, worker);
      var c := MultiplyRange(a, input, start, end, transpose);
      assert IsTile(a, input, transpose, workers, chunkSize, worker, c);
      pending := pending + [c];
      worker := worker + 1;
    }
    forall k: nat | IsStarted(length, workers, chunkSize, k) ensures k < |pending| {
      if k >= |pending| {
        TimesMonotone(worker, k, chunkSize);
      }
    }
  }

  /** Every position is in one of the chunks that were started. */
  lemma StartedCoverAll<F>(a: Arith<F>, input: seq<F>, transpose: bool, workers: nat, size: nat,
                           pending: seq<Chunk<F>>, p: nat)
    requires p < |input| <= Times(workers, size)
    requires forall k :: 0 <= k < |pending| ==> IsTile(a, input, transpose, workers, size, k, pending[k])
    requires forall k: nat :: IsStarted(|input|, workers, size, k) ==> k < |pending|
    ensures InSome(pending, p)
  {
    ChunksTile(|input|, workers, size, p);
    var k: nat :| Holds(|input|, workers, size, k, p);
    assert InChunk(pending[k], p);
  }

  /** Receives one result for each worker started, in any order, and copies it to its place. */
  method Multiply<F(0)>(a: Arith<F>, input: seq<F>, transpose: bool, workers: nat) returns (output: seq<F>)
    requires workers > 0
    ensures output == Product(a, input, transpose)
  {
    var pending := StartWorkers(a, input, transpose, workers);
    var started := |pending|;
    var out := new F[|input|];
    ChunksSuffice(|input|, workers);
    forall p | 0 <= p < |input| ensures InSome(pending, p) {
      StartedCoverAll(a, input, transpose, workers, ChunkSize(|input|, workers), pending, p);
    }
    for i := 0 to started
      invariant |pending| == started - i
      invariant forall k :: 0 <= k < |pending| ==> IsChunk(a, input, transpose, pending[k])
      invariant forall p :: 0 <= p < |input| ==> InSome(pending, p) || out[p] == Product(a, input, transpose)[p]
    {
      var k :| 0 <= k < |pending|;
      var result := pending[k];
      ghost var before := pending;
      pending := pending[..k] + pending[k + 1..];
      CopyChunk(out, result);
      forall p | 0 <= p < |input| && !InSome(pending, p) ensures out[p] == Product(a, input, transpose)[p] {
        RemoveChunk(before, k, p);
      }
    }
    output := out[..];
  }

  method CopyChunk<F>(out: array<F>, c: Chunk<F>)
    requires c.start + |c.values| <= out.Length
    modifies out
    ensures forall p :: 0 <= p < out.Length ==> out[p] == if InChunk(c, p) then c.values[p - c.start] else old(out[p])
  {
    for i := 0 to |c.values|
      invariant forall p :: 0 <= p < out.Length ==>
                  out[p] == if c.start <= p < c.start + i then c.values[p - c.start] else old(out[p])
    {
      out[c.start + i] := c.values[i];
    }
  }

  lemma RemoveChunk<F>(pending: seq<Chunk<F>>, k: nat, p: nat)
    requires k < |pending|
    ensures InSome(pending, p) ==> InSome(pending[..k] + pending[k + 1..], p) || InChunk(pending[k], p)
  {
    if InSome(pending, p) && !InChunk(pending[k], p) {
      var l :| 0 <= l < |pending| && InChunk(pending[l], p);
      assert InChunk((pending[..k] + pending[k + 1..])[if l < k then l else l - 1], p);
    }
  }

  /** Both products in turn, for every number of workers and every order of arrival. */
  method MultiplyAtA<F(0)>(a: Arith<F>, input: seq<F>, workers: nat) returns (output: seq<F>)
    requires workers > 0
    ensures output == Product(a, Product(a, input, false), true)
  {
    var inner := Multiply(a, input, false, workers);
    output := Multiply(a, inner, true, workers);
  }
}
