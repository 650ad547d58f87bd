/** The rounds of the cache benchmarks as a sequence of operations. */
module LruRounds {
  import opened Options
  import opened Recency
  import opened Numbers
  import Lcg

  /** The range of the keys: the size, cut to 32 bits, times ten in 32 bits. */
  function KeyRange(size: nat): nat {
    ((size % 0x1_0000_0000) * 10) % 0x1_0000_0000
  }

  /** It wraps to zero exactly for the multiples of 2^31. */
  lemma KeyRangeIsZero(size: nat)
    ensures KeyRange(size) == 0 <==> size % 0x8000_0000 == 0
    ensures 10 * size < 0x1_0000_0000 ==> KeyRange(size) == 10 * size
  {
    var t := size % 0x1_0000_0000;
    ModOfMod(size, 0x8000_0000, 2);
    assert t % 0x8000_0000 == size % 0x8000_0000;
    assert t == 0 || t == 0x8000_0000 <==> t % 0x8000_0000 == 0;
  }

  /** The key drawn in round `n` from the stream of `seed`. */
  ghost function Drawn(seed: nat, modular: nat, n: nat): nat
    requires modular > 0
  {
    Lcg.Iterate(Lcg.A, Lcg.C, Lcg.M, seed, n) % modular
  }

  /** The operations of `n` rounds: a put from the first stream, a get from the second. */
  ghost function Rounds(modular: nat, n: nat): seq<Op>
    requires modular > 0
  {
    if n == 0 then []
    else Rounds(modular, n - 1) + [DoPut(Drawn(0, modular, n), Drawn(0, modular, n)), DoGet(Drawn(1, modular, n))]
  }

  /** Round i + 1 puts a key under itself and then gets one; the keys are the draws of the streams
      from 0 and from 1, reduced to the range. */
  lemma {:induction false} RoundsAt(modular: nat, n: nat, i: nat)
    requires modular > 0 && i < n
    ensures |Rounds(modular, n)| == 2 * n
    ensures var put, get := Lcg.Draws(0, i + 1) % modular, Lcg.Draws(1, i + 1) % modular;
            Rounds(modular, n)[2 * i] == DoPut(put, put) && Rounds(modular, n)[2 * i + 1] == DoGet(get)
  {
    if i < n - 1 {
      RoundsAt(modular, n - 1, i);
    } else {
      RoundsLength(modular, n - 1);
      Lcg.DrawsAreTheStream(0, n);
      Lcg.DrawsAreTheStream(1, n);
    }
  }

  lemma {:induction false} RoundsLength(modular: nat, n: nat)
    requires modular > 0
    ensures |Rounds(modular, n)| == 2 * n
  {
    if n > 0 {
      RoundsLength(modular, n - 1);
    }
  }

  /** Both generators' states, the cache and the number of hits. */
  datatype Game = Game(seed0: nat, seed1: nat, cache: Cache, hits: nat)

  /** One round: draw and put, draw and get. */
  function NextGame(size: nat, modular: nat, g: Game): Game
    requires modular > 0
  {
    var next0, next1 := Lcg.Step(g.seed0), Lcg.Step(g.seed1);
    var r := Get(Put(g.cache, size, next0 % modular, next0 % modular), next1 % modular);
    Game(next0, next1, r.0, g.hits + if r.1.Some? then 1 else 0)
  }

  /** The game after `i` rounds, from the runs of the recency sequence. */
  ghost function After(size: nat, modular: nat, i: nat): Game
    requires modular > 0
  {
    Game(Lcg.Iterate(Lcg.A, Lcg.C, Lcg.M, 0, i), Lcg.Iterate(Lcg.A, Lcg.C, Lcg.M, 1, i),
         Run(size, Rounds(modular, i)), Hits(size, Rounds(modular, i)))
  }

  /** One round more is two operations more on the recency sequence. */
  lemma AfterNext(size: nat, modular: nat, i: nat)
    requires modular > 0
    ensures After(size, modular, i + 1) == NextGame(size, modular, After(size, modular, i))
  {
    var ops := Rounds(modular, i);
    var n0, n1 := Drawn(0, modular, i + 1), Drawn(1, modular, i + 1);
    Lcg.StepIsIterate(0, i);
    Lcg.StepIsIterate(1, i);
    RunSnoc(size, ops, DoPut(n0, n0));
    RunSnoc(size, ops + [DoPut(n0, n0)], DoGet(n1));
    assert Rounds(modular, i + 1) == ops + [DoPut(n0, n0)] + [DoGet(n1)];
  }

  /** Entry i + 1 is entry i after one round. */
  ghost predicate Follows(size: nat, modular: nat, games: seq<Game>, i: nat)
    requires modular > 0 && i + 1 < |games|
  {
    games[i + 1] == NextGame(size, modular, games[i])
  }

  ghost predicate IsHistory(size: nat, modular: nat, games: seq<Game>)
    requires modular > 0
  {
    |games| >= 1 && games[0] == Game(0, 1, [], 0) && forall i :: 0 <= i < |games| - 1 ==> Follows(size, modular, games, i)
  }

  /** The games before, between and after `n` rounds. */
  lemma History(size: nat, modular: nat, n: nat) returns (games: seq<Game>)
    requires modular > 0
    ensures |games| == n + 1 && IsHistory(size, modular, games)
    ensures games[n].hits == Hits(size, Rounds(modular, n))
  {
    games := Games(size, modular, n);
    GamesEnds(size, modular, n);
    forall i | 0 <= i < n ensures Follows(size, modular, games, i) {
      GamesFollow(size, modular, n, i);
    }
  }

  lemma GamesFollow(size: nat, modular: nat, n: nat, i: nat)
    requires modular > 0 && i < n
    ensures Follows(size, modular, Games(size, modular, n), i)
  {
    GamesAt(size, modular, n, i);
    GamesAt(size, modular, n, i + 1);
    AfterNext(size, modular, i);
  }

  lemma GamesEnds(size: nat, modular: nat, n: nat)
    requires modular > 0
    ensures Games(size, modular, n)[0] == Game(0, 1, [], 0)
    ensures Games(size, modular, n)[n].hits == Hits(size, Rounds(modular, n))
  {
    GamesAt(size, modular, n, 0);
    GamesAt(size, modular, n, n);
  }

  ghost function Games(size: nat, modular: nat, n: nat): (games: seq<Game>)
    requires modular > 0
    ensures |games| == n + 1
  {
    if n == 0 then [After(size, modular, 0)] else Games(size, modular, n - 1) + [After(size, modular, n)]
  }

  lemma {:induction false} GamesAt(size: nat, modular: nat, n: nat, i: nat)
    requires modular > 0 && i <= n
    ensures Games(size, modular, n)[i] == After(size, modular, i)
  {
    if i < n {
      GamesAt(size, modular, n - 1, i);
    }
  }
}
