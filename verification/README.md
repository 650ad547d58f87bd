# Verified models of the Valk benchmark and generator algorithms

The Valk repository carries a set of benchmark programs (Rust and Go, in `examples/bench`) and a set
of Python generators for the data files of its standard library (in `misc`). This project models the
algorithms in them and proves what they are for. Nothing here was executed; every statement is a
proof that Dafny 4.11 checks with `dafny verify dfyconfig.toml`.

| modules | system | main results |
|---|---|---|
| `Permutations`, `Fannkuch` | the fannkuch-redux engine | every permutation is visited exactly once; the flip loop ends within 2^(n-1) - 1 flips; the nested work blocks compute what one sequential pass computes |
| `Lcg` | the pseudo-random generator of five benchmarks | full period if and only if a = 1 (mod 4) and c is odd; the 32-bit and 64-bit forms agree |
| `Recency`, `MostRecent`, `Inclusion`, `RustLru`, `GoLru`, `LruRounds` | the LRU caches | both caches refine one recency sequence, which after every run holds exactly the keys used last, in the order of their last use; a larger cache includes a smaller one over every run |
| `UnicodeTables`, `UnicodeCodec`, `UnicodeText`, `UnicodeRanges` | the case-mapping compressor and its text tables | the greedy runs are irreducible; decoding the text restores every mapping; for codes and targets below 2^24 it reads back if and only if the expansions' offsets and lengths are below 2^24 too |
| `Words`, `Decimal`, `Channels`, `Messages` | bounded channels with one producer | in-order delivery, no deadlock, termination and a schedule-independent total |
| `Workers`, `SharedLock`, `SharedCache` | workers behind one mutex | no lost update, schedule independence, no deadlock, termination |
| `SpectralNorm` | the parallel matrix product | for every worker count and arrival order, the sequential product bit for bit |
| `FloatCache` | the reciprocal tables of the float formatter | multiplying by a table entry and shifting is exact division |
| `TzData` | the time-zone container | writing succeeds if and only if every number fits its field; reading inverts it if and only if the version is ASCII |
| `ListRotation`, `Sieve` | the list rotation of the collector benchmark, the prime sieve | R rounds rotate by R mod n in place; the count is the number of primes |
| `Numbers`, `Options` | arithmetic and optional values shared by the others | |

State that the programs change step by step is changed step by step here: the Rust list and both
caches are classes over nodes, the sieve, the digit counter and the output of the matrix product are
arrays, the list rotation rewrites `next` fields, and the loops carry their invariants. The
concurrent programs are transition systems in which every interleaving of the atomic steps is a run.

Conditions under which a promise of the original fails are part of the statements:

* `TzData.ReadInvertsWrite`: the version's length byte counts characters and the text is written as
  UTF-8, so a version that is not ASCII never reads back by the documented layout;
  `TzData.AccentedVersion` gives one.
* `UnicodeText.EmitMapping`: a value of 2^24 or more takes seven digits, and a table that holds one
  never reads back. Codes and targets below 2^24 are not enough: the offsets and lengths of the
  expansion records count too. The condition is on the mapping alone, and
  `UnicodeText.LongExpansion` gives a mapping that fails it.
* `GoLru.Lru.Put`: a new key in a cache of size 0 dereferences a missing front element; the Rust
  cache of size 0 stays empty. `GoLru.Benchmark` shows that the benchmark never gets there.
* `RustLru.Benchmark`, `GoLru.Benchmark`: the key range is ten times the size in 32 bits; it wraps to
  0, and the first remainder fails, exactly for sizes that are multiples of 2^31.
* `Fannkuch.FannkuchRedux`: more elements than lanes fail the program's assertion.

## Model

| member | source | states |
|---|---|---|
| Permutations.ReverseArrayIsPrefixReversal | examples/bench/fannkuch-redux/main.rs:7-34 | the reversal masks reverse the lanes up to the given one and keep the others |
| Permutations.RotateArrayIsPrefixRotation | examples/bench/fannkuch-redux/main.rs:37-64 | the rotation masks move lane 0 behind the next `layer` lanes and keep the others |
| Permutations.FullRotation | examples/bench/fannkuch-redux/main.rs:79-82 | a digit that wraps to zero has rotated its layer back to where it began, so a carry changes no lane |
| Permutations.NextDigitsRank | examples/bench/fannkuch-redux/main.rs:78-83 | one advance adds one to the factorial-base value of the low layers, or clears them exactly when that value was the last and counts the layer above, wrapping it after its own number |
| Permutations.RankInjective | examples/bench/fannkuch-redux/main.rs:78-83 | two valid counters with the same factorial-base value are the same counter |
| Permutations.RotateArrangement | examples/bench/fannkuch-redux/main.rs:79-82 | with the lower digits zero, rotating a layer of the arrangement is the arrangement of the digits with that layer counted up or wrapped |
| Permutations.AdvanceKeepsArrangement | examples/bench/fannkuch-redux/main.rs:77-85 | advancing array and counter together keeps the array equal to R1^c1(R2^c2(...)) of the base for the digits c |
| Permutations.ArrangeInjective | examples/bench/fannkuch-redux/main.rs:77-85 | different digits arrange distinct lanes differently |
| Permutations.ArrangeSurjective | examples/bench/fannkuch-redux/main.rs:77-85 | every reordering of the lower lanes is the arrangement of some valid digits |
| Fannkuch.AdvanceArray | examples/bench/fannkuch-redux/main.rs:77-85 | the loop over the layers updates the counter in place and returns the rotated array, as the specification of one increment says |
| Fannkuch.ArrangementAt | examples/bench/fannkuch-redux/main.rs:77-138 | after any number of advances the array is the counter's arrangement and a permutation, and `count[1]` is the parity of the position |
| Fannkuch.RankAt | examples/bench/fannkuch-redux/main.rs:77-85 | after i < lanes! advances the factorial-base counter reads i |
| Fannkuch.PermAtIsPermutation | examples/bench/fannkuch-redux/main.rs:97-138 | the first n! positions hold permutations of 0..n-1 with the upper lanes in place |
| Fannkuch.PermAtInjective | examples/bench/fannkuch-redux/main.rs:97-138 | no permutation occurs at two positions |
| Fannkuch.PermAtSurjective | examples/bench/fannkuch-redux/main.rs:97-138 | every permutation of n elements occurs within the first n! positions |
| Fannkuch.EnumeratesEachPermutationOnce | examples/bench/fannkuch-redux/main.rs:97-138 | for every n up to the lane count: an array is a permutation of 0..n-1 if and only if it is visited in the first n! positions, and then at one position only |
| Fannkuch.FlipRaisesWeight | examples/bench/fannkuch-redux/main.rs:127-132 | a flip keeps the permutation and strictly raises the sum of 2^(i-1) over the lanes i >= 1 that hold i |
| Fannkuch.FlipsBound | examples/bench/fannkuch-redux/main.rs:127-132 | no permutation of n elements takes more than 2^(n-1) - 1 flips |
| Fannkuch.FlipTimesNext | examples/bench/fannkuch-redux/main.rs:127-132 | repetition k + 1 turns around the lanes up to the one that lane 0 names and keeps the others |
| Fannkuch.FlipsIsLeast | examples/bench/fannkuch-redux/main.rs:127-132 | the flip count is the least number of repetitions that brings 0 to the front, and no other number is |
| Fannkuch.CountFlips | examples/bench/fannkuch-redux/main.rs:123-132 | the inner loop terminates for every permutation with the array after `rev_count` reversals, 0 in front for the first time; the count stays within the bound |
| Fannkuch.ConditionalNegation | examples/bench/fannkuch-redux/main.rs:133-134 | on words of any width, xor with the negated bit and adding the bit is the integer formula, and negates exactly when the bit is one |
| Fannkuch.ChecksumTerm | examples/bench/fannkuch-redux/main.rs:133-134 | in words of at least as many binary digits as there are lanes no flip count overflows, and each permutation adds its flip count, negated at odd positions |
| Fannkuch.Evaluate | examples/bench/fannkuch-redux/main.rs:123-136 | one permutation adds its flip count, negated at odd positions, and its flip count to the maximum; a leading 0 adds nothing |
| Fannkuch.JoinAdjacent | examples/bench/fannkuch-redux/main.rs:140-141 | the fold step joins the totals of two adjacent ranges of positions to the totals of the whole range |
| Fannkuch.TotalsByFlips | examples/bench/fannkuch-redux/main.rs:120-136 | no positions give (0, 0), and each position adds the least number of reversals of its permutation, negated at odd positions, and raises the maximum to it |
| Fannkuch.MaxFlipsIsMaximum | examples/bench/fannkuch-redux/main.rs:135-141 | the second result is attained by a permutation of n elements, exceeded by none, and at most 2^(n-1) - 1 |
| Fannkuch.BlockStarts | examples/bench/fannkuch-redux/main.rs:97-113 | entry j of the block list is the array rotated j times |
| Fannkuch.BlockPositions | examples/bench/fannkuch-redux/main.rs:103-118 | the blocks follow each other without gap and end at n! |
| Fannkuch.BlockStart | examples/bench/fannkuch-redux/main.rs:103-117 | the array and the counter with which block (r1, r2) starts are those of the sequential pass at the block's position |
| Fannkuch.BlockStep | examples/bench/fannkuch-redux/main.rs:122-138 | layer k changes its count exactly when k! permutations of the block have passed |
| Fannkuch.WorkBlock | examples/bench/fannkuch-redux/main.rs:114-139 | a block's loop terminates and returns the totals of its (n-2)! positions of the sequential pass |
| Fannkuch.WorkBlocks | examples/bench/fannkuch-redux/main.rs:103-140 | the blocks of one outer rotation fold to the totals of their (n-1)! positions |
| Fannkuch.FannkuchRedux | examples/bench/fannkuch-redux/main.rs:87-142 | for every n up to the lane count, the special cases 0, 1 and 2 included, the nested fold returns the alternating sum of flip counts and the maximum of one sequential pass over n! positions; above the lane count it fails |
| Fannkuch.FirstSixPermutations | examples/bench/fannkuch-redux/main.rs:97-138 | the first six permutations, in the order visited: 012, 102, 120, 210, 201, 021 |
| Fannkuch.ThreeElements | examples/bench/fannkuch-redux/main.rs:87-142 | for three elements the totals are checksum 2 and maximum 2 |
| Lcg.ClosedForm | examples/bench/lru/main.rs:120-127 | n steps add (1 + a + ... + a^(n-1)) times the change of the first step, modulo m |
| Lcg.GeometricDivisibility | examples/bench/lru/main.rs:120-127 | for a = 1 (mod 4), 2^k divides 1 + a + ... + a^(n-1) if and only if it divides n |
| Lcg.ReturnsExactlyAfterPeriod | examples/bench/lru/main.rs:120-127 | n steps return to the seed if and only if 2^k divides n |
| Lcg.StreamRepeats | examples/bench/lru/main.rs:120-127 | two positions of the stream agree if and only if they differ by a multiple of 2^k |
| Lcg.HasFullPeriod | examples/bench/lru/main.rs:120-127 | with a = 1 (mod 4) and c odd, every residue modulo 2^k appears in the first 2^k positions, from every seed |
| Lcg.FullPeriodExactly | examples/bench/lru/main.rs:120-127 | from modulus 4 on and from every seed, the stream visits all residues if and only if a = 1 (mod 4) and c is odd |
| Lcg.BenchmarkGeneratorPeriod | examples/bench/lru/main.rs:120-127 | the benchmarks' constants give period exactly 2^31 from every seed below 2^31 |
| Lcg.WrappingIsExact | examples/bench/lru/main.rs:124-126 | multiplying and adding modulo 2^32 before the reduction modulo 2^31 loses nothing |
| Lcg.Next | examples/bench/lru/main.go:10-26 | the 32-bit wrapping form is (1103515245 r + 12345) mod 2^31 without wrapping |
| Lcg.Generator.Draw | examples/bench/lru/main.rs:115-127 | a draw advances the seed in place by one step and returns it |
| Lcg.NextWide | examples/bench/shared-lock/main.go:26 | the 64-bit wrapping form is (1103515245 r + 12345) mod 2^31 without wrapping, from every state |
| Lcg.DrawsAreTheStream | examples/bench/shared-cache/main.go:31-33 | from every seed, n draws of the 32-bit form and n draws of the 64-bit form both give position n of the stream modulo 2^31 |
| Lcg.FirstDraws | examples/bench/lru/main.rs:106-127 | the first two draws from seed 0 and from seed 1 |
| Recency.ApplyKeepsInvariant | examples/bench/lru/main.go:39-66 | a get or put keeps the keys distinct, never shrinks the cache and never exceeds its size |
| Recency.RunInvariant | examples/bench/lru/main.go:39-66 | after every run from empty the keys are distinct and at most `size` |
| Recency.CacheIsCoherent | examples/bench/lru/main.go:39-66 | over every run, a value found for a key is the value of the last put to it |
| Recency.GetEffect | examples/bench/lru/main.go:39-47 | a miss changes nothing and finds nothing; a hit finds the entry's value and moves that entry behind all others, whose order is kept |
| Recency.PutEffect | examples/bench/lru/main.go:49-66 | a put leaves the key's entry with the new value behind all others, in place of its old entry, or of the oldest where the cache is full, or of none; size 0 holds nothing |
| Recency.HitsAreCounted | examples/bench/lru/main.go:91-95 | the hit count is the number of gets that find their key |
| MostRecent.ByLastUseMembers | examples/bench/lru/main.go:39-66 | the list of used keys holds each key used by a put or a hit, and no other |
| MostRecent.ByLastUseIsOrdered | examples/bench/lru/main.go:39-66 | that list has no key twice and is in the order of the last uses |
| MostRecent.CacheIsMostRecent | examples/bench/lru/main.go:39-66 | after every run the cache holds exactly the `size` keys used last, in the order of their last use, each with the value last put to it |
| MostRecent.CachedExactly | examples/bench/lru/main.go:39-66 | a key is cached if and only if it was used and fewer than `size` other keys have been used since |
| Inclusion.ApplyKeepsInclusion | examples/bench/lru/main.go:39-66 | one operation keeps the smaller cache a subsequence of the larger with equal values, and equal to it while it has room, also where only the larger one hits |
| Inclusion.InclusionOverRuns | examples/bench/lru/main.go:81-98 | the same over every run and every two sizes |
| Inclusion.HitsGrowWithSize | examples/bench/lru/main.go:87-97 | what hits in the smaller cache hits in the larger with the same value, and the number of hits grows with the size |
| Inclusion.RetainedWhileFewOthers | examples/bench/lru/main.go:39-66 | a key that was put, or that a get found, stays cached for as long as fewer than `size` other keys are mentioned |
| RustLru.LinkedList.Add | examples/bench/lru/main.rs:44-50 | appends a new node: links, inverse links, tail and length agree and the entries are the old ones and the new one |
| RustLru.LinkedList.AddNode | examples/bench/lru/main.rs:52-67 | links an unlisted node behind the tail, whose upgrade succeeds, and changes no entry |
| RustLru.LinkedList.Remove | examples/bench/lru/main.rs:69-91 | unlinks the node wherever it is: first, last, both or between |
| RustLru.LinkedList.MoveToEnd | examples/bench/lru/main.rs:93-96 | the node becomes the last, the order of the others and all entries are kept |
| RustLru.LinkedList.HeadMut | examples/bench/lru/main.rs:98-103 | the oldest node, or none exactly when the list is empty |
| RustLru.Lru.ContentsMatchIndex | examples/bench/lru/main.rs:130-184 | the listed keys are distinct and are exactly the keys of the index |
| RustLru.Lru.Get | examples/bench/lru/main.rs:149-158 | result and new order are those of the recency sequence; index and links stay valid |
| RustLru.Lru.Put | examples/bench/lru/main.rs:160-183 | the new order is that of the recency sequence for update, eviction (also at size 0) and insert; at most `size` entries, index and links stay valid |
| RustLru.Lru.Evict | examples/bench/lru/main.rs:167-177 | the oldest node is given to the new key and becomes the youngest |
| LruRounds.KeyRangeIsZero | examples/bench/lru/main.rs:198 | the 32-bit product is ten times the size where that fits, and wraps to 0 exactly for sizes that are multiples of 2^31 |
| LruRounds.RoundsAt | examples/bench/lru/main.rs:203-212 | round i puts draw i from seed 0 under itself and gets draw i from seed 1, both reduced to the key range |
| LruRounds.AfterNext | examples/bench/lru/main.rs:203-212 | one round of draw, put, draw, get is two operations more on the recency sequence, with the next keys of the two streams |
| RustLru.Benchmark | examples/bench/lru/main.rs:186-214 | for every size and n, hits are those of the recency sequence over the same operations and hits and misses add up to n; it fails exactly where the key range is 0 and a round is played |
| GoLru.Lru.ContentsMatchKeys | examples/bench/lru/main.go:28-37 | the listed keys are distinct and are exactly the keys of the map |
| GoLru.Lru.Get | examples/bench/lru/main.go:39-47 | result and new order are those of the recency sequence |
| GoLru.Lru.Put | examples/bench/lru/main.go:49-66 | the new order is that of the recency sequence, except for a new key at size 0, where the program stops |
| GoLru.Lru.Evict | examples/bench/lru/main.go:55-62 | moving the front element first and renaming it afterwards equals dropping the oldest and appending |
| GoLru.Benchmark | examples/bench/lru/main.go:81-98 | the same hits and misses as the Rust benchmark, and no put at size 0 |
| UnicodeTables.ExpansionsOfBelow | misc/generate-unicode.py:25-35 | the specified expansions are exactly the codes that map to no code or to several, ascending |
| UnicodeTables.Classify | misc/generate-unicode.py:24-35 | the single entries and the expansions are exactly the codes that do not map to themselves, ascending, split by length one or not |
| UnicodeTables.DictOf | misc/generate-unicode.py:37 | the dictionary holds exactly the single entries |
| UnicodeTables.Follow | misc/generate-unicode.py:44-49 | the inner loop terminates and collects every code in steps from the start, up to the first that is not available |
| UnicodeTables.ShortRun | misc/generate-unicode.py:50 | fewer than three collected codes mean that no three start there |
| UnicodeTables.NoEarlierNeighbour | misc/generate-unicode.py:41-49 | the code one step before a found run could not have joined it |
| UnicodeTables.FoundRun | misc/generate-unicode.py:46-51 | what is recorded is a progression of at least three unused codes with one delta that no code extends at either end |
| UnicodeTables.AppendRun | misc/generate-unicode.py:50-52 | recording a run keeps all runs disjoint, maximal progressions whose union is `used` |
| UnicodeTables.Search | misc/generate-unicode.py:43-50 | from one entry, either too few codes to start a run or a maximal progression of unused codes that starts at it |
| UnicodeTables.Visit | misc/generate-unicode.py:41-52 | one entry of a pass keeps the run invariant and leaves no three unused codes starting at it |
| UnicodeTables.Pass | misc/generate-unicode.py:40-52 | a pass keeps the run invariant and leaves no three unused codes in its step with one delta |
| UnicodeTables.SortedAscending | misc/generate-unicode.py:54 | the runs come out in tuple order |
| UnicodeTables.SortKeepsInvariant | misc/generate-unicode.py:54 | sorting keeps the runs disjoint, maximal and with the same union |
| UnicodeTables.Leftover | misc/generate-unicode.py:54 | the leftovers are exactly the single entries outside `used`, ascending |
| UnicodeTables.Compress | misc/generate-unicode.py:23-54 | for every mapping: disjoint, maximal, sorted progressions of at least three codes whose union is `used`, leftovers exactly outside it, no three leftovers with one delta in step 1 or 2, and exactly the expansions |
| UnicodeTables.RunMeans | misc/generate-unicode.py:46-51 | a run of a compression has at least three codes in steps of one or two, each mapped to the run's target plus its distance |
| UnicodeTables.CodesOccurOnce | misc/generate-unicode.py:42-54 | no code is in two runs, and none in a run and among the leftovers |
| UnicodeTables.CodesAreKept | misc/generate-unicode.py:37-54 | a code that maps to one code differs from it if and only if it is a leftover or in a run |
| UnicodeTables.LeftoversExtendNoRun | misc/generate-unicode.py:47-54 | no leftover with a run's difference lies one step before or behind that run |
| UnicodeTables.NoThreeLeftovers | misc/generate-unicode.py:40-54 | no three leftovers in steps of one or two have one difference |
| UnicodeTables.RunsAscend | misc/generate-unicode.py:54 | the runs are in the order of their first codes, which differ |
| UnicodeCodec.ApplyRun | misc/generate-unicode.py:88-90 | the loop over a run binds exactly its codes, each to the target shifted by its distance |
| UnicodeCodec.Decode | misc/generate-unicode.py:85-90 | the dictionary says of every code what the last run, else the expansion, else the single entry says |
| UnicodeCodec.DecodeRestores | misc/generate-unicode.py:84-98 | decoding an irreducible compressed form gives back the mapping at every code |
| UnicodeCodec.ValidateMapping | misc/generate-unicode.py:84-98 | the generator's own check passes for every mapping |
| UnicodeText.SixDigitsValue | misc/generate-unicode.py:61 | the padded text has the value it was made from, and six digits if and only if the value is below 2^24 |
| UnicodeText.SixDigitsAt | misc/generate-unicode.py:61 | character k of a value below 2^24 is digit v / 16^(5-k) mod 16 of 0123456789abcdef |
| UnicodeText.EmitTableAt | misc/generate-unicode.py:61 | characters 6i to 6i + 5 of a table are the six digits of value i |
| UnicodeText.TableRoundTrip | misc/generate-unicode.py:57-62 | a table reads back by six characters if and only if every value is below 2^24 |
| UnicodeText.RunFieldsAt | misc/generate-unicode.py:51-77 | values 4i to 4i + 3 of the flattened runs are first code, last code, step and target of run i |
| UnicodeText.SingleFieldsAt | misc/generate-unicode.py:78 | values 2i and 2i + 1 of the flattened single entries are code and target of entry i |
| UnicodeText.RecordFieldsAt | misc/generate-unicode.py:74 | values 3i to 3i + 2 of the flattened records are code, offset and length of record i |
| UnicodeText.RecordsOfAt | misc/generate-unicode.py:73-75 | record i has the code of expansion i and its offset and length cut exactly its points out of the value table |
| UnicodeText.RunsReadBack | misc/generate-unicode.py:65-66 | flattened runs read back by four |
| UnicodeText.SinglesReadBack | misc/generate-unicode.py:65-66 | flattened single entries read back by two |
| UnicodeText.RecordsReadBack | misc/generate-unicode.py:65-66 | flattened expansion records read back by three |
| UnicodeText.RecordExpansions | misc/generate-unicode.py:71-75 | offset and length of every record name that expansion's points in the shared value table |
| UnicodeText.FitsExactly | misc/generate-unicode.py:58-81 | for codes and targets below 2^24, every number in the four tables is below 2^24 if and only if the offset and the length of every expansion of the mapping are |
| UnicodeText.TablesReadBack | misc/generate-unicode.py:71-81 | the four tables read back as the compressed form if and only if all their numbers are below 2^24 |
| UnicodeText.WriteTables | misc/generate-unicode.py:71-81 | the four texts are those of the flattened runs, single entries and expansion records and of the expansion values, in this order |
| UnicodeText.EmitMapping | misc/generate-unicode.py:69-81 | for every mapping the four texts are those of a compressed form of it; with codes and targets below 2^24 the text reads as a compressed form of the mapping if and only if the offsets and lengths of its expansions are below 2^24, and then decoding it gives back the mapping at every code |
| UnicodeText.LongExpansion | misc/generate-unicode.py:73-75 | codes and targets below 2^24 are not enough: a code that expands to 2^24 codes has a length of seven digits |
| UnicodeRanges.RangesFor | misc/generate-unicode.py:13-20 | the ranges list exactly the given values in order, and none continues the one before it |
| UnicodeRanges.ExpandMembers | misc/generate-unicode.py:13-20 | a value is listed if and only if it lies between the ends of some range, both included |
| UnicodeRanges.SeparatedRangesUnique | misc/generate-unicode.py:13-20 | there is no other such list of ranges for the same values |
| Channels.StepKeepsInvariant | examples/bench/shared-broadcast/main.go:28-72 | every step keeps: received then inbox is the prefix sent so far, inboxes stay within capacity, totals are those of what was received |
| Channels.RunInvariant | examples/bench/shared-broadcast/main.go:28-72 | the same in every state of every interleaving |
| Channels.NoDeadlock | examples/bench/shared-broadcast/main.go:28-67 | until the producer has finished, some step is enabled, for every capacity of at least one |
| Channels.RunsAreBounded | examples/bench/shared-broadcast/main.go:28-67 | no run has more than subscribers * (2 * messages + 2) + 1 steps |
| Channels.CompleteRun | examples/bench/shared-broadcast/main.go:46-72 | a run that can go no further has delivered every message to every subscriber in order, and its total is subscribers times the sum, modulo 2^64 |
| Messages.Render | examples/bench/shared-broadcast/main.go:17-26 | the loops with wrap-around compute the reduced sum of id, room, body and mentions |
| Decimal.FormatUintIsDecimal | examples/bench/shared-broadcast/main.go:57 | decimal digits without a leading zero that stand for the number |
| Decimal.FormatUintExample | examples/bench/shared-broadcast/main.go:57 | the digits of 1203 |
| Words.WordIsPower | examples/bench/shared-lock/main.go:18-21 | sums of `uint64` values wrap at 2^64 |
| Messages.RenderedMessage | examples/bench/shared-broadcast/main.go:56-59 | what a subscriber adds for message i: the sum of i, i mod 10, the sentence three times, the caption, the digits of i, i mod 100 and i mod 1000 |
| Messages.BroadcastChecksum | examples/bench/shared-broadcast/main.go:56-73 | the printed checksum is four times the sum of all renderings modulo 2^64, in every schedule |
| Messages.PacketsJoin | examples/bench/shared-channel/main.go:16-26 | the ids of consecutive producers join to one range, also where they wrap |
| Messages.ConsumedPacket | examples/bench/shared-channel/main.go:16-37 | modulo 2^64 a consumer adds 9 id + 28 and the number of digits of the id |
| Messages.PairResult | examples/bench/shared-channel/main.go:28-37 | in every schedule a consumer returns the sum over its producer's packets, modulo 2^64 |
| Messages.PairsChecksum | examples/bench/shared-channel/main.go:45-61 | the pairs together report what one pair would report for all ids, in every schedule of each |
| Workers.SomeCanMove | examples/bench/shared-lock/main.go:25-31 | among workers of which only one can be past the lock, some can move until all rounds are done |
| Workers.TracesAreBounded | examples/bench/shared-lock/main.go:25-31 | every run of workers with five steps a round is over after at most five steps a round |
| SharedLock.StepKeepsInvariant | examples/bench/shared-lock/main.go:23-32 | every step keeps: at most one worker between lock and unlock, its value read is current, and every key's count is the number of updates that reached it |
| SharedLock.RunInvariant | examples/bench/shared-lock/main.go:23-56 | the same in every state of every interleaving of draw, lock, read, write and unlock |
| SharedLock.NoDeadlock | examples/bench/shared-lock/main.go:23-55 | until all updates are made, some worker can move |
| SharedLock.RunsAreBounded | examples/bench/shared-lock/main.go:23-55 | no run has more than five steps an update |
| SharedLock.NoLostUpdate | examples/bench/shared-lock/main.go:23-55 | in every complete run the map binds exactly the drawn keys, each to the number of times the workers' streams drew it, modulo 2^64 |
| SharedLock.DrawnInIsCount | examples/bench/shared-lock/main.go:26-29 | a worker's count for a key is the size of the set of its draws whose remainder by the number of keys is the index of that key |
| SharedLock.Report | examples/bench/shared-lock/main.go:57-66 | in any visiting order `most` is the largest value (0 for an empty map) and `total` the wrapped sum of all values |
| SharedLock.ReportedTotal | examples/bench/shared-lock/main.go:44-67 | the reported total is workers times updates modulo 2^64 for every schedule and every visiting order |
| SharedCache.EntryFields | examples/bench/shared-cache/main.go:16-22 | the entry of a key: the key, "entry" with the key in decimal, and sixteen words 31 key + i modulo 2^64 |
| SharedCache.UseOfEntry | examples/bench/shared-cache/main.go:45-48 | using the entry of a key adds 497 key + 125 and the number of its digits, modulo 2^64 |
| SharedCache.AloneNext | examples/bench/shared-cache/main.go:32-50 | one operation more adds nothing where the draw is a multiple of ten, and otherwise what the entry of the draw's slot adds |
| SharedCache.Work | examples/bench/shared-cache/main.go:29-53 | a worker by itself computes a total that depends only on its seed and leaves every slot as it was |
| SharedCache.Fill | examples/bench/shared-cache/main.go:65-68 | before the workers start, exactly the slots are bound, each to its entry |
| SharedCache.StepKeepsInvariant | examples/bench/shared-cache/main.go:29-53 | every step keeps: each slot bound to the content of its entry, at most one worker behind the lock, each total the one the worker would have alone |
| SharedCache.RunInvariant | examples/bench/shared-cache/main.go:29-79 | the same in every state of every interleaving |
| SharedCache.ReadersFindTheirEntry | examples/bench/shared-cache/main.go:41-48 | a reader never finds an empty slot, and what it uses after unlocking is the entry of its key |
| SharedCache.NoDeadlock | examples/bench/shared-cache/main.go:29-79 | until all operations are done, some worker can move |
| SharedCache.RunsAreBounded | examples/bench/shared-cache/main.go:29-79 | no run has more than five steps an operation |
| SharedCache.ScheduleIndependent | examples/bench/shared-cache/main.go:70-79 | in every complete run each worker returns what it returns alone |
| SharedCache.WorkersInTurn | examples/bench/shared-cache/main.go:65-83 | the workers run one after another on one cache add up to the sum of what each computes alone |
| SharedCache.ChecksumOfAnySchedule | examples/bench/shared-cache/main.go:65-83 | every schedule ends with that same checksum |
| SpectralNorm.EvalALaws | examples/bench/spectral-norm-multi/main.go:15-18 | 1 in the corner, one more for each step down an antidiagonal, one more from its foot to the head of the next |
| SpectralNorm.EvalAIsBijection | examples/bench/spectral-norm-multi/main.go:15-18 | every positive integer is the denominator of exactly one matrix entry, and no other number is |
| SpectralNorm.RowSumTerms | examples/bench/spectral-norm-multi/main.go:23-30 | the sum starts at zero and adds input j over entry (i, j), or (j, i) for the transposed product, in the order of j |
| SpectralNorm.ProductOfTwo | examples/bench/spectral-norm-multi/main.go:20-34 | both products of a vector of two, written out |
| SpectralNorm.MultiplyRange | examples/bench/spectral-norm-multi/main.go:20-34 | a chunk holds its rows of the sequential product, summed in the same order |
| SpectralNorm.ChunksSuffice | examples/bench/spectral-norm-multi/main.go:37 | the rounded-up chunk size times the workers covers the input, and is positive for a nonempty one |
| SpectralNorm.ChunksTile | examples/bench/spectral-norm-multi/main.go:40-48 | for every chunk size with which the workers suffice, every position lies in exactly one started chunk |
| SpectralNorm.StartWorkers | examples/bench/spectral-norm-multi/main.go:37-53 | exactly the chunks that start inside the input are started, each with its rows |
| SpectralNorm.Multiply | examples/bench/spectral-norm-multi/main.go:36-61 | for every length, worker count and order of arrival the output is the sequential product |
| SpectralNorm.MultiplyAtA | examples/bench/spectral-norm-multi/main.go:63-65 | the two products in turn, the second transposed |
| FloatCache.Pow5Laws | misc/generate-float-cache.py:5-54 | the powers are those of five; 125 bits, 292 reciprocals and 327 powers |
| FloatCache.InverseRange | misc/generate-float-cache.py:53-56 | every reciprocal lies above 2^124 and not above 2^125 |
| FloatCache.InverseIsLeast | misc/generate-float-cache.py:53-56 | the reciprocal is the least number whose product with the power reaches the shifted one |
| FloatCache.ReciprocalDivides | misc/generate-float-cache.py:53-56 | for every exponent and every m up to 2^124, (m * r) >> (124 + bit length of 5^e) is m / 5^e rounded down |
| FloatCache.NormalizedPower | misc/generate-float-cache.py:44-50 | a power of at most 125 bits is kept exactly, a longer one keeps its leading 125 bits rounded up, and the result stays within 2^124 and 2^125 |
| FloatCache.SplitLosesNothing | misc/generate-float-cache.py:40-41 | both halves are 64-bit words, and the first times 2^64 plus the second is the value |
| FloatCache.TableEntries | misc/generate-float-cache.py:59-70 | the table has 292 + 327 entries and each holds the high and the low word of the reciprocal or power of its place |
| TzData.EncodeLength | misc/generate-tzdata.py:52 | a text and its UTF-8 encoding are equally long if and only if the text is ASCII |
| TzData.AsciiIsItself | misc/generate-tzdata.py:52 | an ASCII text is written byte for byte |
| TzData.Utf8Forms | misc/generate-tzdata.py:52 | each code is written in the form of its range, and the payloads of its bytes add up to it |
| TzData.DecodeExactly | misc/generate-tzdata.py:52 | bytes decode to a text if and only if they are its encoding, so no two texts share one |
| TzData.BigEndianReadsBack | misc/generate-tzdata.py:53-57 | four bytes, most significant first, read back |
| TzData.BigEndianDigits | misc/generate-tzdata.py:53 | byte k is v / 256^(3-k) mod 256 |
| TzData.BuildBlob | misc/generate-tzdata.py:44-49 | the blob is the distinct contents end to end in order of first appearance; the offsets bind exactly the zones' contents, each to the length of the distinct contents that appear before it, where it is found |
| TzData.OffsetOfZone | misc/generate-tzdata.py:46-49 | the offset recorded for a zone depends on the zones alone |
| TzData.FilesDisjoint | misc/generate-tzdata.py:46-49 | distinct contents occupy disjoint intervals in order, inside the blob |
| TzData.IndexReadsBack | misc/generate-tzdata.py:54-57 | an index of entries that fit their fields reads back |
| TzData.EntryFields | misc/generate-tzdata.py:55-57 | an index entry is length byte, name, offset and length at their positions |
| TzData.WriteIndexSnoc | misc/generate-tzdata.py:54-57 | the index is the entries one after the other |
| TzData.ContainerFields | misc/generate-tzdata.py:51-58 | magic, length byte, version, count, index and blob stand at their positions |
| TzData.WriteNames | misc/generate-tzdata.py:54-57 | the name loop succeeds if and only if every name, offset and length fits its field, and writes the entries of the zones in order |
| TzData.ContainerReadsBack | misc/generate-tzdata.py:7-11 | a container laid out as documented reads back |
| TzData.Write | misc/generate-tzdata.py:44-58 | it stops if and only if a length, count or offset, all determined by the version and the zones, does not fit its field; otherwise it writes header, index and deduplicated blob as specified, byte for byte |
| TzData.ReadInvertsWrite | misc/generate-tzdata.py:7-11 | reading what is written by the documented layout and decoding its texts gives back exactly the version and the named files if and only if the version is ASCII |
| TzData.AccentedVersion | misc/generate-tzdata.py:52 | a version of one accented letter is written without an error and cannot be read |
| TzData.SharedFile | misc/generate-tzdata.py:44-58 | the container of three names of which two share a file, byte for byte |
| ListRotation.Chain | examples/bench/gc/main.go:45-54 | a nil-terminated chain of max(n, 1) distinct new nodes |
| ListRotation.LenChain | examples/bench/gc/main.go:56-63 | the walk terminates and counts the nodes |
| ListRotation.RotateOnce | examples/bench/gc/main.go:227-238 | one round relinks the same nodes, rotated left by one, nil-terminated; a single node is left alone |
| ListRotation.RotateTimesIs | examples/bench/gc/main.go:226-239 | R rounds are a rotation by R mod n |
| ListRotation.Mutate | examples/bench/gc/main.go:226-239 | R rounds on any given chain, with the early stop: the same nodes are relinked in place as the chain rotated left by R mod n, nil-terminated, without loss, sharing or cycle, and the returned head is node R mod n |
| ListRotation.MutateAndCount | examples/bench/gc/main.go:226-249 | after the rounds the given chain is rotated left by R mod n and the walk counts its n nodes |
| ListRotation.BenchMutateLinks | examples/bench/gc/main.go:218-249 | for every chain length and number of rounds the counted length is that of the chain built |
| Sieve.PrimeDivisor | examples/bench/nsieve/main.go:12-14 | every number from 2 on has a prime divisor |
| Sieve.UnstruckIsPrime | examples/bench/nsieve/main.go:13 | once the primes below i have struck their multiples, i is unmarked if and only if it is prime |
| Sieve.Strike | examples/bench/nsieve/main.go:15-17 | marks exactly the proper multiples of i |
| Sieve.Nsieve | examples/bench/nsieve/main.go:9-21 | the count is the number of primes below n, and a flag from 2 on is set if and only if its index is not prime |
| Sieve.PrimesAreCounted | examples/bench/nsieve/main.go:9-19 | that number is the size of the set of primes below n |
| Sieve.SmallPrimes | examples/bench/nsieve/main.go:9-19 | the primes below ten are 2, 3, 5 and 7 |

## Left out

- The Valk compiler, garbage collector, standard library, command line and build files: their sources are not part of this model.
- Printing, argument parsing, timing, memory statistics and collector calls in all programs; the benchmarks not named above (plain recursion over trees and lists).
- The shuffle intrinsics and the sixteen hexadecimal mask rows of fannkuch-redux: row k is written as the index function that it spells out, for any number of lanes. Checksums and flip counts are unbounded numbers; `ChecksumTerm` shows that each term is that of the program's words.
- Parallel scheduling inside fannkuch-redux: the program itself folds its blocks in order.
- Reference counts of `Rc` and `Weak`: a weak pointer is a node reference, and its upgrade succeeds because the node is proved to be listed. The hash maps are finite maps, and keys and values, generic in Rust, are numbers of which only equality is used.
- The library list of the Go cache is a sequence of elements; `MoveToBack`, `PushBack` and `Front` are its operations. A negative size is not modelled.
- The benchmark rounds draw both keys before the put; the two streams are independent, so the order of the draws does not matter. The 32-bit product of the key range wraps, as in a release build.
- Where the Unicode data comes from (`unicodedata`, `is_case_ignorable`, `caseless_pairs`): the mapping is a parameter. Strings are sequences of codes; the text around a table's digits is not modelled.
- UnicodeText.EmitMapping: says nothing for mappings with a code or target of 2^24 or more; `WriteTables` covers them, with a condition on the numbers in the tables.
- Goroutine creation and the memory model: threads move in interleaved atomic steps, drawing, locking, reading, writing, unlocking, sending, receiving and closing being one step each. The four channel pairs share nothing and run as separate systems.
- Zero slots or no keys in the shared benchmarks: the first remainder fails there. That the words of the lock benchmark differ from each other is not needed.
- Floating-point rounding in spectral-norm: the operations are parameters, so results are equal as bit patterns; the index arithmetic of `EvalA` is unbounded. The power iteration around the products is not modelled.
- FloatCache.NormalizedPower: how the formatter uses the powers is not visible in the repository; the range and the rounding of each entry are stated.
- Finding, compiling and sorting the zone files: the zones are a parameter. Offsets count from the start of the blob, as the program writes them; the layout comment does not say. A lone surrogate, which the encoder refuses, is encoded here.
- Negative sizes of the sieve, for which the program fails; the sizes that its `main` picks.
