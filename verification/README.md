# A verified model of libleeloo

libleeloo keeps large sets of 32-bit integers as half-open intervals and hands their elements out in
pseudo-random order without ever storing the order. This project models the parts that make this work and
proves that they fit together:

* **Unique random numbers.** `uni` permutes [0, max) with quadratic residues modulo a prime that is 3 modulo 4
  and a shuffled table for the numbers above that prime. `uprng` iterates an affine map and a power modulo a
  prime and retries values that are too large. Both are proved to be bijections, from Fermat's little theorem,
  Euclid's lemma, the Bezout identity and the pigeonhole principle, all proved here.
* **Sets as intervals.** Adding, removing, the merging and subtracting sweeps of `aggregate`, the canonical form
  they produce, searching, the index cache, the value iterator, batches in random order, widening to blocks.
* **Resumable enumeration.** The enumerator by position and the one by promise, as a machine over the steps to do
  and the steps done, over every run with restarts.
* **Properties of intervals.** The sweep line that turns overlapping intervals with properties into a piecewise
  constant map, with and without a removal operation.
* **Helpers.** The dotted-quad parser, and the growing bit field with its signed bit references.

The end-to-end result: setting a generator up over an aggregated list and reading it through the index cache
hands out every element of the set exactly once (`RandomSets.FixedSets`, `RandomSets.FillRounds`), and so does
the enumeration by promise over all its interruptions and restores, for a client that confirms what it was handed
before it restarts (`Enumerators.DeliveredExactlyOnce`, and on the objects themselves `Sessions.Interrupted`).

## How it is organised

| file | content |
|---|---|
| `Words.dfy`, `Arith.dfy`, `Permutations.dfy`, `NumberTheory.dfy` | 32-bit words, congruences and powers, duplicate-free sequences and pigeonhole, primes and Fermat |
| `MathHelpers.dfy`, `PrimeHelpers.dfy`, `LargestPrime.dfy`, `RandEngine.dfy` | `math_helpers.h`, `prime_helpers.h`, the largest 32-bit prime, the random engine |
| `Shuffling.dfy`, `Uni.dfy`, `Uprng.dfy` | the shuffle of the table, and the two generators |
| `Intervals.dfy`, `Sorting.dfy`, `Sweep.dfy`, `ListIntervals.dfy`, `RandomSets.dfy`, `MaxPrefix.dfy` | `interval.h`, `utility.h` and `list_intervals.h` |
| `Runs.dfy`, `Enumerators.dfy`, `Sessions.dfy` | `list_intervals_random.h`: the machine and its runs, the classes that refine it, and a client that is interrupted |
| `Properties.dfy` | `list_intervals_properties.h` |
| `IpsParser.dfy`, `BitField.dfy` | `ips_parser.cpp`, `bit_field.h` |

Conventions. Integers are mathematical; where a 32-bit register matters the wrap-around is written out
(`Words.Wrap`), and 64-bit products are proved to fit. The random engine is an oracle: a `Source` gives a value
for each seed and number of draws, reduced to the asked range, and every statement holds for all sources. A sort
is any reordering by key, so nothing relies on stability. Objects that the program updates in place are classes;
an interval is copied by value everywhere in the program and is a value here.

## Model

| member | source | states |
|---|---|---|
| NumberTheory.Fermat | src/include/leeloo/uprng.h:133-136 | Fermat's little theorem, from the permutation of 1, ..., p - 1 that multiplication by a unit makes |
| NumberTheory.SumOfTwoSquares | src/include/leeloo/uni.h:112-122 | for a prime that is 3 modulo 4, a sum of two squares is divisible by p only when both numbers are: the reason why the two halves of the residue map never meet |
| NumberTheory.PowerInjective | src/include/leeloo/uprng.h:133-136 | raising to a power coprime to p - 1 is injective modulo the prime p |
| NumberTheory.InverseExists | src/include/leeloo/prime_helpers.h:92-104 | a number coprime to m has an inverse modulo m |
| MathHelpers.ExpMod | src/include/leeloo/math_helpers.h:52-64 | computes v^e mod m, for every base, exponent and modulus, with all products on 64 bits; for exponent 0 it is 1 whatever m is |
| MathHelpers.Gcd | src/include/leeloo/math_helpers.h:81-91 | returns the positive common divisor that is an integer combination of the operands (so the greatest one), and 0 for 0 and 0 |
| NumberTheory.GcdIsGreatest | src/include/leeloo/math_helpers.h:81-91 | such a divisor is divisible by, and not below, every other common divisor |
| PrimeHelpers.TrialDivisionDecides | src/include/leeloo/prime_helpers.h:37-49 | an odd number from 3 on is prime if and only if nothing from 3 up to the integer square root divides it |
| PrimeHelpers.IsPrimeTrial | src/include/leeloo/prime_helpers.h:37-49 | says yes exactly when nothing from 3 to the integer square root divides the number: for odd numbers from 3 on, exactly for the primes; below 9, always |
| PrimeHelpers.MatchingPrimeMeaning | src/include/leeloo/prime_helpers.h:51-69 | the specification used for the downward search is the largest prime that is 3 modulo 4 and not above v |
| PrimeHelpers.MatchingPrimeExists | src/include/leeloo/prime_helpers.h:51-69 | the search has no result, and gives 0, exactly below 3 |
| PrimeHelpers.FindPreviousMatchingPrime | src/include/leeloo/prime_helpers.h:51-69 | returns the largest prime that is 3 modulo 4 and not above v, or 0 exactly below 3; for 0 the first candidate wraps around |
| PrimeHelpers.FindNextPrime | src/include/leeloo/prime_helpers.h:71-90 | stops on every input; from 2 on returns the least odd prime not below v, or 1 when there is none in 32 bits |
| PrimeHelpers.NextPrimeMeaning | src/include/leeloo/prime_helpers.h:71-90 | from 3 on that is the least of all primes not below v, when a 32-bit one exists |
| LargestPrime.PrimesRunOut | src/include/leeloo/prime_helpers.h:71-90 | there is no 32-bit prime from v on, and 1 is returned, exactly above 4294967291, whose primality is proved with Pocklington's criterion |
| LargestPrime.FactorAboveOrder | src/include/leeloo/prime_helpers.h:71-90 | Pocklington's criterion for one prime q: every prime factor of n is 1 modulo q when a number of order q modulo n is off 1 by a unit |
| PrimeHelpers.ExponentAvailable | src/include/leeloo/prime_helpers.h:92-104 | the range [0, n - 2] that is drawn from, with its bound in 32 bits, holds a number coprime to n if and only if n is not 2 |
| PrimeHelpers.GoodExponentMeaning | src/include/leeloo/prime_helpers.h:92-104 | a draw is accepted if and only if no number above 1 divides both it and n |
| PrimeHelpers.RandomPrimeWith | src/include/leeloo/prime_helpers.h:92-104 | for every n, returns the first draw that is coprime to n, and consumes the draws up to it and no more |
| UniModel.ResiduePermutation | src/include/leeloo/uni.h:112-122 | the residue map is a bijection of [0, max) onto itself, for every max, prime and tail table that a set-up can produce |
| UniModel.HalvesAreSquares | src/include/leeloo/uni.h:112-122 | below the prime a value is sent to a square modulo p if and only if it is at most p / 2, and otherwise to a number that is no square |
| UniModel.ShuffledKeeps | src/include/leeloo/uni.h:145-146 | the shuffle keeps the table a duplicate-free table of the numbers in [prime, max), whatever is drawn |
| Shuffling.RandomShuffle | src/include/leeloo/uni.h:145-146 | the in-place swap loop computes the specified shuffle, reorders the array, and takes exactly one draw for each entry after the first |
| Shuffling.ArrangementReached | src/include/leeloo/uni.h:145-146 | every arrangement of the table comes out for some draws |
| Shuffling.DrawsDetermined | src/include/leeloo/uni.h:145-146 | and for one vector of draws only: different draws give different arrangements of distinct entries |
| UniModel.Uni.InitFinalPerm | src/include/leeloo/uni.h:131-147 | fills a fresh table with prime, ..., max - 1 and shuffles all of it, with one draw for each entry after the first |
| UniModel.InitParamsValid | src/include/leeloo/uni.h:85-93 | every set-up drawn for any max >= 1 satisfies the invariant that all results on the generator rest on, also without a prime (max below 3) |
| UniModel.Uni.Init | src/include/leeloo/uni.h:85-93 | offset, position and shuffle take the draws in this order and no others; the prime is the largest one that matches; so seed, draws and max determine the generator |
| UniModel.PosIncrement | src/include/leeloo/atomic_helpers.h:38-46 | returns the position and moves it on by one, from max - 1 to 0 |
| UniModel.Uni.Next | src/include/leeloo/uni.h:98-103 | returns what the map, then adding the offset on 32 bits modulo max, then the map again make of the current position, where the map is congruent to the square, or to its opposite above p / 2, and reads the table from the prime on; moves on by one and leaves the set-up alone |
| UniModel.CallGivesOne | src/include/leeloo/uni.h:98-122 | these conditions leave one result only |
| UniModel.StreamPermutation | src/include/leeloo/uni.h:98-103 | from any position, max calls return every value of [0, max) exactly once if and only if the largest 32-bit sum, offset + max - 1, does not wrap |
| UniModel.SmallMaxFits | src/include/leeloo/uni.h:98-109 | up to max = 2^31 no sum of either operation can wrap |
| UniModel.UniqueForAllSeeds | src/include/leeloo/uni.h:80-109 | for every engine, seed and position the calls, and for every engine and seed the steps, give every value of [0, max) exactly once: if and only if max is at most 2^31 |
| UniModel.RepeatsWhenLarge | src/include/leeloo/uni.h:80-109 | for every larger max an engine whose set-up makes both the calls and the steps repeat values |
| UniModel.Uni.GetStep | src/include/leeloo/uni.h:105-109 | the same for the position that many steps further, summed on 32 bits, without moving |
| UniModel.StepIsFutureCall | src/include/leeloo/uni.h:105-109 | the value of step n is what the (n+1)-th following call returns |
| UniModel.StepShift | src/include/leeloo/uni.h:98-109 | after k calls the step view is shifted by exactly k |
| UniModel.StepPermutation | src/include/leeloo/uni.h:105-109 | the steps 0, ..., max - 1 give every value of [0, max) once if and only if neither 32-bit sum wraps |
| UprngModel.CyclePermutation | src/include/leeloo/uprng.h:112-136 | over any full cycle of positions the rounds take every value of [0, prime) exactly once |
| UprngModel.RoundUndone | src/include/leeloo/uprng.h:128-136 | raising the result of a round to an inverse of the exponent gives the affine image back |
| UprngModel.RoundedBack | src/include/leeloo/uprng.h:112-119 | going the rounds backwards, inverse power then inverse affine map, takes the result of get_step back to the step |
| UprngModel.StepsBelowMax | src/include/leeloo/uprng.h:112-119 | get_step, which does not retry, stays below max on all steps of a cycle if and only if max is the prime itself |
| UprngModel.CallEnds | src/include/leeloo/uprng.h:100-110 | the retry loop of a call ends within one cycle of positions, whatever the set-up made |
| UprngModel.Uprng.Next | src/include/leeloo/uprng.h:100-110 | returns the first mixed value below max from the current position on and stops right after it, also without a prime |
| UprngModel.Uprng.GetStep | src/include/leeloo/uprng.h:112-119 | the result comes out of n steps, each congruent to the c-th power of the affine image of the one before |
| UprngModel.CallsPermutation | src/include/leeloo/uprng.h:100-119 | from any position, any max calls in a row return every value of [0, max) exactly once |
| UprngModel.StuckCalls | src/include/leeloo/uprng.h:100-136 | a generator set up without a prime returns 0 on every call |
| UprngModel.CallsPermutationExactly | src/include/leeloo/uprng.h:100-136 | whatever a set-up made, max calls in a row return every value of [0, max) exactly once if and only if a prime was found |
| UprngModel.CallsExtend | src/include/leeloo/uprng.h:100-110 | a call continues a series of calls: what the statements on series say holds of repeated calls |
| UprngModel.Uprng.Init | src/include/leeloo/uprng.h:81-96 | from any max >= 4: the next prime or 1, and the multiplier, addend, exponent and round count drawn in order, the exponent being the first usable draw; the generator is valid if and only if max is at most 4294967291 |
| UprngModel.SetUpCanSucceed | src/include/leeloo/uprng.h:81-96 | for any max from 2 on, the loop drawing the exponent can end if and only if max >= 4 |
| Intervals.HullIsUnion | src/include/leeloo/utility.h:36-47 | for intervals that overlap or touch the hull is exactly the union |
| Intervals.CanonicalUnique | src/include/leeloo/list_intervals.h:445-459 | two lists of non-empty intervals with gaps denote the same set if and only if they are equal |
| Intervals.ElementsIncrease | src/include/leeloo/list_intervals.h:121-180 | the elements of a sorted list, in list order, are strictly increasing |
| Intervals.SizeIsCardinality | src/include/leeloo/list_intervals.h:309-316 | the number of elements of a sorted list is the cardinality of the set it denotes |
| Intervals.SortedSizeFits | src/include/leeloo/list_intervals.h:309-316 | that number always fits in 32 bits |
| Sweep.AggregateContainer | src/include/leeloo/list_intervals.h:662-691 | returns a list of the same set for any intervals, inverted ones included; with a gap between any two when none is inverted; and without empty ones when each interval that holds nothing is within reach of one that does |
| Sweep.CutOutExact | src/include/leeloo/list_intervals.h:705-728 | one pass through the four branches removes exactly the removed interval's values from the open block, empty intervals included |
| Sweep.SplitMerged | src/include/leeloo/list_intervals.h:693-738 | appends exactly the surviving values of a block, in order and separated, while the shared cursor passes only removed intervals that end before the block |
| Sweep.Subtract | src/include/leeloo/list_intervals.h:260-288 | the whole sweep: the union of the added minus the union of the removed intervals, sorted, canonical for non-empty removals |
| Sweep.AggregateIsCanonical | src/include/leeloo/list_intervals.h:249-289 | two aggregations give the same list if and only if they denote the same difference of sets: order, repetitions and cuts do not matter |
| Sweep.AggregateIdempotent | src/include/leeloo/list_intervals.h:249-289 | aggregating again changes nothing |
| Sweep.AggregateIncremental | src/include/leeloo/list_intervals.h:249-289 | aggregating between additions gives what one aggregation at the end gives |
| ListIntervalsModel.ListIntervals.Aggregate | src/include/leeloo/list_intervals.h:249-289 | afterwards the list is the aggregated form of additions minus removals; with no additions the removals stay pending, otherwise they are consumed |
| ListIntervalsModel.ListIntervals.Size | src/include/leeloo/list_intervals.h:309-316 | the 32-bit sum of the widths, which is the number of elements when the list is sorted |
| ListIntervalsModel.ListIntervals.GetRthValue | src/include/leeloo/list_intervals.h:740-756 | the element of the given rank counted from the given interval, or the largest number when there is none |
| ListIntervalsModel.ListIntervals.At | src/include/leeloo/list_intervals.h:410-414 | the r-th smallest element |
| ListIntervalsModel.ListIntervals.CreateIndexCache | src/include/leeloo/list_intervals.h:428-443 | one entry for each block of intervals, holding the number of elements up to the block's end, for every granularity |
| ListIntervalsModel.ListIntervals.GetCachedIntervalIdx | src/include/leeloo/list_intervals.h:758-795 | from a cache, an interval within the list and a remaining rank that locate element r, through the halving, the exact hit and the final scan |
| ListIntervalsModel.ListIntervals.AtCached | src/include/leeloo/list_intervals.h:416-425 | the r-th smallest element, so the same as the linear scan, for every granularity |
| ListIntervalsModel.ListIntervals.Equals | src/include/leeloo/list_intervals.h:445-459 | decides equality of the lists, hence of the denoted sets when both are canonical |
| ListIntervalsModel.CountFits | src/include/leeloo/list_intervals.h:466-493 | a canonical list has at most 2^31 intervals, so the index sum of the halving cannot wrap |
| ListIntervalsModel.ListIntervals.Contains | src/include/leeloo/list_intervals.h:466-493 | decides membership in the set, for every value |
| ListIntervalsModel.ValueIterator.Value | src/include/leeloo/list_intervals.h:162-165 | at rank k, the k-th smallest element |
| ListIntervalsModel.ValueIterator.Next | src/include/leeloo/list_intervals.h:143-153 | moves the rank on by exactly one, across interval ends |
| ListIntervalsModel.IteratorSpan | src/include/leeloo/list_intervals.h:120-180 | begin has rank 0, and an iterator equals end if and only if all elements are behind it |
| RandomSets.DeliveredEachOnce | src/include/leeloo/list_intervals.h:323-356 | max calls read through the ranks give every element exactly once if and only if the generator's sums fit |
| RandomSets.DeliveredRank | src/include/leeloo/list_intervals.h:341-343 | the i-th element delivered is the one at the rank that the call at the i-th position gives |
| RandomSets.FixedSets | src/include/leeloo/list_intervals.h:323-356 | the concatenated batches hold what the seed's generator picks, in its order, hence every element exactly once if and only if the sums fit; all batches but the last have the asked size, with 0 read as 1 |
| RandomSets.VariableSets | src/include/leeloo/list_intervals.h:358-391 | every batch has the size asked for, or is smaller and completes the set; the elements are distinct; delivery stops only when all are handed out or a size is 0 or above the maximum, so without such sizes all elements are delivered, each exactly once when the sums fit |
| RandomSets.RoundsDeliverEachOnce | src/include/leeloo/list_intervals.h:323-356 | any max calls of the retrying generator give every element exactly once |
| RandomSets.FillRounds | src/include/leeloo/list_intervals.h:341-343 | the inner loop over the retrying generator: a series of its calls, each read through the cache, and every element exactly once when the batch is the whole set |
| Runs.NothingLost | src/include/leeloo/list_intervals_random.h:82-210 | in every run each step of [start, end) is still to do, was handed out or is done, and nothing else is ever handed out |
| Runs.DoneIsConfirmed | src/include/leeloo/list_intervals_random.h:151-158 | in every run the steps done are exactly those done at the start and those confirmed, across restarts |
| Runs.RestartResumes | src/include/leeloo/list_intervals_random.h:169-209 | after any run, a restart leaves exactly the unconfirmed steps of [start, end) to do, each once and in increasing order |
| Runs.NeverAgainExactly | src/include/leeloo/list_intervals_random.h:134-209 | at no moment of a run was a step handed out twice or is about to be, if and only if every restart found all steps handed out done |
| Runs.CarefulNeverTwice | src/include/leeloo/list_intervals_random.h:134-186 | a client that restarts only with everything handed out confirmed is never handed a step twice |
| Runs.CarefulExactlyOnce | src/include/leeloo/list_intervals_random.h:134-209 | such a client, once nothing is left, was handed every step of [start, end) exactly once |
| Runs.CarelessHandsAgain | src/include/leeloo/list_intervals_random.h:169-180 | without that care a step is handed out twice: a concrete run |
| Enumerators.ScheduleEachOnce | src/include/leeloo/list_intervals_random.h:44-51 | the steps of a seed in order give every element exactly once if and only if no sum wraps |
| Enumerators.StepsAreCalls | src/include/leeloo/list_intervals_random.h:30-49 | the first k steps give what k calls of the generator would pick, in the same order |
| Enumerators.DeliveredExactlyOnce | src/include/leeloo/list_intervals_random.h:82-210 | over every run of a careful client the elements handed out are distinct, and at the end they are those of the steps asked for, each exactly once, over all restarts |
| Enumerators.ListIntervalsRandom.Init | src/include/leeloo/list_intervals_random.h:29-36 | the enumeration of the seed, entered at the given step |
| Enumerators.ListIntervalsRandom.Next | src/include/leeloo/list_intervals_random.h:44-49 | the element at the rank that the generator gives for the current step, and the next step |
| Enumerators.ListIntervalsRandom.RestoreState | src/include/leeloo/list_intervals_random.h:65-72 | the same set-up as the initial one of that seed and list, at the saved step |
| Enumerators.ListIntervalsRandomPromise.Init | src/include/leeloo/list_intervals_random.h:98-119 | a bound at or above the size acts as the size, one below as itself, and the smaller comes first; the result is a fresh machine for them, and is usable if and only if they differ |
| Enumerators.ListIntervalsRandomPromise.Next | src/include/leeloo/list_intervals_random.h:134-139 | refines the machine's hand-out and returns the element at the rank that the generator gives for that step, a function of seed, list and step only |
| Enumerators.ListIntervalsRandomPromise.StepDone | src/include/leeloo/list_intervals_random.h:151-158 | refines the machine's confirmation; afterwards the count of steps done is right if and only if the list had 99 intervals or more before, so that it was compacted, or the count was right and the step was not done before |
| Enumerators.CountAfterStep | src/include/leeloo/list_intervals_random.h:151-163 | recording a step without compaction keeps the count right if and only if the step was new, and never makes a wrong one right |
| Enumerators.ConfirmedTwice | src/include/leeloo/list_intervals_random.h:151-163 | one step confirmed twice counts as two |
| Enumerators.ListIntervalsRandomPromise.SizeDone | src/include/leeloo/list_intervals_random.h:163-163 | the 32-bit sum of the widths; the number of steps done when the count is right, and otherwise not, short of a wrap-around |
| Enumerators.ListIntervalsRandomPromise.AggregateDoneSteps | src/include/leeloo/list_intervals_random.h:167-167 | leaves the machine's state alone and always makes the count right |
| Enumerators.ListIntervalsRandomPromise.SetDoneSteps | src/include/leeloo/list_intervals_random.h:169-180 | what is to do becomes all the steps not in the given list, also when it is the enumerator's own |
| Enumerators.ListIntervalsRandomPromise.SaveState | src/include/leeloo/list_intervals_random.h:190-196 | gives the seed and the steps done, and leaves the machine's state alone |
| Enumerators.ListIntervalsRandomPromise.RestoreState | src/include/leeloo/list_intervals_random.h:199-209 | refines the machine's restart, with the same set-up as the initial one of that seed and list |
| Sessions.HandOne | src/include/leeloo/list_intervals_random.h:134-139 | a call on the object is the machine's hand-out, and appends the value of its step to all that the run handed out |
| Sessions.Resume | src/include/leeloo/list_intervals_random.h:189-209 | saving one object and restoring another continues the same run with a restart |
| Sessions.Drain | src/include/leeloo/list_intervals_random.h:134-160 | calling until the end hands out exactly the steps left, in order, and leaves none |
| Sessions.Interrupted | tests/random_state.cpp:163-193 | handing out the steps before a stop, confirming chosen ones, saving, restoring into a new object and draining it: the steps visited are those before the stop and then, in increasing order, those not confirmed, with the values of the uninterrupted run; over the whole set every element comes exactly once if and only if all steps before the stop were confirmed |
| Sessions.ValuesOnce | tests/random_state.cpp:163-193 | the values of those steps are all elements, each once, if and only if everything handed out before was confirmed |
| Properties.SortedIsSweepOrder | src/include/leeloo/list_intervals_properties.h:208-213 | whatever an unstable sort by bound returns is a sweep order: each event once, bounds ascending |
| Properties.FirstIsPush | src/include/leeloo/list_intervals_properties.h:297-300 | in every sweep order the first event is a push |
| Properties.PopFindsPush | src/include/leeloo/list_intervals_properties.h:366-368 | in every sweep order a pop finds its property in the active list |
| Properties.ActiveInOrder | src/include/leeloo/list_intervals_properties.h:353-371 | after any events the active list is in activation order |
| Properties.ActiveAt | src/include/leeloo/list_intervals_properties.h:347-373 | between two bounds the active intervals are exactly those that contain the value |
| Properties.PropsAtMeaning | src/include/leeloo/list_intervals_properties.h:347-373 | the properties listed for v are those of the intervals with lower <= v < upper, each once |
| Properties.PushOrderByTime | src/include/leeloo/list_intervals_properties.h:353-371 | and one listed earlier was activated earlier |
| Properties.LookUpMeans | src/include/leeloo/list_intervals_properties.h:379-406 | a look-up in a finished map answers the merge of the properties of exactly the intervals that contain v, in activation order, and nothing outside the covered range |
| Properties.ListIntervalsProperties.AggregateProperties | src/include/leeloo/list_intervals_properties.h:287-322 | with a removal that undoes additions, the map built incrementally holds the sum of the active properties on every slice |
| Properties.ListIntervalsProperties.AggregatePropertiesNoRem | src/include/leeloo/list_intervals_properties.h:330-377 | for any merge operation, the map holds the left fold of the active properties on every slice |
| Properties.ListIntervalsProperties.MergeProperties | src/include/leeloo/list_intervals_properties.h:409-423 | the left fold of the listed properties, or a default-made one |
| Properties.ListIntervalsProperties.PropertyOf | src/include/leeloo/list_intervals_properties.h:379-406 | on either kind of map, the merged properties of exactly the intervals containing v, in activation order, for every v between the first and the last bound, in spite of empty slices |
| Properties.AggregationsAgree | src/include/leeloo/list_intervals_properties.h:287-377 | both aggregations give the same property at every value, even when their sorts order tied bounds differently |
| Properties.MultisetLaws | src/include/leeloo/list_intervals_properties.h:287-322 | multisets of properties with sum and difference obey the laws asked of the removal |
| MaxPrefix.WidenBounds | src/include/leeloo/list_intervals.h:651-656 | widening to blocks keeps the interval, adds less than a block below and at most one above, and reaches a block's width; in the non-strict form the end is aligned |
| MaxPrefix.WidenMeaning | src/include/leeloo/list_intervals.h:651-656 | for every interval: it stays when it has a block's width and, in the non-strict form, an aligned end; otherwise it runs from the start of the block of its lower bound to the end of the block of its upper bound, which is 0 for the last block |
| MaxPrefix.BlockSize | src/include/leeloo/list_intervals.h:301-307 | the block size of a prefix times 2^prefix is 2^32 |
| MaxPrefix.WidenKeepsExactly | src/include/leeloo/list_intervals.h:651-656 | widening keeps the interval's values if and only if the end of its last block is a 32-bit number |
| MaxPrefix.WidenedKeeps | src/include/leeloo/list_intervals.h:649-657 | widening a list keeps its values if and only if every interval whose block would end past 32 bits stops where the last block starts, with an earlier widened interval ending in the block before (NothingLost) |
| MaxPrefix.WideningCanLose | src/include/leeloo/list_intervals.h:633-660 | an aggregated list, [0x10, 0xFFFFFFFF), whose whole set is lost for prefix 24 |
| MaxPrefix.WideningCanBeRescued | src/include/leeloo/list_intervals.h:633-660 | a list with an interval inverted by widening that loses nothing |
| MaxPrefix.BlocksFromWidened | src/include/leeloo/list_intervals.h:633-660 | for every aggregated list, aggregating its widened intervals gives the block form (a canonical superset of whole blocks' width, aligned in the non-strict form, within a block of an original element), and keeps all values, if and only if NothingLost holds; nothing further away is ever added |
| MaxPrefix.AggregateMaxPrefix | src/include/leeloo/list_intervals.h:633-660 | in place, for every list and every prefix from 1 to 32, with blocks of 2^(32 - prefix): the result holds what the widened intervals of the aggregated list hold; it is the block form, with nothing lost, if and only if NothingLost holds of that list; it is that list unchanged if and only if all intervals have a block's width and, in the non-strict form, an aligned end; prefix 0 leaves the list unaggregated |
| IpsParser.Atoi3 | src/ips_parser.cpp:64-80 | accepts exactly the strings of one to three digits and gives their decimal value |
| IpsParser.Atoi3Trim | src/ips_parser.cpp:82-105 | accepts exactly one to three digits between whitespace |
| IpsParser.Ipv4ToI | src/ips_parser.cpp:108-155 | accepts a string if and only if it splits at its dots into at most four components, and more than the dots asked for, each a byte between whitespace; an accepted string gives the address they make |
| IpsParser.PrintedReadsBack | src/ips_parser.cpp:108-155 | every address, printed as a dotted quad with any whitespace around each component, reads as itself and as nothing else |
| IpsParser.AddressReads | src/ips_parser.cpp:108-155 | 192.168.0.1 with a tab, a space and line ends around its components reads as 0xC0A80001 |
| IpsParser.CharacterClasses | src/ips_parser.cpp:64-105 | whitespace is the six characters of isspace in the C locale, digits are 0 to 9 with their values |
| BitFieldModel.BitReference.Advance | src/include/leeloo/bit_field.h:122-145 | moves by exactly n bits for every signed n, with the quotient truncated |
| BitFieldModel.BitReference.DistanceTo | src/include/leeloo/bit_field.h:147-150 | the signed distance that advancing would cover |
| BitFieldModel.PositionUnique | src/include/leeloo/bit_field.h:95-98 | two references are equal if and only if their positions are |
| BitFieldModel.BitField.Reserve | src/include/leeloo/bit_field.h:301-325 | grows by the stated rule and keeps every bit |
| BitFieldModel.BitField.SetBit | src/include/leeloo/bit_field.h:327-331 | sets the bit, growing if needed, and keeps all the others |
| BitFieldModel.BitField.ClearBit | src/include/leeloo/bit_field.h:333-337 | clears the bit, growing if needed, and keeps all the others |
| BitFieldModel.BitField.GetBit | src/include/leeloo/bit_field.h:339-345 | the bit, and false beyond the field |

## Where the code and its promises differ

* `uni` promises unique numbers for every 32-bit max, but adds two numbers below max in 32 bits. It keeps the
  promise for every engine and seed exactly up to max = 2^31 (`UniqueForAllSeeds`); for a given set-up the exact
  conditions are `StreamPermutation` and `StepPermutation`.
* `uprng` works exactly for 4 <= max <= 4294967291: below, `init` cannot end (`SetUpCanSucceed`); above,
  `find_next_prime` returns 1 and every call returns 0 (`PrimesRunOut`, `StuckCalls`).
* `uprng::get_step` does not retry, so unlike `uni` it can give values that are not below max
  (`StepsBelowMax`). The enumerators are modelled over `uni`.
* `size_done` counts a step that was already done once more, until the next compaction (`StepDone`, `SizeDone`).
* An enumeration over an empty interval of steps is neither usable nor at its end
  (`ListIntervalsRandomPromise.Init`).
* `aggregate_max_prefix` inverts an interval whose block would end past 32 bits, and with it loses all its values,
  however far below they start, unless an earlier block makes up for it (`AggregateMaxPrefix`, `WideningCanLose`).
* `aggregate` with removals but no additions keeps the removals for later.

## Left out

- RandomPrimeWith: takes a ghost draw at which the loop succeeds; that a random engine reaches one is a matter of probability.
- Uprng.Init: takes the same ghost draw; the line it prints is not modelled.
- PropertyOf: asks for at most 2^31 slices, because their indices are added in 32 bits.
- StepDone: does not ask, as the program's assertion does, that the step is not above the current one, and does not model confirming step 2^32 - 1, which no list of 32-bit numbers has.
- Ipv4ToI: does not state the returned number for strings that are not accepted.
- Uni.Init: asks for max of at least 1; generators over no values at all draw from an inverted range.
- The vector generator `uni<__m128i>`, and the generators on `tbb::atomic` positions.
- Integer types other than 32-bit unsigned ones, and the template parameters of the containers.
- Lists given with lower above upper: inverted intervals are modelled where the program itself makes them, in `aggregate_max_prefix` and the merging it calls, and not in the subtraction.
- Parallel execution of the sort; it is modelled as a sequential sort of which only the order by key and the multiset of results are used.
- Files, streams and archives: what is saved is the seed, the step or the steps done, as values.
- Allocation failures, the early returns on them, moving and freeing; buffers are arrays.
- The square root is the exact integer one; the program takes it in floating point, exactly so for 32-bit numbers.
- Masks and shifts on block bounds and address components are written as the divisions and products they compute; the chunks of the bit field are sequences of 64 booleans.
- The event flags of the property sweep are kept in the events; the program keeps them in a bit field beside them.
- Outer batching of random_sets over `uprng`: the inner loop and the statement over any full series of calls are given, the batches over `uni`, the default, in full.
- Address ranges with dashes, prefixes and ports, the command line tools, the Python bindings and the integer casts.
- The quality of the pseudo-random order.
