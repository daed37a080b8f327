# applied-combinatorics, modelled in Dafny

This project models the whole library in `src/index.ts`:

- the counting functions `factorial`, `numberOfPermutations`,
  `numberOfSubsets` and `numberOfCombinations`;
- the first-occurrence deduplication `distinctElements`;
- the three level-by-level enumerators `enumeratePermutations`,
  `enumerateSubsets` and `enumerateCombinations`.

It proves what each routine returns, in its own terms.

Every routine either returns a value or throws an invalid-argument error.
`Results.Result` models this as `Ok(value)` or `Throws`. Each contract states
exactly when a call throws.

The enumerators build level k from level k - 1. The model mirrors each loop
with a recursive function:

- `Permutations.PermutationLevel` models lines 71-87. It uses `Extend` for
  the loop over candidates and `PrependTo` for the loop over the previous
  level.
- `Combinations.CombinationLevel` models lines 95-110 and 131-147. It uses
  `Grow` for the loop over the previous level and `AppendLater` for the loop
  over `distinct`.
- `Subsets.Levels` collects those levels for `enumerateSubsets`, and
  `Subsets.Flatten` is `levels.flat()`.

Each enumerator's result is tied to an independent description of what it
lists:

- For permutations, the description is every tuple of the requested length
  drawn from the input, repetition-free when repetition is not allowed.
- For subsets and combinations, it is every tuple whose entries follow one
  another in the deduplicated input. `Combinations.Ascending` states this
  step by step. `Combinations.AscendingPairwise` proves it equal to the
  pairwise reading, where `indexOf` strictly increases between any two
  entries.

The counts are proved against the closed forms:

- n^k with repetition;
- n!/(n-k)! without repetition;
- 2^n for subsets;
- C(n, k) for combinations.

The count of combinations goes through a second enumeration,
`Combinations.Choose`, which is Pascal's rule on the last value. Level by
level, it holds the same tuples as the source's construction. Both are free
of duplicates, so their lengths agree.

Modules and files:

- `results.dfy`: `Results`.
- `arith.dfy`: `Arith`, with factorials, powers, falling factorials,
  binomials and their identities.
- `counting.dfy`: `Counting`, lines 1-51.
- `distinct.dfy`: `Distinct`, with `indexOf` and lines 53-61.
- `permutations.dfy`: `Permutations`, lines 63-89.
- `combinations.dfy`: `Combinations`, the shared level construction and
  lines 119-150.
- `subsets.dfy`: `Subsets`, lines 91-117.
- `examples.dfy`: `Examples`, the cases of `src/index.test.ts`.

## Model

| member | source | states |
|---|---|---|
| Arith.FactStep | src/index.ts:5-8 | a! = a * (a - 1)! for a >= 1, the recursion factorial performs |
| Arith.FallingBelowFact | src/index.ts:26 | (n-k)! divides n!: the falling factorial times (n-k)! is n!, and the falling factorial is at least 1 |
| Arith.FallingIsQuotient | src/index.ts:26 | n!/(n-k)! is exactly the falling factorial n(n-1)...(n-k+1), so the source's division leaves no remainder |
| Arith.BinomTimesFacts | src/index.ts:50 | Pascal's C(n, k) times k!(n-k)! is n! |
| Arith.BinomIsQuotient | src/index.ts:50 | n!/(k!(n-k)!) is exactly C(n, k) for k <= n |
| Arith.BinomAbove | src/index.ts:47-49 | helper fact for the guard at these lines: C(n, k) is 0 for the sizes k > n that the source refuses, so the count of subsets (BinomSumIsPow) gets no terms from them |
| Arith.BinomSumIsPow | src/index.ts:33 | C(n,0) + ... + C(n,n) = 2^n, linking the subset count to the sizes of the levels |
| Counting.Factorial | src/index.ts:1-9 | throws exactly for a < 0, otherwise returns a! |
| Counting.NumberOfPermutations | src/index.ts:11-27 | throws exactly when an argument is negative or, without repetition, when slots exceed elements; returns n^k with repetition; without repetition returns the falling factorial, which times (n-k)! gives n! |
| Counting.NumberOfSubsets | src/index.ts:29-38 | throws exactly for n < 0; returns the number of subsets of every size, C(n,0) + ... + C(n,n) (2^n by Arith.BinomSumIsPow), one fewer without the empty set, and never a negative number |
| Counting.NumberOfCombinations | src/index.ts:40-51 | throws exactly when n < 0, size < 0 or size > n; otherwise returns C(n, size), which times size!(n-size)! gives n! |
| Counting.FactorialRecurrence | src/index.test.ts:13-20 | factorial(a) = a * factorial(a - 1) for every a >= 2, and neither call throws |
| Distinct.IndexOf | src/index.ts:56 | -1 exactly when x is absent; otherwise a position holding x with no earlier x |
| Distinct.DistinctElements | src/index.ts:53-61 | the result has no duplicates, holds exactly the input's values, and is no longer than the input |
| Distinct.DistinctFirstOccurrenceOrder | src/index.ts:53-61 | the result lists values in the order of their first occurrence in the input |
| Distinct.DistinctOfDuplicateFree | src/index.ts:53-61 | a duplicate-free input comes back unchanged |
| Distinct.DistinctIdempotent | src/index.ts:53-61 | deduplicating twice equals deduplicating once |
| Distinct.DistinctAbsorbs | src/index.ts:55-58 | appending values that already occur leaves the result unchanged |
| Distinct.DistinctOfDoubled | src/index.test.ts:69-72 | distinctElements(x.concat(x)) = distinctElements(x) |
| Distinct.ElemsOfDuplicateFree | src/index.ts:53-61 | helper fact for counting what these lines return: a duplicate-free sequence, such as the result of distinctElements, holds as many distinct values as it has entries |
| Permutations.PrependTo | src/index.ts:79-83 | the inner loop over the previous level adds at most one tuple per previous tuple |
| Permutations.PrependToMembers | src/index.ts:79-83 | the inner loop lists exactly next followed by a previous tuple; without repetition, only tuples in which next does not already occur |
| Permutations.ExtendMembers | src/index.ts:74-85 | a level after the first lists exactly a candidate followed by a previous tuple, without the candidate in that tuple when repetition is off |
| Permutations.PermutationLevelMembers | src/index.ts:71-87 | level slot lists exactly the tuples of length slot + 1 drawn from the input, repetition-free when repetition is off |
| Permutations.PermutationLevelSound | src/index.ts:71-87 | every tuple of a level has the level's length, draws from the input, and repeats nothing when repetition is off |
| Permutations.EnumeratePermutations | src/index.ts:63-89 | throws exactly for negative slots or, without repetition, more slots than distinct values; zero slots gives undefined (None); otherwise every tuple has numberOfSlots entries |
| Permutations.PermutationsAreAllArrangements | src/index.ts:63-89 | for slots >= 1 the result is exactly the set of numberOfSlots-tuples drawn from the input, repetition-free when repetition is off |
| Permutations.PermutationLevelNoDuplicates | src/index.ts:71-87 | for a duplicate-free input no level lists a tuple twice |
| Permutations.PermutationsListedOnce | src/index.ts:63-89 | for a duplicate-free input the result lists no tuple twice |
| Permutations.PermutationLevelCountWithRepetition | src/index.ts:71-87 | with repetition level slot has n^(slot+1), n the input length, tuples |
| Permutations.PermutationCountWithRepetition | src/index.ts:63-89 | with repetition the result's length is numberOfPermutations(elements.length, numberOfSlots), for any input |
| Permutations.CountAbsentOfArrangement | src/index.ts:80 | a repetition-free tuple of k input values leaves (input length) - k candidates that pass the indexOf test |
| Permutations.ExtendUniformCount | src/index.ts:74-85 | without repetition, when every previous tuple admits m candidates, the next level has m times as many tuples |
| Permutations.PermutationLevelCountWithoutRepetition | src/index.ts:71-87 | without repetition, and for a duplicate-free input of n values, level k - 1 has n!/(n-k)! tuples |
| Permutations.PermutationCountWithoutRepetition | src/index.ts:63-89 | without repetition the result's length is numberOfPermutations(n, k, false) for a duplicate-free input of n values |
| Combinations.LastIndex | src/index.ts:103 | the position of the tuple's last entry is below the length of distinct, and non-negative when that entry occurs in distinct |
| Combinations.AscendingWithin | src/index.ts:103 | every entry of an ascending tuple is a value of distinct placed no later than the tuple's last entry |
| Combinations.AscendingLength | src/index.ts:95 | an ascending tuple is no longer than distinct, so the levels stop at the number of distinct values |
| Combinations.AscendingPrefix | src/index.ts:101-104 | every prefix of an ascending tuple is ascending, so each tuple extends one of the level before |
| Combinations.AscendingPair | src/index.ts:140 | in an ascending tuple indexOf strictly increases from any entry to any later one |
| Combinations.AscendingPairwise | src/index.ts:103 | the step-by-step ascending test is equivalent to strictly increasing indexOf over every pair, with every entry in distinct |
| Combinations.AppendLater | src/index.ts:102-106 | the innermost loop adds at most one tuple per candidate entry |
| Combinations.AppendLaterMembers | src/index.ts:102-106 | the innermost loop lists exactly prev plus one entry of nexts whose indexOf exceeds that of prev's last entry |
| Combinations.GrowMembers | src/index.ts:101-107 | one level's step lists exactly the tuples whose prefix is a previous tuple and whose last entry follows it |
| Combinations.CombinationLevelMembers | src/index.ts:131-147 | level pos lists exactly the ascending tuples of length pos + 1 |
| Combinations.CombinationLevelNoDuplicates | src/index.ts:131-147 | for a duplicate-free distinct no level lists a tuple twice |
| Combinations.EnumerateCombinations | src/index.ts:119-150 | size 0 gives [[]] before any check, even for an empty input; throws exactly for a negative size or one above the number of distinct values |
| Combinations.CombinationsAreAllAscendingTuples | src/index.ts:119-150 | the result is exactly the set of size-tuples of the deduplicated input's values in first-occurrence order |
| Combinations.CombinationsListedOnce | src/index.ts:119-150 | no combination is listed twice |
| Combinations.ChooseCount | src/index.ts:50 | the reference enumeration by Pascal's rule over a sequence d lists C(n, k) tuples, n the length of d |
| Combinations.ChooseMembers | src/index.ts:138-144 | the reference enumeration lists exactly the ascending k-tuples |
| Combinations.ChooseNoDuplicates | src/index.ts:138-144 | the reference enumeration lists no tuple twice |
| Combinations.SameValuesSameLength | src/index.ts:138-144 | helper fact for the count of the levels these lines build: two duplicate-free sequences with the same values have the same length |
| Combinations.LevelMatchesChoose | src/index.ts:131-147 | level pos and the reference enumeration of size pos + 1 hold the same tuples |
| Combinations.CombinationLevelCount | src/index.ts:131-147 | level pos holds C(d, pos + 1), d the number of distinct values, tuples |
| Combinations.CombinationCount | src/index.ts:119-150 | the result's length is numberOfCombinations(d, size), d the number of distinct values |
| Subsets.FlattenMembers | src/index.ts:116 | a tuple is in levels.flat() exactly when some level holds it |
| Subsets.FlattenCons | src/index.ts:113-116 | flattening after unshift(x) lists x's tuples first, then the flattened rest |
| Subsets.FlattenBySize | src/index.ts:116 | levels of tuple lengths off, off+1, ... flatten into a sequence whose lengths never decrease and stay in range |
| Subsets.FlattenNoDuplicates | src/index.ts:116 | duplicate-free levels of different lengths flatten without duplicates |
| Subsets.FlattenCount | src/index.ts:116 | levels of C(n,1), C(n,2), ... tuples flatten into one fewer than the sum of the binomials |
| Subsets.Levels | src/index.ts:95-110 | one level is built for each position below count, the number of distinct values |
| Subsets.LevelsSound | src/index.ts:95-110 | level k holds only ascending tuples of length k + 1 |
| Subsets.EnumerateSubsets | src/index.ts:112-116 | with the empty set allowed, the first tuple is the empty one |
| Subsets.SubsetsShape | src/index.ts:112-116 | the result is [[]] (only when allowed) followed by the flattened levels |
| Subsets.SubsetsBySize | src/index.ts:91-117 | the result lists subsets by non-decreasing size |
| Subsets.LevelsMembers | src/index.ts:95-110 | the flattened levels hold exactly the ascending tuples of length 1 to count |
| Subsets.SubsetsAreAllAscendingTuples | src/index.ts:91-117 | the result is exactly the ascending tuples of the distinct values, with the empty one present exactly when allowed |
| Subsets.SubsetsListedOnce | src/index.ts:91-117 | no subset is listed twice |
| Subsets.LevelCount | src/index.ts:95-110 | level k holds C(d, k + 1), d the number of distinct values, tuples |
| Subsets.SubsetCount | src/index.ts:91-117 | the result's length is numberOfSubsets(d, allowEmptySet), d the number of distinct values, and numberOfSubsets(elements.length, allowEmptySet) for a duplicate-free input |
| Examples.FactorialCases | src/index.test.ts:3-21 | factorial(-1) throws; factorial(0) = factorial(1) = 1; factorial(i) = i * factorial(i - 1) for i from 2 to 9 |
| Examples.NumberOfPermutationsCases | src/index.test.ts:23-37 | negative arguments throw; (2, 3) gives 8; (3, 4, false) throws; (4, 3, false) gives 24 = 4!/1! |
| Examples.NumberOfSubsetsCases | src/index.test.ts:39-49 | -1 throws; 3 gives 8, or 7 without the empty set |
| Examples.NumberOfCombinationsCases | src/index.test.ts:51-62 | (-1, 4), (4, -1) and (3, 4) throw; (4, 3) gives 4 |
| Examples.DistinctElementsCases | src/index.test.ts:64-73 | abc comes back unchanged, and so does abc doubled |
| Examples.EnumeratePermutationsCases | src/index.test.ts:75-96 | on abc, -1 slots throw; 5 slots without repetition throw, also on abc doubled; 3 slots give 27 tuples, or 6 without repetition |
| Examples.EnumerateSubsetsCases | src/index.test.ts:98-110 | abc has 8 subsets, or 7 without the empty set |
| Examples.PairsOfAbc | src/index.test.ts:119-123 | the second level over abc is ab, ac, bc, in that order |
| Examples.TriplesOfAbc | src/index.test.ts:114-118 | the third level over abc is abc alone |
| Examples.EnumerateCombinationsCases | src/index.test.ts:112-135 | on abc, size 3 gives [abc]; size 2 gives [ab, ac, bc]; size 0 gives [[]]; -1 and 5 throw, and so does 5 on abc doubled |

## Left out

- JavaScript numbers are doubles. The model uses unbounded integers, so it
  does not model:
  - the loss of precision or overflow to `Infinity` in `factorial` and `**`
    for large arguments;
  - non-integer arguments such as 2.5, for which `factorial` never reaches
    its base case.
- The text of error messages is not modelled. Only the fact that a call
  throws, and when, is. The source's messages for slots above elements
  (lines 24 and 69) and for a size above elements (lines 48 and 128) say
  "greater than or equal" where the condition they report is the opposite.
- Default arguments are not modelled. Every call in the model passes all
  arguments. `Examples` writes out the defaults the tests rely on:
  `numberOfSlots = elements.length`, and `withRepitition = true` and
  `allowEmptySet = true`.
- Permutations.EnumeratePermutations: for zero slots the source returns
  `levels[-1]`, which is `undefined`. The model returns `Ok(None)` and
  states nothing more about that case.
- `enumeratePermutations` draws its candidates from the raw input, while
  its check uses the number of distinct values. The model keeps this as
  written. On an input with repeated values a level can list a tuple more
  than once, and the count without repetition no longer matches
  `numberOfPermutations`. So PermutationsListedOnce and
  PermutationCountWithoutRepetition require a duplicate-free input.
- Combinations.LastIndex: the source reads `prev[pos - 1]` with pos at
  least 1 (lines 103 and 140). The model reads prev's last entry instead.
  These are the same entry, because every tuple of level pos - 1 has
  length pos, as CombinationLevelMembers states. For an empty prev the
  model returns -1. That is the model's own choice for a case that no
  level reaches.
- Distinct.IndexOf and Distinct.DistinctElements: equality on the element
  type is modelled as an equivalence relation. It matches JavaScript's
  `===` for every value except `NaN`, where `NaN === NaN` is false and so
  `[NaN].indexOf(NaN)` is -1. Objects compare by identity under `===`,
  which is what equality on a Dafny class type does. Inputs that hold
  `NaN` are outside the model. On them the source keeps every `NaN`, so
  facts such as DistinctOfDoubled and DistinctAbsorbs do not hold there.
- Soundness of the levels' lengths is stated in lemmas rather than in the
  enumerating functions' own contracts. Permutations.EnumeratePermutations
  is the exception, and it states the tuple length.
- The level loops of the source mutate arrays in place. The model computes
  each level as a pure function of the one before. The order of the
  resulting tuples is the same, and the combination examples fix it.
