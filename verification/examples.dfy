/** The cases src/index.test.ts checks, stated about the model on the same
    inputs. The source's default arguments are written out: `numberOfSlots`
    defaults to the number of elements and `withRepitition`/`allowEmptySet`
    to true. */
module Examples {
  import opened Results
  import opened Arith
  import opened Distinct
  import opened Counting
  import opened Combinations
  import opened Subsets
  import opened Permutations

  /** factorial: -1 throws, 0 and 1 give 1, and each i from 2 to 9 gives
      i times the value for i - 1. */
  lemma FactorialCases()
    ensures Factorial(-1).Throws?
    ensures Factorial(0) == Ok(1) && Factorial(1) == Ok(1)
    ensures forall i :: 2 <= i < 10 ==> Factorial(i).value == i * Factorial(i - 1).value
  {
  }

  lemma NumberOfPermutationsCases()
    ensures NumberOfPermutations(-1, -1, true).Throws?
    ensures NumberOfPermutations(1, -1, true).Throws?
    ensures NumberOfPermutations(2, 2, true) == Ok(4)
    ensures NumberOfPermutations(2, 3, true) == Ok(8)
    ensures NumberOfPermutations(3, 4, false).Throws?
    ensures NumberOfPermutations(4, 3, false) == Ok(24)
    ensures NumberOfPermutations(4, 3, false).value == Factorial(4).value / Factorial(4 - 3).value
  {
  }

  lemma NumberOfSubsetsCases()
    ensures NumberOfSubsets(-1, true).Throws?
    ensures NumberOfSubsets(3, true) == Ok(8)
    ensures NumberOfSubsets(3, false) == Ok(7)
  {
  }

  lemma NumberOfCombinationsCases()
    ensures NumberOfCombinations(-1, 4).Throws?
    ensures NumberOfCombinations(4, -1).Throws?
    ensures NumberOfCombinations(3, 4).Throws?
    ensures NumberOfCombinations(4, 3) == Ok(4)
  {
  }

  // The enumeration cases take the tests' `elements = ['a', 'b', 'c']` as a
  // parameter, so that the verifier does not expand whole enumerations of a
  // literal.

  lemma DistinctElementsCases(elements: seq<char>)
    requires elements == "abc"
    ensures DistinctElements(elements) == elements
    ensures DistinctElements(elements + elements) == elements
  {
    assert NoDuplicates(elements);
    DistinctOfDuplicateFree(elements);
    DistinctOfDoubled(elements);
  }

  lemma EnumeratePermutationsCases(elements: seq<char>)
    requires elements == "abc"
    ensures EnumeratePermutations(elements, -1, true).Throws?
    ensures EnumeratePermutations(elements, 5, false).Throws?
    ensures EnumeratePermutations(elements + elements, 5, false).Throws?
    ensures var r := EnumeratePermutations(elements, |elements|, true);
            r.Ok? && r.value.Some? && |r.value.value| == NumberOfPermutations(|elements|, |elements|, true).value == 27
    ensures var r := EnumeratePermutations(elements, |elements|, false);
            r.Ok? && r.value.Some? && |r.value.value| == NumberOfPermutations(|elements|, |elements|, false).value == 6
  {
    DistinctElementsCases(elements);
    PermutationCountWithRepetition(elements, 3);
    PermutationCountWithoutRepetition(elements, 3);
    assert Pow(3, 3) == 27;
    assert Falling(3, 3) == 6 by {
      FallingStep(3, 3);
      FallingStep(3, 2);
      FallingStep(3, 1);
    }
  }

  lemma EnumerateSubsetsCases(elements: seq<char>)
    requires elements == "abc"
    ensures |EnumerateSubsets(elements, true)| == NumberOfSubsets(|elements|, true).value == 8
    ensures |EnumerateSubsets(elements, false)| == NumberOfSubsets(|elements|, false).value == 7
  {
    assert NoDuplicates(elements);
    SubsetCount(elements, true);
    SubsetCount(elements, false);
    NumberOfSubsetsCases();
  }

  lemma AbcFacts(d: seq<char>)
    requires d == "abc"
    ensures IndexOf(d, 'a') == 0 && IndexOf(d, 'b') == 1 && IndexOf(d, 'c') == 2
    ensures d[1..] == "bc" && d[1..][1..] == "c" && d[1..][1..][1..] == []
  {
  }

  /** The innermost loop for each tuple of the first level over abc. */
  lemma AppendLaterSingles(d: seq<char>)
    requires d == "abc"
    ensures AppendLater(d, "a", d) == ["ab", "ac"]
    ensures AppendLater(d, "b", d) == ["bc"]
    ensures AppendLater(d, "c", d) == []
  {
    AbcFacts(d);
    assert "a" + ['b'] == "ab" && "a" + ['c'] == "ac" && "b" + ['c'] == "bc";
    assert AppendLater(d, "a", d[1..][1..]) == ["ac"];
    assert AppendLater(d, "b", d[1..][1..]) == ["bc"];
    assert AppendLater(d, "c", d[1..][1..]) == [];
  }

  /** The innermost loop for each tuple of the second level over abc. */
  lemma AppendLaterPairs(d: seq<char>)
    requires d == "abc"
    ensures AppendLater(d, "ab", d) == ["abc"]
    ensures AppendLater(d, "ac", d) == []
    ensures AppendLater(d, "bc", d) == []
  {
    AbcFacts(d);
    assert "ab" + ['c'] == "abc";
    assert AppendLater(d, "ab", d[1..][1..]) == ["abc"];
    assert AppendLater(d, "ac", d[1..][1..]) == [];
    assert AppendLater(d, "bc", d[1..][1..]) == [];
  }

  lemma GrowThree<T>(d: seq<T>, a: seq<T>, b: seq<T>, c: seq<T>)
    ensures Grow(d, [a, b, c]) == AppendLater(d, a, d) + AppendLater(d, b, d) + AppendLater(d, c, d)
  {
    assert [a, b, c][1..] == [b, c] && [b, c][1..] == [c] && [c][1..] == [];
    assert Grow(d, [c]) == AppendLater(d, c, d) + [];
    assert Grow(d, [b, c]) == AppendLater(d, b, d) + AppendLater(d, c, d);
  }

  lemma PairsOfAbc(d: seq<char>)
    requires d == "abc"
    ensures CombinationLevel(d, 1) == ["ab", "ac", "bc"]
  {
    assert CombinationLevel(d, 0) == ["a", "b", "c"];
    AppendLaterSingles(d);
    CombinationLevelStep(d, 1);
    GrowThree(d, "a", "b", "c");
  }

  lemma TriplesOfAbc(d: seq<char>)
    requires d == "abc"
    ensures CombinationLevel(d, 2) == ["abc"]
  {
    PairsOfAbc(d);
    AppendLaterPairs(d);
    CombinationLevelStep(d, 2);
    GrowThree(d, "ab", "ac", "bc");
  }

  lemma EnumerateCombinationsCases(elements: seq<char>)
    requires elements == "abc"
    ensures EnumerateCombinations(elements, |elements|) == Ok([elements])
    ensures EnumerateCombinations(elements, 2) == Ok(["ab", "ac", "bc"])
    ensures EnumerateCombinations(elements, 0) == Ok([[]])
    ensures EnumerateCombinations(elements, -1).Throws?
    ensures EnumerateCombinations(elements, 5).Throws?
    ensures EnumerateCombinations(elements + elements, 5).Throws?
  {
    DistinctElementsCases(elements);
    PairsOfAbc(elements);
    TriplesOfAbc(elements);
  }
}
