/** The closed-form counting functions of src/index.ts lines 1-51. JavaScript
    numbers are modelled as unbounded integers, and the source's `/` on
    factorials as integer division, which the contracts show to be exact. */
module Counting {
  import opened Results
  import opened Arith

  /** `factorial(a)`: throws for a negative argument, otherwise a!. */
  function Factorial(a: int): (r: Result<int>)
    ensures r.Throws? <==> a < 0
    ensures r.Ok? ==> r.value == Fact(a)
    decreases if a < 0 then 0 else a
  {
    if a < 0 then Throws
    else if a == 0 || a == 1 then Ok(1)
    else
      FactStep(a);
      match Factorial(a - 1)
      case Throws => Throws
      case Ok(f) => Ok(a * f)
  }

  /** `numberOfPermutations(numberOfElements, numberOfSlots, withRepitition)`:
      the number of sequences of numberOfSlots entries drawn from
      numberOfElements values, with or without repeated values. */
  function NumberOfPermutations(numberOfElements: int, numberOfSlots: int, withRepetition: bool): (r: Result<int>)
    ensures r.Throws? <==> numberOfElements < 0 || numberOfSlots < 0
                           || (!withRepetition && numberOfSlots > numberOfElements)
    ensures r.Ok? && withRepetition ==> r.value == Pow(numberOfElements, numberOfSlots)
    ensures r.Ok? && !withRepetition ==>
              && r.value == Falling(numberOfElements, numberOfSlots)
              && r.value * Fact(numberOfElements - numberOfSlots) == Fact(numberOfElements)
  {
    if numberOfElements < 0 then Throws
    else if numberOfSlots < 0 then Throws
    else if withRepetition then Ok(Pow(numberOfElements, numberOfSlots))
    else if numberOfSlots > numberOfElements then Throws
    else
      FallingIsQuotient(numberOfElements, numberOfSlots);
      FallingBelowFact(numberOfElements, numberOfSlots);
      match (Factorial(numberOfElements), Factorial(numberOfElements - numberOfSlots))
      case (Ok(all), Ok(rest)) => Ok(all / rest)
      case _ => Throws
  }

  /** `numberOfSubsets(numberOfElements, allowEmptySet)`: 2^n, one fewer
      without the empty set. */
  function NumberOfSubsets(numberOfElements: int, allowEmptySet: bool): (r: Result<int>)
    ensures r.Throws? <==> numberOfElements < 0
    ensures r.Ok? ==> r.value == BinomSum(numberOfElements, numberOfElements + 1) - (if allowEmptySet then 0 else 1)
    ensures r.Ok? ==> r.value >= 0
  {
    if numberOfElements < 0 then Throws
    else
      var n := Pow(2, numberOfElements);
      BinomSumIsPow(numberOfElements);
      assert BinomSum(numberOfElements, numberOfElements + 1) >= 1 by {
        BinomSumAtLeastOne(numberOfElements);
      }
      Ok(if !allowEmptySet then n - 1 else n)
  }

  /** `numberOfCombinations(numberOfElements, size)`: n! / (size! * (n - size)!). */
  function NumberOfCombinations(numberOfElements: int, size: int): (r: Result<int>)
    ensures r.Throws? <==> numberOfElements < 0 || size < 0 || size > numberOfElements
    ensures r.Ok? ==> && r.value == Binom(numberOfElements, size)
                      && r.value * (Fact(size) * Fact(numberOfElements - size)) == Fact(numberOfElements)
  {
    if numberOfElements < 0 then Throws
    else if size < 0 then Throws
    else if size > numberOfElements then Throws
    else
      BinomIsQuotient(numberOfElements, size);
      BinomTimesFacts(numberOfElements, size);
      match (Factorial(numberOfElements), Factorial(size), Factorial(numberOfElements - size))
      case (Ok(all), Ok(chosen), Ok(rest)) => Ok(all / (chosen * rest))
      case _ => Throws
  }

  /** The recurrence the tests check: factorial(i) == i * factorial(i - 1) for i >= 2. */
  lemma FactorialRecurrence(a: int)
    requires a >= 2
    ensures Factorial(a).Ok? && Factorial(a - 1).Ok?
    ensures Factorial(a).value == a * Factorial(a - 1).value
  {
  }
}
