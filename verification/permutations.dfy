/** `enumeratePermutations` (src/index.ts lines 63-89): level-by-level
    construction of every sequence of a given length over the input, where
    level `slot` holds the tuples of length slot + 1 and each level prepends a
    candidate, drawn from the raw input, to every tuple of the level before. */
module Permutations {
  import opened Results
  import opened Arith
  import opened Distinct
  import opened Counting

  /** Every entry of t occurs in elements. */
  predicate DrawnFrom<T(==)>(t: seq<T>, elements: seq<T>) {
    forall i :: 0 <= i < |t| ==> t[i] in elements
  }

  /** The innermost loop (lines 79-83) for one candidate `next`:
      `[next].concat(prev)` for every tuple prev of the previous level, in
      order, skipping without repetition each prev in which `indexOf` finds next. */
  function PrependTo<T(==)>(next: T, prevs: seq<seq<T>>, withRepetition: bool): (r: seq<seq<T>>)
    ensures |r| <= |prevs|
  {
    if |prevs| == 0 then []
    else
      var prev := prevs[0];
      (if withRepetition || IndexOf(prev, next) == -1 then [[next] + prev] else [])
      + PrependTo(next, prevs[1..], withRepetition)
  }

  /** The loop over candidates (lines 74-85) for a slot after the first. */
  function Extend<T(==)>(candidates: seq<T>, prevs: seq<seq<T>>, withRepetition: bool): seq<seq<T>>
  {
    if |candidates| == 0 then []
    else PrependTo(candidates[0], prevs, withRepetition) + Extend(candidates[1..], prevs, withRepetition)
  }

  /** `levels[slot]` of the source: the tuples of length slot + 1. */
  function PermutationLevel<T(==)>(elements: seq<T>, withRepetition: bool, slot: nat): seq<seq<T>>
  {
    if slot == 0 then seq(|elements|, i requires 0 <= i < |elements| => [elements[i]])
    else Extend(elements, PermutationLevel(elements, withRepetition, slot - 1), withRepetition)
  }

  /** PrependTo lists exactly next followed by a tuple of prevs, one without
      next when repetition is not allowed. */
  lemma {:induction false} PrependToMembers<T>(next: T, prevs: seq<seq<T>>, withRepetition: bool, t: seq<T>)
    ensures t in PrependTo(next, prevs, withRepetition) <==>
              |t| > 0 && t[0] == next && t[1..] in prevs && (withRepetition || next !in t[1..])
  {
    if |prevs| > 0 {
      PrependToMembers(next, prevs[1..], withRepetition, t);
      assert prevs == [prevs[0]] + prevs[1..];
      if |t| > 0 && t[0] == next && t[1..] == prevs[0] {
        assert t == [next] + prevs[0];
      }
    }
  }

  /** Extend lists exactly a candidate followed by a tuple of prevs, one
      without that candidate when repetition is not allowed. */
  lemma {:induction false} ExtendMembers<T>(candidates: seq<T>, prevs: seq<seq<T>>, withRepetition: bool, t: seq<T>)
    ensures t in Extend(candidates, prevs, withRepetition) <==>
              |t| > 0 && t[0] in candidates && t[1..] in prevs && (withRepetition || t[0] !in t[1..])
  {
    if |candidates| > 0 {
      PrependToMembers(candidates[0], prevs, withRepetition, t);
      ExtendMembers(candidates[1..], prevs, withRepetition, t);
      assert candidates == [candidates[0]] + candidates[1..];
    }
  }

  lemma ConsFacts<T>(t: seq<T>, elements: seq<T>)
    requires |t| > 0
    ensures DrawnFrom(t, elements) <==> t[0] in elements && DrawnFrom(t[1..], elements)
    ensures NoDuplicates(t) <==> t[0] !in t[1..] && NoDuplicates(t[1..])
  {
  }

  /** A level after the first extends the one before it. */
  lemma PermutationLevelStep<T>(elements: seq<T>, withRepetition: bool, slot: nat)
    requires slot > 0
    ensures PermutationLevel(elements, withRepetition, slot)
            == Extend(elements, PermutationLevel(elements, withRepetition, slot - 1), withRepetition)
  {
  }

  lemma {:induction false} PermutationLevelOnly<T>(elements: seq<T>, withRepetition: bool, slot: nat, t: seq<T>)
    requires t in PermutationLevel(elements, withRepetition, slot)
    ensures |t| == slot + 1 && DrawnFrom(t, elements) && (withRepetition || NoDuplicates(t))
  {
    var level := PermutationLevel(elements, withRepetition, slot);
    if slot == 0 {
      var i :| 0 <= i < |level| && level[i] == t;
      assert t == [elements[i]];
    } else {
      PermutationLevelStep(elements, withRepetition, slot);
      ExtendMembers(elements, PermutationLevel(elements, withRepetition, slot - 1), withRepetition, t);
      PermutationLevelOnly(elements, withRepetition, slot - 1, t[1..]);
      ConsFacts(t, elements);
    }
  }

  lemma {:induction false} PermutationLevelAll<T>(elements: seq<T>, withRepetition: bool, slot: nat, t: seq<T>)
    requires |t| == slot + 1 && DrawnFrom(t, elements) && (withRepetition || NoDuplicates(t))
    ensures t in PermutationLevel(elements, withRepetition, slot)
  {
    var level := PermutationLevel(elements, withRepetition, slot);
    if slot == 0 {
      assert t[0] in elements;
      var k :| 0 <= k < |elements| && elements[k] == t[0];
      assert level[k] == t;
    } else {
      ConsFacts(t, elements);
      PermutationLevelAll(elements, withRepetition, slot - 1, t[1..]);
      ExtendMembers(elements, PermutationLevel(elements, withRepetition, slot - 1), withRepetition, t);
      PermutationLevelStep(elements, withRepetition, slot);
    }
  }

  /** Level slot lists exactly the tuples of length slot + 1 over the input,
      repetition-free when repetition is not allowed. */
  lemma PermutationLevelMembers<T>(elements: seq<T>, withRepetition: bool, slot: nat, t: seq<T>)
    ensures t in PermutationLevel(elements, withRepetition, slot) <==>
              |t| == slot + 1 && DrawnFrom(t, elements) && (withRepetition || NoDuplicates(t))
  {
    if t in PermutationLevel(elements, withRepetition, slot) {
      PermutationLevelOnly(elements, withRepetition, slot, t);
    } else if |t| == slot + 1 && DrawnFrom(t, elements) && (withRepetition || NoDuplicates(t)) {
      PermutationLevelAll(elements, withRepetition, slot, t);
    }
  }

  /** Every tuple of level slot has length slot + 1, draws from the input, and
      repeats nothing when repetition is not allowed. */
  lemma PermutationLevelSound<T>(elements: seq<T>, withRepetition: bool, slot: nat)
    ensures forall t :: t in PermutationLevel(elements, withRepetition, slot) ==>
              |t| == slot + 1 && DrawnFrom(t, elements) && (withRepetition || NoDuplicates(t))
  {
    forall t | t in PermutationLevel(elements, withRepetition, slot)
      ensures |t| == slot + 1 && DrawnFrom(t, elements) && (withRepetition || NoDuplicates(t))
    {
      PermutationLevelMembers(elements, withRepetition, slot, t);
    }
  }

  lemma PermutationLevelLengths<T>(elements: seq<T>, withRepetition: bool, slot: nat, size: nat)
    requires size == slot + 1
    ensures forall t :: t in PermutationLevel(elements, withRepetition, slot) ==> |t| == size
  {
    forall t | t in PermutationLevel(elements, withRepetition, slot)
      ensures |t| == size
    {
      PermutationLevelOnly(elements, withRepetition, slot, t);
    }
  }

  /** `enumeratePermutations(elements, numberOfSlots, withRepitition)`. It
      throws for a negative number of slots and, without repetition, for more
      slots than distinct values. For zero slots the source returns
      `levels[-1]`, which is `undefined`: the model returns None. */
  function EnumeratePermutations<T(==)>(elements: seq<T>, numberOfSlots: int, withRepetition: bool)
    : (r: Result<Option<seq<seq<T>>>>)
    ensures r.Throws? <==> numberOfSlots < 0 || (!withRepetition && numberOfSlots > |DistinctElements(elements)|)
    ensures r.Ok? ==> (r.value.None? <==> numberOfSlots == 0)
    ensures r.Ok? && r.value.Some? ==> forall t :: t in r.value.value ==> |t| == numberOfSlots
  {
    if numberOfSlots < 0 then Throws
    else
      var distinct := DistinctElements(elements);
      if !withRepetition && numberOfSlots > |distinct| then Throws
      else if numberOfSlots == 0 then Ok(None)
      else
        PermutationLevelLengths(elements, withRepetition, numberOfSlots - 1, numberOfSlots);
        Ok(Some(PermutationLevel(elements, withRepetition, numberOfSlots - 1)))
  }

  /** The result is exactly the set of tuples of the requested length over the
      input, repetition-free when repetition is not allowed. */
  lemma PermutationsAreAllArrangements<T>(elements: seq<T>, numberOfSlots: int, withRepetition: bool, t: seq<T>)
    requires EnumeratePermutations(elements, numberOfSlots, withRepetition).Ok?
    requires numberOfSlots >= 1
    ensures var r := EnumeratePermutations(elements, numberOfSlots, withRepetition);
            r.value.Some? &&
            (t in r.value.value <==>
               |t| == numberOfSlots && DrawnFrom(t, elements) && (withRepetition || NoDuplicates(t)))
  {
    var level := PermutationLevel(elements, withRepetition, numberOfSlots - 1);
    PermutationLevelMembers(elements, withRepetition, numberOfSlots - 1, t);
    assert EnumeratePermutations(elements, numberOfSlots, withRepetition) == Ok(Some(level));
  }

  // ---------------------------------------------------------------------
  // No tuple is listed twice when the input is duplicate-free.

  lemma {:induction false} PrependToNoDuplicates<T>(next: T, prevs: seq<seq<T>>, withRepetition: bool)
    requires NoDuplicates(prevs)
    ensures NoDuplicates(PrependTo(next, prevs, withRepetition))
  {
    if |prevs| > 0 {
      var head := if withRepetition || IndexOf(prevs[0], next) == -1 then [[next] + prevs[0]] else [];
      var tail := PrependTo(next, prevs[1..], withRepetition);
      PrependToNoDuplicates(next, prevs[1..], withRepetition);
      forall t | t in head
        ensures t !in tail
      {
        PrependToMembers(next, prevs[1..], withRepetition, t);
        assert t[1..] == prevs[0];
        assert prevs[0] !in prevs[1..];
      }
      NoDuplicatesConcat(head, tail);
    }
  }

  lemma {:induction false} ExtendNoDuplicates<T>(candidates: seq<T>, prevs: seq<seq<T>>, withRepetition: bool)
    requires NoDuplicates(candidates) && NoDuplicates(prevs)
    ensures NoDuplicates(Extend(candidates, prevs, withRepetition))
  {
    if |candidates| > 0 {
      var head := PrependTo(candidates[0], prevs, withRepetition);
      var tail := Extend(candidates[1..], prevs, withRepetition);
      PrependToNoDuplicates(candidates[0], prevs, withRepetition);
      ExtendNoDuplicates(candidates[1..], prevs, withRepetition);
      forall t | t in head
        ensures t !in tail
      {
        PrependToMembers(candidates[0], prevs, withRepetition, t);
        ExtendMembers(candidates[1..], prevs, withRepetition, t);
        assert candidates[0] !in candidates[1..];
      }
      NoDuplicatesConcat(head, tail);
    }
  }

  lemma {:induction false} PermutationLevelNoDuplicates<T>(elements: seq<T>, withRepetition: bool, slot: nat)
    requires NoDuplicates(elements)
    ensures NoDuplicates(PermutationLevel(elements, withRepetition, slot))
  {
    if slot == 0 {
      var level := PermutationLevel(elements, withRepetition, slot);
      forall i, j | 0 <= i < j < |level|
        ensures level[i] != level[j]
      {
        assert level[i][0] == elements[i] && level[j][0] == elements[j];
      }
    } else {
      PermutationLevelNoDuplicates(elements, withRepetition, slot - 1);
      ExtendNoDuplicates(elements, PermutationLevel(elements, withRepetition, slot - 1), withRepetition);
    }
  }

  /** For a duplicate-free input no arrangement is listed twice. */
  lemma PermutationsListedOnce<T>(elements: seq<T>, numberOfSlots: int, withRepetition: bool)
    requires NoDuplicates(elements)
    requires EnumeratePermutations(elements, numberOfSlots, withRepetition).Ok?
    requires numberOfSlots >= 1
    ensures var r := EnumeratePermutations(elements, numberOfSlots, withRepetition);
            r.value.Some? && NoDuplicates(r.value.value)
  {
    PermutationLevelNoDuplicates(elements, withRepetition, numberOfSlots - 1);
  }

  // ---------------------------------------------------------------------
  // Counting with repetition.

  lemma {:induction false} PrependToCountWithRepetition<T>(next: T, prevs: seq<seq<T>>)
    ensures |PrependTo(next, prevs, true)| == |prevs|
  {
    if |prevs| > 0 {
      PrependToCountWithRepetition(next, prevs[1..]);
    }
  }

  lemma {:induction false} ExtendCountWithRepetition<T>(candidates: seq<T>, prevs: seq<seq<T>>)
    ensures |Extend(candidates, prevs, true)| == |candidates| * |prevs|
  {
    if |candidates| > 0 {
      PrependToCountWithRepetition(candidates[0], prevs);
      ExtendCountWithRepetition(candidates[1..], prevs);
      assert |candidates| * |prevs| == |prevs| + (|candidates| - 1) * |prevs|;
    }
  }

  lemma {:induction false} PermutationLevelCountWithRepetition<T>(elements: seq<T>, slot: nat)
    ensures |PermutationLevel(elements, true, slot)| == Pow(|elements|, slot + 1)
  {
    if slot > 0 {
      PermutationLevelCountWithRepetition(elements, slot - 1);
      ExtendCountWithRepetition(elements, PermutationLevel(elements, true, slot - 1));
    }
  }

  /** With repetition there are |elements|^numberOfSlots tuples, the value of
      `numberOfPermutations(elements.length, numberOfSlots)`, whatever the input. */
  lemma PermutationCountWithRepetition<T>(elements: seq<T>, numberOfSlots: int)
    requires numberOfSlots >= 1
    ensures var r := EnumeratePermutations(elements, numberOfSlots, true);
            var n := NumberOfPermutations(|elements|, numberOfSlots, true);
            r.Ok? && r.value.Some? && n.Ok? && |r.value.value| == n.value
  {
    PermutationLevelCountWithRepetition(elements, numberOfSlots - 1);
  }

  // ---------------------------------------------------------------------
  // Counting without repetition.

  /** How many candidates do not occur in t. */
  function CountAbsent<T(==)>(candidates: seq<T>, t: seq<T>): nat {
    if |candidates| == 0 then 0
    else (if candidates[0] in t then 0 else 1) + CountAbsent(candidates[1..], t)
  }

  lemma {:induction false} CountAbsentIsCardinality<T>(candidates: seq<T>, t: seq<T>)
    requires NoDuplicates(candidates)
    ensures CountAbsent(candidates, t) == |Elems(candidates) - Elems(t)|
  {
    if |candidates| > 0 {
      var c, rest := candidates[0], candidates[1..];
      CountAbsentIsCardinality(rest, t);
      assert candidates == [c] + rest;
      assert c !in rest;
      RemoveHead(c, rest, Elems(t));
    }
  }

  lemma RemoveHead<T>(c: T, rest: seq<T>, gone: set<T>)
    requires c !in rest
    ensures |Elems([c] + rest) - gone| == |Elems(rest) - gone| + (if c in gone then 0 else 1)
  {
    var a, b := Elems([c] + rest) - gone, Elems(rest) - gone;
    assert c !in b;
    if c in gone {
      assert a == b;
    } else {
      assert a == b + {c};
    }
  }

  lemma SubsetCardinality<T>(a: set<T>, b: set<T>)
    requires b <= a
    ensures |a - b| == |a| - |b|
  {
  }

  /** A repetition-free tuple of k candidates leaves |candidates| - k of them absent. */
  lemma CountAbsentOfArrangement<T>(candidates: seq<T>, t: seq<T>)
    requires NoDuplicates(candidates) && NoDuplicates(t) && DrawnFrom(t, candidates)
    ensures CountAbsent(candidates, t) == |candidates| - |t|
  {
    CountAbsentIsCardinality(candidates, t);
    assert Elems(t) <= Elems(candidates);
    SubsetCardinality(Elems(candidates), Elems(t));
    ElemsOfDuplicateFree(candidates);
    ElemsOfDuplicateFree(t);
  }

  lemma {:induction false} ExtendConsCount<T>(candidates: seq<T>, p: seq<T>, prevs: seq<seq<T>>)
    ensures |Extend(candidates, [p] + prevs, false)| == CountAbsent(candidates, p) + |Extend(candidates, prevs, false)|
  {
    if |candidates| > 0 {
      var c := candidates[0];
      assert ([p] + prevs)[0] == p && ([p] + prevs)[1..] == prevs;
      assert |PrependTo(c, [p] + prevs, false)| == (if c in p then 0 else 1) + |PrependTo(c, prevs, false)|;
      ExtendConsCount(candidates[1..], p, prevs);
    }
  }

  lemma {:induction false} ExtendOfNothing<T>(candidates: seq<T>, prevs: seq<seq<T>>)
    requires |prevs| == 0
    ensures Extend(candidates, prevs, false) == []
  {
    if |candidates| > 0 {
      ExtendOfNothing(candidates[1..], prevs);
    }
  }

  lemma {:induction false} ExtendUniformCount<T>(candidates: seq<T>, prevs: seq<seq<T>>, m: nat)
    requires forall i :: 0 <= i < |prevs| ==> CountAbsent(candidates, prevs[i]) == m
    ensures |Extend(candidates, prevs, false)| == |prevs| * m
  {
    if |prevs| == 0 {
      ExtendOfNothing(candidates, prevs);
    } else {
      var head, rest := prevs[0], prevs[1..];
      assert prevs == [head] + rest;
      assert forall i :: 0 <= i < |rest| ==> rest[i] == prevs[i + 1];
      ExtendConsCount(candidates, head, rest);
      ExtendUniformCount(candidates, rest, m);
      Distribute(1, |rest|, m);
    }
  }

  /** Each tuple of level slot leaves |elements| - (slot + 1) candidates absent. */
  lemma LevelTupleCountAbsent<T>(elements: seq<T>, slot: nat, p: seq<T>)
    requires NoDuplicates(elements) && p in PermutationLevel(elements, false, slot)
    ensures CountAbsent(elements, p) == |elements| - (slot + 1)
  {
    PermutationLevelMembers(elements, false, slot, p);
    CountAbsentOfArrangement(elements, p);
  }

  /** Each tuple of level k - 2 (length k - 1) extends in |elements| - (k - 1) ways. */
  lemma PermutationLevelCountStep<T>(elements: seq<T>, k: nat)
    requires NoDuplicates(elements) && 2 <= k <= |elements|
    ensures |PermutationLevel(elements, false, k - 1)|
            == |PermutationLevel(elements, false, k - 1 - 1)| * (|elements| - (k - 1))
  {
    var prevs := PermutationLevel(elements, false, k - 1 - 1);
    forall i | 0 <= i < |prevs|
      ensures CountAbsent(elements, prevs[i]) == |elements| - (k - 1)
    {
      LevelTupleCountAbsent(elements, k - 1 - 1, prevs[i]);
    }
    ExtendUniformCount(elements, prevs, |elements| - (k - 1));
    PermutationLevelStep(elements, false, k - 1);
  }

  lemma {:induction false} PermutationLevelCountWithoutRepetition<T>(elements: seq<T>, k: nat)
    requires NoDuplicates(elements) && 1 <= k <= |elements|
    ensures |PermutationLevel(elements, false, k - 1)| == Falling(|elements|, k)
  {
    if k > 1 {
      PermutationLevelCountStep(elements, k);
      PermutationLevelCountWithoutRepetition(elements, k - 1);
      FallingStep(|elements|, k);
    }
  }

  /** Without repetition a duplicate-free input of n values gives n! / (n - k)!
      tuples, the value of `numberOfPermutations(n, k, false)`. */
  lemma PermutationCountWithoutRepetition<T>(elements: seq<T>, numberOfSlots: int)
    requires NoDuplicates(elements)
    requires 1 <= numberOfSlots <= |elements|
    ensures var r := EnumeratePermutations(elements, numberOfSlots, false);
            var n := NumberOfPermutations(|elements|, numberOfSlots, false);
            r.Ok? && r.value.Some? && n.Ok? && |r.value.value| == n.value
  {
    DistinctOfDuplicateFree(elements);
    PermutationLevelCountWithoutRepetition(elements, numberOfSlots);
  }
}
