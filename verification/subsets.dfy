/** `enumerateSubsets` (src/index.ts lines 91-117): the levels of the shared
    construction for every size from 1 to the number of distinct values,
    with the level [[]] put in front when the empty set is allowed, then
    flattened in order. */
module Subsets {
  import opened Arith
  import opened Distinct
  import opened Counting
  import opened Combinations

  /** `ls.flat()`: the levels' tuples, level by level, in order. */
  function Flatten<T>(ls: seq<seq<seq<T>>>): seq<seq<T>>
  {
    if |ls| == 0 then [] else Flatten(ls[..|ls| - 1]) + ls[|ls| - 1]
  }

  lemma {:induction false} FlattenMembers<T>(ls: seq<seq<seq<T>>>, t: seq<T>)
    ensures t in Flatten(ls) <==> exists k :: 0 <= k < |ls| && t in ls[k]
  {
    if |ls| > 0 {
      var init := ls[..|ls| - 1];
      FlattenMembers(init, t);
      if exists k :: 0 <= k < |ls| && t in ls[k] {
        var k :| 0 <= k < |ls| && t in ls[k];
        if k < |ls| - 1 {
          assert init[k] == ls[k];
        }
      }
    }
  }

  /** Flattening after `unshift(x)` puts x's tuples first. */
  lemma {:induction false} FlattenCons<T>(x: seq<seq<T>>, ls: seq<seq<seq<T>>>)
    ensures Flatten([x] + ls) == x + Flatten(ls)
  {
    if |ls| > 0 {
      var init := ls[..|ls| - 1];
      FlattenCons(x, init);
      assert ([x] + ls)[..|ls|] == [x] + init;
    }
  }

  /** Levels whose tuples have lengths off, off + 1, ... flatten into a
      sequence whose lengths never decrease. */
  lemma {:induction false} FlattenBySize<T>(ls: seq<seq<seq<T>>>, off: nat)
    requires forall k, t :: 0 <= k < |ls| && t in ls[k] ==> |t| == k + off
    ensures forall i, j :: 0 <= i < j < |Flatten(ls)| ==> |Flatten(ls)[i]| <= |Flatten(ls)[j]|
    ensures forall t :: t in Flatten(ls) ==> off <= |t| < off + |ls|
  {
    if |ls| > 0 {
      var init := ls[..|ls| - 1];
      var last := ls[|ls| - 1];
      assert forall k, t :: 0 <= k < |init| && t in init[k] ==> t in ls[k];
      FlattenBySize(init, off);
      var before := Flatten(init);
      var r := before + last;
      forall i, j | 0 <= i < j < |r|
        ensures |r[i]| <= |r[j]|
      {
        if j < |before| {
          assert r[i] == before[i] && r[j] == before[j];
        } else {
          assert r[j] == last[j - |before|] && r[j] in ls[|ls| - 1];
          if i < |before| {
            assert r[i] == before[i] && r[i] in Flatten(init);
          } else {
            assert r[i] == last[i - |before|] && r[i] in ls[|ls| - 1];
          }
        }
      }
      forall t | t in r
        ensures off <= |t| < off + |ls|
      {
        if t in last {
          assert t in ls[|ls| - 1];
        }
      }
    }
  }

  /** Duplicate-free levels of different lengths flatten without duplicates. */
  lemma {:induction false} FlattenNoDuplicates<T>(ls: seq<seq<seq<T>>>, off: nat)
    requires forall k, t :: 0 <= k < |ls| && t in ls[k] ==> |t| == k + off
    requires forall k :: 0 <= k < |ls| ==> NoDuplicates(ls[k])
    ensures NoDuplicates(Flatten(ls))
  {
    if |ls| > 0 {
      var init := ls[..|ls| - 1];
      var last := ls[|ls| - 1];
      assert forall k, t :: 0 <= k < |init| && t in init[k] ==> t in ls[k];
      FlattenNoDuplicates(init, off);
      FlattenBySize(init, off);
      forall t | t in Flatten(init)
        ensures t !in last
      {
        assert |t| < off + |ls| - 1;
      }
      NoDuplicatesConcat(Flatten(init), last);
    }
  }

  /** Levels of sizes C(n, 1), C(n, 2), ... flatten into one fewer than
      C(n, 0) + C(n, 1) + ... tuples. */
  lemma {:induction false} FlattenCount<T>(ls: seq<seq<seq<T>>>, n: nat)
    requires forall k :: 0 <= k < |ls| ==> |ls[k]| == Binom(n, k + 1)
    ensures |Flatten(ls)| + 1 == BinomSum(n, |ls| + 1)
  {
    if |ls| > 0 {
      var init := ls[..|ls| - 1];
      assert forall k :: 0 <= k < |init| ==> init[k] == ls[k];
      FlattenCount(init, n);
    }
  }

  /** `levels` after the loop of lines 95-110: level pos, for pos below count. */
  function Levels<T(==)>(distinct: seq<T>, count: nat): (ls: seq<seq<seq<T>>>)
    ensures |ls| == count
  {
    seq(count, pos requires 0 <= pos < count => CombinationLevel(distinct, pos))
  }

  /** Level pos holds only ascending tuples of length pos + 1. */
  lemma LevelsSound<T>(distinct: seq<T>, count: nat)
    ensures forall k, t :: 0 <= k < count && t in Levels(distinct, count)[k] ==>
              |t| == k + 1 && Ascending(distinct, t)
  {
    forall k, t | 0 <= k < count && t in Levels(distinct, count)[k]
      ensures |t| == k + 1 && Ascending(distinct, t)
    {
      assert Levels(distinct, count)[k] == CombinationLevel(distinct, k);
      CombinationLevelMembers(distinct, k, t);
    }
  }

  /** Putting the empty tuple first keeps lengths in order. */
  lemma PrependEmptyBySize<T>(r: seq<seq<T>>)
    requires forall i, j :: 0 <= i < j < |r| ==> |r[i]| <= |r[j]|
    ensures var s := [[]] + r;
            forall i, j :: 0 <= i < j < |s| ==> |s[i]| <= |s[j]|
  {
  }

  /** `enumerateSubsets(elements, allowEmptySet)`. */
  function EnumerateSubsets<T(==)>(elements: seq<T>, allowEmptySet: bool): (r: seq<seq<T>>)
    ensures allowEmptySet ==> |r| > 0 && r[0] == []
  {
    var distinct := DistinctElements(elements);
    var levels := Levels(distinct, |distinct|);
    if allowEmptySet then
      FlattenCons([[]], levels);
      Flatten([[[]]] + levels)
    else Flatten(levels)
  }

  /** The flattened result, with the empty tuple in front when it is allowed. */
  lemma SubsetsShape<T>(elements: seq<T>, allowEmptySet: bool)
    ensures var levels := Flatten(Levels(DistinctElements(elements), |DistinctElements(elements)|));
            EnumerateSubsets(elements, allowEmptySet) == (if allowEmptySet then [[]] else []) + levels
  {
    var distinct := DistinctElements(elements);
    var levels := Levels(distinct, |distinct|);
    if allowEmptySet {
      FlattenCons([[]], levels);
    }
  }

  /** The result lists subsets by size: the empty one (when allowed), then
      each size from 1 up. */
  lemma SubsetsBySize<T>(elements: seq<T>, allowEmptySet: bool)
    ensures var r := EnumerateSubsets(elements, allowEmptySet);
            forall i, j :: 0 <= i < j < |r| ==> |r[i]| <= |r[j]|
  {
    var distinct := DistinctElements(elements);
    var levels := Levels(distinct, |distinct|);
    LevelsSound(distinct, |distinct|);
    FlattenBySize(levels, 1);
    SubsetsShape(elements, allowEmptySet);
    if allowEmptySet {
      PrependEmptyBySize(Flatten(levels));
    }
  }

  /** The flattened levels hold exactly the ascending tuples of length 1 to count. */
  lemma LevelsMembers<T>(distinct: seq<T>, count: nat, t: seq<T>)
    ensures t in Flatten(Levels(distinct, count)) <==> 1 <= |t| <= count && Ascending(distinct, t)
  {
    var levels := Levels(distinct, count);
    FlattenMembers(levels, t);
    if t in Flatten(levels) {
      var k :| 0 <= k < |levels| && t in levels[k];
      assert levels[k] == CombinationLevel(distinct, k);
      CombinationLevelMembers(distinct, k, t);
    }
    if 1 <= |t| <= count && Ascending(distinct, t) {
      CombinationLevelMembers(distinct, |t| - 1, t);
      assert levels[|t| - 1] == CombinationLevel(distinct, |t| - 1);
    }
  }

  /** The result holds exactly the ascending tuples over the distinct values,
      the empty one only when the empty set is allowed. */
  lemma SubsetsAreAllAscendingTuples<T>(elements: seq<T>, allowEmptySet: bool, t: seq<T>)
    ensures t in EnumerateSubsets(elements, allowEmptySet) <==>
              Ascending(DistinctElements(elements), t) && (allowEmptySet || t != [])
  {
    var distinct := DistinctElements(elements);
    SubsetsShape(elements, allowEmptySet);
    LevelsMembers(distinct, |distinct|, t);
    if Ascending(distinct, t) {
      AscendingLength(distinct, t);
    }
  }

  /** No subset is listed twice. */
  lemma SubsetsListedOnce<T>(elements: seq<T>, allowEmptySet: bool)
    ensures NoDuplicates(EnumerateSubsets(elements, allowEmptySet))
  {
    var distinct := DistinctElements(elements);
    var levels := Levels(distinct, |distinct|);
    LevelsSound(distinct, |distinct|);
    forall k | 0 <= k < |levels|
      ensures NoDuplicates(levels[k])
    {
      assert levels[k] == CombinationLevel(distinct, k);
      CombinationLevelNoDuplicates(distinct, k);
    }
    FlattenNoDuplicates(levels, 1);
    FlattenBySize(levels, 1);
    SubsetsShape(elements, allowEmptySet);
    if allowEmptySet {
      NoDuplicatesConcat([[]], Flatten(levels));
    }
  }

  /** Level k holds C(d, k + 1) tuples. */
  lemma LevelCount<T>(distinct: seq<T>, count: nat, k: nat)
    requires NoDuplicates(distinct) && k < count
    ensures |Levels(distinct, count)[k]| == Binom(|distinct|, k + 1)
  {
    CombinationLevelCount(distinct, k, k + 1);
    assert Levels(distinct, count)[k] == CombinationLevel(distinct, k);
  }

  /** There are 2^d subsets of d distinct values, one fewer without the empty
      set: the value of `numberOfSubsets(d, allowEmptySet)`, and of
      `numberOfSubsets(elements.length, allowEmptySet)` when the input has no
      repeated value. */
  lemma SubsetCount<T>(elements: seq<T>, allowEmptySet: bool)
    ensures var n := NumberOfSubsets(|DistinctElements(elements)|, allowEmptySet);
            n.Ok? && |EnumerateSubsets(elements, allowEmptySet)| == n.value
    ensures NoDuplicates(elements) ==>
              |EnumerateSubsets(elements, allowEmptySet)| == NumberOfSubsets(|elements|, allowEmptySet).value
  {
    var distinct := DistinctElements(elements);
    var levels := Levels(distinct, |distinct|);
    forall k | 0 <= k < |levels|
      ensures |levels[k]| == Binom(|distinct|, k + 1)
    {
      LevelCount(distinct, |distinct|, k);
    }
    FlattenCount(levels, |distinct|);
    SubsetsShape(elements, allowEmptySet);
    if NoDuplicates(elements) {
      DistinctOfDuplicateFree(elements);
    }
  }
}
