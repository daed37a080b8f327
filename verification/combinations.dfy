/** The level-by-level construction shared by `enumerateSubsets` and
    `enumerateCombinations` (src/index.ts lines 95-110 and 131-147), and
    `enumerateCombinations` itself (lines 119-150). Level pos holds tuples of
    length pos + 1; each level appends to every tuple of the level before each
    distinct value whose `indexOf` in the deduplicated input exceeds that of
    the tuple's last entry. */
module Combinations {
  import opened Results
  import opened Arith
  import opened Distinct
  import opened Counting

  /** `distinct.indexOf(prev[pos - 1])`: the position in distinct of prev's
      last entry; -1, as `indexOf(undefined)` gives, for an empty prev. */
  function LastIndex<T(==)>(distinct: seq<T>, prev: seq<T>): (r: int)
    ensures r < |distinct|
    ensures |prev| > 0 && prev[|prev| - 1] in distinct ==> r >= 0
  {
    if |prev| == 0 then -1 else IndexOf(distinct, prev[|prev| - 1])
  }

  /** Whether next may follow prev: a value of distinct placed after prev's
      last entry, the test of lines 103 and 140. */
  predicate Follows<T(==)>(distinct: seq<T>, prev: seq<T>, next: T) {
    next in distinct && IndexOf(distinct, next) > LastIndex(distinct, prev)
  }

  /** t lists values of distinct in the order they have there: each entry is
      a value of distinct whose `indexOf` exceeds that of the entry before.
      AscendingPairwise proves this the same as comparing every pair. */
  predicate Ascending<T(==)>(distinct: seq<T>, t: seq<T>)
    decreases |t|
  {
    |t| == 0 ||
    (Ascending(distinct, t[..|t| - 1]) && Follows(distinct, t[..|t| - 1], t[|t| - 1]))
  }

  /** One step of Ascending's definition. */
  lemma AscendingStep<T>(distinct: seq<T>, t: seq<T>)
    requires |t| > 0
    ensures Ascending(distinct, t) <==>
              Ascending(distinct, t[..|t| - 1]) && Follows(distinct, t[..|t| - 1], t[|t| - 1])
  {
  }

  /** In an ascending tuple no value comes after the last one in distinct. */
  lemma {:induction false} AscendingWithin<T>(distinct: seq<T>, t: seq<T>, x: T)
    requires Ascending(distinct, t) && x in t
    ensures x in distinct && IndexOf(distinct, x) <= LastIndex(distinct, t)
    decreases |t|
  {
    var p := t[..|t| - 1];
    SplitLast(t);
    AscendingStep(distinct, t);
    if x != t[|t| - 1] {
      assert x in p;
      AscendingWithin(distinct, p, x);
    }
  }

  /** An ascending tuple is no longer than distinct: its last entry sits at
      position |t| - 1 or later. */
  lemma {:induction false} AscendingLength<T>(distinct: seq<T>, t: seq<T>)
    requires Ascending(distinct, t)
    ensures |t| - 1 <= LastIndex(distinct, t)
    ensures |t| <= |distinct|
    decreases |t|
  {
    if |t| > 0 {
      AscendingStep(distinct, t);
      AscendingLength(distinct, t[..|t| - 1]);
    }
  }

  /** Every prefix of an ascending tuple is ascending. */
  lemma {:induction false} AscendingPrefix<T>(distinct: seq<T>, t: seq<T>, m: nat)
    requires Ascending(distinct, t) && m <= |t|
    ensures Ascending(distinct, t[..m])
    decreases |t|
  {
    if m < |t| {
      var p := t[..|t| - 1];
      AscendingStep(distinct, t);
      AscendingPrefix(distinct, p, m);
      assert p[..m] == t[..m];
    } else {
      assert t[..m] == t;
    }
  }

  lemma {:induction false} AscendingPair<T>(distinct: seq<T>, t: seq<T>, i: nat, j: nat)
    requires Ascending(distinct, t) && i < j < |t|
    ensures IndexOf(distinct, t[i]) < IndexOf(distinct, t[j])
    decreases |t|
  {
    var p := t[..|t| - 1];
    AscendingStep(distinct, t);
    assert t[i] == p[i];
    if j < |p| {
      assert t[j] == p[j];
      AscendingPair(distinct, p, i, j);
    } else {
      AscendingWithin(distinct, p, p[i]);
    }
  }

  lemma {:induction false} IncreasingAscending<T>(distinct: seq<T>, t: seq<T>)
    requires forall i :: 0 <= i < |t| ==> t[i] in distinct
    requires forall i, j :: 0 <= i < j < |t| ==> IndexOf(distinct, t[i]) < IndexOf(distinct, t[j])
    ensures Ascending(distinct, t)
    decreases |t|
  {
    if |t| > 0 {
      var p, n := t[..|t| - 1], |t| - 1;
      forall i | 0 <= i < n
        ensures p[i] in distinct
      {
        assert p[i] == t[i];
      }
      forall i, j | 0 <= i < j < n
        ensures IndexOf(distinct, p[i]) < IndexOf(distinct, p[j])
      {
        assert p[i] == t[i] && p[j] == t[j];
      }
      IncreasingAscending(distinct, p);
      assert t[n] in distinct;
      if n > 0 {
        assert p[n - 1] == t[n - 1];
        assert IndexOf(distinct, t[n - 1]) < IndexOf(distinct, t[n]);
      }
      AscendingStep(distinct, t);
    }
  }

  /** Ascending as defined step by step agrees with the direct reading:
      every entry is in distinct and `indexOf` increases between any two. */
  lemma AscendingPairwise<T>(distinct: seq<T>, t: seq<T>)
    ensures Ascending(distinct, t) <==>
              && (forall i :: 0 <= i < |t| ==> t[i] in distinct)
              && (forall i, j :: 0 <= i < j < |t| ==> IndexOf(distinct, t[i]) < IndexOf(distinct, t[j]))
  {
    if Ascending(distinct, t) {
      forall i | 0 <= i < |t|
        ensures t[i] in distinct
      {
        AscendingWithin(distinct, t, t[i]);
      }
      forall i, j | 0 <= i < j < |t|
        ensures IndexOf(distinct, t[i]) < IndexOf(distinct, t[j])
      {
        AscendingPair(distinct, t, i, j);
      }
    } else if && (forall i :: 0 <= i < |t| ==> t[i] in distinct)
              && (forall i, j :: 0 <= i < j < |t| ==> IndexOf(distinct, t[i]) < IndexOf(distinct, t[j])) {
      IncreasingAscending(distinct, t);
    }
  }

  /** The innermost loop (lines 102-106 and 139-143) for one tuple prev:
      `[...prev, next]` for each next of `nexts` whose `indexOf` in distinct
      exceeds that of `prev[pos - 1]`, prev's last entry. */
  function AppendLater<T(==)>(distinct: seq<T>, prev: seq<T>, nexts: seq<T>): (r: seq<seq<T>>)
    ensures |r| <= |nexts|
  {
    if |nexts| == 0 then []
    else
      (if IndexOf(distinct, nexts[0]) > LastIndex(distinct, prev) then [prev + [nexts[0]]] else [])
      + AppendLater(distinct, prev, nexts[1..])
  }

  /** The loop over the previous level (lines 101-107 and 138-144). */
  function Grow<T(==)>(distinct: seq<T>, prevs: seq<seq<T>>): seq<seq<T>>
  {
    if |prevs| == 0 then []
    else AppendLater(distinct, prevs[0], distinct) + Grow(distinct, prevs[1..])
  }

  /** `levels[pos]`: the tuples of length pos + 1. */
  function CombinationLevel<T(==)>(distinct: seq<T>, pos: nat): seq<seq<T>>
  {
    if pos == 0 then seq(|distinct|, i requires 0 <= i < |distinct| => [distinct[i]])
    else Grow(distinct, CombinationLevel(distinct, pos - 1))
  }

  /** A level after the first grows the one before it. */
  lemma CombinationLevelStep<T>(distinct: seq<T>, pos: nat)
    requires pos > 0
    ensures CombinationLevel(distinct, pos) == Grow(distinct, CombinationLevel(distinct, pos - 1))
  {
  }

  lemma {:induction false} AppendLaterOnly<T>(distinct: seq<T>, prev: seq<T>, nexts: seq<T>, t: seq<T>)
    requires t in AppendLater(distinct, prev, nexts)
    ensures |t| == |prev| + 1 && t[..|prev|] == prev && t[|prev|] in nexts
    ensures IndexOf(distinct, t[|prev|]) > LastIndex(distinct, prev)
  {
    var tail := AppendLater(distinct, prev, nexts[1..]);
    if t in tail {
      AppendLaterOnly(distinct, prev, nexts[1..], t);
      assert t[|prev|] in nexts[1..];
    } else {
      assert t == prev + [nexts[0]];
    }
  }

  lemma {:induction false} AppendLaterAll<T>(distinct: seq<T>, prev: seq<T>, nexts: seq<T>, t: seq<T>)
    requires |t| == |prev| + 1 && t[..|prev|] == prev && t[|prev|] in nexts
    requires IndexOf(distinct, t[|prev|]) > LastIndex(distinct, prev)
    ensures t in AppendLater(distinct, prev, nexts)
  {
    if t[|prev|] == nexts[0] {
      assert t == prev + [nexts[0]];
    } else {
      assert t[|prev|] in nexts[1..];
      AppendLaterAll(distinct, prev, nexts[1..], t);
    }
  }

  /** AppendLater lists exactly the one-longer tuples that start with prev and
      end with a value of nexts placed after prev's last entry. */
  lemma AppendLaterMembers<T>(distinct: seq<T>, prev: seq<T>, nexts: seq<T>, t: seq<T>)
    ensures t in AppendLater(distinct, prev, nexts) <==>
              && |t| == |prev| + 1 && t[..|prev|] == prev && t[|prev|] in nexts
              && IndexOf(distinct, t[|prev|]) > LastIndex(distinct, prev)
  {
    if t in AppendLater(distinct, prev, nexts) {
      AppendLaterOnly(distinct, prev, nexts, t);
    } else if |t| == |prev| + 1 && t[..|prev|] == prev && t[|prev|] in nexts
              && IndexOf(distinct, t[|prev|]) > LastIndex(distinct, prev) {
      AppendLaterAll(distinct, prev, nexts, t);
    }
  }

  lemma {:induction false} GrowOnly<T>(distinct: seq<T>, prevs: seq<seq<T>>, t: seq<T>)
    requires t in Grow(distinct, prevs)
    ensures |t| > 0 && t[..|t| - 1] in prevs && Follows(distinct, t[..|t| - 1], t[|t| - 1])
  {
    var head := AppendLater(distinct, prevs[0], distinct);
    if t in head {
      AppendLaterOnly(distinct, prevs[0], distinct, t);
    } else {
      GrowOnly(distinct, prevs[1..], t);
      assert t[..|t| - 1] in prevs[1..];
    }
  }

  lemma {:induction false} GrowAll<T>(distinct: seq<T>, prevs: seq<seq<T>>, t: seq<T>)
    requires |t| > 0 && t[..|t| - 1] in prevs && Follows(distinct, t[..|t| - 1], t[|t| - 1])
    ensures t in Grow(distinct, prevs)
  {
    if t[..|t| - 1] == prevs[0] {
      AppendLaterAll(distinct, prevs[0], distinct, t);
    } else {
      assert t[..|t| - 1] in prevs[1..];
      GrowAll(distinct, prevs[1..], t);
    }
  }

  /** Grow lists exactly the tuples whose prefix is in prevs and whose last
      value may follow that prefix. */
  lemma GrowMembers<T>(distinct: seq<T>, prevs: seq<seq<T>>, t: seq<T>)
    ensures t in Grow(distinct, prevs) <==>
              |t| > 0 && t[..|t| - 1] in prevs && Follows(distinct, t[..|t| - 1], t[|t| - 1])
  {
    if t in Grow(distinct, prevs) {
      GrowOnly(distinct, prevs, t);
    } else if |t| > 0 && t[..|t| - 1] in prevs && Follows(distinct, t[..|t| - 1], t[|t| - 1]) {
      GrowAll(distinct, prevs, t);
    }
  }

  lemma {:induction false} SingletonsOnly<T>(d: seq<T>, t: seq<T>)
    requires t in CombinationLevel(d, 0)
    ensures |t| == 1 && Ascending(d, t)
  {
    var i :| 0 <= i < |d| && CombinationLevel(d, 0)[i] == t;
    assert t == [d[i]];
    assert t[..0] == [];
    assert t[0] in d;
    AscendingStep(d, t);
  }

  lemma {:induction false} SingletonsAll<T>(d: seq<T>, t: seq<T>)
    requires |t| == 1 && Ascending(d, t)
    ensures t in CombinationLevel(d, 0)
  {
    var k := IndexOf(d, t[0]);
    assert CombinationLevel(d, 0)[k] == [d[k]] == t;
  }

  /** A tuple of a later level extends a tuple of the level before it. */
  lemma LaterLevelOnly<T>(distinct: seq<T>, pos: nat, t: seq<T>)
    requires pos > 0 && t in CombinationLevel(distinct, pos)
    ensures |t| > 0 && t[..|t| - 1] in CombinationLevel(distinct, pos - 1)
    ensures Follows(distinct, t[..|t| - 1], t[|t| - 1])
  {
    CombinationLevelStep(distinct, pos);
    GrowOnly(distinct, CombinationLevel(distinct, pos - 1), t);
  }

  lemma {:induction false} CombinationLevelOnly<T>(distinct: seq<T>, pos: nat, t: seq<T>)
    requires t in CombinationLevel(distinct, pos)
    ensures |t| == pos + 1 && Ascending(distinct, t)
  {
    if pos == 0 {
      SingletonsOnly(distinct, t);
    } else {
      LaterLevelOnly(distinct, pos, t);
      CombinationLevelOnly(distinct, pos - 1, t[..|t| - 1]);
      AscendingStep(distinct, t);
    }
  }

  lemma {:induction false} CombinationLevelAll<T>(distinct: seq<T>, pos: nat, t: seq<T>)
    requires |t| == pos + 1 && Ascending(distinct, t)
    ensures t in CombinationLevel(distinct, pos)
  {
    if pos == 0 {
      SingletonsAll(distinct, t);
    } else {
      CombinationLevelAll(distinct, pos - 1, t[..|t| - 1]);
      GrowAll(distinct, CombinationLevel(distinct, pos - 1), t);
      CombinationLevelStep(distinct, pos);
    }
  }

  /** Level pos lists exactly the ascending tuples of length pos + 1. */
  lemma CombinationLevelMembers<T>(distinct: seq<T>, pos: nat, t: seq<T>)
    ensures t in CombinationLevel(distinct, pos) <==> |t| == pos + 1 && Ascending(distinct, t)
  {
    if t in CombinationLevel(distinct, pos) {
      CombinationLevelOnly(distinct, pos, t);
    } else if |t| == pos + 1 && Ascending(distinct, t) {
      CombinationLevelAll(distinct, pos, t);
    }
  }

  /** `enumerateCombinations(elements, size)`: [[]] for size 0, checked before
      anything else; throws for a negative size or one above the number of
      distinct values; otherwise `levels[size - 1]`. */
  function EnumerateCombinations<T(==)>(elements: seq<T>, size: int): (r: Result<seq<seq<T>>>)
    ensures size == 0 ==> r == Ok([[]])
    ensures r.Throws? <==> size < 0 || size > |DistinctElements(elements)|
  {
    if size == 0 then Ok([[]])
    else if size < 0 then Throws
    else
      var distinct := DistinctElements(elements);
      if size > |distinct| then Throws
      else Ok(CombinationLevel(distinct, size - 1))
  }

  lemma NonemptyCombinationsMembers<T>(elements: seq<T>, size: int, t: seq<T>)
    requires EnumerateCombinations(elements, size).Ok? && size > 0
    ensures t in EnumerateCombinations(elements, size).value <==>
              |t| == size && Ascending(DistinctElements(elements), t)
  {
    CombinationLevelMembers(DistinctElements(elements), size - 1, t);
  }

  /** The result is exactly the set of size-element tuples of distinct values
      listed in first-occurrence order. */
  lemma CombinationsAreAllAscendingTuples<T>(elements: seq<T>, size: int, t: seq<T>)
    requires EnumerateCombinations(elements, size).Ok?
    ensures t in EnumerateCombinations(elements, size).value <==>
              |t| == size && Ascending(DistinctElements(elements), t)
  {
    if size != 0 {
      NonemptyCombinationsMembers(elements, size, t);
    }
  }

  // ---------------------------------------------------------------------
  // No combination is listed twice.

  lemma {:induction false} AppendLaterNoDuplicates<T>(distinct: seq<T>, prev: seq<T>, nexts: seq<T>)
    requires NoDuplicates(nexts)
    ensures NoDuplicates(AppendLater(distinct, prev, nexts))
  {
    if |nexts| > 0 {
      var head := if IndexOf(distinct, nexts[0]) > LastIndex(distinct, prev) then [prev + [nexts[0]]] else [];
      var tail := AppendLater(distinct, prev, nexts[1..]);
      AppendLaterNoDuplicates(distinct, prev, nexts[1..]);
      forall t | t in head
        ensures t !in tail
      {
        AppendLaterMembers(distinct, prev, nexts[1..], t);
        assert t[|prev|] == nexts[0] && nexts[0] !in nexts[1..];
      }
      NoDuplicatesConcat(head, tail);
    }
  }

  lemma {:induction false} GrowNoDuplicates<T>(distinct: seq<T>, prevs: seq<seq<T>>)
    requires NoDuplicates(distinct) && NoDuplicates(prevs)
    ensures NoDuplicates(Grow(distinct, prevs))
  {
    if |prevs| > 0 {
      var head := AppendLater(distinct, prevs[0], distinct);
      var tail := Grow(distinct, prevs[1..]);
      AppendLaterNoDuplicates(distinct, prevs[0], distinct);
      GrowNoDuplicates(distinct, prevs[1..]);
      forall t | t in head
        ensures t !in tail
      {
        AppendLaterMembers(distinct, prevs[0], distinct, t);
        GrowMembers(distinct, prevs[1..], t);
        assert t[..|t| - 1] == prevs[0] && prevs[0] !in prevs[1..];
      }
      NoDuplicatesConcat(head, tail);
    }
  }

  lemma {:induction false} CombinationLevelNoDuplicates<T>(distinct: seq<T>, pos: nat)
    requires NoDuplicates(distinct)
    ensures NoDuplicates(CombinationLevel(distinct, pos))
  {
    if pos == 0 {
      var level := CombinationLevel(distinct, pos);
      forall i, j | 0 <= i < j < |level|
        ensures level[i] != level[j]
      {
        assert level[i][0] == distinct[i] && level[j][0] == distinct[j];
      }
    } else {
      CombinationLevelNoDuplicates(distinct, pos - 1);
      GrowNoDuplicates(distinct, CombinationLevel(distinct, pos - 1));
    }
  }

  lemma NonemptyCombinationsListedOnce<T>(elements: seq<T>, size: int)
    requires EnumerateCombinations(elements, size).Ok? && size > 0
    ensures NoDuplicates(EnumerateCombinations(elements, size).value)
  {
    CombinationLevelNoDuplicates(DistinctElements(elements), size - 1);
  }

  /** No combination appears twice in the result. */
  lemma CombinationsListedOnce<T>(elements: seq<T>, size: int)
    requires EnumerateCombinations(elements, size).Ok?
    ensures NoDuplicates(EnumerateCombinations(elements, size).value)
  {
    if size != 0 {
      NonemptyCombinationsListedOnce(elements, size);
    }
  }

  // ---------------------------------------------------------------------
  // Counting, through a reference enumeration that follows Pascal's rule.

  /** Each tuple of ts with x appended. */
  function AppendEach<T>(ts: seq<seq<T>>, x: T): (r: seq<seq<T>>)
    ensures |r| == |ts|
  {
    seq(|ts|, i requires 0 <= i < |ts| => ts[i] + [x])
  }

  /** Reference enumeration of the ascending k-tuples over d: those that avoid
      d's last value, then those that end with it. */
  function Choose<T(==)>(d: seq<T>, k: nat): seq<seq<T>>
    decreases |d|
  {
    if k == 0 then [[]]
    else if |d| == 0 then []
    else
      var init := d[..|d| - 1];
      Choose(init, k) + AppendEach(Choose(init, k - 1), d[|d| - 1])
  }

  lemma {:induction false} ChooseCount<T>(d: seq<T>, k: nat)
    ensures |Choose(d, k)| == Binom(|d|, k)
    decreases |d|
  {
    if k > 0 && |d| > 0 {
      ChooseCount(d[..|d| - 1], k);
      ChooseCount(d[..|d| - 1], k - 1);
    }
  }

  lemma AppendEachOnly<T>(ts: seq<seq<T>>, x: T, t: seq<T>)
    requires t in AppendEach(ts, x)
    ensures |t| > 0 && t[|t| - 1] == x && t[..|t| - 1] in ts
  {
    var i :| 0 <= i < |ts| && AppendEach(ts, x)[i] == t;
    assert t[..|t| - 1] == ts[i];
  }

  lemma AppendEachAll<T>(ts: seq<seq<T>>, x: T, t: seq<T>)
    requires |t| > 0 && t[|t| - 1] == x && t[..|t| - 1] in ts
    ensures t in AppendEach(ts, x)
  {
    var i :| 0 <= i < |ts| && ts[i] == t[..|t| - 1];
    SplitLast(t);
    assert AppendEach(ts, x)[i] == t;
  }

  /** Appending a new value z to d moves no position of a tuple avoiding z. */
  lemma LastIndexAppend<T>(init: seq<T>, z: T, p: seq<T>)
    requires |p| == 0 || p[|p| - 1] in init
    ensures LastIndex(init + [z], p) == LastIndex(init, p)
  {
    if |p| > 0 {
      IndexOfAppend(init, z, p[|p| - 1]);
    }
  }

  /** Within init + [z], with z new, a tuple is ascending and avoids z
      exactly when it is ascending within init. */
  lemma {:induction false} AscendingAvoidingLast<T>(init: seq<T>, z: T, t: seq<T>)
    requires z !in init
    ensures Ascending(init + [z], t) && z !in t <==> Ascending(init, t)
    decreases |t|
  {
    if |t| > 0 {
      var p, x := t[..|t| - 1], t[|t| - 1];
      SplitLast(t);
      AscendingAvoidingLast(init, z, p);
      if Ascending(init + [z], t) && z !in t {
        assert x in init;
        if |p| > 0 {
          assert p[|p| - 1] in t;
        }
        IndexOfAppend(init, z, x);
        LastIndexAppend(init, z, p);
      }
      if Ascending(init, t) {
        IndexOfAppend(init, z, x);
        if |p| > 0 {
          AscendingWithin(init, p, p[|p| - 1]);
        }
        LastIndexAppend(init, z, p);
        assert z !in p;
      }
    }
  }

  lemma AscendingExtendLast<T>(init: seq<T>, z: T, s: seq<T>)
    requires z !in init && Ascending(init, s)
    ensures Ascending(init + [z], s + [z])
  {
    var d := init + [z];
    var t := s + [z];
    assert t[..|t| - 1] == s;
    IndexOfAppendNew(init, z);
    AscendingAvoidingLast(init, z, s);
    if |s| > 0 {
      AscendingWithin(init, s, s[|s| - 1]);
      LastIndexAppend(init, z, s);
    }
    AscendingStep(d, t);
  }

  lemma AscendingDropLast<T>(init: seq<T>, z: T, s: seq<T>)
    requires z !in init && Ascending(init + [z], s + [z])
    ensures Ascending(init, s)
  {
    var d := init + [z];
    var t := s + [z];
    assert t[..|t| - 1] == s;
    AscendingStep(d, t);
    IndexOfAppendNew(init, z);
    if z in s {
      AscendingWithin(d, s, z);
    }
    AscendingAvoidingLast(init, z, s);
  }

  /** Within init + [z], with z new, s + [z] is ascending exactly when s is
      ascending within init. */
  lemma AscendingEndingLast<T>(init: seq<T>, z: T, s: seq<T>)
    requires z !in init
    ensures Ascending(init + [z], s + [z]) <==> Ascending(init, s)
  {
    if Ascending(init, s) {
      AscendingExtendLast(init, z, s);
    } else if Ascending(init + [z], s + [z]) {
      AscendingDropLast(init, z, s);
    }
  }

  lemma LastValueComesLast<T>(init: seq<T>, z: T, t: seq<T>)
    requires z !in init && Ascending(init + [z], t) && z in t
    ensures t[|t| - 1] == z
  {
  }

  lemma {:induction false} ChooseOnlyEnding<T>(d: seq<T>, k: nat, t: seq<T>)
    requires NoDuplicates(d) && k > 0 && |d| > 0
    requires t in AppendEach(Choose(d[..|d| - 1], k - 1), d[|d| - 1])
    ensures |t| == k && Ascending(d, t)
    decreases |d|, 0
  {
    var init, z := d[..|d| - 1], d[|d| - 1];
    SplitLast(d);
    NoDuplicatesSplitLast(d);
    AppendEachOnly(Choose(init, k - 1), z, t);
    var s := t[..|t| - 1];
    ChooseOnly(init, k - 1, s);
    SplitLast(t);
    AscendingExtendLast(init, z, s);
  }

  lemma {:induction false} ChooseOnly<T>(d: seq<T>, k: nat, t: seq<T>)
    requires NoDuplicates(d) && t in Choose(d, k)
    ensures |t| == k && Ascending(d, t)
    decreases |d|, 1
  {
    if k > 0 {
      var init, z := d[..|d| - 1], d[|d| - 1];
      if t in AppendEach(Choose(init, k - 1), z) {
        ChooseOnlyEnding(d, k, t);
      } else {
        SplitLast(d);
        NoDuplicatesSplitLast(d);
        ChooseOnly(init, k, t);
        AscendingAvoidingLast(init, z, t);
      }
    }
  }

  /** Choose with a value to spare and a tuple to fill: Pascal's rule. */
  lemma ChooseStep<T>(d: seq<T>, k: nat)
    requires k > 0 && |d| > 0
    ensures Choose(d, k) == Choose(d[..|d| - 1], k) + AppendEach(Choose(d[..|d| - 1], k - 1), d[|d| - 1])
  {
  }

  lemma {:induction false} ChooseAllEnding<T>(d: seq<T>, k: nat, t: seq<T>)
    requires NoDuplicates(d) && |d| > 0 && k > 0 && |t| == k && Ascending(d, t)
    requires t[|t| - 1] == d[|d| - 1]
    ensures t in AppendEach(Choose(d[..|d| - 1], k - 1), d[|d| - 1])
    decreases |d|, 0
  {
    var init, z := d[..|d| - 1], d[|d| - 1];
    SplitLast(d);
    NoDuplicatesSplitLast(d);
    var s := t[..|t| - 1];
    SplitLast(t);
    AscendingDropLast(init, z, s);
    ChooseAll(init, k - 1, s);
    AppendEachAll(Choose(init, k - 1), z, t);
  }

  lemma {:induction false} ChooseAllAvoiding<T>(d: seq<T>, k: nat, t: seq<T>)
    requires NoDuplicates(d) && |d| > 0 && |t| == k && Ascending(d, t)
    requires |t| == 0 || t[|t| - 1] != d[|d| - 1]
    ensures t in Choose(d[..|d| - 1], k)
    decreases |d|, 0
  {
    var init, z := d[..|d| - 1], d[|d| - 1];
    SplitLast(d);
    NoDuplicatesSplitLast(d);
    if z in t {
      LastValueComesLast(init, z, t);
    }
    AscendingAvoidingLast(init, z, t);
    ChooseAll(init, k, t);
  }

  lemma {:induction false} ChooseAll<T>(d: seq<T>, k: nat, t: seq<T>)
    requires NoDuplicates(d) && |t| == k && Ascending(d, t)
    ensures t in Choose(d, k)
    decreases |d|, 1
  {
    if k > 0 {
      if |d| == 0 {
        assert false;
      }
      ChooseStep(d, k);
      if t[|t| - 1] == d[|d| - 1] {
        ChooseAllEnding(d, k, t);
      } else {
        ChooseAllAvoiding(d, k, t);
      }
    }
  }

  /** Choose lists exactly the ascending k-tuples. */
  lemma ChooseMembers<T>(d: seq<T>, k: nat, t: seq<T>)
    requires NoDuplicates(d)
    ensures t in Choose(d, k) <==> |t| == k && Ascending(d, t)
  {
    if t in Choose(d, k) {
      ChooseOnly(d, k, t);
    } else if |t| == k && Ascending(d, t) {
      ChooseAll(d, k, t);
    }
  }

  lemma {:induction false} ChooseNoDuplicates<T>(d: seq<T>, k: nat)
    requires NoDuplicates(d)
    ensures NoDuplicates(Choose(d, k))
    decreases |d|
  {
    if k > 0 && |d| > 0 {
      var init, z := d[..|d| - 1], d[|d| - 1];
      SplitLast(d);
      NoDuplicatesSplitLast(d);
      ChooseNoDuplicates(init, k);
      ChooseNoDuplicates(init, k - 1);
      var ends := AppendEach(Choose(init, k - 1), z);
      assert NoDuplicates(ends) by {
        forall i, j | 0 <= i < j < |ends|
          ensures ends[i] != ends[j]
        {
          var a, b := Choose(init, k - 1)[i], Choose(init, k - 1)[j];
          assert ends[i][..|a|] == a && ends[j][..|b|] == b;
        }
      }
      forall t | t in Choose(init, k)
        ensures t !in ends
      {
        ChooseOnly(init, k, t);
        assert Follows(init, t[..|t| - 1], t[|t| - 1]);
        if t in ends {
          AppendEachOnly(Choose(init, k - 1), z, t);
        }
      }
      NoDuplicatesConcat(Choose(init, k), ends);
    }
  }

  /** Two duplicate-free sequences holding the same values have the same length. */
  lemma SameValuesSameLength<T>(a: seq<T>, b: seq<T>)
    requires NoDuplicates(a) && NoDuplicates(b) && Elems(a) == Elems(b)
    ensures |a| == |b|
  {
    ElemsOfDuplicateFree(a);
    ElemsOfDuplicateFree(b);
  }

  // Level pos holds the tuples of size pos + 1; the lemmas below take both
  // numbers so that every term they mention is written the same way.

  lemma LevelMatchesChoose<T>(distinct: seq<T>, pos: nat, size: nat, t: seq<T>)
    requires NoDuplicates(distinct) && size == pos + 1
    ensures t in CombinationLevel(distinct, pos) <==> t in Choose(distinct, size)
  {
    ChooseMembers(distinct, size, t);
    CombinationLevelMembers(distinct, pos, t);
  }

  /** Level pos and the reference enumeration hold the same tuples. */
  lemma LevelValuesMatchChoose<T>(distinct: seq<T>, pos: nat, size: nat)
    requires NoDuplicates(distinct) && size == pos + 1
    ensures Elems(CombinationLevel(distinct, pos)) == Elems(Choose(distinct, size))
  {
    forall t
      ensures t in CombinationLevel(distinct, pos) <==> t in Choose(distinct, size)
    {
      LevelMatchesChoose(distinct, pos, size, t);
    }
    SameMembersSameElems(CombinationLevel(distinct, pos), Choose(distinct, size));
  }

  /** Level pos holds C(d, pos + 1) tuples, d the number of distinct values. */
  lemma CombinationLevelCount<T>(distinct: seq<T>, pos: nat, size: nat)
    requires NoDuplicates(distinct) && size == pos + 1
    ensures |CombinationLevel(distinct, pos)| == Binom(|distinct|, size)
  {
    LevelValuesMatchChoose(distinct, pos, size);
    CombinationLevelNoDuplicates(distinct, pos);
    ChooseNoDuplicates(distinct, size);
    SameValuesSameLength(CombinationLevel(distinct, pos), Choose(distinct, size));
    ChooseCount(distinct, size);
  }

  lemma NonemptyCombinationCount<T>(elements: seq<T>, size: int)
    requires EnumerateCombinations(elements, size).Ok? && size > 0
    ensures |EnumerateCombinations(elements, size).value| == Binom(|DistinctElements(elements)|, size)
  {
    CombinationLevelCount(DistinctElements(elements), size - 1, size);
  }

  /** There are C(d, size) combinations, d the number of distinct values: the
      value of `numberOfCombinations(d, size)`. */
  lemma CombinationCount<T>(elements: seq<T>, size: int)
    requires EnumerateCombinations(elements, size).Ok?
    ensures var n := NumberOfCombinations(|DistinctElements(elements)|, size);
            n.Ok? && |EnumerateCombinations(elements, size).value| == n.value
  {
    var n := NumberOfCombinations(|DistinctElements(elements)|, size);
    assert n.Ok? && n.value == Binom(|DistinctElements(elements)|, size);
    if size != 0 {
      NonemptyCombinationCount(elements, size);
    }
  }
}
