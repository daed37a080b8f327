/** Sequence helpers shared by every enumeration: duplicate-freedom,
    JavaScript's `indexOf`, and the first-occurrence deduplication
    `distinctElements` (src/index.ts lines 53-61). */
module Distinct {

  predicate NoDuplicates<T(==)>(s: seq<T>) {
    forall i, j :: 0 <= i < j < |s| ==> s[i] != s[j]
  }

  lemma SplitLast<T>(t: seq<T>)
    requires |t| > 0
    ensures t == t[..|t| - 1] + [t[|t| - 1]]
  {
  }

  lemma NoDuplicatesSplitLast<T>(s: seq<T>)
    requires NoDuplicates(s) && |s| > 0
    ensures NoDuplicates(s[..|s| - 1]) && s[|s| - 1] !in s[..|s| - 1]
  {
  }

  /** The set of values a sequence holds. */
  function Elems<T>(s: seq<T>): set<T> {
    set x | x in s
  }

  lemma SameMembersSameElems<T>(a: seq<T>, b: seq<T>)
    requires forall x :: x in a <==> x in b
    ensures Elems(a) == Elems(b)
  {
  }

  lemma ElemsAppend<T>(s: seq<T>, x: T)
    ensures Elems(s + [x]) == Elems(s) + {x}
  {
  }

  /** `s.indexOf(x)`: the position of the first occurrence of x in s, or -1. */
  function IndexOf<T(==)>(s: seq<T>, x: T): (r: int)
    ensures r == -1 <==> x !in s
    ensures r != -1 ==> 0 <= r < |s| && s[r] == x && x !in s[..r]
  {
    if |s| == 0 then -1
    else if s[0] == x then 0
    else
      var k := IndexOf(s[1..], x);
      assert k != -1 ==> s[..k + 1] == [s[0]] + s[1..][..k];
      if k == -1 then -1 else k + 1
  }

  /** `distinctElements(elements)`. The source walks `elements` left to right
      and pushes each value that `indexOf` does not find in the result so far;
      step i of that loop turns the result for `elements[..i]` into the result
      for `elements[..i + 1]`, which is the recursion below. */
  function DistinctElements<T(==)>(elements: seq<T>): (d: seq<T>)
    ensures NoDuplicates(d)
    ensures Elems(d) == Elems(elements)
    ensures |d| <= |elements|
  {
    if |elements| == 0 then []
    else
      var distinct := DistinctElements(elements[..|elements| - 1]);
      var element := elements[|elements| - 1];
      assert elements == elements[..|elements| - 1] + [element];
      ElemsAppend(elements[..|elements| - 1], element);
      ElemsAppend(distinct, element);
      if IndexOf(distinct, element) == -1 then distinct + [element] else distinct
  }

  lemma IndexOfUnique<T>(s: seq<T>, x: T, i: int)
    requires 0 <= i < |s| && s[i] == x && x !in s[..i]
    ensures IndexOf(s, x) == i
  {
  }

  /** In a duplicate-free sequence every entry's `indexOf` is its position. */
  lemma IndexOfNoDuplicates<T>(s: seq<T>, i: int)
    requires NoDuplicates(s) && 0 <= i < |s|
    ensures IndexOf(s, s[i]) == i
  {
  }

  /** Appending to a sequence does not move the values it already holds. */
  lemma IndexOfAppend<T>(s: seq<T>, y: T, x: T)
    requires x in s
    ensures IndexOf(s + [y], x) == IndexOf(s, x)
  {
    var i := IndexOf(s, x);
    assert (s + [y])[..i] == s[..i];
    IndexOfUnique(s + [y], x, i);
  }

  lemma IndexOfAppendNew<T>(s: seq<T>, y: T)
    requires y !in s
    ensures IndexOf(s + [y], y) == |s|
  {
  }

  /** The entries of d appear in the order of their first occurrence in s. */
  predicate FirstOccurrenceOrdered<T(==)>(s: seq<T>, d: seq<T>) {
    forall i, j :: 0 <= i < j < |d| ==> IndexOf(s, d[i]) < IndexOf(s, d[j])
  }

  lemma FirstOccurrenceOrderedStep<T>(init: seq<T>, element: T, distinct: seq<T>)
    requires FirstOccurrenceOrdered(init, distinct)
    requires forall k :: 0 <= k < |distinct| ==> distinct[k] in init
    ensures FirstOccurrenceOrdered(init + [element], distinct)
    ensures element !in init ==> FirstOccurrenceOrdered(init + [element], distinct + [element])
  {
    var elements := init + [element];
    forall k | 0 <= k < |distinct|
      ensures IndexOf(elements, distinct[k]) == IndexOf(init, distinct[k]) < |init|
    {
      IndexOfAppend(init, element, distinct[k]);
    }
    if element !in init {
      IndexOfAppendNew(init, element);
      var d := distinct + [element];
      forall i, j | 0 <= i < j < |d|
        ensures IndexOf(elements, d[i]) < IndexOf(elements, d[j])
      {
        assert d[i] == distinct[i];
      }
    }
  }

  /** The result lists the input's values in the order of their first
      occurrence in the input. */
  lemma {:induction false} DistinctFirstOccurrenceOrder<T>(elements: seq<T>)
    ensures FirstOccurrenceOrdered(elements, DistinctElements(elements))
  {
    if |elements| > 0 {
      var init := elements[..|elements| - 1];
      var element := elements[|elements| - 1];
      assert elements == init + [element];
      DistinctFirstOccurrenceOrder(init);
      var distinct := DistinctElements(init);
      forall k | 0 <= k < |distinct|
        ensures distinct[k] in init
      {
        assert distinct[k] in Elems(init);
      }
      assert element !in distinct ==> element !in init by {
        assert element in init ==> element in Elems(init);
      }
      FirstOccurrenceOrderedStep(init, element, distinct);
    }
  }

  /** A duplicate-free input comes back unchanged. */
  lemma {:induction false} DistinctOfDuplicateFree<T>(elements: seq<T>)
    requires NoDuplicates(elements)
    ensures DistinctElements(elements) == elements
  {
    if |elements| > 0 {
      var init := elements[..|elements| - 1];
      DistinctOfDuplicateFree(init);
      assert elements == init + [elements[|elements| - 1]];
    }
  }

  /** Deduplicating twice is deduplicating once. */
  lemma DistinctIdempotent<T>(elements: seq<T>)
    ensures DistinctElements(DistinctElements(elements)) == DistinctElements(elements)
  {
  }

  /** Appending values that already occur changes nothing. */
  lemma {:induction false} DistinctAbsorbs<T>(elements: seq<T>, more: seq<T>)
    requires forall x :: x in more ==> x in elements
    ensures DistinctElements(elements + more) == DistinctElements(elements)
  {
    if |more| == 0 {
      assert elements + more == elements;
    } else {
      var init := more[..|more| - 1];
      var last := more[|more| - 1];
      DistinctAbsorbs(elements, init);
      assert (elements + more)[..|elements + more| - 1] == elements + init;
      assert last in Elems(DistinctElements(elements + init)) by {
        assert last in elements;
        assert last in Elems(elements + init);
      }
    }
  }

  /** `distinctElements(x.concat(x))` equals `distinctElements(x)`. */
  lemma DistinctOfDoubled<T>(elements: seq<T>)
    ensures DistinctElements(elements + elements) == DistinctElements(elements)
  {
    DistinctAbsorbs(elements, elements);
  }

  lemma NoDuplicatesConcat<T>(a: seq<T>, b: seq<T>)
    requires NoDuplicates(a) && NoDuplicates(b)
    requires forall x :: x in a ==> x !in b
    ensures NoDuplicates(a + b)
  {
    forall i, j | 0 <= i < j < |a + b|
      ensures (a + b)[i] != (a + b)[j]
    {
      if i < |a| && j >= |a| {
        assert (a + b)[i] in a && (a + b)[j] in b;
      }
    }
  }

  /** A duplicate-free sequence has as many distinct values as entries. */
  lemma {:induction false} ElemsOfDuplicateFree<T>(s: seq<T>)
    requires NoDuplicates(s)
    ensures |Elems(s)| == |s|
  {
    if |s| > 0 {
      var init := s[..|s| - 1];
      ElemsOfDuplicateFree(init);
      assert Elems(s) == Elems(init) + {s[|s| - 1]};
      assert s[|s| - 1] !in Elems(init);
    }
  }
}
