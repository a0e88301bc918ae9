/**
 What jack_slist_sort computes, as a function on sequences: the merge sort of jslist.h with its split and its tie rule,
 and the order that characterises its result.

 The merge takes the left element only if it is strictly smaller, so on ties the element of the right half comes first.
 */
module SListOrder {

  /** C comparison function: negative, zero or positive. */
  type Comparator<!T> = (T, T) -> int

  predicate Less<T>(cmp: Comparator<T>, x: T, y: T) {
    cmp(x, y) < 0
  }

  /** The part of a total preorder that the sort relies on: on the given elements, `Less` is a strict weak order. */
  ghost predicate StrictWeakOrder<T>(dom: set<T>, cmp: Comparator<T>) {
    && (forall x, y :: x in dom && y in dom && Less(cmp, x, y) ==> !Less(cmp, y, x))
    && (forall x, y, z :: x in dom && y in dom && z in dom && Less(cmp, x, z) ==>
          Less(cmp, x, y) || Less(cmp, y, z))
  }

  ghost predicate Within<T>(s: seq<T>, dom: set<T>) {
    forall x :: x in s ==> x in dom
  }

  lemma SameElements<T>(s: seq<T>, t: seq<T>)
    requires multiset(s) == multiset(t)
    ensures forall x :: x in s <==> x in t
  {
    forall x
      ensures x in s <==> x in t
    {
      assert x in s <==> x in multiset(s);
      assert x in t <==> x in multiset(t);
    }
  }

  /** jack_slist_sort_merge. */
  function Merge<T>(a: seq<T>, b: seq<T>, cmp: Comparator<T>): (r: seq<T>)
    ensures |r| == |a| + |b|
    ensures multiset(r) == multiset(a) + multiset(b)
  {
    if a == [] then b
    else if b == [] then a
    else if Less(cmp, a[0], b[0]) then
      assert a == [a[0]] + a[1..];
      [a[0]] + Merge(a[1..], b, cmp)
    else
      assert b == [b[0]] + b[1..];
      [b[0]] + Merge(a, b[1..], cmp)
  }

  /** jack_slist_sort: the left half gets the smaller share of an odd list. */
  function MergeSort<T>(s: seq<T>, cmp: Comparator<T>): (r: seq<T>)
    ensures |r| == |s|
    ensures multiset(r) == multiset(s)
    decreases |s|
  {
    if |s| <= 1 then s
    else
      assert s == s[..|s| / 2] + s[|s| / 2..];
      Merge(MergeSort(s[..|s| / 2], cmp), MergeSort(s[|s| / 2..], cmp), cmp)
  }

  // ---------------------------------------------------------------- the order of the result

  ghost predicate Distinct<T>(s: seq<T>) {
    forall i, j :: 0 <= i < j < |s| ==> s[i] != s[j]
  }

  /** The position of an element in a sequence. */
  ghost function Position<T>(s: seq<T>, x: T): (i: nat)
    requires x in s
    ensures i < |s| && s[i] == x
  {
    if s[0] == x then 0 else 1 + Position(s[1..], x)
  }

  /** Positions as ranks. */
  ghost function RankIn<T>(s: seq<T>): T -> int {
    x => if x in s then Position(s, x) else -1
  }

  lemma RankOf<T>(s: seq<T>)
    requires Distinct(s)
    ensures forall i :: 0 <= i < |s| ==> RankIn(s)(s[i]) == i
  {
    forall i | 0 <= i < |s|
      ensures RankIn(s)(s[i]) == i
    {
      assert s[Position(s, s[i])] == s[i];
    }
  }

  /** x comes before y: smaller key, or equal keys and larger rank. */
  predicate Before<T>(cmp: Comparator<T>, rank: T -> int, x: T, y: T) {
    Less(cmp, x, y) || (!Less(cmp, y, x) && rank(x) > rank(y))
  }

  ghost predicate Ordered<T>(s: seq<T>, cmp: Comparator<T>, rank: T -> int) {
    forall i, j :: 0 <= i < j < |s| ==> Before(cmp, rank, s[i], s[j])
  }

  ghost predicate Increasing<T>(s: seq<T>, rank: T -> int) {
    forall i, j :: 0 <= i < j < |s| ==> rank(s[i]) < rank(s[j])
  }

  /** Every element of a precedes every element of b in rank. */
  ghost predicate RanksBelow<T>(a: seq<T>, b: seq<T>, rank: T -> int) {
    forall x, y :: x in a && y in b ==> rank(x) < rank(y)
  }

  lemma BeforeTransitive<T>(dom: set<T>, cmp: Comparator<T>, rank: T -> int, x: T, y: T, z: T)
    requires StrictWeakOrder(dom, cmp) && x in dom && y in dom && z in dom
    requires Before(cmp, rank, x, y) && Before(cmp, rank, y, z)
    ensures Before(cmp, rank, x, z)
  {
    assert Less(cmp, x, y) ==> Less(cmp, x, z) || Less(cmp, z, y);
    assert Less(cmp, y, z) ==> Less(cmp, y, x) || Less(cmp, x, z);
    assert Less(cmp, z, x) ==> Less(cmp, z, y) || Less(cmp, y, x);
  }

  lemma BeforeAsymmetric<T>(dom: set<T>, cmp: Comparator<T>, rank: T -> int, x: T, y: T)
    requires StrictWeakOrder(dom, cmp) && x in dom && y in dom
    requires Before(cmp, rank, x, y)
    ensures !Before(cmp, rank, y, x)
  {
  }

  /** An element before the head of an ordered sequence is before all of it. */
  lemma ConsOrdered<T>(x: T, s: seq<T>, cmp: Comparator<T>, rank: T -> int)
    requires Ordered(s, cmp, rank)
    requires forall y :: y in s ==> Before(cmp, rank, x, y)
    ensures Ordered([x] + s, cmp, rank)
  {
  }

  lemma HeadBeforeAll<T>(dom: set<T>, x: T, s: seq<T>, cmp: Comparator<T>, rank: T -> int)
    requires StrictWeakOrder(dom, cmp) && Ordered(s, cmp, rank) && x in dom && Within(s, dom)
    requires s != [] ==> Before(cmp, rank, x, s[0])
    ensures forall y :: y in s ==> Before(cmp, rank, x, y)
  {
    forall y | y in s
      ensures Before(cmp, rank, x, y)
    {
      var i :| 0 <= i < |s| && s[i] == y;
      if i > 0 {
        BeforeTransitive(dom, cmp, rank, x, s[0], s[i]);
      }
    }
  }

  lemma {:induction false} MergeOrdered<T>(dom: set<T>, a: seq<T>, b: seq<T>, cmp: Comparator<T>, rank: T -> int)
    requires StrictWeakOrder(dom, cmp) && Within(a, dom) && Within(b, dom)
    requires Ordered(a, cmp, rank) && Ordered(b, cmp, rank) && RanksBelow(a, b, rank)
    ensures Ordered(Merge(a, b, cmp), cmp, rank)
    decreases |a| + |b|
  {
    if a != [] && b != [] {
      var left := Less(cmp, a[0], b[0]);
      var x := if left then a[0] else b[0];
      var a', b' := if left then a[1..] else a, if left then b else b[1..];
      assert Before(cmp, rank, a[0], b[0]) || Before(cmp, rank, b[0], a[0]);
      MergeOrdered(dom, a', b', cmp, rank);
      HeadBeforeAll(dom, x, a', cmp, rank);
      HeadBeforeAll(dom, x, b', cmp, rank);
      var m := Merge(a', b', cmp);
      forall y | y in m
        ensures Before(cmp, rank, x, y)
      {
        assert y in multiset(m);
      }
      ConsOrdered(x, m, cmp, rank);
    }
  }

  lemma HalvesRanked<T>(s: seq<T>, h: nat, rank: T -> int)
    requires h <= |s| && Increasing(s, rank)
    ensures RanksBelow(s[..h], s[h..], rank)
  {
  }

  lemma RearrangedRanks<T>(a: seq<T>, b: seq<T>, a': seq<T>, b': seq<T>, rank: T -> int)
    requires RanksBelow(a, b, rank)
    requires multiset(a') == multiset(a) && multiset(b') == multiset(b)
    ensures RanksBelow(a', b', rank)
  {
    SameElements(a, a');
    SameElements(b, b');
  }

  lemma RearrangedWithin<T>(s: seq<T>, s': seq<T>, dom: set<T>)
    requires Within(s, dom) && multiset(s') == multiset(s)
    ensures Within(s', dom)
  {
    SameElements(s, s');
  }

  lemma {:induction false} MergeSortOrdered<T>(dom: set<T>, s: seq<T>, cmp: Comparator<T>, rank: T -> int)
    requires StrictWeakOrder(dom, cmp) && Within(s, dom) && Increasing(s, rank)
    ensures Ordered(MergeSort(s, cmp), cmp, rank)
    decreases |s|
  {
    if |s| > 1 {
      var h := |s| / 2;
      var a, b := MergeSort(s[..h], cmp), MergeSort(s[h..], cmp);
      MergeSortOrdered(dom, s[..h], cmp, rank);
      MergeSortOrdered(dom, s[h..], cmp, rank);
      HalvesRanked(s, h, rank);
      RearrangedRanks(s[..h], s[h..], a, b, rank);
      RearrangedWithin(s[..h], a, dom);
      RearrangedWithin(s[h..], b, dom);
      MergeOrdered(dom, a, b, cmp, rank);
    }
  }

  /** The head of an ordered sequence is determined by its elements. */
  lemma SameHead<T>(dom: set<T>, s: seq<T>, t: seq<T>, cmp: Comparator<T>, rank: T -> int)
    requires StrictWeakOrder(dom, cmp) && Within(s, dom)
    requires multiset(s) == multiset(t) && s != [] && t != []
    requires Ordered(s, cmp, rank) && Ordered(t, cmp, rank)
    ensures s[0] == t[0]
  {
    if s[0] != t[0] {
      SameElements(s, t);
      assert s[0] in t && t[0] in s;
      var i :| 0 <= i < |t| && t[i] == s[0];
      var j :| 0 <= j < |s| && s[j] == t[0];
      BeforeAsymmetric(dom, cmp, rank, s[0], t[0]);
    }
  }

  lemma TailOrdered<T>(s: seq<T>, cmp: Comparator<T>, rank: T -> int)
    requires Ordered(s, cmp, rank) && s != []
    ensures Ordered(s[1..], cmp, rank)
    ensures multiset(s[1..]) == multiset(s) - multiset{s[0]}
    ensures forall x :: x in s[1..] ==> x in s
  {
    assert s == [s[0]] + s[1..];
  }

  /** At most one arrangement of the same elements is ordered. */
  lemma {:induction false} OrderedUnique<T>(dom: set<T>, s: seq<T>, t: seq<T>, cmp: Comparator<T>, rank: T -> int)
    requires StrictWeakOrder(dom, cmp) && Within(s, dom)
    requires multiset(s) == multiset(t)
    requires Ordered(s, cmp, rank) && Ordered(t, cmp, rank)
    ensures s == t
  {
    assert |s| == |multiset(s)| == |multiset(t)| == |t|;
    if s != [] {
      SameHead(dom, s, t, cmp, rank);
      TailOrdered(s, cmp, rank);
      TailOrdered(t, cmp, rank);
      OrderedUnique(dom, s[1..], t[1..], cmp, rank);
    }
  }

  /** Keys ascending, and among equal keys the element that came later in `input` first. */
  ghost predicate IsTieReversedSort<T>(input: seq<T>, output: seq<T>, cmp: Comparator<T>) {
    && multiset(output) == multiset(input)
    && (forall x :: x in output ==> x in input)
    && forall i, j :: 0 <= i < j < |output| ==>
         || Less(cmp, output[i], output[j])
         || (!Less(cmp, output[j], output[i]) && Position(input, output[i]) > Position(input, output[j]))
  }

  lemma TieReversedIsOrdered<T>(input: seq<T>, output: seq<T>, cmp: Comparator<T>)
    requires multiset(output) == multiset(input)
    ensures IsTieReversedSort(input, output, cmp) <==> Ordered(output, cmp, RankIn(input))
  {
    SameElements(input, output);
    if Ordered(output, cmp, RankIn(input)) {
      forall i, j | 0 <= i < j < |output|
        ensures || Less(cmp, output[i], output[j])
                || (!Less(cmp, output[j], output[i]) && Position(input, output[i]) > Position(input, output[j]))
      {
        assert Before(cmp, RankIn(input), output[i], output[j]);
      }
    }
  }

  /**
   For every comparator that orders the given keys and every list of distinct elements, the sort returns the one
   arrangement with ascending keys and reversed ties.
   */
  lemma MergeSortCharacterised<T>(dom: set<T>, input: seq<T>, output: seq<T>, cmp: Comparator<T>)
    requires StrictWeakOrder(dom, cmp) && Within(input, dom) && Distinct(input)
    ensures output == MergeSort(input, cmp) <==> IsTieReversedSort(input, output, cmp)
  {
    var sorted := MergeSort(input, cmp);
    RankOf(input);
    MergeSortOrdered(dom, input, cmp, RankIn(input));
    TieReversedIsOrdered(input, sorted, cmp);
    if IsTieReversedSort(input, output, cmp) {
      TieReversedIsOrdered(input, output, cmp);
      SameElements(input, sorted);
      OrderedUnique(dom, sorted, output, cmp, RankIn(input));
    }
  }

  // ---------------------------------------------------------------- the same order by a textbook sort

  function Reverse<T>(s: seq<T>): (r: seq<T>)
    ensures |r| == |s|
    ensures forall i :: 0 <= i < |s| ==> r[i] == s[|s| - 1 - i]
    ensures multiset(r) == multiset(s)
  {
    if s == [] then []
    else
      assert s == [s[0]] + s[1..];
      Reverse(s[1..]) + [s[0]]
  }

  /** Stable insertion of an earlier element: behind the strictly smaller ones, so before its equals. */
  function Insert<T>(x: T, s: seq<T>, cmp: Comparator<T>): (r: seq<T>)
    ensures |r| == |s| + 1
    ensures multiset(r) == multiset{x} + multiset(s)
  {
    if s == [] || !Less(cmp, s[0], x) then [x] + s
    else
      assert s == [s[0]] + s[1..];
      [s[0]] + Insert(x, s[1..], cmp)
  }

  /** Stable insertion sort, from the back. */
  function StableSort<T>(s: seq<T>, cmp: Comparator<T>): (r: seq<T>)
    ensures |r| == |s|
    ensures multiset(r) == multiset(s)
  {
    if s == [] then []
    else
      assert s == [s[0]] + s[1..];
      Insert(s[0], StableSort(s[1..], cmp), cmp)
  }

  lemma {:induction false} InsertOrdered<T>(dom: set<T>, x: T, s: seq<T>, cmp: Comparator<T>, rank: T -> int)
    requires StrictWeakOrder(dom, cmp) && Ordered(s, cmp, rank) && x in dom && Within(s, dom)
    requires forall y :: y in s ==> rank(x) > rank(y)
    ensures Ordered(Insert(x, s, cmp), cmp, rank)
  {
    if s == [] {
    } else if !Less(cmp, s[0], x) {
      HeadBeforeAll(dom, x, s, cmp, rank);
      ConsOrdered(x, s, cmp, rank);
    } else {
      InsertOrdered(dom, x, s[1..], cmp, rank);
      var rest := Insert(x, s[1..], cmp);
      forall y | y in rest
        ensures Before(cmp, rank, s[0], y)
      {
        assert y in multiset(rest);
        assert y == x || y in s[1..];
      }
      ConsOrdered(s[0], rest, cmp, rank);
    }
  }

  lemma {:induction false} StableSortOrdered<T>(dom: set<T>, s: seq<T>, cmp: Comparator<T>, rank: T -> int)
    requires StrictWeakOrder(dom, cmp) && Within(s, dom)
    requires forall i, j :: 0 <= i < j < |s| ==> rank(s[i]) > rank(s[j])
    ensures Ordered(StableSort(s, cmp), cmp, rank)
  {
    if s != [] {
      StableSortOrdered(dom, s[1..], cmp, rank);
      RearrangedWithin(s[1..], StableSort(s[1..], cmp), dom);
      SameElements(StableSort(s[1..], cmp), s[1..]);
      InsertOrdered(dom, s[0], StableSort(s[1..], cmp), cmp, rank);
    }
  }

  /** jack_slist_sort is a stable sort of the reversed list. */
  lemma SortIsStableSortOfReversal<T>(dom: set<T>, s: seq<T>, cmp: Comparator<T>)
    requires StrictWeakOrder(dom, cmp) && Within(s, dom) && Distinct(s)
    ensures MergeSort(s, cmp) == StableSort(Reverse(s), cmp)
  {
    RankOf(s);
    RearrangedWithin(s, Reverse(s), dom);
    RearrangedWithin(s, MergeSort(s, cmp), dom);
    MergeSortOrdered(dom, s, cmp, RankIn(s));
    StableSortOrdered(dom, Reverse(s), cmp, RankIn(s));
    OrderedUnique(dom, MergeSort(s, cmp), StableSort(Reverse(s), cmp), cmp, RankIn(s));
  }
}
