/**
 JSList nodes on the heap: which nodes a list consists of, what they carry, and lists under construction.

 A list is represented by the ghost sequence of its nodes (`IsList`), which gives acyclicity, ownership and framing.
 */
module SListHeap {
  import opened Common
  import opened SListOrder

  class Node<K> {
    var data: K
    var next: Node?<K>

    /** Both fields as jack_slist_prepend fills them; jack_slist_alloc leaves `next` null. */
    constructor (data: K, next: Node?<K>)
      ensures this.data == data && this.next == next
    {
      this.data := data;
      this.next := next;
    }
  }

  /** The i-th node, or null behind the end. */
  function Nth<K>(nodes: seq<Node<K>>, i: nat): Node?<K> {
    if i < |nodes| then nodes[i] else null
  }

  /** Following `next` from `head` visits exactly `nodes`, each once, and ends at null. */
  ghost predicate IsList<K>(head: Node?<K>, nodes: seq<Node<K>>)
    reads nodes`next
  {
    && Distinct(nodes)
    && head == Nth(nodes, 0)
    && forall i :: 0 <= i < |nodes| ==> nodes[i].next == Nth(nodes, i + 1)
  }

  /** A search stands at the i-th node, or behind the end. */
  ghost predicate AtNode<K>(nodes: seq<Node<K>>, i: nat, prev: Node?<K>, tmp: Node?<K>) {
    i <= |nodes| && tmp == Nth(nodes, i) && prev == if i == 0 then null else nodes[i - 1]
  }

  /** `values` is the data of the nodes, in list order. */
  ghost predicate HasValues<K>(nodes: seq<Node<K>>, values: seq<K>)
    reads nodes`data
  {
    && |values| == |nodes|
    && forall i :: 0 <= i < |nodes| ==> nodes[i].data == values[i]
  }

  /** The number of leading elements that differ from x: the index of its first occurrence, if there is one. */
  function FirstIndex<T(==)>(s: seq<T>, x: T): (i: nat)
    ensures i <= |s|
    ensures forall j :: 0 <= j < i ==> s[j] != x
    ensures i < |s| ==> s[i] == x
  {
    if s == [] || s[0] == x then 0 else 1 + FirstIndex(s[1..], x)
  }

  /** The links after the i-th node has been bypassed. */
  lemma ListWithout<K>(nodes: seq<Node<K>>, i: nat)
    requires Distinct(nodes) && i < |nodes|
    requires forall k :: 0 <= k < |nodes| && k != i ==>
      nodes[k].next == if k + 1 == i then Nth(nodes, i + 1) else Nth(nodes, k + 1)
    ensures IsList(Nth(Without(nodes, i), 0), Without(nodes, i))
  {
    var rest := Without(nodes, i);
    forall k | 0 <= k < |rest|
      ensures rest[k].next == Nth(rest, k + 1)
    {
      assert rest[k] == if k < i then nodes[k] else nodes[k + 1];
    }
  }

  // ---------------------------------------------------------------- sorting

  /** A node with the data it carries. */
  datatype Item<K> = Item(node: Node<K>, data: K)

  /** The items are the nodes in order, each with its data. */
  ghost predicate Carries<K>(nodes: seq<Node<K>>, items: seq<Item<K>>)
    reads nodes`data
  {
    && |items| == |nodes|
    && forall i :: 0 <= i < |nodes| ==> items[i] == Item(nodes[i], nodes[i].data)
  }

  /** The comparison function applied to what two nodes carry. */
  function ByData<K>(compare: Comparator<K>): Comparator<Item<K>> {
    (x: Item<K>, y: Item<K>) => compare(x.data, y.data)
  }

  ghost predicate Disjoint<T>(s: seq<T>, t: seq<T>) {
    forall i, j :: 0 <= i < |s| && 0 <= j < |t| ==> s[i] != t[j]
  }

  lemma DistinctConcat<T>(s: seq<T>, t: seq<T>)
    requires Distinct(s) && Distinct(t) && Disjoint(s, t)
    ensures Distinct(s + t)
  {
    forall i, j | 0 <= i < j < |s + t|
      ensures (s + t)[i] != (s + t)[j]
    {
      if i < |s| <= j {
        assert s[i] in s && t[j - |s|] in t;
      }
    }
  }

  /** `done` is a chain from `head` to `l`; the last link is not set yet. */
  ghost predicate IsChain<K>(head: Node?<K>, l: Node?<K>, done: seq<Node<K>>)
    reads done`next
  {
    && Distinct(done)
    && head == Nth(done, 0)
    && l == (if done == [] then null else done[|done| - 1])
    && forall k :: 0 <= k < |done| - 1 ==> done[k].next == done[k + 1]
  }

  /** A copy stands at `l`: as many nodes as it has passed are copied, with their values. */
  ghost predicate Copying<K>(nodes: seq<Node<K>>, values: seq<K>, l: Node?<K>, head: Node?<K>, last: Node<K>,
                             copies: seq<Node<K>>)
    reads copies
  {
    && 1 <= |copies| <= |nodes| == |values| && l == Nth(nodes, |copies|)
    && IsChain(head, last, copies) && last.next == null && HasValues(copies, values[..|copies|])
  }

  lemma CopyComplete<K>(nodes: seq<Node<K>>, values: seq<K>, head: Node?<K>, last: Node<K>, copies: seq<Node<K>>)
    requires Copying(nodes, values, null, head, last, copies)
    ensures IsList(head, copies) && HasValues(copies, values)
  {
    assert values[..|values|] == values;
  }

  /** A chain whose last link leads to one more node. */
  lemma ChainSnoc<K>(head: Node?<K>, l: Node?<K>, next: Node<K>, done: seq<Node<K>>)
    requires IsChain(if done == [] then null else head, l, done)
    requires if done == [] then head == next else l.next == next
    requires next !in done
    ensures IsChain(head, next, done + [next])
  {
  }

  /** A chain whose last link leads to a list is a list. */
  lemma ChainJoinsList<K>(head: Node?<K>, l: Node?<K>, next: Node?<K>, done: seq<Node<K>>, rest: seq<Node<K>>)
    requires IsChain(if done == [] then null else head, l, done)
    requires if done == [] then head == next else l.next == next
    requires IsList(next, rest) && Disjoint(done, rest)
    ensures IsList(head, done + rest)
  {
    var all := done + rest;
    DistinctConcat(done, rest);
    forall i | 0 <= i < |all|
      ensures all[i].next == Nth(all, i + 1)
    {
      if i >= |done| {
        assert rest[i - |done|].next == Nth(rest, i - |done| + 1);
      }
    }
  }

  /** The list behind the first node. */
  lemma ListTail<K>(list: Node?<K>, nodes: seq<Node<K>>)
    requires IsList(list, nodes) && nodes != []
    ensures list != null && list == nodes[0]
    ensures IsList(list.next, nodes[1..])
    ensures list !in nodes[1..]
  {
    var tail := nodes[1..];
    forall i | 0 <= i < |tail|
      ensures tail[i].next == Nth(tail, i + 1)
    {
      assert nodes[i + 1].next == Nth(nodes, i + 1 + 1);
    }
  }

  lemma MergeTakesHead<T>(done: seq<T>, a: seq<T>, b: seq<T>, cmp: Comparator<T>)
    requires a != [] && b != []
    ensures done + Merge(a, b, cmp) ==
      if Less(cmp, a[0], b[0]) then done + [a[0]] + Merge(a[1..], b, cmp) else done + [b[0]] + Merge(a, b[1..], cmp)
  {
  }

  /** A merge in progress: a finished chain and what is left of the two lists, all disjoint. */
  ghost predicate Merging<K>(head: Node?<K>, l: Node?<K>, done: seq<Node<K>>,
                             l1: Node?<K>, r1: seq<Node<K>>, l2: Node?<K>, r2: seq<Node<K>>)
    reads done`next, r1`next, r2`next
  {
    && IsChain(head, l, done) && IsList(l1, r1) && IsList(l2, r2)
    && Disjoint(done, r1) && Disjoint(done, r2) && Disjoint(r1, r2)
  }

  lemma DisjointAfterTake<T>(done: seq<T>, r1: seq<T>, r2: seq<T>)
    requires r1 != [] && Distinct(r1)
    requires Disjoint(done, r1) && Disjoint(done, r2) && Disjoint(r1, r2)
    ensures r1[0] !in done && r1[0] !in r2
    ensures Disjoint(done, r1[1..])
    ensures Disjoint(done + [r1[0]], r1[1..]) && Disjoint(done + [r1[0]], r2) && Disjoint(r1[1..], r2)
  {
    assert r1[0] !in r1[1..];
    assert forall x :: x in r1[1..] ==> x in r1;
  }

  /** Every node of s is one of the two lists' own. */
  ghost predicate Owned<T>(s: seq<T>, n1: seq<T>, n2: seq<T>) {
    forall i :: 0 <= i < |s| ==> s[i] in n1 || s[i] in n2
  }

  lemma OwnedAfterTake<T>(done: seq<T>, r: seq<T>, n1: seq<T>, n2: seq<T>)
    requires r != [] && Owned(done, n1, n2) && Owned(r, n1, n2)
    ensures Owned(done + [r[0]], n1, n2) && Owned(r[1..], n1, n2)
  {
  }

  lemma OwnedConcat<T>(done: seq<T>, r: seq<T>, n1: seq<T>, n2: seq<T>)
    requires Owned(done, n1, n2) && Owned(r, n1, n2)
    ensures Owned(done + r, n1, n2)
  {
  }

  lemma MergeSortStep<T>(s: seq<T>, cmp: Comparator<T>, h: nat)
    requires |s| >= 2 && h == |s| / 2
    ensures MergeSort(s, cmp) == Merge(MergeSort(s[..h], cmp), MergeSort(s[h..], cmp), cmp)
  {
  }

  lemma OwnedParts<T>(s: seq<T>, h: nat)
    requires h <= |s|
    ensures Owned(s[..h], s, []) && Owned(s[h..], s, [])
    ensures |s[..h]| + |s[h..]| == |s|
  {
  }

  lemma CarriesHalves<K>(nodes: seq<Node<K>>, items: seq<Item<K>>, h: nat)
    requires Carries(nodes, items) && h <= |nodes|
    ensures Carries(nodes[..h], items[..h]) && Carries(nodes[h..], items[h..])
  {
  }

  lemma CarriesAfterTake<K>(done: seq<Node<K>>, r: seq<Node<K>>, d: seq<Item<K>>, a: seq<Item<K>>)
    requires Carries(done, d) && Carries(r, a) && r != []
    ensures Carries(done + [r[0]], d + [a[0]]) && Carries(r[1..], a[1..])
  {
  }

  lemma CarriesConcat<K>(done: seq<Node<K>>, r: seq<Node<K>>, d: seq<Item<K>>, a: seq<Item<K>>)
    requires Carries(done, d) && Carries(r, a)
    ensures Carries(done + r, d + a)
  {
  }

  lemma MergeOfOne<T>(a: seq<T>, b: seq<T>, cmp: Comparator<T>)
    requires a == [] || b == []
    ensures Merge(a, b, cmp) == if a == [] then b else a
  {
  }

  /** A merge in progress, with what its nodes carry; all of them come from the two lists. */
  ghost predicate MergeInv<K>(head: Node?<K>, l: Node?<K>, l1: Node?<K>, l2: Node?<K>,
                              done: seq<Node<K>>, r1: seq<Node<K>>, r2: seq<Node<K>>,
                              d: seq<Item<K>>, a: seq<Item<K>>, b: seq<Item<K>>,
                              n1: seq<Node<K>>, n2: seq<Node<K>>)
    reads done, r1, r2
  {
    && Merging(head, l, done, l1, r1, l2, r2)
    && Carries(done, d) && Carries(r1, a) && Carries(r2, b)
    && Owned(done, n1, n2) && Owned(r1, n1, n2) && Owned(r2, n1, n2)
  }

  lemma HalvesAreLists<K>(list: Node?<K>, nodes: seq<Node<K>>, h: nat)
    requires Distinct(nodes) && 0 < h < |nodes| && list == nodes[0]
    requires forall i :: 0 <= i < |nodes| && i != h - 1 ==> nodes[i].next == Nth(nodes, i + 1)
    requires nodes[h - 1].next == null
    ensures IsList(list, nodes[..h]) && IsList(nodes[h], nodes[h..])
    ensures Disjoint(nodes[..h], nodes[h..])
  {
    var a, b := nodes[..h], nodes[h..];
    forall i | 0 <= i < |a|
      ensures a[i].next == Nth(a, i + 1)
    {
      assert i != h - 1 ==> nodes[i].next == Nth(nodes, i + 1);
    }
    forall i | 0 <= i < |b|
      ensures b[i].next == Nth(b, i + 1)
    {
      assert nodes[h + i].next == Nth(nodes, h + i + 1);
    }
  }

  lemma OwnedHalves<T>(left: seq<T>, right: seq<T>, n1: seq<T>, n2: seq<T>)
    requires Owned(n1, left, []) && Owned(n2, right, []) && Disjoint(left, right)
    ensures Disjoint(n1, n2)
  {
  }

  lemma OwnedTransitive<T>(sorted: seq<T>, n1: seq<T>, n2: seq<T>, left: seq<T>, right: seq<T>)
    requires Owned(sorted, n1, n2) && Owned(n1, left, []) && Owned(n2, right, [])
    ensures Owned(sorted, left, right)
  {
  }

  lemma OwnedByWhole<T>(sorted: seq<T>, nodes: seq<T>, h: nat)
    requires h <= |nodes| && Owned(sorted, nodes[..h], nodes[h..])
    ensures Owned(sorted, nodes, [])
  {
  }
}
