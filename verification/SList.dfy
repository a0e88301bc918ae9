/**
 The singly linked list of jslist.h on the heap: an operation says which nodes the list consists of afterwards, and
 modifies no other node.
 */
module SList {
  import opened Common
  import opened SListOrder
  import opened SListHeap

  /** jack_slist_last. */
  method Last<K>(list: Node?<K>, ghost nodes: seq<Node<K>>) returns (last: Node?<K>)
    requires IsList(list, nodes)
    ensures last == if nodes == [] then null else nodes[|nodes| - 1]
  {
    last := list;
    if last != null {
      ghost var i := 0;
      while last.next != null
        invariant 0 <= i < |nodes| && last == nodes[i]
        decreases |nodes| - i
      {
        last := last.next;
        i := i + 1;
      }
    }
  }

  /** jack_slist_length. */
  method Length<K>(list: Node?<K>, ghost nodes: seq<Node<K>>) returns (length: nat)
    requires IsList(list, nodes)
    ensures length == |nodes|
  {
    length := 0;
    var l := list;
    while l != null
      invariant 0 <= length <= |nodes|
      invariant l == Nth(nodes, length)
      decreases |nodes| - length
    {
      length := length + 1;
      l := l.next;
    }
  }

  /** jack_slist_find: the first node that carries the data. */
  method Find<K(==)>(list: Node?<K>, data: K, ghost nodes: seq<Node<K>>, ghost values: seq<K>)
    returns (found: Node?<K>)
    requires IsList(list, nodes) && HasValues(nodes, values)
    ensures found == Nth(nodes, FirstIndex(values, data))
  {
    found := list;
    ghost var i := 0;
    while found != null
      invariant 0 <= i <= |nodes|
      invariant found == Nth(nodes, i)
      invariant forall j :: 0 <= j < i ==> values[j] != data
      decreases |nodes| - i
    {
      if found.data == data {
        return;
      }
      found := found.next;
      i := i + 1;
    }
  }

  /** jack_slist_append. */
  method Append<K>(list: Node?<K>, data: K, ghost nodes: seq<Node<K>>) returns (res: Node<K>, ghost added: Node<K>)
    requires IsList(list, nodes)
    modifies nodes`next
    ensures fresh(added) && added.data == data
    ensures IsList(res, nodes + [added])
  {
    var newList := new Node(data, null);
    added := newList;
    if list != null {
      var last := Last(list, nodes);
      last.next := newList;
      res := list;
    } else {
      res := newList;
    }
  }

  /** Unlinking the i-th node, with `prev` trailing one behind, as both removal loops do. */
  method Unlink<K>(list: Node?<K>, prev: Node?<K>, tmp: Node<K>, ghost nodes: seq<Node<K>>, ghost i: nat)
    returns (res: Node?<K>)
    requires IsList(list, nodes)
    requires i < |nodes| && tmp == nodes[i]
    requires prev == if i == 0 then null else nodes[i - 1]
    modifies nodes`next
    ensures IsList(res, Without(nodes, i))
    ensures tmp.next == null
  {
    res := list;
    if prev != null {
      prev.next := tmp.next;
    }
    if res == tmp {
      res := res.next;
    }
    tmp.next := null;
    ListWithout(nodes, i);
  }

  /** The search of jack_slist_remove_link. */
  method FindLink<K>(list: Node?<K>, link: Node?<K>, ghost nodes: seq<Node<K>>)
    returns (prev: Node?<K>, tmp: Node?<K>, ghost i: nat)
    requires IsList(list, nodes)
    ensures AtNode(nodes, i, prev, tmp)
    ensures link == null || link !in nodes ==> i == |nodes|
    ensures link != null && link in nodes ==> i == FirstIndex(nodes, link) < |nodes|
  {
    prev, tmp, i := null, list, 0;
    while tmp != null
      invariant AtNode(nodes, i, prev, tmp)
      invariant forall j :: 0 <= j < i ==> nodes[j] != link
      decreases |nodes| - i
    {
      if tmp == link {
        return;
      }
      prev, tmp, i := tmp, tmp.next, i + 1;
    }
  }

  /** jack_slist_remove_link: unlinks that node if it is in the list. */
  method RemoveLink<K>(list: Node?<K>, link: Node?<K>, ghost nodes: seq<Node<K>>)
    returns (res: Node?<K>, ghost rest: seq<Node<K>>)
    requires IsList(list, nodes)
    modifies nodes`next
    ensures IsList(res, rest)
    ensures link == null || link !in nodes ==> rest == nodes
    ensures link != null && link in nodes ==> rest == Without(nodes, FirstIndex(nodes, link)) && link.next == null
  {
    res, rest := list, nodes;
    var prev, tmp, i := FindLink(list, link, nodes);
    if tmp != null {
      res := Unlink(list, prev, tmp, nodes, i);
      rest := Without(nodes, i);
    }
  }

  /** The search of jack_slist_remove. */
  method FindData<K(==)>(list: Node?<K>, data: K, ghost nodes: seq<Node<K>>, ghost values: seq<K>)
    returns (prev: Node?<K>, tmp: Node?<K>, ghost i: nat)
    requires IsList(list, nodes) && HasValues(nodes, values)
    ensures AtNode(nodes, i, prev, tmp) && i == FirstIndex(values, data)
  {
    prev, tmp, i := null, list, 0;
    while tmp != null
      invariant AtNode(nodes, i, prev, tmp)
      invariant forall j :: 0 <= j < i ==> values[j] != data
      decreases |nodes| - i
    {
      if tmp.data == data {
        return;
      }
      prev, tmp, i := tmp, tmp.next, i + 1;
    }
  }

  /** jack_slist_remove: unlinks the first node that carries the data (which the source then frees). */
  method Remove<K(==)>(list: Node?<K>, data: K, ghost nodes: seq<Node<K>>, ghost values: seq<K>)
    returns (res: Node?<K>, ghost rest: seq<Node<K>>)
    requires IsList(list, nodes) && HasValues(nodes, values)
    modifies nodes`next
    ensures IsList(res, rest)
    ensures var i := FirstIndex(values, data);
      if i < |nodes| then rest == Without(nodes, i) && nodes[i].next == null else rest == nodes
  {
    res, rest := list, nodes;
    var prev, tmp, i := FindData(list, data, nodes, values);
    if tmp != null {
      res := Unlink(list, prev, tmp, nodes, i);
      rest := Without(nodes, i);
    }
  }

  /** One round of the copying loop. */
  method CopyNode<K>(l: Node<K>, last: Node<K>, ghost list: Node?<K>, ghost nodes: seq<Node<K>>, ghost values: seq<K>,
                     ghost head: Node?<K>, ghost copies: seq<Node<K>>)
    returns (l': Node?<K>, node: Node<K>)
    requires IsList(list, nodes) && HasValues(nodes, values) && Copying(nodes, values, l, head, last, copies)
    modifies last`next
    ensures fresh(node) && Copying(nodes, values, l', head, node, copies + [node])
  {
    node := new Node(l.data, null);
    l' := l.next;
    ghost var n := |copies|;
    last.next := node;
    ChainSnoc(head, last, node, copies);
    assert values[..n + 1] == values[..n] + [values[n]];
  }

  /** jack_slist_copy: fresh nodes, same data, source untouched. */
  method Copy<K>(list: Node?<K>, ghost nodes: seq<Node<K>>, ghost values: seq<K>)
    returns (res: Node?<K>, ghost copies: seq<Node<K>>)
    requires IsList(list, nodes) && HasValues(nodes, values)
    ensures IsList(res, copies) && HasValues(copies, values)
    ensures forall i :: 0 <= i < |copies| ==> fresh(copies[i])
  {
    res, copies := null, [];
    var l := list;
    if l != null {
      var last := new Node(l.data, null);
      res, copies := last, [last];
      l := l.next;
      while l != null
        invariant Copying(nodes, values, l, res, last, copies)
        invariant forall i :: 0 <= i < |copies| ==> fresh(copies[i])
        decreases |nodes| - |copies|
      {
        l, last := CopyNode(l, last, list, nodes, values, res, copies);
        copies := copies + [last];
      }
      CopyComplete(nodes, values, res, last, copies);
    }
  }

  /** `l->next = next`, where the stack node in front of the list is represented by a null `l`. */
  method Link<K>(head: Node?<K>, l: Node?<K>, next: Node?<K>, ghost done: seq<Node<K>>) returns (head': Node?<K>)
    requires IsChain(head, l, done)
    modifies (if l == null then {} else {l})`next
    ensures head' == if done == [] then next else head
    ensures done != [] ==> l != null && l.next == next
    ensures IsChain(if done == [] then null else head', l, done)
  {
    head' := head;
    if l == null {
      head' := next;
    } else {
      l.next := next;
    }
  }

  /** `l = l->next = l1; l1 = l1->next`: moves the first node of a list to the end of the chain. */
  method MoveFirst<K>(head: Node?<K>, l: Node?<K>, l1: Node<K>, l2: Node?<K>,
                      ghost done: seq<Node<K>>, ghost r1: seq<Node<K>>, ghost r2: seq<Node<K>>,
                      ghost d: seq<Item<K>>, ghost a: seq<Item<K>>)
    returns (l': Node<K>, ghost done': seq<Node<K>>, ghost r1': seq<Node<K>>,
             ghost d': seq<Item<K>>, ghost a': seq<Item<K>>, head': Node?<K>, l1': Node?<K>)
    requires Merging(head, l, done, l1, r1, l2, r2)
    requires |a| == |r1|
    modifies (if l == null then {} else {l})`next
    ensures r1 != [] && l' == l1 == r1[0]
    ensures done' == done + [r1[0]] && r1' == r1[1..] && d' == d + [a[0]] && a' == a[1..]
    ensures Merging(head', l', done', l1', r1', l2, r2)
  {
    ListTail(l1, r1);
    DisjointAfterTake(done, r1, r2);
    l', l1' := l1, l1.next;
    done', r1', d', a' := done + [r1[0]], r1[1..], d + [a[0]], a[1..];
    assert l != null ==> l in done;
    head' := Link(head, l, l1, done);
    ChainSnoc(head', l, l1, done);
  }

  /** `l->next = l1 ? l1 : l2`, when at most one list is left. */
  method FinishMerge<K>(head: Node?<K>, l: Node?<K>, l1: Node?<K>, l2: Node?<K>,
                        ghost done: seq<Node<K>>, ghost r1: seq<Node<K>>, ghost r2: seq<Node<K>>,
                        ghost d: seq<Item<K>>, ghost a: seq<Item<K>>, ghost b: seq<Item<K>>,
                        ghost cmp: Comparator<Item<K>>)
    returns (res: Node?<K>, ghost nodes: seq<Node<K>>)
    requires Merging(head, l, done, l1, r1, l2, r2)
    requires l1 == null || l2 == null
    requires Carries(done, d) && Carries(r1, a) && Carries(r2, b)
    modifies (if l == null then {} else {l})`next
    ensures nodes == done + if l1 != null then r1 else r2
    ensures IsList(res, nodes)
    ensures Carries(nodes, d + Merge(a, b, cmp))
  {
    var rest := if l1 != null then l1 else l2;
    ghost var r := if l1 != null then r1 else r2;
    nodes := done + r;
    assert l != null ==> l in done;
    res := Link(head, l, rest, done);
    ChainJoinsList(res, l, rest, done, r);
    MergeOfOne(a, b, cmp);
    CarriesConcat(done, r, d, if l1 != null then a else b);
  }

  /** One round of the merge loop. */
  method MergeRound<K>(head: Node?<K>, l: Node?<K>, l1: Node<K>, l2: Node<K>, compare: Comparator<K>,
                       ghost done: seq<Node<K>>, ghost r1: seq<Node<K>>, ghost r2: seq<Node<K>>,
                       ghost d: seq<Item<K>>, ghost a: seq<Item<K>>, ghost b: seq<Item<K>>,
                       ghost n1: seq<Node<K>>, ghost n2: seq<Node<K>>)
    returns (head': Node?<K>, l': Node?<K>, l1': Node?<K>, l2': Node?<K>,
             ghost done': seq<Node<K>>, ghost r1': seq<Node<K>>, ghost r2': seq<Node<K>>,
             ghost d': seq<Item<K>>, ghost a': seq<Item<K>>, ghost b': seq<Item<K>>)
    requires MergeInv(head, l, l1, l2, done, r1, r2, d, a, b, n1, n2)
    modifies (if l == null then {} else {l})`next
    ensures MergeInv(head', l', l1', l2', done', r1', r2', d', a', b', n1, n2)
    ensures d' + Merge(a', b', ByData(compare)) == d + Merge(a, b, ByData(compare))
    ensures |r1'| + |r2'| < |r1| + |r2|
  {
    MergeTakesHead(d, a, b, ByData(compare));
    if compare(l1.data, l2.data) < 0 {
      CarriesAfterTake(done, r1, d, a);
      OwnedAfterTake(done, r1, n1, n2);
      l2', r2', b' := l2, r2, b;
      l', done', r1', d', a', head', l1' := MoveFirst(head, l, l1, l2, done, r1, r2, d, a);
    } else {
      CarriesAfterTake(done, r2, d, b);
      OwnedAfterTake(done, r2, n1, n2);
      l1', r1', a' := l1, r1, a;
      l', done', r2', d', b', head', l2' := MoveFirst(head, l, l2, l1, done, r2, r1, d, b);
    }
  }

  /** jack_slist_sort_merge: relinks the nodes of both lists into one, in the order of `Merge`. */
  method SortMerge<K>(list1: Node?<K>, list2: Node?<K>, compare: Comparator<K>,
                      ghost n1: seq<Node<K>>, ghost n2: seq<Node<K>>,
                      ghost items1: seq<Item<K>>, ghost items2: seq<Item<K>>)
    returns (res: Node?<K>, ghost nodes: seq<Node<K>>)
    requires IsList(list1, n1) && IsList(list2, n2) && Disjoint(n1, n2)
    requires Carries(n1, items1) && Carries(n2, items2)
    modifies n1`next, n2`next
    ensures IsList(res, nodes) && Owned(nodes, n1, n2)
    ensures Carries(nodes, Merge(items1, items2, ByData(compare)))
  {
    var l1, l2 := list1, list2;
    var head: Node?<K>, l: Node?<K> := null, null;
    ghost var done: seq<Node<K>>, r1, r2 := [], n1, n2;
    ghost var d: seq<Item<K>>, a, b := [], items1, items2;
    while l1 != null && l2 != null
      invariant MergeInv(head, l, l1, l2, done, r1, r2, d, a, b, n1, n2)
      invariant d + Merge(a, b, ByData(compare)) == Merge(items1, items2, ByData(compare))
      decreases |r1| + |r2|
    {
      head, l, l1, l2, done, r1, r2, d, a, b :=
        MergeRound(head, l, l1, l2, compare, done, r1, r2, d, a, b, n1, n2);
    }
    OwnedConcat(done, if l1 != null then r1 else r2, n1, n2);
    res, nodes := FinishMerge(head, l, l1, l2, done, r1, r2, d, a, b, ByData(compare));
  }

  /** The loop of jack_slist_sort that finds the middle: `mid` is the last node of the left half. */
  method FindMiddle<K>(list: Node<K>, ghost nodes: seq<Node<K>>) returns (mid: Node<K>)
    requires IsList(list, nodes) && |nodes| >= 2
    ensures mid == nodes[|nodes| / 2 - 1]
  {
    var l2: Node?<K> := list.next;
    mid := list;
    ghost var k := 0;
    while true
      invariant 0 <= 2 * k + 1 < |nodes| && mid == nodes[k] && l2 == nodes[2 * k + 1]
      decreases |nodes| - k
    {
      l2 := l2.next;
      if l2 == null {
        break;
      }
      l2 := l2.next;
      if l2 == null {
        break;
      }
      mid := mid.next;
      k := k + 1;
    }
  }

  /** Cuts the list behind its middle. */
  method Halve<K>(list: Node<K>, ghost nodes: seq<Node<K>>) returns (l2: Node?<K>)
    requires IsList(list, nodes) && |nodes| >= 2
    modifies nodes`next
    ensures IsList(list, nodes[..|nodes| / 2]) && IsList(l2, nodes[|nodes| / 2..])
    ensures Disjoint(nodes[..|nodes| / 2], nodes[|nodes| / 2..])
  {
    var l1 := FindMiddle(list, nodes);
    l2 := l1.next;
    l1.next := null;
    HalvesAreLists(list, nodes, |nodes| / 2);
  }

  /**
   jack_slist_sort: for any comparison function, the same nodes relinked in the order of `MergeSort`, with no node
   lost, added or shared. `SortedOrder` says what that order is when the function orders the data.
   */
  method Sort<K>(list: Node?<K>, compare: Comparator<K>, ghost nodes: seq<Node<K>>, ghost items: seq<Item<K>>)
    returns (res: Node?<K>, ghost sorted: seq<Node<K>>)
    requires IsList(list, nodes) && Carries(nodes, items)
    modifies nodes`next
    ensures IsList(res, sorted) && Owned(sorted, nodes, [])
    ensures Carries(sorted, MergeSort(items, ByData(compare)))
    decreases |nodes|, 4
  {
    if list == null || list.next == null {
      return list, nodes;
    }
    res, sorted := SortLong(list, compare, nodes, items);
  }

  /** A list of at least two nodes: halve, sort the halves, merge. */
  method SortLong<K>(list: Node<K>, compare: Comparator<K>, ghost nodes: seq<Node<K>>, ghost items: seq<Item<K>>)
    returns (res: Node?<K>, ghost sorted: seq<Node<K>>)
    requires IsList(list, nodes) && |nodes| >= 2 && Carries(nodes, items)
    modifies nodes`next
    ensures IsList(res, sorted) && Owned(sorted, nodes, [])
    ensures Carries(sorted, MergeSort(items, ByData(compare)))
    decreases |nodes|, 3
  {
    ghost var h := |nodes| / 2;
    CarriesHalves(nodes, items, h);
    MergeSortStep(items, ByData(compare), h);
    OwnedParts(nodes, h);
    var l2 := Halve(list, nodes);
    res, sorted := SortParts(list, l2, compare, nodes, nodes[..h], nodes[h..], items[..h], items[h..]);
    OwnedByWhole(sorted, nodes, h);
  }

  /** Sorting two parts of a list touches no node but the list's own. */
  method SortParts<K>(list1: Node?<K>, list2: Node?<K>, compare: Comparator<K>, ghost nodes: seq<Node<K>>,
                      ghost left: seq<Node<K>>, ghost right: seq<Node<K>>,
                      ghost items1: seq<Item<K>>, ghost items2: seq<Item<K>>)
    returns (res: Node?<K>, ghost sorted: seq<Node<K>>)
    requires Owned(left, nodes, []) && Owned(right, nodes, []) && left != [] && right != []
    requires IsList(list1, left) && IsList(list2, right) && Disjoint(left, right)
    requires Carries(left, items1) && Carries(right, items2)
    modifies nodes`next
    ensures IsList(res, sorted) && Owned(sorted, left, right)
    ensures Carries(sorted, Merge(MergeSort(items1, ByData(compare)), MergeSort(items2, ByData(compare)),
                                  ByData(compare)))
    decreases |left| + |right|, 2
  {
    res, sorted := SortBoth(list1, list2, compare, left, right, items1, items2);
  }

  /** Sorts two disjoint lists and merges them. */
  method SortBoth<K>(list1: Node?<K>, list2: Node?<K>, compare: Comparator<K>,
                     ghost left: seq<Node<K>>, ghost right: seq<Node<K>>,
                     ghost items1: seq<Item<K>>, ghost items2: seq<Item<K>>)
    returns (res: Node?<K>, ghost sorted: seq<Node<K>>)
    requires left != [] && right != []
    requires IsList(list1, left) && IsList(list2, right) && Disjoint(left, right)
    requires Carries(left, items1) && Carries(right, items2)
    modifies left`next, right`next
    ensures IsList(res, sorted) && Owned(sorted, left, right)
    ensures Carries(sorted, Merge(MergeSort(items1, ByData(compare)), MergeSort(items2, ByData(compare)),
                                  ByData(compare)))
    decreases |left| + |right|, 1
  {
    var s1, s2; ghost var n1, n2;
    s1, s2, n1, n2 := SortHalves(list1, list2, compare, left, right, items1, items2);
    OwnedHalves(left, right, n1, n2);
    res, sorted := SortMerge(s1, s2, compare, n1, n2,
                             MergeSort(items1, ByData(compare)), MergeSort(items2, ByData(compare)));
    OwnedTransitive(sorted, n1, n2, left, right);
  }

  /** The two recursive calls: sorting one half leaves the other alone. */
  method SortHalves<K>(list1: Node?<K>, list2: Node?<K>, compare: Comparator<K>,
                       ghost left: seq<Node<K>>, ghost right: seq<Node<K>>,
                       ghost items1: seq<Item<K>>, ghost items2: seq<Item<K>>)
    returns (s1: Node?<K>, s2: Node?<K>, ghost n1: seq<Node<K>>, ghost n2: seq<Node<K>>)
    requires left != [] && right != []
    requires IsList(list1, left) && IsList(list2, right) && Disjoint(left, right)
    requires Carries(left, items1) && Carries(right, items2)
    modifies left`next, right`next
    ensures IsList(s1, n1) && IsList(s2, n2)
    ensures Owned(n1, left, []) && Owned(n2, right, [])
    ensures Carries(n1, MergeSort(items1, ByData(compare))) && Carries(n2, MergeSort(items2, ByData(compare)))
    decreases |left| + |right|, 0
  {
    s1, n1 := Sort(list1, compare, left, items1);
    s2, n2 := Sort(list2, compare, right, items2);
  }

  /** An order on the data is an order on the nodes that carry it. */
  lemma OrderOnItems<K>(keys: set<K>, dom: set<Item<K>>, compare: Comparator<K>)
    requires StrictWeakOrder(keys, compare)
    requires forall x :: x in dom ==> x.data in keys
    ensures StrictWeakOrder(dom, ByData(compare))
  {
    var cmp := ByData(compare);
    forall x, y, z | x in dom && y in dom && z in dom
      ensures Less(cmp, x, y) ==> !Less(cmp, y, x)
      ensures Less(cmp, x, z) ==> Less(cmp, x, y) || Less(cmp, y, z)
    {
      assert Less(cmp, x, y) == Less(compare, x.data, y.data) && Less(cmp, y, x) == Less(compare, y.data, x.data);
      assert Less(cmp, x, z) == Less(compare, x.data, z.data) && Less(cmp, y, z) == Less(compare, y.data, z.data);
    }
  }

  /**
   The list that `Sort` leaves behind, for every comparison function that orders the data: ascending, and among equal
   data the node that was later in the original list comes first. No other arrangement of the nodes has this property.
   */
  lemma SortedOrder<K>(items: seq<Item<K>>, output: seq<Item<K>>, compare: Comparator<K>, keys: set<K>)
    requires StrictWeakOrder(keys, compare)
    requires forall i :: 0 <= i < |items| ==> items[i].data in keys
    requires forall i, j :: 0 <= i < j < |items| ==> items[i].node != items[j].node
    ensures output == MergeSort(items, ByData(compare)) <==> IsTieReversedSort(items, output, ByData(compare))
    ensures MergeSort(items, ByData(compare)) == StableSort(Reverse(items), ByData(compare))
  {
    var dom := set x | x in items;
    OrderOnItems(keys, dom, compare);
    MergeSortCharacterised(dom, items, output, ByData(compare));
    SortIsStableSortOfReversal(dom, items, ByData(compare));
  }
}
