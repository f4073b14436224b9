/**
  sort_list: the merge sort that relinks a child list in place, and the shape it leaves.
  
  The methods carry the sequences of nodes behind the pointers as ghost parameters; the contents of the
  result are those of `Sorting.Sort`, and the `prev` of its head is what the code happens to leave there.
*/
module NodeSort {
  import opened CTypes
  import opened Names
  import opened Sorting
  import opened BackLinks
  import opened NodeList

  lemma Successor(nodes: seq<Node>, k: nat)
    requires Linked(nodes) && k < |nodes|
    ensures nodes[k].next == if k + 1 < |nodes| then nodes[k + 1] else null
  {}

  /** The walk that leaves strictly ascending lists alone. */
  method IsAscending(list: Node, cs: bool, ghost nodes: seq<Node>) returns (sorted: bool)
    requires Linked(nodes) && nodes != [] && nodes[0] == list
    ensures sorted <==> Ascending(nodes, NodeName, cs)
  {
    hide Compare;
    var current: Node? := list;
    ghost var i := 0;
    Successor(nodes, 0);
    while current != null && current.next != null && Compare(current.name, current.next.name, cs) < 0
      invariant 0 <= i < |nodes| && current == nodes[i] &&
                current.next == if i + 1 < |nodes| then nodes[i + 1] else null
      invariant forall k :: 0 <= k < i ==> Compare(NodeName(nodes[k]), NodeName(nodes[k + 1]), cs) < 0
      decreases |nodes| - i
    {
      current := current.next;
      i := i + 1;
      Successor(nodes, i);
    }
    sorted := current == null || current.next == null;
  }

  /** Two pointers, one walking twice as fast: the slow one stops in the middle. */
  method FindMiddle(list: Node, ghost nodes: seq<Node>) returns (second: Node?)
    requires Linked(nodes) && |nodes| >= 2 && nodes[0] == list
    ensures second == nodes[Middle(|nodes|)]
  {
    second := list;
    var current: Node? := list;
    ghost var i, j := 0, 0;
    while current != null
      invariant 0 <= i <= Middle(|nodes|) && 0 <= j <= |nodes|
      invariant j == if 2 * i < |nodes| then 2 * i else |nodes|
      invariant current == if j < |nodes| then nodes[j] else null
      invariant second == nodes[i]
      invariant current == null ==> i == Middle(|nodes|)
      decreases |nodes| - j
    {
      Successor(nodes, i);
      Successor(nodes, j);
      second := second.next;
      current := current.next;
      i, j := i + 1, j + 1;
      if current != null {
        Successor(nodes, j);
        current := current.next;
        j := j + 1;
      }
    }
  }

  predicate Disjoint(a: seq<Node>, b: seq<Node>) {
    forall i, j :: 0 <= i < |a| && 0 <= j < |b| ==> a[i] != b[j]
  }

  lemma Joined(a: seq<Node>, b: seq<Node>)
    requires Run(a) && Linked(b) && Disjoint(a, b) && a != [] && b != []
    requires a[|a| - 1].next == b[0] && b[0].prev == a[|a| - 1]
    ensures Linked(a + b)
  {}

  lemma RunSnoc(a: seq<Node>, n: Node)
    requires Run(a) && n !in a
    requires a != [] ==> a[|a| - 1].next == n && n.prev == a[|a| - 1]
    ensures Run(a + [n])
  {}

  function Merged(a: seq<Node>, b: seq<Node>, cs: bool): seq<Node> {
    Merge(a, b, NodeName, cs)
  }

  function Sorted(nodes: seq<Node>, cs: bool): seq<Node> {
    Sort(nodes, NodeName, cs)
  }

  /** What the merge has done and still has to do. */
  ghost predicate Merging(done: seq<Node>, a: seq<Node>, b: seq<Node>)
    reads done, a, b
  {
    Run(done) && Linked(a) && Linked(b) && Disjoint(done, a) && Disjoint(done, b) && Disjoint(a, b)
  }

  /** Adds the head of one remaining list to the merged list. */
  method Attach(tail: Node, smaller: Node, ghost done: seq<Node>, ghost s: seq<Node>, ghost t: seq<Node>)
    requires Merging(done, s, t) && s != [] && s[0] == smaller
    requires done != [] && tail == done[|done| - 1]
    modifies tail`next, smaller`prev
    ensures Merging(done + [smaller], s[1..], t)
    ensures done[0].prev == old(done[0].prev) && smaller.next == old(smaller.next)
  {
    tail.next := smaller;
    smaller.prev := tail;
    assert smaller in s && tail in done;
    assert Run(done + [smaller]) by { assert Run(done); RunSnoc(done, smaller); }
    assert Linked(s[1..]);
    assert Linked(t);
  }

  /** Adds what remains of one list. */
  method AttachRest(tail: Node, rest: Node, ghost done: seq<Node>, ghost s: seq<Node>)
    requires Merging(done, s, []) && s != [] && s[0] == rest
    requires done != [] && tail == done[|done| - 1]
    modifies tail`next, rest`prev
    ensures Linked(done + s)
    ensures done[0].prev == old(done[0].prev)
  {
    tail.next := rest;
    rest.prev := tail;
    assert rest in s && tail in done;
    Joined(done, s);
  }

  ghost predicate Within(nodes: seq<Node>, all: set<Node>) {
    forall i :: 0 <= i < |nodes| ==> nodes[i] in all
  }

  lemma WithinSnoc(nodes: seq<Node>, n: Node, all: set<Node>)
    requires Within(nodes, all) && n in all
    ensures Within(nodes + [n], all)
  {}

  lemma WithinTail(nodes: seq<Node>, all: set<Node>)
    requires Within(nodes, all) && nodes != []
    ensures Within(nodes[1..], all)
  {}

  /** The variables of the merge loop. */
  ghost predicate MergeState(first: Node?, second: Node?, result: Node?, tail: Node?, done: seq<Node>, s: seq<Node>,
                             t: seq<Node>,
                             all: set<Node>, cs: bool, whole: seq<Node>)
    reads done, s, t
  {
    && done + Merged(s, t, cs) == whole
    && Merging(done, s, t)
    && Within(done, all) && Within(s, all) && Within(t, all)
    && first == Head(s) && second == Head(t) && result == Head(done)
    && (if done == [] then s != [] && t != [] else tail == done[|done| - 1] && (s != [] || t != []))
  }

  /** The end of the merge, when one list is exhausted. */
  method AttachRests(first: Node?, second: Node?, result: Node, tail: Node, cs: bool,
                     ghost done: seq<Node>, ghost s: seq<Node>, ghost t: seq<Node>, ghost all: set<Node>,
                     ghost whole: seq<Node>)
    requires MergeState(first, second, result, tail, done, s, t, all, cs, whole) && (first == null || second == null)
    modifies all
    ensures Linked(whole) && whole != [] && result == whole[0]
    ensures result.prev == old(result.prev)
  {
    MergeEnd(s, t, cs);
    MergingSwap(done, s, t);
    assert tail in all && (first != null ==> first in all) && (second != null ==> second in all);
    hide Within, MergeState, Merging, Linked, Merged, Compare;
    if first != null {
      AttachRest(tail, first, done, s);
    }
    if second != null {
      AttachRest(tail, second, done, t);
    }
  }

  lemma Taken(done: seq<Node>, s: seq<Node>, t: seq<Node>)
    requires Merging(done, s, t) && s != []
    ensures Merging(done, t, s)
    ensures done == [] ==> Merging([s[0]], s[1..], t) && Merging([s[0]], t, s[1..])
    ensures s[0].next == Head(s[1..])
    ensures t != [] ==> s[0] != t[0]
  {
    Successor(s, 0);
  }

  /** One element joins the merged list. */
  method TakeSmaller(result: Node?, tail: Node?, smaller: Node, ghost done: seq<Node>, ghost s: seq<Node>,
                     ghost t: seq<Node>)
    returns (result': Node, tail': Node)
    requires Merging(done, s, t) && s != [] && s[0] == smaller
    requires result == Head(done) && (done != [] ==> tail == done[|done| - 1])
    modifies smaller, if result == null then {} else {tail}
    ensures Merging(done + [smaller], s[1..], t) && Merging(done + [smaller], t, s[1..])
    ensures result' == (done + [smaller])[0] && result'.prev == old((done + [smaller])[0].prev)
    ensures tail' == smaller && smaller.next == old(smaller.next)
  {
    tail' := smaller;
    if result == null {
      Taken(done, s, t);
      assert [] + [smaller] == [smaller];
      result' := smaller;
    } else {
      Attach(tail, smaller, done, s, t);
      MergingSwap(done + [smaller], s[1..], t);
      result' := result;
    }
  }

  lemma MergingSwap(done: seq<Node>, s: seq<Node>, t: seq<Node>)
    requires Merging(done, s, t)
    ensures Merging(done, t, s)
  {}

  lemma MergeStep(done: seq<Node>, s: seq<Node>, t: seq<Node>, cs: bool)
    requires s != [] && t != []
    ensures var takeFirst := Compare(s[0].name, t[0].name, cs) < 0;
            done + Merged(s, t, cs) ==
            (done + [if takeFirst then s[0] else t[0]])
            + Merged(if takeFirst then s[1..] else s, if takeFirst then t else t[1..], cs)
  {
    hide Compare;
  }

  lemma MergeHead(s: seq<Node>, t: seq<Node>, cs: bool)
    requires s != [] && t != []
    ensures Merged(s, t, cs)[0] == if Compare(s[0].name, t[0].name, cs) < 0 then s[0] else t[0]
  {
    hide Compare;
  }

  lemma MergeEnd(s: seq<Node>, t: seq<Node>, cs: bool)
    requires s == [] || t == []
    ensures Merged(s, t, cs) == if s == [] then t else s
  {}

  /** One turn of the merge loop. */
  method MergeTurn(first: Node, second: Node, result: Node?, tail: Node?, cs: bool,
                   ghost done: seq<Node>, ghost s: seq<Node>, ghost t: seq<Node>, ghost all: set<Node>,
                   ghost whole: seq<Node>)
    returns (first': Node?, second': Node?, result': Node, tail': Node,
             ghost done': seq<Node>, ghost s': seq<Node>, ghost t': seq<Node>)
    requires MergeState(first, second, result, tail, done, s, t, all, cs, whole)
    modifies all
    ensures MergeState(first', second', result', tail', done', s', t', all, cs, whole)
    ensures |s'| + |t'| < |s| + |t|
    ensures result' in all && result'.prev == old(result'.prev) && (result != null ==> result' == result)
  {
    MergeStep(done, s, t, cs);
    var smaller := if Compare(first.name, second.name, cs) < 0 then first else second;
    TurnStart(first, second, result, tail, done, s, t, all, cs, whole);
    first', second', done', s', t' := first, second, done + [smaller], s, t;
    WithinSnoc(done, smaller, all);
    WithinTail(s, all);
    WithinTail(t, all);
    hide MergeState, Merging, Compare, Merged, Within;
    if first == smaller {
      result', tail' := TakeSmaller(result, tail, smaller, done, s, t);
      first', s' := first.next, s[1..];
    } else {
      result', tail' := TakeSmaller(result, tail, smaller, done, t, s);
      second', t' := second.next, t[1..];
    }
    TurnEnd(first', second', result', tail', done', s', t', all, cs, whole);
  }

  lemma TurnStart(first: Node, second: Node, result: Node?, tail: Node?, done: seq<Node>, s: seq<Node>, t: seq<Node>,
                  all: set<Node>, cs: bool, whole: seq<Node>)
    requires MergeState(first, second, result, tail, done, s, t, all, cs, whole)
    ensures s != [] && t != [] && s[0] == first && t[0] == second && first != second
    ensures Merging(done, s, t) && Merging(done, t, s)
    ensures result == Head(done) && (done != [] ==> tail == done[|done| - 1])
    ensures Within(s, all) && Within(t, all) && Within(done, all)
    ensures first in all && second in all && (result != null ==> tail in all)
    ensures done + Merged(s, t, cs) == whole
    ensures first.next == Head(s[1..]) && second.next == Head(t[1..])
  {
    MergingSwap(done, s, t);
    Taken(done, s, t);
    Taken(done, t, s);
  }

  lemma TurnEnd(first: Node?, second: Node?, result: Node?, tail: Node?, done: seq<Node>, s: seq<Node>, t: seq<Node>,
                all: set<Node>, cs: bool, whole: seq<Node>)
    requires done != [] && Merging(done, s, t) && (s != [] || t != [])
    requires first == Head(s) && second == Head(t) && result == Head(done) && tail == done[|done| - 1]
    requires Within(done, all) && Within(s, all) && Within(t, all)
    requires done + Merged(s, t, cs) == whole
    ensures MergeState(first, second, result, tail, done, s, t, all, cs, whole)
  {}

  lemma MergeStarts(list: Node, other: Node, cs: bool, a: seq<Node>, b: seq<Node>)
    requires Linked(a) && Linked(b) && Disjoint(a, b) && a != [] && b != [] && a[0] == list && b[0] == other
    ensures MergeState(list, other, null, null, [], a, b, (set n | n in a + b), cs, Merged(a, b, cs))
  {
    hide Merged, Compare;
    assert [] + Merged(a, b, cs) == Merged(a, b, cs);
  }

  /** The merge of sort_list. */
  method MergeLists(list: Node, other: Node, cs: bool, ghost a: seq<Node>, ghost b: seq<Node>) returns (result: Node?)
    requires Linked(a) && Linked(b) && Disjoint(a, b) && a != [] && b != [] && a[0] == list && b[0] == other
    modifies set n | n in a + b
    ensures Linked(Merged(a, b, cs)) && result == Merged(a, b, cs)[0]
    ensures result.prev == old(result.prev)
  {
    var first: Node?, second: Node? := list, other;
    var tail: Node? := null;
    result := null;
    ghost var all, whole := (set n | n in a + b), Merged(a, b, cs);
    ghost var done: seq<Node>, s: seq<Node>, t: seq<Node> := [], a, b;
    MergeStarts(list, other, cs, a, b);
    hide Merged, Compare, Linked, Disjoint, MergeState;
    while first != null && second != null
      invariant MergeState(first, second, result, tail, done, s, t, all, cs, whole)
      invariant if result == null then unchanged(all) && first != null && second != null
                else tail != null && result in all && result.prev == old(result.prev)
      decreases |s| + |t|
    {
      first, second, result, tail, done, s, t := MergeTurn(first, second, result, tail, cs, done, s, t, all, whole);
    }
    AttachRests(first, second, result, tail, cs, done, s, t, all, whole);
  }

  lemma SameNodes(nodes: seq<Node>, cs: bool)
    ensures |Sorted(nodes, cs)| == |nodes|
    ensures forall i :: 0 <= i < |nodes| ==> Sorted(nodes, cs)[i] in nodes
  {
    var s := Sorted(nodes, cs);
    SortPermutes(nodes, NodeName, cs);
    hide Sort;
    forall i | 0 <= i < |s|
      ensures s[i] in nodes
    {
      assert s[i] in multiset(s);
    }
  }

  lemma SortedAlready(nodes: seq<Node>, cs: bool)
    ensures |Sorted(nodes, cs)| == |nodes|
    ensures |nodes| <= 1 || Ascending(nodes, NodeName, cs) ==> Sorted(nodes, cs) == nodes
  {
    hide Ascending;
  }

  lemma SortedSplits(nodes: seq<Node>, cs: bool)
    requires |nodes| >= 2 && !Ascending(nodes, NodeName, cs)
    ensures Sorted(nodes, cs) == Merged(Sorted(nodes[..Middle(|nodes|)], cs), Sorted(nodes[Middle(|nodes|)..], cs), cs)
  {}

  lemma SortedHalves(a: seq<Node>, b: seq<Node>, cs: bool)
    requires Disjoint(a, b) && a != [] && b != []
    ensures var s, t := Sorted(a, cs), Sorted(b, cs);
            && s != [] && t != [] && Disjoint(s, t)
            && (forall i :: 0 <= i < |s| ==> s[i] in a && s[i] !in b)
            && (forall i :: 0 <= i < |t| ==> t[i] in b && t[i] !in a)
            && Merged(s, t, cs) != [] && Merged(s, t, cs)[0] in [s[0], t[0]]
  {
    hide Sort;
    SameNodes(a, cs);
    SameNodes(b, cs);
    var s, t := Sorted(a, cs), Sorted(b, cs);
    MergeHead(s, t, cs);
  }

  /** The two recursive calls and the merge. */
  method SortHalves(list: Node, other: Node, cs: bool, ghost a: seq<Node>, ghost b: seq<Node>) returns (result: Node?)
    requires Linked(a) && Linked(b) && Disjoint(a, b) && a != [] && b != [] && a[0] == list && b[0] == other
    requires other.prev == null
    modifies set n | n in a + b
    ensures Merged(Sorted(a, cs), Sorted(b, cs), cs) != []
    ensures Linked(Merged(Sorted(a, cs), Sorted(b, cs), cs)) && result == Merged(Sorted(a, cs), Sorted(b, cs), cs)[0]
    ensures result.prev == if result == list then old(list.prev) else null
    decreases |a| + |b|, 0
  {
    SortedHalves(a, b, cs);
    assert list in a && other in b;
    assert list !in b && other !in a;
    hide Sorted, Merged;
    var first := SortList(list, cs, a);
    var second := SortList(other, cs, b);
    result := MergeLists(first, second, cs, Sorted(a, cs), Sorted(b, cs));
  }

  /** Cuts a list in front of one of its nodes. */
  method Split(list: Node, second: Node?, ghost nodes: seq<Node>, ghost m: nat)
    requires Linked(nodes) && 0 < m < |nodes| && nodes[0] == list && nodes[m] == second
    modifies set n | n in nodes
    ensures Linked(nodes[..m]) && Linked(nodes[m..]) && Disjoint(nodes[..m], nodes[m..])
    ensures second.prev == null && list.prev == old(list.prev)
  {
    assert nodes[m].prev == nodes[m - 1];
    if second != null && second.prev != null {
      second.prev.next := null;
      second.prev := null;
    }
  }

  /** A list that is not yet ascending: find the middle, split, sort the halves and merge. */
  method SortUnsorted(list: Node, cs: bool, ghost nodes: seq<Node>) returns (result: Node?)
    requires Linked(nodes) && |nodes| >= 2 && list == nodes[0] && !Ascending(nodes, NodeName, cs)
    modifies set n | n in nodes
    ensures Sorted(nodes, cs) != [] && Linked(Sorted(nodes, cs)) && result == Sorted(nodes, cs)[0]
    ensures result.prev == if result == list then old(list.prev) else null
    decreases |nodes|, 1
  {
    SortedSplits(nodes, cs);
    hide Sorted, Merged, Linked, Disjoint, Ascending;
    var second := FindMiddle(list, nodes);
    Split(list, second, nodes, Middle(|nodes|));
    result := SortHalves(list, second, cs, nodes[..Middle(|nodes|)], nodes[Middle(|nodes|)..]);
  }

  /** sort_list. */
  method SortList(list: Node?, cs: bool, ghost nodes: seq<Node>) returns (result: Node?)
    requires Linked(nodes) && list == Head(nodes)
    modifies set n | n in nodes
    ensures |Sorted(nodes, cs)| == |nodes| && Linked(Sorted(nodes, cs)) && result == Head(Sorted(nodes, cs))
    ensures nodes != [] ==> result.prev == if result == list then old(list.prev) else null
    decreases |nodes|, 2
  {
    SortedAlready(nodes, cs);
    if nodes != [] { Successor(nodes, 0); }
    hide Sorted, Linked, Ascending;
    if list == null || list.next == null {
      return list;
    }
    var sorted := IsAscending(list, cs, nodes);
    if sorted {
      return list;
    }
    result := SortUnsorted(list, cs, nodes);
  }

  // ---- What sorting does to the shape of a child list ----

  /** The order sorting puts the nodes in. */
  function NodeOrder(nodes: seq<Node>, cs: bool): (r: seq<nat>)
    ensures |r| == |nodes|
  {
    Order(NamesOf(nodes, NodeName), cs)
  }

  lemma SortedInOrder(nodes: seq<Node>, cs: bool)
    ensures var order := NodeOrder(nodes, cs);
            && Permutes(order) && |Sorted(nodes, cs)| == |nodes|
            && forall k :: 0 <= k < |nodes| ==> Sorted(nodes, cs)[k] == nodes[order[k]]
  {
    hide Order, Sort, Permutes;
    OrderPermutes(NamesOf(nodes, NodeName), cs);
    OrderSorts(nodes, NodeName, cs);
  }

  /** Which node the link leads to after sorting. */
  lemma SortedLeads(prev: Node?, nodes: seq<Node>, cs: bool, link: Link)
    requires Apart(nodes) && nodes != [] && LeadsBack(prev, nodes, link)
    ensures var s := Sorted(nodes, cs);
            s != [] && LeadsBack(if s[0] == nodes[0] then prev else null, s, LinkAfterSort(link, NodeOrder(nodes, cs)))
  {
    hide Sorted, NodeOrder;
    SortedInOrder(nodes, cs);
    SameNodes(nodes, cs);
    var order, s := NodeOrder(nodes, cs), Sorted(nodes, cs);
    PositionOf(order, Target(link, |nodes|));
    assert s[0] == nodes[order[0]];
  }

  /** sort_object: the children are sorted, but the `prev` of their head is left alone, or, when the head
      changes, cleared; whatever it was before. */
  method SortObject(parent: Node?, cs: bool, ghost nodes: seq<Node>, ghost link: Link)
    requires parent != null ==> Chained(parent, nodes) && BackLink(nodes, link)
    modifies if parent != null then {parent} + (set n | n in nodes) else {}
    ensures parent != null ==>
              && |Sorted(nodes, cs)| == |nodes|
              && Chained(parent, Sorted(nodes, cs))
              && BackLink(Sorted(nodes, cs), LinkAfterSort(link, NodeOrder(nodes, cs)))
  {
    if parent == null {
      return;
    }
    SameNodes(nodes, cs);
    if nodes != [] { SortedLeads(nodes[0].prev, nodes, cs, link); }
    hide Sorted, Linked, NodeOrder, LinkAfterSort, LeadsBack;
    var list := SortList(parent.child, cs, nodes);
    parent.child := list;
  }

  /** sort_object and an append after it: all children and the new one are there exactly when the link
      still led to the last child. */
  method SortThenAdd(parent: Node, item: Node, cs: bool, ghost nodes: seq<Node>, ghost link: Link)
    requires Chained(parent, nodes) && BackLink(nodes, link)
    requires item !in nodes && item != parent && item.next == null
    requires nodes != [] ==> !LinkAfterSort(link, NodeOrder(nodes, cs)).Gone?
    modifies parent, item, set n | n in nodes
    ensures var (s, after) := (Sorted(nodes, cs), LinkAfterSort(link, NodeOrder(nodes, cs)));
            && Chained(parent, Appended(s, after, item))
            && (Appended(s, after, item) == s + [item] <==> Intact(after, |nodes|))
  {
    SameNodes(nodes, cs);
    hide Sorted, LinkAfterSort, NodeOrder, Intact;
    SortObject(parent, cs, nodes, link);
    ghost var s, after := Sorted(nodes, cs), LinkAfterSort(link, NodeOrder(nodes, cs));
    assert item !in s;
    AppendedIff(s, after, item);
    var ok := AddItem(parent, item, s, after);
  }
}
