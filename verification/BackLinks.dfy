/** Where the `prev` of a first child leads. */
module BackLinks {
  import opened CTypes
  import opened Names
  import opened Sorting

  /** Where the `prev` of the head of a child list leads: to the tail, as it should, nowhere, to an
      earlier node of the list, or to a node that has left the list. */
  datatype Link = Tail | Nothing | Stale(at: nat) | Gone

  function LinkAt(k: nat, n: nat): Link {
    if k + 1 == n then Tail else Stale(k)
  }

  /** The node of a list of n that the link leads to. */
  function Target(link: Link, n: nat): (r: nat)
    requires n > 0
    ensures r < n
  {
    if link.Stale? && link.at < n then link.at else n - 1
  }

  /** Appending finds the last of n nodes. */
  predicate Intact(link: Link, n: nat) {
    n == 0 || (!link.Nothing? && !link.Gone? && Target(link, n) == n - 1)
  }

  /** The link after node i of n has been taken out: removing the last node repairs it. */
  function LinkAfterRemove(link: Link, i: nat, n: nat): Link
    requires i < n
  {
    if i + 1 == n then Tail
    else if link.Stale? then
      (if link.at == i then Gone else Stale(if link.at > i then link.at - 1 else link.at))
    else link
  }

  /** The list after an append: what lies behind the node the link leads to is cut off, and where it
      leads nowhere nothing is appended. */
  function Appended<T>(s: seq<T>, link: Link, x: T): seq<T> {
    if s == [] then [x]
    else if link.Nothing? || link.Gone? then s
    else s[..Target(link, |s|) + 1] + [x]
  }

  function LinkAfterAppend(link: Link, n: nat): Link {
    if n == 0 || link.Stale? then Tail else link
  }

  function Position(order: seq<nat>, x: nat): (r: nat)
    ensures r <= |order| && (r < |order| ==> order[r] == x) && forall k :: 0 <= k < r ==> order[k] != x
  {
    if order == [] || order[0] == x then 0 else 1 + Position(order[1..], x)
  }

  /** The link after the nodes have been put in the given order: a new head has none, and the old head
      keeps the node it had. */
  function LinkAfterSort(link: Link, order: seq<nat>): Link {
    if order == [] then link
    else if order[0] != 0 then Nothing
    else if link.Nothing? || link.Gone? then link
    else
      var target := Target(link, |order|);
      var k := Position(order, target);
      if k == target then link else LinkAt(k, |order|)
  }

  // ---- The order sorting puts a list in ----

  function Picked<T>(s: seq<T>, order: seq<nat>): (r: seq<T>)
    requires forall k :: 0 <= k < |order| ==> order[k] < |s|
    ensures |r| == |order|
  {
    seq(|order|, k requires 0 <= k < |order| => s[order[k]])
  }

  function NamesOf<T>(s: seq<T>, name: T -> cstring): (r: seq<cstring>)
    ensures |r| == |s|
  {
    seq(|s|, k requires 0 <= k < |s| => name(s[k]))
  }

  function NameAt(names: seq<cstring>): nat -> cstring {
    (i: nat) => if i < |names| then names[i] else []
  }

  function Indices(n: nat): (r: seq<nat>)
    ensures |r| == n && forall k :: 0 <= k < n ==> r[k] == k
  {
    seq(n, k => k)
  }

  /** The indices of a list in the order sort_list puts it in. */
  function Order(names: seq<cstring>, cs: bool): (r: seq<nat>)
    ensures |r| == |names|
  {
    Sort(Indices(|names|), NameAt(names), cs)
  }

  ghost predicate Permutes(order: seq<nat>) {
    && (forall k :: 0 <= k < |order| ==> order[k] < |order|)
    && (forall i, j :: 0 <= i < j < |order| ==> order[i] != order[j])
    && forall x: nat :: x < |order| ==> x in order
  }

  lemma PermutedIndices(order: seq<nat>, n: nat)
    requires multiset(order) == multiset(Indices(n)) && |order| == n
    ensures Permutes(order)
  {
    var s := Indices(n);
    forall k | 0 <= k < n
      ensures order[k] < n
    {
      assert order[k] in multiset(order);
      var i := Occurrence(s, order[k]);
    }
    forall x: nat | x < n
      ensures x in order
    {
      assert s[x] in multiset(s);
      var i := Occurrence(order, x);
    }
    forall i, j | 0 <= i < j < n
      ensures order[i] != order[j]
    {
      if order[i] == order[j] {
        assert order == order[..j] + order[j..] && order[..j][i] == order[i] && order[j..][0] == order[i];
        var p, q := TwoOccurrences(s, order[i]);
      }
    }
  }

  lemma OrderPermutes(names: seq<cstring>, cs: bool)
    ensures Permutes(Order(names, cs))
  {
    hide Sort;
    SortPermutes(Indices(|names|), NameAt(names), cs);
    PermutedIndices(Order(names, cs), |names|);
  }

  /** The names behind the indices. */
  ghost predicate Named<T>(s: seq<T>, order: seq<nat>, name: T -> cstring, names: nat -> cstring) {
    forall k :: 0 <= k < |order| ==> order[k] < |s| && names(order[k]) == name(s[order[k]])
  }

  lemma NamedCons<T>(s: seq<T>, x: nat, order: seq<nat>, name: T -> cstring, names: nat -> cstring)
    requires x < |s| && names(x) == name(s[x]) && Named(s, order, name, names)
    ensures Named(s, [x] + order, name, names) && Picked(s, [x] + order) == [s[x]] + Picked(s, order)
  {}

  lemma NamedTail<T>(s: seq<T>, order: seq<nat>, name: T -> cstring, names: nat -> cstring)
    requires order != [] && Named(s, order, name, names)
    ensures Named(s, order[1..], name, names)
    ensures order[0] < |s| && names(order[0]) == name(s[order[0]])
    ensures Picked(s, order)[0] == s[order[0]] && Picked(s, order)[1..] == Picked(s, order[1..])
  {}

  lemma MergeFirst<T>(a: seq<T>, b: seq<T>, name: T -> cstring, cs: bool)
    requires a != [] && b != []
    ensures Merge(a, b, name, cs) ==
            if Compare(name(a[0]), name(b[0]), cs) < 0 then [a[0]] + Merge(a[1..], b, name, cs)
            else [b[0]] + Merge(a, b[1..], name, cs)
  {
    hide Compare;
  }

  lemma NamedPicks<T>(s: seq<T>, order: seq<nat>, name: T -> cstring, names: nat -> cstring)
    requires Named(s, order, name, names)
    ensures forall k :: 0 <= k < |order| ==> order[k] < |s|
  {}

  lemma {:induction false} MergePicked<T>(s: seq<T>, a: seq<nat>, b: seq<nat>, name: T -> cstring,
                                          names: nat -> cstring, cs: bool)
    requires Named(s, a, name, names) && Named(s, b, name, names)
    ensures Named(s, Merge(a, b, names, cs), name, names)
    ensures Merge(Picked(s, a), Picked(s, b), name, cs) == Picked(s, Merge(a, b, names, cs))
    decreases |a| + |b|
  {
    if a == [] || b == [] {
      EmptyMerge(s, a, b, name, names, cs);
    } else {
      hide Compare, Merge, Named, Picked;
      NamedPicks(s, a, name, names);
      NamedPicks(s, b, name, names);
      MergeFirst(a, b, names, cs);
      MergeFirst(Picked(s, a), Picked(s, b), name, cs);
      NamedTail(s, a, name, names);
      NamedTail(s, b, name, names);
      if Compare(names(a[0]), names(b[0]), cs) < 0 {
        MergePicked(s, a[1..], b, name, names, cs);
        NamedCons(s, a[0], Merge(a[1..], b, names, cs), name, names);
      } else {
        MergePicked(s, a, b[1..], name, names, cs);
        NamedCons(s, b[0], Merge(a, b[1..], names, cs), name, names);
      }
    }
  }

  lemma EmptyMerge<T>(s: seq<T>, a: seq<nat>, b: seq<nat>, name: T -> cstring, names: nat -> cstring, cs: bool)
    requires Named(s, a, name, names) && Named(s, b, name, names) && (a == [] || b == [])
    ensures Named(s, Merge(a, b, names, cs), name, names)
    ensures Merge(Picked(s, a), Picked(s, b), name, cs) == Picked(s, Merge(a, b, names, cs))
  {
    hide Compare;
  }

  lemma PickedAscending<T>(s: seq<T>, order: seq<nat>, name: T -> cstring, names: nat -> cstring, cs: bool)
    requires Named(s, order, name, names)
    ensures Ascending(Picked(s, order), name, cs) <==> Ascending(order, names, cs)
  {
    hide Compare;
    if Ascending(Picked(s, order), name, cs) {
      forall i | 0 <= i < |order| - 1
        ensures Compare(names(order[i]), names(order[i + 1]), cs) < 0
      {
        assert Compare(name(Picked(s, order)[i]), name(Picked(s, order)[i + 1]), cs) < 0;
      }
    }
    if Ascending(order, names, cs) {
      forall i | 0 <= i < |order| - 1
        ensures Compare(name(Picked(s, order)[i]), name(Picked(s, order)[i + 1]), cs) < 0
      {
        assert Compare(names(order[i]), names(order[i + 1]), cs) < 0;
      }
    }
  }

  /** Sorting a list is picking its elements in the order of the sorted indices. */
  lemma {:induction false} SortPicked<T>(s: seq<T>, order: seq<nat>, name: T -> cstring, names: nat -> cstring,
                                         cs: bool)
    requires Named(s, order, name, names)
    ensures Named(s, Sort(order, names, cs), name, names)
    ensures Sort(Picked(s, order), name, cs) == Picked(s, Sort(order, names, cs))
    decreases |order|
  {
    hide Compare, Merge, Ascending;
    PickedAscending(s, order, name, names, cs);
    if |order| > 1 && !Ascending(order, names, cs) {
      var m := Middle(|order|);
      var x, y := order[..m], order[m..];
      SortPicked(s, x, name, names, cs);
      SortPicked(s, y, name, names, cs);
      assert Picked(s, order)[..m] == Picked(s, x) && Picked(s, order)[m..] == Picked(s, y);
      MergePicked(s, Sort(x, names, cs), Sort(y, names, cs), name, names, cs);
    }
  }

  lemma OrderSorts<T>(s: seq<T>, name: T -> cstring, cs: bool)
    ensures var order := Order(NamesOf(s, name), cs);
            (forall k :: 0 <= k < |order| ==> order[k] < |s|) && Sort(s, name, cs) == Picked(s, order)
  {
    hide Sort;
    var names := NamesOf(s, name);
    SortPicked(s, Indices(|s|), name, NameAt(names), cs);
    assert Picked(s, Indices(|s|)) == s;
  }

  // ---- When appending still works ----

  /** Sorting left the first and the last node where they were. */
  predicate EndsStay(order: seq<nat>) {
    order == [] || (order[0] == 0 && order[|order| - 1] == |order| - 1)
  }

  lemma PositionOf(order: seq<nat>, x: nat)
    requires Permutes(order) && x < |order|
    ensures Position(order, x) < |order| && forall k :: 0 <= k < |order| && order[k] == x ==> k == Position(order, x)
  {
    assert x in order;
  }

  /** After sorting, appending finds the last node exactly when the head stayed and its link led to the node
      that is last now. */
  lemma IntactAfterSortIff(link: Link, order: seq<nat>)
    requires Permutes(order)
    ensures var n := |order|;
            Intact(LinkAfterSort(link, order), n) <==>
            n == 0 || (order[0] == 0 && !link.Nothing? && !link.Gone? && order[n - 1] == Target(link, n))
  {
    var n := |order|;
    if n > 0 { PositionOf(order, Target(link, n)); }
  }

  /** Where the link led to the tail, that is when sorting kept both ends; otherwise the list is cut short
      or nothing is appended. */
  lemma TailAfterSort(order: seq<nat>)
    requires Permutes(order)
    ensures var link := LinkAfterSort(Tail, order);
            && !link.Gone? && (link.Stale? ==> link.at < |order|)
            && (Intact(link, |order|) <==> link == Tail || order == []) && (link == Tail <==> EndsStay(order))
  {
    if order != [] { PositionOf(order, |order| - 1); }
  }

  lemma AppendedIff<T>(s: seq<T>, link: Link, x: T)
    ensures Appended(s, link, x) == s + [x] <==> Intact(link, |s|)
  {
    var n := |s|;
    if n > 0 && !link.Nothing? && !link.Gone? {
      assert s[..n] == s;
      assert Target(link, n) < n - 1 ==> |Appended(s, link, x)| < n + 1;
    }
  }
}
