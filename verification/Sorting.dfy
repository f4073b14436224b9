/**
  sort_list on sequences: the order it establishes, what it keeps, and how two sorted lists over the same
  names line up.
*/
module Sorting {
  import opened CTypes
  import opened Names

  /** The walk of sort_list that leaves strictly ascending lists alone. */
  predicate Ascending<T>(s: seq<T>, name: T -> cstring, cs: bool) {
    forall i :: 0 <= i < |s| - 1 ==> Compare(name(s[i]), name(s[i + 1]), cs) < 0
  }

  function Merge<T>(a: seq<T>, b: seq<T>, name: T -> cstring, cs: bool): (r: seq<T>)
    ensures |r| == |a| + |b|
    decreases |a| + |b|
  {
    if a == [] then b
    else if b == [] then a
    else if Compare(name(a[0]), name(b[0]), cs) < 0 then [a[0]] + Merge(a[1..], b, name, cs)
    else [b[0]] + Merge(a, b[1..], name, cs)
  }

  /** The middle that two pointers, one advancing twice as fast, find. */
  function Middle(n: nat): (m: nat)
    ensures n >= 2 ==> 0 < m < n
  {
    (n + 1) / 2
  }

  function Sort<T>(s: seq<T>, name: T -> cstring, cs: bool): (r: seq<T>)
    ensures |r| == |s|
    decreases |s|
  {
    if |s| <= 1 || Ascending(s, name, cs) then s
    else Merge(Sort(s[..Middle(|s|)], name, cs), Sort(s[Middle(|s|)..], name, cs), name, cs)
  }

  predicate Ordered<T>(s: seq<T>, name: T -> cstring, cs: bool) {
    forall i, j :: 0 <= i < j < |s| ==> Compare(name(s[i]), name(s[j]), cs) <= 0
  }

  lemma ConsBag<T>(x: T, s: seq<T>, t: seq<T>, m: seq<T>)
    requires s != [] && s[0] == x && multiset(m) == multiset(s[1..]) + multiset(t)
    ensures multiset([x] + m) == multiset(s) + multiset(t)
  {
    assert s == [x] + s[1..];
  }

  lemma {:induction false} MergePermutes<T>(a: seq<T>, b: seq<T>, name: T -> cstring, cs: bool)
    ensures multiset(Merge(a, b, name, cs)) == multiset(a) + multiset(b)
    decreases |a| + |b|
  {
    hide Compare;
    if a == [] {
    } else if b == [] {
    } else if Compare(name(a[0]), name(b[0]), cs) < 0 {
      MergePermutes(a[1..], b, name, cs);
      ConsBag(a[0], a, b, Merge(a[1..], b, name, cs));
    } else {
      MergePermutes(a, b[1..], name, cs);
      ConsBag(b[0], b, a, Merge(a, b[1..], name, cs));
    }
  }

  /** sort_list permutes its list. */
  lemma {:induction false} SortPermutes<T>(s: seq<T>, name: T -> cstring, cs: bool)
    ensures multiset(Sort(s, name, cs)) == multiset(s)
    decreases |s|
  {
    hide Compare, Merge, Ascending;
    if |s| > 1 && !Ascending(s, name, cs) {
      var x, y := s[..Middle(|s|)], s[Middle(|s|)..];
      SortPermutes(x, name, cs);
      SortPermutes(y, name, cs);
      MergePermutes(Sort(x, name, cs), Sort(y, name, cs), name, cs);
      assert s == x + y;
      assert multiset(s) == multiset(x) + multiset(y);
    }
  }

  predicate Below<T>(key: cstring, s: seq<T>, name: T -> cstring, cs: bool) {
    forall i :: 0 <= i < |s| ==> Compare(key, name(s[i]), cs) <= 0
  }

  lemma OrderedCons<T>(x: T, s: seq<T>, name: T -> cstring, cs: bool)
    requires Ordered(s, name, cs) && Below(name(x), s, name, cs)
    ensures Ordered([x] + s, name, cs)
  {
    hide Compare;
  }

  lemma BelowTail<T>(key: cstring, s: seq<T>, name: T -> cstring, cs: bool)
    requires s != [] && Ordered(s, name, cs) && Compare(key, name(s[0]), cs) <= 0
    ensures Below(key, s, name, cs)
  {
    hide Compare;
    forall i | 0 <= i < |s|
      ensures Compare(key, name(s[i]), cs) <= 0
    {
      CompareOrder(key, name(s[0]), name(s[i]), cs);
    }
  }

  lemma OrderedTails<T>(s: seq<T>, name: T -> cstring, cs: bool)
    requires s != [] && Ordered(s, name, cs)
    ensures Ordered(s[1..], name, cs)
    ensures forall key :: Below(key, s, name, cs) ==> Compare(key, name(s[0]), cs) <= 0 && Below(key, s[1..], name, cs)
  {
    hide Compare;
  }

  lemma BelowCons<T>(x: T, s: seq<T>, name: T -> cstring, cs: bool)
    ensures forall key :: Compare(key, name(x), cs) <= 0 && Below(key, s, name, cs) ==> Below(key, [x] + s, name, cs)
  {
    hide Compare;
  }

  lemma {:induction false} MergeOrdered<T>(a: seq<T>, b: seq<T>, name: T -> cstring, cs: bool)
    requires Ordered(a, name, cs) && Ordered(b, name, cs)
    ensures Ordered(Merge(a, b, name, cs), name, cs)
    ensures forall key :: Below(key, a, name, cs) && Below(key, b, name, cs) ==>
              Below(key, Merge(a, b, name, cs), name, cs)
    decreases |a| + |b|
  {
    hide Compare, Ordered;
    if a != [] && b != [] {
      var fromA := Compare(name(a[0]), name(b[0]), cs) < 0;
      CompareOrder(name(a[0]), name(b[0]), name(a[0]), cs);
      var x, y := if fromA then a[0] else b[0], if fromA then b[0] else a[0];
      var a', b' := if fromA then a[1..] else a, if fromA then b else b[1..];
      CompareOrder(name(x), name(x), name(x), cs);
      BelowTail(name(x), a, name, cs);
      BelowTail(name(x), b, name, cs);
      var m := Merge(a', b', name, cs);
      assert Merge(a, b, name, cs) == [x] + m;
      hide Merge;
      OrderedTails(a, name, cs);
      OrderedTails(b, name, cs);
      MergeOrdered(a', b', name, cs);
      OrderedCons(x, m, name, cs);
      BelowCons(x, m, name, cs);
    }
  }

  lemma {:induction false} AscendingOrdered<T>(s: seq<T>, name: T -> cstring, cs: bool, i: nat, j: nat)
    requires Ascending(s, name, cs) && i < j < |s|
    ensures Compare(name(s[i]), name(s[j]), cs) < 0
    decreases j
  {
    hide Compare;
    if i < j - 1 {
      AscendingOrdered(s, name, cs, i, j - 1);
      CompareOrder(name(s[i]), name(s[j - 1]), name(s[j]), cs);
    }
  }

  /** sort_list leaves its list in non-descending order. */
  lemma {:induction false} SortOrders<T>(s: seq<T>, name: T -> cstring, cs: bool)
    ensures Ordered(Sort(s, name, cs), name, cs)
    decreases |s|
  {
    hide Compare, Merge;
    if |s| > 1 && !Ascending(s, name, cs) {
      var x, y := s[..Middle(|s|)], s[Middle(|s|)..];
      SortOrders(x, name, cs);
      SortOrders(y, name, cs);
      MergeOrdered(Sort(x, name, cs), Sort(y, name, cs), name, cs);
    } else {
      forall i, j | 0 <= i < j < |s|
        ensures Compare(name(s[i]), name(s[j]), cs) <= 0
      {
        AscendingOrdered(s, name, cs, i, j);
      }
    }
  }

  // ---- Lists without equal names ----

  predicate Distinct<T>(s: seq<T>, name: T -> cstring, cs: bool) {
    forall i, j :: 0 <= i < j < |s| ==> !SameKey(name(s[i]), name(s[j]), cs)
  }

  lemma Occurrence<T>(s: seq<T>, x: T) returns (i: nat)
    requires x in multiset(s)
    ensures i < |s| && s[i] == x
  {
    assert x in s;
    i :| 0 <= i < |s| && s[i] == x;
  }

  lemma {:induction false} TwoOccurrences<T>(s: seq<T>, x: T) returns (i: nat, j: nat)
    requires multiset(s)[x] >= 2
    ensures i < j < |s| && s[i] == x == s[j]
    decreases |s|
  {
    var front, last := s[..|s| - 1], s[|s| - 1];
    assert s == front + [last];
    if last == x {
      i := Occurrence(front, x);
      j := |s| - 1;
    } else {
      i, j := TwoOccurrences(front, x);
    }
  }

  lemma DistinctPermuted<T>(s: seq<T>, t: seq<T>, name: T -> cstring, cs: bool)
    requires Distinct(s, name, cs) && multiset(s) == multiset(t)
    ensures Distinct(t, name, cs)
  {
    hide Key;
    forall i, j | 0 <= i < j < |t|
      ensures !SameKey(name(t[i]), name(t[j]), cs)
    {
      assert t == t[..j] + t[j..];
      if t[i] == t[j] {
        assert t[..j][i] == t[i] && t[j..][0] == t[i];
        var p, q := TwoOccurrences(s, t[i]);
      } else {
        var p := Occurrence(s, t[i]);
        var q := Occurrence(s, t[j]);
        assert SameKey(name(s[p]), name(s[q]), cs) == SameKey(name(s[q]), name(s[p]), cs);
      }
    }
  }

  /** Sorting members with distinct names puts them in strictly ascending order. */
  lemma SortStrict<T>(s: seq<T>, name: T -> cstring, cs: bool)
    requires Distinct(s, name, cs)
    ensures Ascending(Sort(s, name, cs), name, cs)
    ensures Distinct(Sort(s, name, cs), name, cs)
  {
    hide Compare, Sort;
    var t := Sort(s, name, cs);
    SortPermutes(s, name, cs);
    SortOrders(s, name, cs);
    DistinctPermuted(s, t, name, cs);
    forall i | 0 <= i < |t| - 1
      ensures Compare(name(t[i]), name(t[i + 1]), cs) < 0
    {
      CompareOrder(name(t[i]), name(t[i + 1]), name(t[i]), cs);
    }
  }

  /** Where sorting puts an element, and where it takes one from. */
  lemma SortedAt<T>(s: seq<T>, name: T -> cstring, cs: bool, i: nat) returns (k: nat)
    requires i < |s|
    ensures k < |Sort(s, name, cs)| && Sort(s, name, cs)[k] == s[i]
  {
    hide Sort;
    SortPermutes(s, name, cs);
    assert s[i] in multiset(s);
    k := Occurrence(Sort(s, name, cs), s[i]);
  }

  lemma SortedFrom<T>(s: seq<T>, name: T -> cstring, cs: bool, k: nat) returns (i: nat)
    requires k < |Sort(s, name, cs)|
    ensures i < |s| && s[i] == Sort(s, name, cs)[k]
  {
    hide Sort;
    SortPermutes(s, name, cs);
    assert Sort(s, name, cs)[k] in multiset(Sort(s, name, cs));
    i := Occurrence(s, Sort(s, name, cs)[k]);
  }

  lemma AscendingTail<T>(s: seq<T>, name: T -> cstring, cs: bool)
    requires s != [] && Ascending(s, name, cs)
    ensures Ascending(s[1..], name, cs)
  {}

  predicate HasKey<T>(key: cstring, s: seq<T>, name: T -> cstring, cs: bool) {
    exists j :: 0 <= j < |s| && SameKey(key, name(s[j]), cs)
  }

  predicate Covers<T>(s: seq<T>, t: seq<T>, name: T -> cstring, cs: bool) {
    forall j :: 0 <= j < |t| ==> HasKey(name(t[j]), s, name, cs)
  }

  lemma AscendingFirst<T>(s: seq<T>, name: T -> cstring, cs: bool, i: nat)
    requires Ascending(s, name, cs) && i < |s|
    ensures Compare(name(s[0]), name(s[i]), cs) <= 0 && (i > 0 ==> !SameKey(name(s[0]), name(s[i]), cs))
  {
    hide Compare;
    CompareOrder(name(s[0]), name(s[i]), name(s[0]), cs);
    if i > 0 {
      AscendingOrdered(s, name, cs, 0, i);
    }
  }

  lemma Counterpart<T>(s: seq<T>, t: seq<T>, name: T -> cstring, cs: bool, j: nat) returns (i: nat)
    requires Covers(s, t, name, cs) && j < |t|
    ensures i < |s| && SameKey(name(t[j]), name(s[i]), cs)
  {
    hide Key;
    assert HasKey(name(t[j]), s, name, cs);
    i :| 0 <= i < |s| && SameKey(name(t[j]), name(s[i]), cs);
  }

  lemma AlignHeads<T>(s: seq<T>, t: seq<T>, name: T -> cstring, cs: bool)
    requires s != [] && t != [] && Ascending(s, name, cs) && Ascending(t, name, cs)
    requires Covers(s, t, name, cs) && Covers(t, s, name, cs)
    ensures SameKey(name(s[0]), name(t[0]), cs)
  {
    hide Key, Compare, Ascending, Covers;
    var j := Counterpart(t, s, name, cs, 0);
    var i := Counterpart(s, t, name, cs, 0);
    AscendingFirst(t, name, cs, j);
    AscendingFirst(s, name, cs, i);
    BothBelow(name(s[0]), name(t[0]), name(s[i]), name(t[j]), cs);
  }

  lemma BothBelow(x: cstring, y: cstring, x': cstring, y': cstring, cs: bool)
    requires SameKey(x, y', cs) && SameKey(y, x', cs)
    requires Compare(x, x', cs) <= 0 && Compare(y, y', cs) <= 0
    ensures SameKey(x, y, cs)
  {
    hide Key, Compare;
    SameKeyCompares(y, y', x, cs);
    SameKeyCompares(x, x', y, cs);
    CompareOrder(x, y, x, cs);
  }

  lemma SameKeyCompares(x: cstring, y: cstring, z: cstring, cs: bool)
    requires SameKey(y, z, cs)
    ensures Compare(x, y, cs) == Compare(x, z, cs)
  {}

  lemma CoversTail<T>(s: seq<T>, t: seq<T>, name: T -> cstring, cs: bool)
    requires s != [] && t != [] && SameKey(name(s[0]), name(t[0]), cs)
    requires Covers(s, t, name, cs) && Ascending(t, name, cs)
    ensures Covers(s[1..], t[1..], name, cs)
  {
    hide Key, StrCmp, Ascending;
    forall j | 0 <= j < |t| - 1
      ensures HasKey(name(t[1..][j]), s[1..], name, cs)
    {
      var i := Counterpart(s, t, name, cs, j + 1);
      AscendingFirst(t, name, cs, j + 1);
      assert i > 0;
      assert SameKey(name(t[1..][j]), name(s[1..][i - 1]), cs);
    }
  }

  /** Two strictly ascending lists over the same keys line up. */
  lemma {:induction false} AscendingAlign<T>(s: seq<T>, t: seq<T>, name: T -> cstring, cs: bool)
    requires Ascending(s, name, cs) && Ascending(t, name, cs)
    requires Covers(s, t, name, cs) && Covers(t, s, name, cs)
    ensures |s| == |t| && forall i :: 0 <= i < |s| ==> SameKey(name(s[i]), name(t[i]), cs)
    decreases |s|
  {
    hide Key, Compare, Covers, Ascending;
    if s == [] {
      if t != [] { var i := Counterpart(s, t, name, cs, 0); }
    } else if t == [] {
      var i := Counterpart(t, s, name, cs, 0);
    } else {
      AlignHeads(s, t, name, cs);
      CoversTail(s, t, name, cs);
      CoversTail(t, s, name, cs);
      AscendingTail(s, name, cs);
      AscendingTail(t, name, cs);
      AscendingAlign(s[1..], t[1..], name, cs);
      forall i | 0 <= i < |s|
        ensures SameKey(name(s[i]), name(t[i]), cs)
      {
        assert i > 0 ==> s[i] == s[1..][i - 1] && t[i] == t[1..][i - 1];
      }
    }
  }
}
