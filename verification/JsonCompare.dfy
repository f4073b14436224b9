/** compare_json, which sorts every object it gets to. */
module JsonCompare {
  import opened CTypes
  import opened Names
  import opened Sorting
  import opened Json
  import opened JsonPointer
  import opened BackLinks
  import opened JsonLinks

  /** The order in which sorting puts the members of an object. */
  function EntryOrder(entries: seq<Entry>, cs: bool): (r: seq<nat>)
    ensures |r| == |entries| && forall k :: 0 <= k < |r| ==> r[k] < |entries|
  {
    var names := NamesOf(entries, EntryName);
    OrderPermutes(names, cs);
    Order(names, cs)
  }

  // ---- What a comparison leaves behind ----

  /** The document d after compare_json(d, v): it has sorted the objects of each pair it came to, up to
      the first pair that differs. */
  function Compared(d: Doc, v: Json, cs: bool): Doc {
    match d
    case List(items) => if v.Array? then List(ComparedItems(items, v.items, cs)) else d
    case Record(entries, link) =>
      if v.Object? then
        var order := EntryOrder(entries, cs);
        Record(ComparedEntries(entries, order, Sort(v.members, NameOf, cs), cs), LinkAfterSort(link, order))
      else d
    case _ => d
  }

  function ComparedItems(items: seq<Doc>, vs: seq<Json>, cs: bool): (r: seq<Doc>)
    ensures |r| == |items|
  {
    if items == [] || vs == [] then items
    else
      [Compared(items[0], vs[0], cs)] +
      if CompareSorted(Erase(items[0]), vs[0], cs) then ComparedItems(items[1..], vs[1..], cs) else items[1..]
  }

  /** The members at the given indices, compared with sorted members. */
  function ComparedEntries(entries: seq<Entry>, order: seq<nat>, t: seq<Member>, cs: bool): (r: seq<Entry>)
    requires forall k :: 0 <= k < |order| ==> order[k] < |entries|
    ensures |r| == |order|
    decreases entries, |order|
  {
    if order == [] || t == [] || Compare(entries[order[0]].name, t[0].name, cs) != 0 then Picked(entries, order)
    else
      var e := entries[order[0]];
      [Entry(e.name, Compared(e.value, t[0].value, cs))] +
      if CompareSorted(Erase(e.value), t[0].value, cs) then ComparedEntries(entries, order[1..], t[1..], cs)
      else Picked(entries, order[1..])
  }

  // ---- The documents stay equal ----

  ghost predicate SameItems(a: seq<Doc>, b: seq<Doc>, cs: bool) {
    |a| == |b| && forall i :: 0 <= i < |a| ==> Equal(Erase(a[i]), Erase(b[i]), cs)
  }

  ghost predicate SameEntries(a: seq<Entry>, b: seq<Entry>, cs: bool) {
    |a| == |b| && forall i :: 0 <= i < |a| ==> a[i].name == b[i].name && Equal(Erase(a[i].value), Erase(b[i].value), cs)
  }

  lemma SameItself(a: seq<Entry>, cs: bool)
    ensures SameEntries(a, a, cs)
  {
    hide Equal, Erase;
    forall i | 0 <= i < |a|
      ensures Equal(Erase(a[i].value), Erase(a[i].value), cs)
    {
      EqualReflexive(Erase(a[i].value), cs);
    }
  }

  lemma {:induction false} ComparedItemsSame(items: seq<Doc>, vs: seq<Json>, cs: bool)
    ensures SameItems(ComparedItems(items, vs, cs), items, cs)
    decreases items
  {
    hide Equal, Erase, CompareSorted;
    forall i | 0 <= i < |items|
      ensures Equal(Erase(items[i]), Erase(items[i]), cs)
    {
      EqualReflexive(Erase(items[i]), cs);
    }
    if items != [] && vs != [] {
      ComparedSame(items[0], vs[0], cs);
      ComparedItemsSame(items[1..], vs[1..], cs);
      assert items == [items[0]] + items[1..];
    }
  }

  lemma EntriesFirst(entries: seq<Entry>, order: seq<nat>, t: seq<Member>, cs: bool)
    requires order != [] && t != [] && forall k :: 0 <= k < |order| ==> order[k] < |entries|
    requires Compare(entries[order[0]].name, t[0].name, cs) == 0
    ensures var e := entries[order[0]];
            && ComparedEntries(entries, order, t, cs) ==
               [Entry(e.name, Compared(e.value, t[0].value, cs))] +
               (if CompareSorted(Erase(e.value), t[0].value, cs) then ComparedEntries(entries, order[1..], t[1..], cs)
                else Picked(entries, order[1..]))
            && Picked(entries, order) == [e] + Picked(entries, order[1..])
  {
    hide Compared, CompareSorted, Erase, Compare;
  }

  lemma SameCons(x: Entry, s: seq<Entry>, y: Entry, t: seq<Entry>, cs: bool)
    requires x.name == y.name && Equal(Erase(x.value), Erase(y.value), cs) && SameEntries(s, t, cs)
    ensures SameEntries([x] + s, [y] + t, cs)
  {
    hide Equal, Erase;
  }

  lemma {:induction false} ComparedEntriesSame(entries: seq<Entry>, order: seq<nat>, t: seq<Member>, cs: bool)
    requires forall k :: 0 <= k < |order| ==> order[k] < |entries|
    ensures SameEntries(ComparedEntries(entries, order, t, cs), Picked(entries, order), cs)
    decreases entries, |order|
  {
    hide Equal, Erase, CompareSorted, Compare, Compared, Picked, SameEntries;
    SameItself(Picked(entries, order), cs);
    if order != [] && t != [] && Compare(entries[order[0]].name, t[0].name, cs) == 0 {
      var e := entries[order[0]];
      EntriesFirst(entries, order, t, cs);
      hide ComparedEntries;
      ComparedSame(e.value, t[0].value, cs);
      SameItself(Picked(entries, order[1..]), cs);
      ComparedEntriesSame(entries, order[1..], t[1..], cs);
      SameCons(Entry(e.name, Compared(e.value, t[0].value, cs)),
               if CompareSorted(Erase(e.value), t[0].value, cs) then ComparedEntries(entries, order[1..], t[1..], cs)
               else Picked(entries, order[1..]),
               e, Picked(entries, order[1..]), cs);
    }
  }

  /** Comparing a document changes the order of members only. */
  lemma {:induction false} ComparedSame(d: Doc, v: Json, cs: bool)
    ensures Equal(Erase(Compared(d, v, cs)), Erase(d), cs)
    decreases d
  {
    match d {
      case List(items) =>
        if v.Array? {
          ComparedItemsSame(items, v.items, cs);
        } else {
          EqualReflexive(Erase(d), cs);
        }
      case Record(entries, link) =>
        if v.Object? {
          var order := EntryOrder(entries, cs);
          ComparedEntriesSame(entries, order, Sort(v.members, NameOf, cs), cs);
          PickedSame(entries, order, ComparedEntries(entries, order, Sort(v.members, NameOf, cs), cs), cs);
        } else {
          EqualReflexive(Erase(d), cs);
        }
      case _ => EqualReflexive(Erase(d), cs);
    }
  }

  lemma PickedSame(entries: seq<Entry>, order: seq<nat>, r: seq<Entry>, cs: bool)
    requires order == EntryOrder(entries, cs) && SameEntries(r, Picked(entries, order), cs)
    ensures Equal(Object(EraseEntries(r)), Object(EraseEntries(entries)), cs)
  {
    hide Equal, SameKey, Order;
    OrderPermutes(NamesOf(entries, EntryName), cs);
    var a, b := EraseEntries(r), EraseEntries(entries);
    forall k | 0 <= k < |a|
      ensures Matched(a[k], b, cs)
    {
      SameKeyReflexive(a[k].name, cs);
      assert b[order[k]].name == a[k].name && Equal(a[k].value, b[order[k]].value, cs);
    }
    forall i | 0 <= i < |b|
      ensures MatchedBy(a, b[i], cs)
    {
      assert i in order;
      var k :| 0 <= k < |order| && order[k] == i;
      SameKeyReflexive(b[i].name, cs);
      assert a[k].name == b[i].name && Equal(a[k].value, b[i].value, cs);
    }
    EqualObjects(a, b, cs);
  }

  // ---- When nothing changes ----

  /** Every object the comparison comes to is in order already. */
  predicate Undisturbed(d: Doc, v: Json, cs: bool) {
    match d
    case List(items) => v.Array? ==> UndisturbedItems(items, v.items, cs)
    case Record(entries, _) =>
      v.Object? ==>
        && Ascending(entries, EntryName, cs)
        && UndisturbedEntries(entries, EntryOrder(entries, cs), Sort(v.members, NameOf, cs), cs)
    case _ => true
  }

  predicate UndisturbedItems(items: seq<Doc>, vs: seq<Json>, cs: bool) {
    items == [] || vs == [] ||
    (&& Undisturbed(items[0], vs[0], cs)
     && (CompareSorted(Erase(items[0]), vs[0], cs) ==> UndisturbedItems(items[1..], vs[1..], cs)))
  }

  predicate UndisturbedEntries(entries: seq<Entry>, order: seq<nat>, t: seq<Member>, cs: bool)
    requires forall k :: 0 <= k < |order| ==> order[k] < |entries|
    decreases entries, |order|
  {
    order == [] || t == [] || Compare(entries[order[0]].name, t[0].name, cs) != 0 ||
    (&& Undisturbed(entries[order[0]].value, t[0].value, cs)
     && (CompareSorted(Erase(entries[order[0]].value), t[0].value, cs) ==>
           UndisturbedEntries(entries, order[1..], t[1..], cs)))
  }

  lemma {:induction false} ItemsKept(items: seq<Doc>, vs: seq<Json>, cs: bool)
    requires forall i :: 0 <= i < |items| ==> DistinctNames(Erase(items[i]), cs)
    ensures ComparedItems(items, vs, cs) == items <==> UndisturbedItems(items, vs, cs)
    decreases items
  {
    hide Erase, CompareSorted, DistinctNames;
    if items != [] && vs != [] {
      ComparedKeepsIff(items[0], vs[0], cs);
      ItemsKept(items[1..], vs[1..], cs);
      HeadAndRest(items[0], items[1..], Compared(items[0], vs[0], cs),
                  if CompareSorted(Erase(items[0]), vs[0], cs)
                     then ComparedItems(items[1..], vs[1..], cs) else items[1..]);
      assert items == [items[0]] + items[1..];
    }
  }

  lemma HeadAndRest<T>(x: T, s: seq<T>, y: T, t: seq<T>)
    ensures [y] + t == [x] + s <==> y == x && t == s
  {
    if [y] + t == [x] + s {
      assert y == ([y] + t)[0] && t == ([y] + t)[1..] && s == ([x] + s)[1..];
    }
  }

  lemma {:induction false} EntriesKept(entries: seq<Entry>, order: seq<nat>, t: seq<Member>, cs: bool)
    requires forall k :: 0 <= k < |order| ==> order[k] < |entries|
    requires forall i :: 0 <= i < |entries| ==> DistinctNames(Erase(entries[i].value), cs)
    ensures ComparedEntries(entries, order, t, cs) == Picked(entries, order) <==>
            UndisturbedEntries(entries, order, t, cs)
    decreases entries, |order|
  {
    hide Erase, CompareSorted, DistinctNames, Compare, Compared, Undisturbed;
    if order != [] && t != [] && Compare(entries[order[0]].name, t[0].name, cs) == 0 {
      var e := entries[order[0]];
      EntriesFirst(entries, order, t, cs);
      hide ComparedEntries, Picked;
      ComparedKeepsIff(e.value, t[0].value, cs);
      EntriesKept(entries, order[1..], t[1..], cs);
      HeadAndRest(e, Picked(entries, order[1..]), Entry(e.name, Compared(e.value, t[0].value, cs)),
                  if CompareSorted(Erase(e.value), t[0].value, cs) then ComparedEntries(entries, order[1..], t[1..], cs)
                  else Picked(entries, order[1..]));
    }
  }

  lemma InOrder(names: seq<cstring>, entries: seq<Entry>, cs: bool)
    requires names == NamesOf(entries, EntryName)
    ensures Ascending(entries, EntryName, cs) ==> EntryOrder(entries, cs) == Indices(|entries|)
  {
    hide Compare;
    if Ascending(entries, EntryName, cs) {
      forall i | 0 <= i < |entries| - 1
        ensures Compare(NameAt(names)(Indices(|entries|)[i]), NameAt(names)(Indices(|entries|)[i + 1]), cs) < 0
      {
        assert Compare(EntryName(entries[i]), EntryName(entries[i + 1]), cs) < 0;
      }
    }
  }

  lemma DistinctEntry(entries: seq<Entry>, i: nat, j: nat, cs: bool)
    requires Distinct(entries, EntryName, cs) && i < |entries| && j < |entries| && entries[i].name == entries[j].name
    ensures i == j
  {
    hide Key;
    SameKeyReflexive(entries[i].name, cs);
    assert i < j ==> !SameKey(EntryName(entries[i]), EntryName(entries[j]), cs);
    assert j < i ==> !SameKey(EntryName(entries[j]), EntryName(entries[i]), cs);
  }

  lemma KeptOrder(entries: seq<Entry>, r: seq<Entry>, cs: bool)
    requires Distinct(entries, EntryName, cs)
    requires |r| == |entries| && forall k :: 0 <= k < |r| ==> r[k].name == entries[EntryOrder(entries, cs)[k]].name
    requires r == entries
    ensures Ascending(entries, EntryName, cs)
  {
    hide Key, Order, Compare, Sort;
    var order := EntryOrder(entries, cs);
    forall k | 0 <= k < |order|
      ensures order[k] == k
    {
      DistinctEntry(entries, order[k], k, cs);
    }
    OrderSorts(entries, EntryName, cs);
    assert Picked(entries, order) == entries;
    SortStrict(entries, EntryName, cs);
  }

  lemma DistinctEntries(entries: seq<Entry>, link: Link, cs: bool)
    requires DistinctNames(Erase(Record(entries, link)), cs)
    ensures Distinct(entries, EntryName, cs)
    ensures forall i :: 0 <= i < |entries| ==> DistinctNames(Erase(entries[i].value), cs)
  {
    hide SameKey;
    var ms := EraseEntries(entries);
    assert Distinct(ms, NameOf, cs);
    forall i, j | 0 <= i < j < |entries|
      ensures !SameKey(EntryName(entries[i]), EntryName(entries[j]), cs)
    {
      assert !SameKey(NameOf(ms[i]), NameOf(ms[j]), cs);
    }
    forall i | 0 <= i < |entries|
      ensures DistinctNames(Erase(entries[i].value), cs)
    {
      assert DistinctNames(ms[i].value, cs);
    }
  }

  lemma DistinctItems(items: seq<Doc>, cs: bool)
    requires DistinctNames(Erase(List(items)), cs)
    ensures forall i :: 0 <= i < |items| ==> DistinctNames(Erase(items[i]), cs)
  {
    forall i | 0 <= i < |items|
      ensures DistinctNames(Erase(items[i]), cs)
    {
      assert DistinctNames(EraseItems(items)[i], cs);
    }
  }

  /** With distinct names, a comparison changes nothing exactly when all it comes to is in order. */
  lemma {:induction false} ComparedKeepsIff(d: Doc, v: Json, cs: bool)
    requires DistinctNames(Erase(d), cs)
    ensures Compared(d, v, cs) == d <==> Undisturbed(d, v, cs)
    decreases d
  {
    hide Sort;
    match d {
      case List(items) =>
        if v.Array? {
          DistinctItems(items, cs);
          ItemsKept(items, v.items, cs);
        }
      case Record(entries, link) =>
        if v.Object? {
          DistinctEntries(entries, link, cs);
          RecordKept(entries, link, v.members, cs);
        }
      case _ =>
    }
  }

  lemma {:induction false} RecordKept(entries: seq<Entry>, link: Link, members: seq<Member>, cs: bool)
    requires Distinct(entries, EntryName, cs) && forall i :: 0 <= i < |entries| ==>
               DistinctNames(Erase(entries[i].value), cs)
    ensures var d := Record(entries, link);
            Compared(d, Object(members), cs) == d <==> Undisturbed(d, Object(members), cs)
    decreases entries, |entries| + 1
  {
    hide Sort, Order, Erase, DistinctNames, Compare, ComparedEntries, UndisturbedEntries, Ascending, Distinct;
    var order, t := EntryOrder(entries, cs), Sort(members, NameOf, cs);
    var r := ComparedEntries(entries, order, t, cs);
    EntriesKept(entries, order, t, cs);
    InOrder(NamesOf(entries, EntryName), entries, cs);
    assert Picked(entries, Indices(|entries|)) == entries;
    if Ascending(entries, EntryName, cs) {
      OrderedLink(link, |entries|);
    } else if r == entries {
      ComparedEntriesSame(entries, order, t, cs);
      assert forall k :: 0 <= k < |r| ==> r[k].name == Picked(entries, order)[k].name;
      KeptOrder(entries, r, cs);
    }
  }

  lemma OrderedLink(link: Link, n: nat)
    ensures LinkAfterSort(link, Indices(n)) == link
  {
    if n > 0 {
      var target := Target(link, n);
      assert Indices(n)[target] == target;
      assert Position(Indices(n), target) == target;
    }
  }

  // ---- When appending still works ----

  /** In every object the comparison comes to, the first and the last member stay where they are. */
  predicate EndsKeptWhereCompared(d: Doc, v: Json, cs: bool) {
    match d
    case List(items) => v.Array? ==> EndsKeptItems(items, v.items, cs)
    case Record(entries, _) =>
      v.Object? ==>
        && EndsStay(EntryOrder(entries, cs))
        && EndsKeptEntries(entries, EntryOrder(entries, cs), Sort(v.members, NameOf, cs), cs)
    case _ => true
  }

  predicate EndsKeptItems(items: seq<Doc>, vs: seq<Json>, cs: bool) {
    items == [] || vs == [] ||
    (&& EndsKeptWhereCompared(items[0], vs[0], cs)
     && (CompareSorted(Erase(items[0]), vs[0], cs) ==> EndsKeptItems(items[1..], vs[1..], cs)))
  }

  predicate EndsKeptEntries(entries: seq<Entry>, order: seq<nat>, t: seq<Member>, cs: bool)
    requires forall k :: 0 <= k < |order| ==> order[k] < |entries|
    decreases entries, |order|
  {
    order == [] || t == [] || Compare(entries[order[0]].name, t[0].name, cs) != 0 ||
    (&& EndsKeptWhereCompared(entries[order[0]].value, t[0].value, cs)
     && (CompareSorted(Erase(entries[order[0]].value), t[0].value, cs) ==>
           EndsKeptEntries(entries, order[1..], t[1..], cs)))
  }

  predicate AllWhole(entries: seq<Entry>) {
    forall i :: 0 <= i < |entries| ==> Whole(entries[i].value)
  }

  lemma WholeCons(e: Entry, rest: seq<Entry>)
    ensures AllWhole([e] + rest) <==> Whole(e.value) && AllWhole(rest)
  {
    hide Whole;
    var all := [e] + rest;
    assert all[0] == e && forall i :: 0 <= i < |rest| ==> all[i + 1] == rest[i];
  }

  lemma WholePicked(entries: seq<Entry>, order: seq<nat>)
    requires AllWhole(entries) && forall k :: 0 <= k < |order| ==> order[k] < |entries|
    ensures AllWhole(Picked(entries, order))
  {
    hide Whole;
  }

  lemma ItemsFirst(items: seq<Doc>, vs: seq<Json>, cs: bool)
    requires items != [] && vs != []
    ensures ComparedItems(items, vs, cs) ==
            [Compared(items[0], vs[0], cs)] +
            (if CompareSorted(Erase(items[0]), vs[0], cs) then ComparedItems(items[1..], vs[1..], cs) else items[1..])
  {
    hide Compared, CompareSorted, Erase;
  }

  lemma WholeList(x: Doc, rest: seq<Doc>)
    ensures Whole(List([x] + rest)) <==> Whole(x) && Whole(List(rest))
  {
    var all := [x] + rest;
    assert all[0] == x && forall i :: 0 <= i < |rest| ==> all[i + 1] == rest[i];
  }

  lemma {:induction false} ItemsWhole(items: seq<Doc>, vs: seq<Json>, cs: bool)
    requires Whole(List(items))
    ensures Whole(List(ComparedItems(items, vs, cs))) <==> EndsKeptItems(items, vs, cs)
    decreases items
  {
    hide Erase, CompareSorted, Whole, Compared;
    if items != [] && vs != [] {
      assert items == [items[0]] + items[1..];
      WholeList(items[0], items[1..]);
      ItemsFirst(items, vs, cs);
      ComparedWholeIff(items[0], vs[0], cs);
      ItemsWhole(items[1..], vs[1..], cs);
      WholeList(Compared(items[0], vs[0], cs),
                if CompareSorted(Erase(items[0]), vs[0], cs)
                   then ComparedItems(items[1..], vs[1..], cs) else items[1..]);
    }
  }

  lemma {:induction false} EntriesWhole(entries: seq<Entry>, order: seq<nat>, t: seq<Member>, cs: bool)
    requires AllWhole(entries) && forall k :: 0 <= k < |order| ==> order[k] < |entries|
    ensures AllWhole(ComparedEntries(entries, order, t, cs)) <==> EndsKeptEntries(entries, order, t, cs)
    decreases entries, |order|
  {
    hide Erase, CompareSorted, Compare, Whole, AllWhole;
    WholePicked(entries, order);
    if order != [] && t != [] && Compare(entries[order[0]].name, t[0].name, cs) == 0 {
      var e := entries[order[0]];
      WholeAt(entries, order[0]);
      ComparedWholeIff(e.value, t[0].value, cs);
      EntriesWhole(entries, order[1..], t[1..], cs);
      WholePicked(entries, order[1..]);
      WholeCons(Entry(e.name, Compared(e.value, t[0].value, cs)),
                if CompareSorted(Erase(e.value), t[0].value, cs) then ComparedEntries(entries, order[1..], t[1..], cs)
                else Picked(entries, order[1..]));
    }
  }

  lemma WholeAt(entries: seq<Entry>, i: nat)
    requires AllWhole(entries) && i < |entries|
    ensures Whole(entries[i].value)
  {}

  /** Of a document in its proper shape, a comparison leaves every link right exactly when every object
      it comes to keeps its ends. */
  lemma {:induction false} ComparedWholeIff(d: Doc, v: Json, cs: bool)
    requires Whole(d)
    ensures Whole(Compared(d, v, cs)) <==> EndsKeptWhereCompared(d, v, cs)
    decreases d
  {
    match d {
      case List(items) => if v.Array? { ItemsWhole(items, v.items, cs); }
      case Record(entries, link) =>
        if v.Object? {
          var order, t := EntryOrder(entries, cs), Sort(v.members, NameOf, cs);
          assert AllWhole(entries);
          EntriesWhole(entries, order, t, cs);
          LinkKeptIff(entries, cs);
          WholeRecord(ComparedEntries(entries, order, t, cs), LinkAfterSort(Tail, order));
        }
      case _ =>
    }
  }

  lemma WholeRecord(entries: seq<Entry>, link: Link)
    ensures Whole(Record(entries, link)) <==> link == Tail && AllWhole(entries)
  {}

  lemma LinkKeptIff(entries: seq<Entry>, cs: bool)
    ensures var order := EntryOrder(entries, cs);
            LinkAfterSort(Tail, order) == Tail <==> EndsStay(order)
  {
    hide Order, Permutes;
    OrderPermutes(NamesOf(entries, EntryName), cs);
    TailAfterSort(EntryOrder(entries, cs));
  }

  lemma FirstOfOrder(entries: seq<Entry>, cs: bool)
    requires Distinct(entries, EntryName, cs) && entries != []
    ensures var order := EntryOrder(entries, cs);
            && (order[0] == 0 <==> forall i :: 0 <= i < |entries| ==>
                  Compare(entries[0].name, entries[i].name, cs) <= 0)
            && (order[|order| - 1] == |order| - 1 <==>
                forall i :: 0 <= i < |entries| ==> Compare(entries[i].name, entries[|entries| - 1].name, cs) <= 0)
  {
    hide Compare, Order, Sort, Distinct;
    var order, n := EntryOrder(entries, cs), |entries|;
    OrderPermutes(NamesOf(entries, EntryName), cs);
    OrderSorts(entries, EntryName, cs);
    SortOrders(entries, EntryName, cs);
    var s := Sort(entries, EntryName, cs);
    forall i | 0 <= i < n
      ensures Compare(entries[order[0]].name, entries[i].name, cs) <= 0
      ensures Compare(entries[i].name, entries[order[n - 1]].name, cs) <= 0
    {
      assert i in order;
      var k :| 0 <= k < n && order[k] == i;
      CompareOrder(entries[i].name, entries[i].name, entries[i].name, cs);
      assert 0 < k ==> Compare(EntryName(s[0]), EntryName(s[k]), cs) <= 0;
      assert k < n - 1 ==> Compare(EntryName(s[k]), EntryName(s[n - 1]), cs) <= 0;
    }
    OnlyOne(entries, order[0], 0, cs);
    OnlyOne(entries, order[n - 1], n - 1, cs);
  }

  lemma OnlyOne(entries: seq<Entry>, i: nat, j: nat, cs: bool)
    requires Distinct(entries, EntryName, cs) && i < |entries| && j < |entries|
    ensures Compare(entries[i].name, entries[j].name, cs) <= 0 && Compare(entries[j].name, entries[i].name, cs) <= 0 ==>
              i == j
  {
    hide Key, Compare;
    CompareOrder(entries[i].name, entries[j].name, entries[i].name, cs);
    assert i < j ==> !SameKey(EntryName(entries[i]), EntryName(entries[j]), cs);
    assert j < i ==> !SameKey(EntryName(entries[j]), EntryName(entries[i]), cs);
    CompareOrder(entries[j].name, entries[i].name, entries[j].name, cs);
  }

  /** An object keeps its ends when sorted exactly when they are its smallest and its greatest name. */
  lemma EndsStayIff(entries: seq<Entry>, cs: bool)
    requires Distinct(entries, EntryName, cs)
    ensures EndsStay(EntryOrder(entries, cs)) <==>
            forall i :: 0 <= i < |entries| ==>
              && Compare(entries[0].name, entries[i].name, cs) <= 0
              && Compare(entries[i].name, entries[|entries| - 1].name, cs) <= 0
  {
    hide Compare, Order, Distinct;
    if entries != [] { FirstOfOrder(entries, cs); }
  }

  // ---- compare_json as it is written ----

  lemma {:induction false} CompareSortedSymmetric(a: Json, b: Json, cs: bool)
    ensures CompareSorted(a, b, cs) == CompareSorted(b, a, cs)
    decreases Size(a), 1
  {
    if a.Array? && b.Array? && |a.items| == |b.items| {
      forall i | 0 <= i < |a.items|
        ensures CompareSorted(a.items[i], b.items[i], cs) == CompareSorted(b.items[i], a.items[i], cs)
      {
        ItemSmaller(a.items, i);
        CompareSortedSymmetric(a.items[i], b.items[i], cs);
      }
    } else if a.Object? && b.Object? {
      SymmetricMembers(a.members, b.members, cs);
    }
  }

  lemma {:induction false} SymmetricMembers(a: seq<Member>, b: seq<Member>, cs: bool)
    ensures CompareSorted(Object(a), Object(b), cs) == CompareSorted(Object(b), Object(a), cs)
    decreases Size(Object(a)), 0
  {
    CompareSortedObjects(a, b, cs);
    CompareSortedObjects(b, a, cs);
    hide CompareSorted, Sort, Compare;
    var s, t := Sort(a, NameOf, cs), Sort(b, NameOf, cs);
    forall k | 0 <= k < |s| && |s| == |t|
      ensures CompareSorted(s[k].value, t[k].value, cs) == CompareSorted(t[k].value, s[k].value, cs)
      ensures Compare(s[k].name, t[k].name, cs) == 0 <==> Compare(t[k].name, s[k].name, cs) == 0
    {
      SortedSmaller(a, cs, k);
      CompareSortedSymmetric(s[k].value, t[k].value, cs);
      CompareOrder(s[k].name, t[k].name, s[k].name, cs);
    }
  }

  lemma ErasedSorted(entries: seq<Entry>, cs: bool)
    ensures EraseEntries(Picked(entries, EntryOrder(entries, cs))) == Sort(EraseEntries(entries), NameOf, cs)
  {
    hide Sort, Order, Erase;
    var ms := EraseEntries(entries);
    assert NamesOf(entries, EntryName) == NamesOf(ms, NameOf);
    OrderSorts(ms, NameOf, cs);
  }

  lemma EntrySmaller(entries: seq<Entry>, i: nat)
    requires i < |entries|
    ensures Size(Erase(entries[i].value)) <= MembersSize(EraseEntries(entries))
  {
    MemberSmaller(EraseEntries(entries), EraseEntries(entries)[i]);
  }

  /** compare_json, with what it does to both documents. */
  method CompareJson(a: Doc, b: Doc, cs: bool) returns (a': Doc, b': Doc, same: bool)
    ensures same == CompareSorted(Erase(a), Erase(b), cs)
    ensures a' == Compared(a, Erase(b), cs) && b' == Compared(b, Erase(a), cs)
    decreases Size(Erase(a)), 1
  {
    a', b' := a, b;
    match (a, b) {
      case (List(xs), List(ys)) =>
        var xs', ys';
        xs', ys', same := CompareLists(xs, ys, cs);
        ListsCompared(xs, ys, cs);
        a', b' := List(xs'), List(ys');
      case (Record(xs, i), Record(ys, j)) =>
        var xs', ys';
        xs', ys', same := CompareRecords(xs, ys, cs);
        a', b' := Record(xs', LinkAfterSort(i, EntryOrder(xs, cs))), Record(ys', LinkAfterSort(j, EntryOrder(ys, cs)));
      case (Scalar(Number(m)), Scalar(Number(n))) => same := m == n;
      case (Scalar(String(m)), Scalar(String(n))) => same := m == n;
      case _ => same := Kind(Erase(a)) == Kind(Erase(b));
    }
  }

  lemma ListsCompared(xs: seq<Doc>, ys: seq<Doc>, cs: bool)
    ensures CompareSorted(Erase(List(xs)), Erase(List(ys)), cs) <==>
            |xs| == |ys| && forall k :: 0 <= k < |xs| ==> CompareSorted(Erase(xs[k]), Erase(ys[k]), cs)
  {
    var us, vs := EraseItems(xs), EraseItems(ys);
    assert CompareSorted(Array(us), Array(vs), cs) <==>
           |us| == |vs| && forall k :: 0 <= k < |us| ==> CompareSorted(us[k], vs[k], cs);
    assert forall k :: 0 <= k < |us| ==> us[k] == Erase(xs[k]);
    assert forall k :: 0 <= k < |vs| ==> vs[k] == Erase(ys[k]);
  }

  /** The elements of an array up to the i-th have been compared. */
  ghost predicate WalkedItems(xs: seq<Doc>, vs: seq<Json>, i: nat, done: seq<Doc>, cs: bool) {
    i <= |xs| && i <= |vs| && done + ComparedItems(xs[i..], vs[i..], cs) == ComparedItems(xs, vs, cs)
  }

  lemma ItemsWalkStarts(xs: seq<Doc>, vs: seq<Json>, cs: bool)
    ensures WalkedItems(xs, vs, 0, [], cs)
  {
    assert xs[0..] == xs && vs[0..] == vs;
  }

  lemma AppendOne<T>(done: seq<T>, x: T, rest: seq<T>)
    ensures done + ([x] + rest) == done + [x] + rest
  {}

  lemma ItemsWalkStep(xs: seq<Doc>, vs: seq<Json>, i: nat, done: seq<Doc>, cs: bool)
    requires WalkedItems(xs, vs, i, done, cs) && i < |xs| && i < |vs|
    ensures var done' := done + [Compared(xs[i], vs[i], cs)];
            if CompareSorted(Erase(xs[i]), vs[i], cs) then WalkedItems(xs, vs, i + 1, done', cs)
            else done' + xs[i + 1..] == ComparedItems(xs, vs, cs)
  {
    hide Compared, CompareSorted, Erase, ComparedItems;
    ItemsFirst(xs[i..], vs[i..], cs);
    assert xs[i..][1..] == xs[i + 1..] && vs[i..][1..] == vs[i + 1..];
    AppendOne(done, Compared(xs[i], vs[i], cs),
              if CompareSorted(Erase(xs[i]), vs[i], cs)
                 then ComparedItems(xs[i + 1..], vs[i + 1..], cs) else xs[i + 1..]);
  }

  lemma ItemsWalkEnds(xs: seq<Doc>, vs: seq<Json>, i: nat, done: seq<Doc>, cs: bool)
    requires WalkedItems(xs, vs, i, done, cs) && (i == |xs| || i == |vs|)
    ensures done + xs[i..] == ComparedItems(xs, vs, cs)
  {
    hide Compared, CompareSorted, Erase;
  }

  /** Its loop over two arrays. */
  method CompareLists(xs: seq<Doc>, ys: seq<Doc>, cs: bool) returns (xs': seq<Doc>, ys': seq<Doc>, same: bool)
    ensures same <==> |xs| == |ys| && forall k :: 0 <= k < |xs| ==> CompareSorted(Erase(xs[k]), Erase(ys[k]), cs)
    ensures xs' == ComparedItems(xs, EraseItems(ys), cs) && ys' == ComparedItems(ys, EraseItems(xs), cs)
    decreases ItemsSize(EraseItems(xs)) + 1, 0
  {
    hide CompareSorted, Compared, Erase, ComparedItems, WalkedItems;
    ghost var us, vs := EraseItems(xs), EraseItems(ys);
    xs', ys' := [], [];
    var i := 0;
    ItemsWalkStarts(xs, vs, cs);
    ItemsWalkStarts(ys, us, cs);
    while i < |xs| && i < |ys|
      invariant 0 <= i <= |xs| && i <= |ys|
      invariant WalkedItems(xs, vs, i, xs', cs) && WalkedItems(ys, us, i, ys', cs)
      invariant forall k :: 0 <= k < i ==> CompareSorted(Erase(xs[k]), Erase(ys[k]), cs)
    {
      ItemSmaller(us, i);
      CompareSortedSymmetric(us[i], vs[i], cs);
      ItemsWalkStep(xs, vs, i, xs', cs);
      ItemsWalkStep(ys, us, i, ys', cs);
      var x, y, identical := CompareJson(xs[i], ys[i], cs);
      xs', ys' := xs' + [x], ys' + [y];
      if !identical {
        return xs' + xs[i + 1..], ys' + ys[i + 1..], false;
      }
      i := i + 1;
    }
    ItemsWalkEnds(xs, vs, i, xs', cs);
    ItemsWalkEnds(ys, us, i, ys', cs);
    same := i == |xs| && i == |ys|;
    xs', ys' := xs' + xs[i..], ys' + ys[i..];
  }

  /** The sorted members of an object up to the i-th have been compared. */
  ghost predicate Walked(entries: seq<Entry>, order: seq<nat>, t: seq<Member>, i: nat, done: seq<Entry>, cs: bool) {
    && i <= |order| && i <= |t| && (forall k :: 0 <= k < |order| ==> order[k] < |entries|)
    && done + ComparedEntries(entries, order[i..], t[i..], cs) == ComparedEntries(entries, order, t, cs)
  }

  lemma WalkStarts(entries: seq<Entry>, order: seq<nat>, t: seq<Member>, cs: bool)
    requires forall k :: 0 <= k < |order| ==> order[k] < |entries|
    ensures Walked(entries, order, t, 0, [], cs)
  {
    assert order[0..] == order && t[0..] == t;
  }

  lemma EntriesDiffer(entries: seq<Entry>, order: seq<nat>, t: seq<Member>, cs: bool)
    requires order != [] && t != [] && forall k :: 0 <= k < |order| ==> order[k] < |entries|
    requires Compare(entries[order[0]].name, t[0].name, cs) != 0
    ensures ComparedEntries(entries, order, t, cs) == Picked(entries, order)
  {
    hide Compared, CompareSorted, Erase, Compare, Picked;
  }

  lemma WalkStep(entries: seq<Entry>, order: seq<nat>, t: seq<Member>, i: nat, done: seq<Entry>, cs: bool)
    requires Walked(entries, order, t, i, done, cs) && i < |order| && i < |t|
    ensures forall k :: 0 <= k < |order| ==> order[k] < |entries|
    ensures var e := entries[order[i]];
            if Compare(e.name, t[i].name, cs) != 0
            then done + Picked(entries, order[i..]) == ComparedEntries(entries, order, t, cs)
            else
              var done' := done + [Entry(e.name, Compared(e.value, t[i].value, cs))];
              if CompareSorted(Erase(e.value), t[i].value, cs) then Walked(entries, order, t, i + 1, done', cs)
              else done' + Picked(entries, order[i + 1..]) == ComparedEntries(entries, order, t, cs)
  {
    hide Compared, CompareSorted, Erase, Compare, Picked, ComparedEntries;
    var e, o, u := entries[order[i]], order[i..], t[i..];
    assert o[1..] == order[i + 1..] && u[1..] == t[i + 1..] && o[0] == order[i] && u[0] == t[i];
    assert forall k :: 0 <= k < |o| ==> o[k] == order[i + k];
    if Compare(e.name, t[i].name, cs) != 0 {
      EntriesDiffer(entries, o, u, cs);
    } else {
      EntriesFirst(entries, o, u, cs);
      AppendOne(done, Entry(e.name, Compared(e.value, t[i].value, cs)),
                if CompareSorted(Erase(e.value), t[i].value, cs)
                   then ComparedEntries(entries, order[i + 1..], t[i + 1..], cs)
                else Picked(entries, order[i + 1..]));
    }
  }

  lemma WalkEnds(entries: seq<Entry>, order: seq<nat>, t: seq<Member>, i: nat, done: seq<Entry>, cs: bool)
    requires Walked(entries, order, t, i, done, cs) && (i == |order| || i == |t|)
    ensures forall k :: 0 <= k < |order| ==> order[k] < |entries|
    ensures done + Picked(entries, order[i..]) == ComparedEntries(entries, order, t, cs)
  {
    hide Compared, CompareSorted, Erase, Compare;
  }

  ghost predicate PairsSame(s: seq<Member>, t: seq<Member>, i: nat, cs: bool) {
    i <= |s| && i <= |t| &&
    forall k :: 0 <= k < i ==> Compare(s[k].name, t[k].name, cs) == 0 && CompareSorted(s[k].value, t[k].value, cs)
  }

  lemma PairsSameNext(s: seq<Member>, t: seq<Member>, i: nat, cs: bool)
    requires PairsSame(s, t, i, cs) && i < |s| && i < |t|
    ensures Compare(s[i].name, t[i].name, cs) == 0 && CompareSorted(s[i].value, t[i].value, cs) <==>
            PairsSame(s, t, i + 1, cs)
  {
    hide Compare, CompareSorted;
  }

  lemma PairsSameDecide(a: seq<Member>, b: seq<Member>, i: nat, cs: bool)
    ensures var s, t := Sort(a, NameOf, cs), Sort(b, NameOf, cs);
            && (i < |s| && i < |t| && !PairsSame(s, t, i + 1, cs) ==> !CompareSorted(Object(a), Object(b), cs))
            && (PairsSame(s, t, i, cs) && (i == |s| || i == |t|) ==>
                  (CompareSorted(Object(a), Object(b), cs) <==> i == |s| == |t|))
  {
    CompareSortedObjects(a, b, cs);
    hide Compare, CompareSorted, Sort;
  }

  lemma SortedEntry(entries: seq<Entry>, cs: bool, i: nat)
    requires i < |entries|
    ensures var e := entries[EntryOrder(entries, cs)[i]];
            && |Sort(EraseEntries(entries), NameOf, cs)| == |entries|
            && Sort(EraseEntries(entries), NameOf, cs)[i] == Member(e.name, Erase(e.value))
            && Size(Erase(e.value)) <= MembersSize(EraseEntries(entries))
  {
    hide Sort, Erase, EntryOrder;
    ErasedSorted(entries, cs);
    EntrySmaller(entries, EntryOrder(entries, cs)[i]);
  }

  /** Where the loop over two objects stands. */
  ghost predicate AtPair(xs: seq<Entry>, ys: seq<Entry>, i: nat, xs': seq<Entry>, ys': seq<Entry>, cs: bool) {
    var s, t := Sort(EraseEntries(xs), NameOf, cs), Sort(EraseEntries(ys), NameOf, cs);
    && Walked(xs, EntryOrder(xs, cs), t, i, xs', cs) && Walked(ys, EntryOrder(ys, cs), s, i, ys', cs)
    && PairsSame(s, t, i, cs)
  }

  /** What two objects become, and whether they are the same. */
  ghost predicate RecordsCompared(xs: seq<Entry>, ys: seq<Entry>, xs': seq<Entry>, ys': seq<Entry>, same: bool,
                                  cs: bool)
  {
    && same == CompareSorted(Object(EraseEntries(xs)), Object(EraseEntries(ys)), cs)
    && xs' == ComparedEntries(xs, EntryOrder(xs, cs), Sort(EraseEntries(ys), NameOf, cs), cs)
    && ys' == ComparedEntries(ys, EntryOrder(ys, cs), Sort(EraseEntries(xs), NameOf, cs), cs)
  }

  lemma PairStarts(xs: seq<Entry>, ys: seq<Entry>, cs: bool)
    ensures AtPair(xs, ys, 0, [], [], cs)
  {
    hide Sort, EntryOrder, Walked, PairsSame, EraseEntries;
    WalkStarts(xs, EntryOrder(xs, cs), Sort(EraseEntries(ys), NameOf, cs), cs);
    WalkStarts(ys, EntryOrder(ys, cs), Sort(EraseEntries(xs), NameOf, cs), cs);
    NoPairs(Sort(EraseEntries(xs), NameOf, cs), Sort(EraseEntries(ys), NameOf, cs), cs);
  }

  lemma NoPairs(s: seq<Member>, t: seq<Member>, cs: bool)
    ensures PairsSame(s, t, 0, cs)
  {}

  lemma NamesDiffer(xs: seq<Entry>, ys: seq<Entry>, i: nat, xs': seq<Entry>, ys': seq<Entry>, cs: bool)
    requires AtPair(xs, ys, i, xs', ys', cs) && i < |xs| && i < |ys|
    requires Compare(xs[EntryOrder(xs, cs)[i]].name, ys[EntryOrder(ys, cs)[i]].name, cs) != 0
    ensures RecordsCompared(xs, ys, xs' + Picked(xs, EntryOrder(xs, cs)[i..]),
                            ys' + Picked(ys, EntryOrder(ys, cs)[i..]), false, cs)
  {
    hide CompareSorted, Compared, Erase, Compare, Sort, EntryOrder, Walked, PairsSame, Picked, EraseEntries;
    hide ComparedEntries;
    var p, q := EntryOrder(xs, cs), EntryOrder(ys, cs);
    var s, t := Sort(EraseEntries(xs), NameOf, cs), Sort(EraseEntries(ys), NameOf, cs);
    SortedEntry(xs, cs, i);
    SortedEntry(ys, cs, i);
    WalkStep(xs, p, t, i, xs', cs);
    WalkStep(ys, q, s, i, ys', cs);
    CompareOrder(xs[p[i]].name, ys[q[i]].name, xs[p[i]].name, cs);
    PairsSameNext(s, t, i, cs);
    PairsSameDecide(EraseEntries(xs), EraseEntries(ys), i, cs);
  }

  lemma PairCompared(xs: seq<Entry>, ys: seq<Entry>, i: nat, xs': seq<Entry>, ys': seq<Entry>, cs: bool)
    requires AtPair(xs, ys, i, xs', ys', cs) && i < |xs| && i < |ys|
    requires Compare(xs[EntryOrder(xs, cs)[i]].name, ys[EntryOrder(ys, cs)[i]].name, cs) == 0
    ensures var p, q := EntryOrder(xs, cs), EntryOrder(ys, cs);
            var x, y := xs[p[i]], ys[q[i]];
            var xs'', ys'' := xs' + [Entry(x.name, Compared(x.value, Erase(y.value), cs))],
                              ys' + [Entry(y.name, Compared(y.value, Erase(x.value), cs))];
            if CompareSorted(Erase(x.value), Erase(y.value), cs) then AtPair(xs, ys, i + 1, xs'', ys'', cs)
            else RecordsCompared(xs, ys, xs'' + Picked(xs, p[i + 1..]), ys'' + Picked(ys, q[i + 1..]), false, cs)
  {
    hide CompareSorted, Compared, Erase, Compare, Sort, EntryOrder, Walked, PairsSame, Picked, EraseEntries;
    hide ComparedEntries;
    var p, q := EntryOrder(xs, cs), EntryOrder(ys, cs);
    var s, t := Sort(EraseEntries(xs), NameOf, cs), Sort(EraseEntries(ys), NameOf, cs);
    SortedEntry(xs, cs, i);
    SortedEntry(ys, cs, i);
    WalkStep(xs, p, t, i, xs', cs);
    WalkStep(ys, q, s, i, ys', cs);
    CompareOrder(xs[p[i]].name, ys[q[i]].name, xs[p[i]].name, cs);
    CompareSortedSymmetric(s[i].value, t[i].value, cs);
    PairsSameNext(s, t, i, cs);
    PairsSameDecide(EraseEntries(xs), EraseEntries(ys), i, cs);
  }

  lemma PairsEnd(xs: seq<Entry>, ys: seq<Entry>, i: nat, xs': seq<Entry>, ys': seq<Entry>, cs: bool)
    requires AtPair(xs, ys, i, xs', ys', cs) && i <= |xs| && i <= |ys| && (i == |xs| || i == |ys|)
    ensures RecordsCompared(xs, ys, xs' + Picked(xs, EntryOrder(xs, cs)[i..]),
                            ys' + Picked(ys, EntryOrder(ys, cs)[i..]), i == |xs| == |ys|, cs)
  {
    hide CompareSorted, Compared, Erase, Compare, Sort, EntryOrder, Walked, PairsSame, Picked, EraseEntries;
    hide ComparedEntries;
    PairsSameDecide(EraseEntries(xs), EraseEntries(ys), i, cs);
    WalkEnds(xs, EntryOrder(xs, cs), Sort(EraseEntries(ys), NameOf, cs), i, xs', cs);
    WalkEnds(ys, EntryOrder(ys, cs), Sort(EraseEntries(xs), NameOf, cs), i, ys', cs);
  }

  /** Its loop over the sorted members of two objects. */
  method CompareRecords(xs: seq<Entry>, ys: seq<Entry>, cs: bool) returns (xs': seq<Entry>, ys': seq<Entry>, same: bool)
    ensures RecordsCompared(xs, ys, xs', ys', same, cs)
    decreases MembersSize(EraseEntries(xs)) + 1, 0
  {
    hide CompareSorted, Compared, Erase, Compare, EntryOrder, AtPair, RecordsCompared, Picked, EraseEntries;
    var p, q := EntryOrder(xs, cs), EntryOrder(ys, cs);
    xs', ys' := [], [];
    var i := 0;
    PairStarts(xs, ys, cs);
    while i < |p| && i < |q|
      invariant 0 <= i <= |p| && i <= |q|
      invariant AtPair(xs, ys, i, xs', ys', cs)
    {
      var x, y := xs[p[i]], ys[q[i]];
      if Compare(x.name, y.name, cs) != 0 {
        NamesDiffer(xs, ys, i, xs', ys', cs);
        return xs' + Picked(xs, p[i..]), ys' + Picked(ys, q[i..]), false;
      }
      PairCompared(xs, ys, i, xs', ys', cs);
      EntrySmaller(xs, p[i]);
      var x', y', identical := CompareJson(x.value, y.value, cs);
      xs', ys' := xs' + [Entry(x.name, x')], ys' + [Entry(y.name, y')];
      i := i + 1;
      if !identical {
        return xs' + Picked(xs, p[i..]), ys' + Picked(ys, q[i..]), false;
      }
    }
    PairsEnd(xs, ys, i, xs', ys', cs);
    same := i == |p| && i == |q|;
    xs', ys' := xs' + Picked(xs, p[i..]), ys' + Picked(ys, q[i..]);
  }
}
