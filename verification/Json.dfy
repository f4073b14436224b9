/** JSON values as cJSON holds them, and their two comparisons. */
module Json {
  import opened CTypes
  import opened Names
  import opened Sorting

  datatype Json =
    | Invalid
    | Null
    | False
    | True
    | Number(n: cint)
    | String(s: cstring)
    | Array(items: seq<Json>)
    | Object(members: seq<Member>)

  datatype Member = Member(name: cstring, value: Json)

  /** The type tag of a node. */
  function Kind(j: Json): int {
    match j
    case Invalid => 0
    case False => 1
    case True => 2
    case Null => 4
    case Number(_) => 8
    case String(_) => 16
    case Array(_) => 32
    case Object(_) => 64
  }

  function NameOf(m: Member): cstring { m.name }

  /** No node of the tree is Invalid. */
  predicate Proper(j: Json) {
    && !j.Invalid?
    && (j.Array? ==> forall i :: 0 <= i < |j.items| ==> Proper(j.items[i]))
    && (j.Object? ==> forall i :: 0 <= i < |j.members| ==> Proper(j.members[i].value))
  }

  /** Every object of the tree has distinct names under the given case mode. */
  predicate DistinctNames(j: Json, cs: bool) {
    && (j.Array? ==> forall i :: 0 <= i < |j.items| ==> DistinctNames(j.items[i], cs))
    && (j.Object? ==>
          && Distinct(j.members, NameOf, cs)
          && forall i :: 0 <= i < |j.members| ==> DistinctNames(j.members[i].value, cs))
  }

  function Size(j: Json): nat {
    match j
    case Array(items) => 1 + ItemsSize(items)
    case Object(members) => 1 + MembersSize(members)
    case _ => 0
  }

  function ItemsSize(items: seq<Json>): nat {
    if items == [] then 0 else Size(items[0]) + ItemsSize(items[1..])
  }

  function MembersSize(members: seq<Member>): nat {
    if members == [] then 0 else Size(members[0].value) + MembersSize(members[1..])
  }

  lemma {:induction false} ItemSmaller(items: seq<Json>, i: nat)
    requires i < |items|
    ensures Size(items[i]) <= ItemsSize(items)
  {
    if i > 0 { ItemSmaller(items[1..], i - 1); }
  }

  lemma {:induction false} MemberSmaller(members: seq<Member>, m: Member)
    requires m in members
    ensures Size(m.value) <= MembersSize(members)
  {
    if m != members[0] { MemberSmaller(members[1..], m); }
  }

  // ---- Equality up to the order of members ----

  /** The meaning of equality: arrays agree item by item, and each member of either object has a
      counterpart in the other, under the same name and with an equal value. */
  ghost predicate Equal(a: Json, b: Json, cs: bool)
    decreases a, 0
  {
    && Kind(a) == Kind(b)
    && match a
       case Number(n) => n == b.n
       case String(s) => s == b.s
       case Array(items) =>
         |items| == |b.items| && forall i :: 0 <= i < |items| ==> Equal(items[i], b.items[i], cs)
       case Object(members) =>
         && (forall i :: 0 <= i < |members| ==> Matched(members[i], b.members, cs))
         && (forall j :: 0 <= j < |b.members| ==> MatchedBy(members, b.members[j], cs))
       case _ => true
  }

  ghost predicate Matched(m: Member, others: seq<Member>, cs: bool)
    decreases m, 1
  {
    exists j :: 0 <= j < |others| && SameKey(m.name, others[j].name, cs) && Equal(m.value, others[j].value, cs)
  }

  ghost predicate MatchedBy(members: seq<Member>, other: Member, cs: bool)
    decreases members, 1
  {
    exists i ::
      0 <= i < |members| && SameKey(members[i].name, other.name, cs) && Equal(members[i].value, other.value, cs)
  }

  /** compare_json: sort both objects and compare member by member. */
  function CompareSorted(a: Json, b: Json, cs: bool): bool
    decreases Size(a)
  {
    && Kind(a) == Kind(b)
    && match a
       case Number(n) => n == b.n
       case String(s) => s == b.s
       case Array(items) =>
         && |items| == |b.items|
         && forall i :: 0 <= i < |items| ==> (ItemSmaller(items, i); CompareSorted(items[i], b.items[i], cs))
       case Object(members) =>
         var s, t := Sort(members, NameOf, cs), Sort(b.members, NameOf, cs);
         && |s| == |t|
         && forall i :: 0 <= i < |s| ==>
              && Compare(s[i].name, t[i].name, cs) == 0
              && (SortedSmaller(members, cs, i); CompareSorted(s[i].value, t[i].value, cs))
       case _ => true
  }

  lemma SortedSmaller(members: seq<Member>, cs: bool, i: nat)
    requires i < |members|
    ensures Sort(members, NameOf, cs)[i] in members
    ensures Size(Sort(members, NameOf, cs)[i].value) <= MembersSize(members)
  {
    var s := Sort(members, NameOf, cs);
    SortPermutes(members, NameOf, cs);
    assert s[i] in multiset(s);
    MemberSmaller(members, s[i]);
  }

  /** get_object_item: the first member of that name. */
  function Lookup(members: seq<Member>, name: cstring, cs: bool): (r: Option<nat>)
    ensures r.Some? ==> r.value < |members|
  {
    if members == [] then None
    else if SameKey(name, members[0].name, cs) then Some(0)
    else
      match Lookup(members[1..], name, cs)
      case None => None
      case Some(i) => Some(i + 1)
  }

  lemma {:induction false} LookupFirst(members: seq<Member>, name: cstring, cs: bool)
    ensures var r := Lookup(members, name, cs);
            var bound := if r.Some? then r.value else |members|;
            && (forall i :: 0 <= i < bound ==> !SameKey(name, members[i].name, cs))
            && (r.Some? ==> SameKey(name, members[r.value].name, cs))
  {
    hide SameKey;
    if members != [] && !SameKey(name, members[0].name, cs) {
      LookupFirst(members[1..], name, cs);
    }
  }

  /** cJSON_Compare on separately built trees: look every member of each object up in the other. */
  function CompareLookup(a: Json, b: Json, cs: bool): bool
    decreases Size(a) + Size(b)
  {
    && Kind(a) == Kind(b)
    && match a
       case Invalid => false
       case Number(n) => n == b.n
       case String(s) => s == b.s
       case Array(items) =>
         && |items| == |b.items|
         && forall i :: 0 <= i < |items| ==>
              (ItemSmaller(items, i); ItemSmaller(b.items, i); CompareLookup(items[i], b.items[i], cs))
       case Object(members) =>
         && (forall i :: 0 <= i < |members| ==>
               var r := Lookup(b.members, members[i].name, cs);
               r.Some? && (MemberSmaller(members, members[i]); MemberSmaller(b.members, b.members[r.value]);
                           CompareLookup(members[i].value, b.members[r.value].value, cs)))
         && (forall j :: 0 <= j < |b.members| ==>
               var r := Lookup(members, b.members[j].name, cs);
               r.Some? && (MemberSmaller(b.members, b.members[j]); MemberSmaller(members, members[r.value]);
                           CompareLookup(b.members[j].value, members[r.value].value, cs)))
       case _ => true
  }

  // ---- Both comparisons decide equality ----

  ghost predicate PairsEqual(s: seq<Member>, t: seq<Member>, cs: bool) {
    |s| == |t| && forall i :: 0 <= i < |s| ==> SameKey(s[i].name, t[i].name, cs) && Equal(s[i].value, t[i].value, cs)
  }

  lemma DistinctIndex(ms: seq<Member>, i: nat, j: nat, cs: bool)
    requires Distinct(ms, NameOf, cs) && i < |ms| && j < |ms| && SameKey(ms[i].name, ms[j].name, cs)
    ensures i == j
  {
    hide Key;
    assert i < j ==> !SameKey(NameOf(ms[i]), NameOf(ms[j]), cs);
    assert j < i ==> !SameKey(NameOf(ms[j]), NameOf(ms[i]), cs);
  }

  lemma EqualMember(a: seq<Member>, b: seq<Member>, cs: bool, i: nat) returns (j: nat)
    requires Equal(Object(a), Object(b), cs) && i < |a|
    ensures j < |b| && SameKey(a[i].name, b[j].name, cs) && Equal(a[i].value, b[j].value, cs)
  {
    assert Matched(Object(a).members[i], b, cs);
    j :| 0 <= j < |b| && SameKey(a[i].name, b[j].name, cs) && Equal(a[i].value, b[j].value, cs);
  }

  lemma EqualMemberBack(a: seq<Member>, b: seq<Member>, cs: bool, j: nat) returns (i: nat)
    requires Equal(Object(a), Object(b), cs) && j < |b|
    ensures i < |a| && SameKey(a[i].name, b[j].name, cs) && Equal(a[i].value, b[j].value, cs)
  {
    assert MatchedBy(a, Object(b).members[j], cs);
    i :| 0 <= i < |a| && SameKey(a[i].name, b[j].name, cs) && Equal(a[i].value, b[j].value, cs);
  }

  lemma SortedEqualCovers(a: seq<Member>, b: seq<Member>, cs: bool)
    requires Equal(Object(a), Object(b), cs)
    ensures Covers(Sort(a, NameOf, cs), Sort(b, NameOf, cs), NameOf, cs)
    ensures Covers(Sort(b, NameOf, cs), Sort(a, NameOf, cs), NameOf, cs)
  {
    hide Key, Sort, Equal;
    var s, t := Sort(a, NameOf, cs), Sort(b, NameOf, cs);
    forall k | 0 <= k < |s|
      ensures HasKey(NameOf(s[k]), t, NameOf, cs)
    {
      var i := SortedFrom(a, NameOf, cs, k);
      var j := EqualMember(a, b, cs, i);
      var l := SortedAt(b, NameOf, cs, j);
      assert SameKey(NameOf(s[k]), NameOf(t[l]), cs);
    }
    forall l | 0 <= l < |t|
      ensures HasKey(NameOf(t[l]), s, NameOf, cs)
    {
      var j := SortedFrom(b, NameOf, cs, l);
      var i := EqualMemberBack(a, b, cs, j);
      var k := SortedAt(a, NameOf, cs, i);
      assert SameKey(NameOf(t[l]), NameOf(s[k]), cs);
    }
  }

  lemma EqualGivesPairs(a: seq<Member>, b: seq<Member>, cs: bool)
    requires Distinct(a, NameOf, cs) && Distinct(b, NameOf, cs) && Equal(Object(a), Object(b), cs)
    ensures PairsEqual(Sort(a, NameOf, cs), Sort(b, NameOf, cs), cs)
  {
    hide Key, Sort, Equal, Distinct, Covers, Ascending;
    var s, t := Sort(a, NameOf, cs), Sort(b, NameOf, cs);
    SortStrict(a, NameOf, cs);
    SortStrict(b, NameOf, cs);
    SortedEqualCovers(a, b, cs);
    AscendingAlign(s, t, NameOf, cs);
    forall k | 0 <= k < |s|
      ensures SameKey(s[k].name, t[k].name, cs) && Equal(s[k].value, t[k].value, cs)
    {
      assert SameKey(NameOf(s[k]), NameOf(t[k]), cs);
      var i := SortedFrom(a, NameOf, cs, k);
      var l := SortedFrom(b, NameOf, cs, k);
      var j := EqualMember(a, b, cs, i);
      DistinctIndex(b, j, l, cs);
    }
  }

  lemma PairsGiveEqual(a: seq<Member>, b: seq<Member>, cs: bool)
    requires PairsEqual(Sort(a, NameOf, cs), Sort(b, NameOf, cs), cs)
    ensures Equal(Object(a), Object(b), cs)
  {
    hide SameKey, Sort;
    forall i | 0 <= i < |a|
      ensures Matched(a[i], b, cs)
    {
      var k := SortedAt(a, NameOf, cs, i);
      var j := SortedFrom(b, NameOf, cs, k);
    }
    forall j | 0 <= j < |b|
      ensures MatchedBy(a, b[j], cs)
    {
      var k := SortedAt(b, NameOf, cs, j);
      var i := SortedFrom(a, NameOf, cs, k);
    }
  }

  /** compare_json decides equality on trees whose objects have distinct names. */
  lemma {:induction false} CompareSortedDecides(a: Json, b: Json, cs: bool)
    requires DistinctNames(a, cs) && DistinctNames(b, cs)
    ensures CompareSorted(a, b, cs) <==> Equal(a, b, cs)
    decreases Size(a), 1
  {
    hide SameKey, Sort, Distinct;
    if a.Array? && b.Array? && |a.items| == |b.items| {
      forall i | 0 <= i < |a.items|
        ensures CompareSorted(a.items[i], b.items[i], cs) <==> Equal(a.items[i], b.items[i], cs)
      {
        ItemSmaller(a.items, i);
        CompareSortedDecides(a.items[i], b.items[i], cs);
      }
    } else if a.Object? && b.Object? {
      CompareSortedMembers(a.members, b.members, cs);
    }
  }

  lemma {:induction false} CompareSortedMembers(a: seq<Member>, b: seq<Member>, cs: bool)
    requires DistinctNames(Object(a), cs) && DistinctNames(Object(b), cs)
    ensures CompareSorted(Object(a), Object(b), cs) <==> Equal(Object(a), Object(b), cs)
    decreases Size(Object(a)), 0
  {
    hide SameKey, Sort, Compare, Equal;
    var s, t := Sort(a, NameOf, cs), Sort(b, NameOf, cs);
    if |s| == |t| {
      forall i | 0 <= i < |s|
        ensures CompareSorted(s[i].value, t[i].value, cs) <==> Equal(s[i].value, t[i].value, cs)
        ensures Compare(s[i].name, t[i].name, cs) == 0 <==> SameKey(s[i].name, t[i].name, cs)
      {
        SortedSmaller(a, cs, i);
        SortedSmaller(b, cs, i);
        CompareOrder(s[i].name, t[i].name, s[i].name, cs);
        CompareSortedDecides(s[i].value, t[i].value, cs);
      }
    }
    assert CompareSorted(Object(a), Object(b), cs) <==> PairsEqual(s, t, cs);
    if Equal(Object(a), Object(b), cs) {
      EqualGivesPairs(a, b, cs);
    }
    if PairsEqual(s, t, cs) {
      PairsGiveEqual(a, b, cs);
    }
  }

  lemma {:induction false} EqualSymmetric(a: Json, b: Json, cs: bool)
    requires Equal(a, b, cs)
    ensures Equal(b, a, cs)
    decreases a
  {
    hide SameKey;
    if a.Array? {
      forall i | 0 <= i < |a.items|
        ensures Equal(b.items[i], a.items[i], cs)
      {
        EqualSymmetric(a.items[i], b.items[i], cs);
      }
    } else if a.Object? {
      forall j | 0 <= j < |b.members|
        ensures Matched(b.members[j], a.members, cs)
      {
        var i := EqualMemberBack(a.members, b.members, cs, j);
        EqualSymmetric(a.members[i].value, b.members[j].value, cs);
        SameKeySymmetric(a.members[i].name, b.members[j].name, cs);
      }
      forall i | 0 <= i < |a.members|
        ensures MatchedBy(b.members, a.members[i], cs)
      {
        var j := EqualMember(a.members, b.members, cs, i);
        EqualSymmetric(a.members[i].value, b.members[j].value, cs);
        SameKeySymmetric(a.members[i].name, b.members[j].name, cs);
      }
    }
  }

  lemma SameKeySymmetric(a: cstring, b: cstring, cs: bool)
    ensures SameKey(a, b, cs) <==> SameKey(b, a, cs)
  {}

  lemma {:induction false} EqualReflexive(a: Json, cs: bool)
    ensures Equal(a, a, cs)
    decreases a
  {
    if a.Array? {
      forall i | 0 <= i < |a.items|
        ensures Equal(a.items[i], a.items[i], cs)
      {
        EqualReflexive(a.items[i], cs);
      }
    } else if a.Object? {
      forall i | 0 <= i < |a.members|
        ensures Matched(a.members[i], a.members, cs) && MatchedBy(a.members, a.members[i], cs)
      {
        EqualReflexive(a.members[i].value, cs);
      }
    }
  }

  lemma {:induction false} EqualTransitive(a: Json, b: Json, c: Json, cs: bool)
    requires Equal(a, b, cs) && Equal(b, c, cs)
    ensures Equal(a, c, cs)
    decreases a
  {
    if a.Array? {
      forall i | 0 <= i < |a.items|
        ensures Equal(a.items[i], c.items[i], cs)
      {
        EqualTransitive(a.items[i], b.items[i], c.items[i], cs);
      }
    } else if a.Object? {
      forall i | 0 <= i < |a.members|
        ensures Matched(a.members[i], c.members, cs)
      {
        var j := EqualMember(a.members, b.members, cs, i);
        var k := EqualMember(b.members, c.members, cs, j);
        EqualTransitive(a.members[i].value, b.members[j].value, c.members[k].value, cs);
      }
      forall k | 0 <= k < |c.members|
        ensures MatchedBy(a.members, c.members[k], cs)
      {
        var j := EqualMemberBack(b.members, c.members, cs, k);
        var i := EqualMemberBack(a.members, b.members, cs, j);
        EqualTransitive(a.members[i].value, b.members[j].value, c.members[k].value, cs);
      }
    }
  }

  /** With distinct names, the first member of a name is its only possible counterpart. */
  lemma LookupMatches(m: Member, others: seq<Member>, cs: bool)
    requires Distinct(others, NameOf, cs)
    ensures var r := Lookup(others, m.name, cs);
            && (Matched(m, others, cs) <==> r.Some? && Equal(m.value, others[r.value].value, cs))
            && (MatchedBy(others, m, cs) <==> r.Some? && Equal(others[r.value].value, m.value, cs))
  {
    hide Key, Equal;
    var r := Lookup(others, m.name, cs);
    LookupFirst(others, m.name, cs);
    forall j | 0 <= j < |others| && SameKey(m.name, others[j].name, cs)
      ensures r == Some(j)
    {
      DistinctIndex(others, r.value, j, cs);
    }
    assert forall j :: 0 <= j < |others| ==> SameKey(m.name, others[j].name, cs) == SameKey(others[j].name, m.name, cs);
  }

  /** cJSON_Compare decides equality on the same trees, as long as no node is Invalid. */
  lemma {:induction false} CompareLookupDecides(a: Json, b: Json, cs: bool)
    requires DistinctNames(a, cs) && DistinctNames(b, cs) && Proper(a) && Proper(b)
    ensures CompareLookup(a, b, cs) <==> Equal(a, b, cs)
    decreases Size(a) + Size(b), 2
  {
    hide SameKey, Distinct;
    if a.Array? && b.Array? && |a.items| == |b.items| {
      forall i | 0 <= i < |a.items|
        ensures CompareLookup(a.items[i], b.items[i], cs) <==> Equal(a.items[i], b.items[i], cs)
      {
        ItemSmaller(a.items, i);
        ItemSmaller(b.items, i);
        CompareLookupDecides(a.items[i], b.items[i], cs);
      }
    } else if a.Object? && b.Object? {
      CompareLookupObjects(a.members, b.members, cs);
    }
  }

  lemma {:induction false} CompareLookupObjects(a: seq<Member>, b: seq<Member>, cs: bool)
    requires DistinctNames(Object(a), cs) && DistinctNames(Object(b), cs) && Proper(Object(a)) && Proper(Object(b))
    ensures CompareLookup(Object(a), Object(b), cs) <==> Equal(Object(a), Object(b), cs)
    decreases Size(Object(a)) + Size(Object(b)), 1
  {
    hide *;
    ObjectsAgreeBothWays(a, b, cs);
    EqualObjects(a, b, cs);
    forall i | 0 <= i < |a|
      ensures Matched(a[i], b, cs) <==> Agrees(a[i], b, cs)
    {
      CompareLookupMember(Object(a), Object(b), cs, i);
    }
    forall j | 0 <= j < |b|
      ensures MatchedBy(a, b[j], cs) <==> Agrees(b[j], a, cs)
    {
      CompareLookupMember(Object(b), Object(a), cs, j);
      MatchedBackwards(b[j], a, cs);
    }
    AgreeCovers(a, b, cs);
  }

  lemma EqualObjects(a: seq<Member>, b: seq<Member>, cs: bool)
    ensures Equal(Object(a), Object(b), cs) <==>
            (forall i :: 0 <= i < |a| ==> Matched(a[i], b, cs)) && (forall j :: 0 <= j < |b| ==> MatchedBy(a, b[j], cs))
  {
    hide Matched, MatchedBy;
  }

  lemma AgreeCovers(a: seq<Member>, b: seq<Member>, cs: bool)
    ensures ObjectsAgree(a, b, cs) <==> forall i :: 0 <= i < |a| ==> Agrees(a[i], b, cs)
    ensures ObjectsAgree(b, a, cs) <==> forall i :: 0 <= i < |b| ==> Agrees(b[i], a, cs)
  {
    hide Agrees;
  }

  /** One round of the loops of cJSON_Compare over the members of an object. */
  ghost predicate Agrees(m: Member, others: seq<Member>, cs: bool) {
    var r := Lookup(others, m.name, cs);
    r.Some? && CompareLookup(m.value, others[r.value].value, cs)
  }

  ghost predicate ObjectsAgree(a: seq<Member>, b: seq<Member>, cs: bool) {
    forall i :: 0 <= i < |a| ==> Agrees(a[i], b, cs)
  }

  lemma ObjectsAgreeBothWays(a: seq<Member>, b: seq<Member>, cs: bool)
    ensures CompareLookup(Object(a), Object(b), cs) <==> ObjectsAgree(a, b, cs) && ObjectsAgree(b, a, cs)
  {
    hide Lookup;
  }

  lemma MatchedBackwards(m: Member, others: seq<Member>, cs: bool)
    ensures Matched(m, others, cs) <==> MatchedBy(others, m, cs)
  {
    hide SameKey;
    if Matched(m, others, cs) {
      var j :| 0 <= j < |others| && SameKey(m.name, others[j].name, cs) && Equal(m.value, others[j].value, cs);
      EqualSymmetric(m.value, others[j].value, cs);
      SameKeySymmetric(m.name, others[j].name, cs);
    }
    if MatchedBy(others, m, cs) {
      var j :| 0 <= j < |others| && SameKey(others[j].name, m.name, cs) && Equal(others[j].value, m.value, cs);
      EqualSymmetric(others[j].value, m.value, cs);
      SameKeySymmetric(others[j].name, m.name, cs);
    }
  }

  lemma {:induction false} CompareLookupMember(a: Json, b: Json, cs: bool, i: nat)
    requires DistinctNames(a, cs) && DistinctNames(b, cs) && Proper(a) && Proper(b)
    requires a.Object? && b.Object? && i < |a.members|
    ensures Matched(a.members[i], b.members, cs) <==> Agrees(a.members[i], b.members, cs)
    decreases Size(a) + Size(b), 0
  {
    hide SameKey, Distinct, Equal;
    LookupMatches(a.members[i], b.members, cs);
    var r := Lookup(b.members, a.members[i].name, cs);
    if r.Some? {
      MemberSmaller(a.members, a.members[i]);
      MemberSmaller(b.members, b.members[r.value]);
      CompareLookupDecides(a.members[i].value, b.members[r.value].value, cs);
    }
  }

  /** The sorting comparison of cJSON_Utils and the searching comparison of cJSON agree. */
  lemma ComparisonsAgree(a: Json, b: Json, cs: bool)
    requires DistinctNames(a, cs) && DistinctNames(b, cs) && Proper(a) && Proper(b)
    ensures CompareSorted(a, b, cs) == CompareLookup(a, b, cs)
  {
    CompareSortedDecides(a, b, cs);
    CompareLookupDecides(a, b, cs);
  }

  /** Distinct names are needed: an object with a repeated name equals its own copy for one
      comparison and not for the other. */
  lemma RepeatedNamesDisagree()
    ensures var j := Object([Member([120], Number(1)), Member([120], Number(2))]);
            Proper(j) && CompareSorted(j, j, true) && !CompareLookup(j, j, true)
  {
    hide Sort, Compare;
    var m, n := Member([120], Number(1)), Member([120], Number(2));
    var j := Object([m, n]);
    var s := Sort(j.members, NameOf, true);
    assert CompareSorted(j, j, true) by {
      forall i | 0 <= i < |s|
        ensures CompareSorted(s[i].value, s[i].value, true)
      {
        var k := SortedFrom(j.members, NameOf, true, i);
      }
      forall i | 0 <= i < |s|
        ensures Compare(s[i].name, s[i].name, true) == 0
      {
        CompareOrder(s[i].name, s[i].name, s[i].name, true);
      }
    }
    assert Lookup(j.members, n.name, true) == Some(0);
    assert !CompareLookup(j.members[1].value, j.members[0].value, true);
  }

  lemma CompareSortedObjects(a: seq<Member>, b: seq<Member>, cs: bool)
    ensures var s, t := Sort(a, NameOf, cs), Sort(b, NameOf, cs);
            CompareSorted(Object(a), Object(b), cs) <==>
            |s| == |t| && forall k :: 0 <= k < |s| ==>
              Compare(s[k].name, t[k].name, cs) == 0 && CompareSorted(s[k].value, t[k].value, cs)
  {
    hide Sort, Compare;
  }

  // ---- cJSON_Compare as it is written ----

  /** cJSON_Compare. */
  method CompareItems(a: Json, b: Json, cs: bool) returns (same: bool)
    ensures same == CompareLookup(a, b, cs)
    decreases Size(a) + Size(b), 1
  {
    if Kind(a) != Kind(b) {
      return false;
    }
    match a {
      case Invalid => same := false;
      case Number(n) => same := n == b.n;
      case String(s) => same := s == b.s;
      case Array(items) => same := CompareArrays(items, b.items, cs);
      case Object(members) =>
        ObjectsAgreeBothWays(members, b.members, cs);
        hide CompareLookup, ObjectsAgree;
        same := CompareMembers(members, b.members, cs);
        if same {
          same := CompareMembers(b.members, members, cs);
        }
      case _ => same := true;
    }
  }

  /** Its loop over two arrays. */
  method CompareArrays(a: seq<Json>, b: seq<Json>, cs: bool) returns (same: bool)
    ensures same <==> |a| == |b| && forall k :: 0 <= k < |a| ==> CompareLookup(a[k], b[k], cs)
    decreases ItemsSize(a) + ItemsSize(b) + 1, 0
  {
    hide CompareLookup;
    var i := 0;
    while i < |a| && i < |b|
      invariant 0 <= i <= |a| && i <= |b|
      invariant forall k :: 0 <= k < i ==> CompareLookup(a[k], b[k], cs)
    {
      ItemSmaller(a, i);
      ItemSmaller(b, i);
      var identical := CompareItems(a[i], b[i], cs);
      if !identical {
        return false;
      }
      i := i + 1;
    }
    same := i == |a| && i == |b|;
  }

  /** Its loop over the members of one object, looked up in the other. */
  method CompareMembers(a: seq<Member>, b: seq<Member>, cs: bool) returns (same: bool)
    ensures same == ObjectsAgree(a, b, cs)
    decreases MembersSize(a) + MembersSize(b) + 1, 0
  {
    hide CompareLookup;
    var i := 0;
    while i < |a|
      invariant 0 <= i <= |a|
      invariant forall k :: 0 <= k < i ==> Agrees(a[k], b, cs)
    {
      var r := Lookup(b, a[i].name, cs);
      if r.None? {
        return false;
      }
      MemberSmaller(a, a[i]);
      MemberSmaller(b, b[r.value]);
      var identical := CompareItems(a[i].value, b[r.value].value, cs);
      if !identical {
        return false;
      }
      i := i + 1;
    }
    same := true;
  }
}
