/** What merge patches promise, RFC 7396 section 2. */
module MergePatchLaws {
  import opened CTypes
  import opened Names
  import opened Sorting
  import opened Json
  import opened JsonPointer
  import opened JsonPatch
  import opened MergePatch

  // ---- Merging ----

  /** RFC 7396 section 2 for one member: a null removes it, anything else is merged into it. */
  function MergedValue(own: Option<Json>, patch: Option<Json>, cs: bool): Option<Json> {
    if patch.None? then own
    else if patch.value.Null? then None
    else Some(MergeInto(own, patch.value, cs))
  }

  /** Merging is RFC 7396 section 2, name by name, for any names distinct in the mode used. */
  lemma {:induction false} MergeMembersByName(members: seq<Member>, patch: seq<Member>, cs: bool, n: cstring)
    requires Distinct(members, NameOf, cs) && Distinct(patch, NameOf, cs)
    ensures var r := MergeMembers(members, patch, cs);
            && Distinct(r, NameOf, cs)
            && ValueIn(r, n, cs) == MergedValue(ValueIn(members, n, cs), ValueIn(patch, n, cs), cs)
    decreases |patch|
  {
    hide MergeInto, Key, Lookup;
    if patch == [] {
      InNone(patch, n, cs);
    } else {
      var p, tail := patch[0], patch[1..];
      assert patch == [p] + tail;
      var rest := DeleteMember(members, p.name, cs);
      InDelete(members, p.name, n, cs);
      InDelete(members, p.name, p.name, cs);
      InCons(p, tail, n, cs);
      DistinctHead(p, tail, cs);
      SameNameValue(members, n, p.name, cs);
      SameNameValue(tail, n, p.name, cs);
      var merged := Member(p.name, MergeInto(ValueIn(members, p.name, cs), p.value, cs));
      if !p.value.Null? {
        InAppend(rest, merged, n, cs);
      }
      MergeMembersByName(if p.value.Null? then rest else rest + [merged], tail, cs, n);
    }
  }

  lemma SameNameValue(members: seq<Member>, n: cstring, name: cstring, cs: bool)
    ensures SameKey(n, name, cs) ==> ValueIn(members, n, cs) == ValueIn(members, name, cs)
  {
    if SameKey(n, name, cs) { SameNameLookup(members, n, name, cs); }
  }

  lemma {:induction false} SameNameLookup(members: seq<Member>, n: cstring, name: cstring, cs: bool)
    requires SameKey(n, name, cs)
    ensures Lookup(members, n, cs) == Lookup(members, name, cs)
  {
    if members != [] { SameNameLookup(members[1..], n, name, cs); }
  }

  lemma DistinctHead(p: Member, tail: seq<Member>, cs: bool)
    requires Distinct([p] + tail, NameOf, cs)
    ensures Distinct(tail, NameOf, cs) && ValueIn(tail, p.name, cs) == None
  {
    hide Key, Lookup;
    var all := [p] + tail;
    forall i | 0 <= i < |tail|
      ensures !SameKey(p.name, tail[i].name, cs)
    {
      assert all[i + 1] == tail[i];
      assert !SameKey(NameOf(all[0]), NameOf(all[i + 1]), cs);
    }
    InNone(tail, p.name, cs);
    forall i, j | 0 <= i < j < |tail|
      ensures !SameKey(NameOf(tail[i]), NameOf(tail[j]), cs)
    {
      assert !SameKey(NameOf(all[i + 1]), NameOf(all[j + 1]), cs);
    }
  }

  predicate HasName(members: seq<Member>, n: cstring) {
    exists i :: 0 <= i < |members| && members[i].name == n
  }

  /** Merging brings in no names but those of the patch. */
  lemma {:induction false} MergeMembersNames(members: seq<Member>, patch: seq<Member>, cs: bool, n: cstring)
    requires HasName(MergeMembers(members, patch, cs), n)
    ensures HasName(members, n) || HasName(patch, n)
    decreases |patch|
  {
    hide MergeInto, Lookup;
    if patch != [] {
      var p, tail := patch[0], patch[1..];
      var rest := DeleteMember(members, p.name, cs);
      var next := if p.value.Null? then rest
                  else rest + [Member(p.name, MergeInto(ValueIn(members, p.name, cs), p.value, cs))];
      MergeMembersNames(next, tail, cs, n);
      if HasName(rest, n) { DeletedNames(members, p.name, cs, n); }
      hide MergeMembers, DeleteMember;
      if HasName(next, n) {
        var i :| 0 <= i < |next| && next[i].name == n;
        if i < |rest| {
          assert rest[i].name == n;
        } else {
          assert patch[0].name == n;
        }
      } else {
        var i :| 0 <= i < |tail| && tail[i].name == n;
        assert patch[i + 1].name == n;
      }
    }
  }

  lemma DeletedNames(members: seq<Member>, name: cstring, cs: bool, n: cstring)
    requires HasName(DeleteMember(members, name, cs), n)
    ensures HasName(members, n)
  {
    hide Lookup;
    var rest := DeleteMember(members, name, cs);
    var i :| 0 <= i < |rest| && rest[i].name == n;
    assert rest[i] in members;
  }

  /** Names of the two lists that are the same in the mode are equal. */
  predicate ClearOf(a: seq<Member>, b: seq<Member>, cs: bool) {
    forall i :: 0 <= i < |a| ==> Clear(a[i].name, b, cs)
  }

  lemma DistinctClear(a: seq<Member>, cs: bool)
    requires Distinct(a, NameOf, cs)
    ensures ClearOf(a, a, cs)
  {
    hide Key;
    forall i, j | 0 <= i < |a| && 0 <= j < |a| && SameKey(a[i].name, a[j].name, cs)
      ensures a[i].name == a[j].name
    {
      DistinctIndex(a, i, j, cs);
    }
  }

  lemma DistinctExactly(a: seq<Member>, cs: bool)
    requires Distinct(a, NameOf, cs)
    ensures Distinct(a, NameOf, true)
  {
    forall i, j | 0 <= i < j < |a|
      ensures !SameKey(NameOf(a[i]), NameOf(a[j]), true)
    {
      assert !SameKey(NameOf(a[i]), NameOf(a[j]), cs);
    }
  }

  lemma ClearEither(n: cstring, members: seq<Member>, patch: seq<Member>, cs: bool)
    requires Distinct(members, NameOf, cs) && Distinct(patch, NameOf, cs)
    requires ClearOf(members, patch, cs) && ClearOf(patch, members, cs)
    requires HasName(members, n) || HasName(patch, n)
    ensures Clear(n, members, cs) && Clear(n, patch, cs)
  {
    hide Clear;
    DistinctClear(members, cs);
    DistinctClear(patch, cs);
  }

  /** The same with regard to case in either mode, as long as no two names that the patch and the
      object hold differ in case only. */
  lemma MergeMembersExactly(members: seq<Member>, patch: seq<Member>, cs: bool, n: cstring)
    requires Distinct(members, NameOf, cs) && Distinct(patch, NameOf, cs)
    requires ClearOf(members, patch, cs) && ClearOf(patch, members, cs)
    ensures var r := MergeMembers(members, patch, cs);
            && Distinct(r, NameOf, true)
            && ValueOf(r, n) == MergedValue(ValueOf(members, n), ValueOf(patch, n), cs)
  {
    hide Key, Lookup, MergeMembers, MergeInto, Distinct, ClearOf, HasName, ValueIn;
    var r := MergeMembers(members, patch, cs);
    MergeMembersByName(members, patch, cs, n);
    DistinctExactly(r, cs);
    if HasName(members, n) || HasName(patch, n) {
      ClearEither(n, members, patch, cs);
      forall i | 0 <= i < |r| && SameKey(n, r[i].name, cs)
        ensures n == r[i].name
      {
        assert HasName(r, r[i].name) by { OwnName(r, i); }
        MergeMembersNames(members, patch, cs, r[i].name);
        ClearName(members, patch, n, r[i].name, cs);
      }
      ClearValue(members, n, cs);
      ClearValue(patch, n, cs);
      ClearValue(r, n, cs);
    } else {
      NoName(members, n);
      NoName(patch, n);
      if HasName(r, n) { MergeMembersNames(members, patch, cs, n); }
      NoName(r, n);
    }
  }

  lemma OwnName(r: seq<Member>, i: nat)
    requires i < |r|
    ensures HasName(r, r[i].name)
  {}

  lemma NoName(members: seq<Member>, n: cstring)
    ensures !HasName(members, n) <==> ValueOf(members, n) == None
  {
    hide Lookup;
    ValueNone(members, n);
  }

  lemma ClearName(members: seq<Member>, patch: seq<Member>, n: cstring, name: cstring, cs: bool)
    requires Clear(n, members, cs) && Clear(n, patch, cs) && SameKey(n, name, cs)
    requires HasName(members, name) || HasName(patch, name)
    ensures n == name
  {}

  // ---- The names the walk compares ----

  /** The two comparisons the walk uses, with and without regard to case, agree on two names. */
  predicate Agree(a: cstring, b: cstring) {
    && (StrCmp(a, b) < 0 <==> Compare(a, b, false) < 0)
    && (StrCmp(a, b) == 0 <==> Compare(a, b, false) == 0)
  }

  predicate NamesAgree(a: seq<Member>, b: seq<Member>) {
    forall i, j :: 0 <= i < |a| && 0 <= j < |b| ==> Agree(a[i].name, b[j].name)
  }

  /** The comparisons agree wherever comparing the two trees without regard to case compares names. */
  predicate Uniform(a: Json, b: Json)
    decreases a
  {
    && (a.Array? && b.Array? ==> forall i :: 0 <= i < |a.items| && i < |b.items| ==> Uniform(a.items[i], b.items[i]))
    && (a.Object? && b.Object? ==>
          && NamesAgree(a.members, a.members) && NamesAgree(b.members, b.members) && NamesAgree(a.members, b.members)
          && forall i, j :: 0 <= i < |a.members| && 0 <= j < |b.members| && a.members[i].name == b.members[j].name ==>
               Uniform(a.members[i].value, b.members[j].value))
  }

  /** The same wherever generate_merge_patch compares names. With regard to case the names of the
      outermost objects may be anything, and so may be all names of shared members that are no objects. */
  predicate Walkable(from: Json, goal: Json, g: bool) {
    from.Object? && goal.Object? ==>
      if !g then Uniform(from, goal)
      else
        forall i, j ::
          0 <= i < |from.members| && 0 <= j < |goal.members| && from.members[i].name == goal.members[j].name ==>
            from.members[i].value.Object? && goal.members[j].value.Object? ==>
              Uniform(from.members[i].value, goal.members[j].value)
  }

  lemma AgreeSymmetric(a: cstring, b: cstring)
    requires Agree(a, b)
    ensures Agree(b, a)
  {
    hide StrCmp;
    StrCmpAntisymmetric(a, b);
    CompareOrder(a, b, a, false);
  }

  lemma AgreeOnSame(a: cstring, b: cstring)
    requires Agree(a, b)
    ensures SameKey(a, b, false) <==> a == b
  {
    hide StrCmp, Key;
    StrCmpZero(a, b);
    CompareOrder(a, b, a, false);
  }

  /** Sorting without regard to case is sorting with regard to case. */
  lemma SortedAscending(members: seq<Member>, cs: bool)
    requires Distinct(members, NameOf, true) && (cs || NamesAgree(members, members))
    ensures Distinct(members, NameOf, cs) && Ascending(Sort(members, NameOf, cs), NameOf, true)
  {
    hide Key, StrCmp, Sort, Agree;
    forall i, j | 0 <= i < j < |members|
      ensures !SameKey(NameOf(members[i]), NameOf(members[j]), cs)
    {
      assert !SameKey(NameOf(members[i]), NameOf(members[j]), true);
      if !cs {
        AgreeOnSame(members[i].name, members[j].name);
        EqualKeys(members[i].name, members[j].name);
      }
    }
    SortStrict(members, NameOf, cs);
    var s := Sort(members, NameOf, cs);
    forall i | 0 <= i < |s| - 1
      ensures Compare(NameOf(s[i]), NameOf(s[i + 1]), true) < 0
    {
      assert Compare(NameOf(s[i]), NameOf(s[i + 1]), cs) < 0;
      if !cs {
        var k := SortedFrom(members, NameOf, cs, i);
        var l := SortedFrom(members, NameOf, cs, i + 1);
        AgreeBelow(s[i].name, s[i + 1].name);
      }
    }
  }

  lemma AgreeBelow(a: cstring, b: cstring)
    requires Agree(a, b) && Compare(a, b, false) < 0
    ensures Compare(a, b, true) < 0
  {}

  /** A strictly ascending list is the only one of its members. */
  lemma {:induction false} AscendingUnique(s: seq<Member>, t: seq<Member>)
    requires Ascending(s, NameOf, true) && Ascending(t, NameOf, true) && multiset(s) == multiset(t)
    ensures s == t
    decreases |s|
  {
    hide Key, StrCmp, Ascending;
    if s == [] {
      assert |t| == |multiset(t)| == 0;
    } else {
      assert s[0] in multiset(t) && |multiset(t)| > 0;
      var j := Occurrence(t, s[0]);
      assert t[0] in multiset(s);
      var i := Occurrence(s, t[0]);
      AscendingFirst(t, NameOf, true, j);
      AscendingFirst(s, NameOf, true, i);
      CompareOrder(s[0].name, t[0].name, s[0].name, true);
      assert s[0] == t[0];
      assert s == [s[0]] + s[1..] && t == [t[0]] + t[1..];
      assert multiset(s[1..]) == multiset(s) - multiset{s[0]} == multiset(t[1..]);
      AscendingTail(s, NameOf, true);
      AscendingTail(t, NameOf, true);
      AscendingUnique(s[1..], t[1..]);
    }
  }

  lemma SortModesAgree(members: seq<Member>)
    requires Distinct(members, NameOf, true) && NamesAgree(members, members)
    ensures Sort(members, NameOf, false) == Sort(members, NameOf, true)
  {
    hide Sort, NamesAgree, Distinct, Ascending;
    SortedAscending(members, false);
    SortedAscending(members, true);
    SortPermutes(members, NameOf, false);
    SortPermutes(members, NameOf, true);
    AscendingUnique(Sort(members, NameOf, false), Sort(members, NameOf, true));
  }

  /** compare_json decides equality with regard to case in either mode, where names agree. */
  lemma {:induction false} CompareUniform(a: Json, b: Json, cs: bool)
    requires DistinctNames(a, true) && DistinctNames(b, true) && (cs || Uniform(a, b))
    ensures CompareSorted(a, b, cs) <==> Equal(a, b, true)
    decreases Size(a), 1
  {
    hide SameKey, Sort, Distinct, Agree;
    if cs {
      CompareSortedDecides(a, b, true);
    } else if a.Array? && b.Array? && |a.items| == |b.items| {
      forall i | 0 <= i < |a.items|
        ensures CompareSorted(a.items[i], b.items[i], false) <==> Equal(a.items[i], b.items[i], true)
      {
        ItemSmaller(a.items, i);
        CompareUniform(a.items[i], b.items[i], false);
      }
    } else if a.Object? && b.Object? {
      CompareUniformMembers(a.members, b.members);
    }
  }

  lemma {:induction false} CompareUniformMembers(a: seq<Member>, b: seq<Member>)
    requires DistinctNames(Object(a), true) && DistinctNames(Object(b), true) && Uniform(Object(a), Object(b))
    ensures CompareSorted(Object(a), Object(b), false) <==> Equal(Object(a), Object(b), true)
    decreases Size(Object(a)), 0
  {
    hide Key, Sort, Compare, Equal, Agree, CompareSorted, Distinct;
    var s, t := Sort(a, NameOf, true), Sort(b, NameOf, true);
    SortModesAgree(a);
    SortModesAgree(b);
    CompareSortedObjects(a, b, false);
    if |s| == |t| {
      forall i | 0 <= i < |s|
        ensures Compare(s[i].name, t[i].name, false) == 0 <==> SameKey(s[i].name, t[i].name, true)
        ensures SameKey(s[i].name, t[i].name, true) ==>
                  (CompareSorted(s[i].value, t[i].value, false) <==> Equal(s[i].value, t[i].value, true))
      {
        SortedSmaller(a, true, i);
        var k := SortedFrom(a, NameOf, true, i);
        var l := SortedFrom(b, NameOf, true, i);
        assert Agree(a[k].name, b[l].name);
        CompareOrder(s[i].name, t[i].name, s[i].name, false);
        AgreeOnSame(s[i].name, t[i].name);
        EqualKeys(s[i].name, t[i].name);
        if s[i].name == t[i].name { CompareUniform(a[k].value, b[l].value, false); }
      }
    }
    assert CompareSorted(Object(a), Object(b), false) <==> PairsEqual(s, t, true);
    if Equal(Object(a), Object(b), true) {
      EqualGivesPairs(a, b, true);
    }
    if PairsEqual(s, t, true) {
      PairsGiveEqual(a, b, true);
    }
  }

  // ---- Generating ----

  /** What the generated patch holds for one name. */
  function GeneratedValue(from: Option<Json>, to: Option<Json>, cs: bool): Option<Json> {
    if from.None? then to
    else if to.None? then Some(Null)
    else if CompareSorted(from.value, to.value, cs) then None
    else Generate(from.value, to.value, false)
  }

  lemma AboveHead(name: cstring, s: seq<Member>)
    requires Ascending(s, NameOf, true) && (s != [] ==> StrCmp(name, s[0].name) < 0)
    ensures ValueOf(s, name) == None
  {
    hide Lookup, StrCmp;
    forall i | 0 <= i < |s|
      ensures s[i].name != name
    {
      StrCmpZero(name, name);
      if i > 0 {
        AscendingOrdered(s, NameOf, true, 0, i);
        StrCmpTransitive(name, s[0].name, s[i].name);
      }
    }
    ValueNone(s, name);
  }

  lemma TailByName(s: seq<Member>, n: cstring)
    requires s != [] && Ascending(s, NameOf, true)
    ensures Ascending(s[1..], NameOf, true) && ValueOf(s[1..], s[0].name) == None
    ensures ValueOf(s, n) == if s[0].name == n then Some(s[0].value) else ValueOf(s[1..], n)
  {
    hide Lookup;
    assert s == [s[0]] + s[1..];
    ValueCons(s[0], s[1..], n);
    AboveHead(s[0].name, s[1..]);
  }

  lemma {:induction false} GenerateMembersByName(from: seq<Member>, to: seq<Member>, cs: bool, bound: nat, n: cstring)
    requires Ascending(from, NameOf, true) && Ascending(to, NameOf, true)
    requires forall i :: 0 <= i < |to| ==> Size(to[i].value) <= bound
    ensures ValueOf(GenerateMembers(from, to, cs, bound), n) == GeneratedValue(ValueOf(from, n), ValueOf(to, n), cs)
    decreases |from| + |to|
  {
    hide Lookup, Ascending, CompareSorted, Generate;
    if from == [] && to == [] {
      ValueNone([], n);
    } else {
      var diff := if from == [] then 1 else if to == [] then -1 else StrCmp(from[0].name, to[0].name);
      if from != [] { TailByName(from, n); }
      if to != [] { TailByName(to, n); }
      if from != [] && to != [] {
        StrCmpAntisymmetric(from[0].name, to[0].name);
        StrCmpZero(from[0].name, to[0].name);
      }
      if diff < 0 {
        var rest := GenerateMembers(from[1..], to, cs, bound);
        assert GenerateMembers(from, to, cs, bound) == [Member(from[0].name, Null)] + rest;
        hide GenerateMembers;
        AboveHead(from[0].name, to);
        GenerateMembersByName(from[1..], to, cs, bound, n);
        ValueCons(Member(from[0].name, Null), rest, n);
      } else if diff > 0 {
        var rest := GenerateMembers(from, to[1..], cs, bound);
        assert GenerateMembers(from, to, cs, bound) == [to[0]] + rest;
        hide GenerateMembers;
        AboveHead(to[0].name, from);
        GenerateMembersByName(from, to[1..], cs, bound, n);
        ValueCons(to[0], rest, n);
      } else {
        var rest := GenerateMembers(from[1..], to[1..], cs, bound);
        var shared := GenerateShared(from[0].value, to[0], cs);
        assert GenerateMembers(from, to, cs, bound) == shared + rest;
        hide GenerateMembers;
        GenerateMembersByName(from[1..], to[1..], cs, bound, n);
        if shared != [] { ValueCons(shared[0], rest, n); }
        assert shared == [] ==> shared + rest == rest;
        assert shared != [] ==> shared == [shared[0]];
      }
    }
  }

  // ---- Objects compared name by name ----

  ghost predicate SameValue(x: Option<Json>, y: Option<Json>) {
    x.Some? == y.Some? && (x.Some? ==> Equal(x.value, y.value, true))
  }

  lemma EqualByName(a: seq<Member>, b: seq<Member>, n: cstring)
    requires Distinct(b, NameOf, true) && Distinct(a, NameOf, true) && Equal(Object(a), Object(b), true)
    ensures SameValue(ValueOf(a, n), ValueOf(b, n))
  {
    hide Lookup, Equal;
    if ValueOf(a, n).Some? {
      var i := ValueSome(a, n);
      var j := EqualMember(a, b, true, i);
      ValueAt(b, j);
    } else if ValueOf(b, n).Some? {
      var j := ValueSome(b, n);
      var i := EqualMemberBack(a, b, true, j);
      ValueAt(a, i);
    }
  }

  lemma ByNameEqual(a: seq<Member>, b: seq<Member>)
    requires Distinct(a, NameOf, true) && Distinct(b, NameOf, true)
    requires forall n :: SameValue(ValueOf(a, n), ValueOf(b, n))
    ensures Equal(Object(a), Object(b), true)
  {
    hide Lookup, Equal;
    forall i | 0 <= i < |a|
      ensures Matched(a[i], b, true)
    {
      ValueAt(a, i);
      assert SameValue(ValueOf(a, a[i].name), ValueOf(b, a[i].name));
      var j := ValueSome(b, a[i].name);
    }
    forall j | 0 <= j < |b|
      ensures MatchedBy(a, b[j], true)
    {
      ValueAt(b, j);
      assert SameValue(ValueOf(a, b[j].name), ValueOf(b, b[j].name));
      var i := ValueSome(a, b[j].name);
    }
    EqualObjects(a, b, true);
  }

  lemma ValueSorted(members: seq<Member>, cs: bool, n: cstring)
    requires Distinct(members, NameOf, true)
    ensures ValueOf(Sort(members, NameOf, cs), n) == ValueOf(members, n)
  {
    hide Lookup, Sort, Distinct;
    var s := Sort(members, NameOf, cs);
    SortPermutes(members, NameOf, cs);
    DistinctPermuted(members, s, NameOf, true);
    if ValueOf(members, n).Some? {
      var i := ValueSome(members, n);
      var k := SortedAt(members, NameOf, cs, i);
      ValueAt(s, k);
    } else if ValueOf(s, n).Some? {
      var k := ValueSome(s, n);
      var i := SortedFrom(members, NameOf, cs, k);
      ValueAt(members, i);
    }
  }

  // ---- Which documents a merge patch can lead to ----

  /** No object member is null, outside arrays. */
  predicate NoNulls(j: Json) {
    j.Object? ==> forall i :: 0 <= i < |j.members| ==> !j.members[i].value.Null? && NoNulls(j.members[i].value)
  }

  /** What a member of the goal demands: a null must have been there, and a new value must be free
      of nulls. */
  predicate RepresentableMember(from: Option<Json>, goal: Json)
    decreases goal, 1
  {
    if goal.Null? then from == Some(Null)
    else if from.None? then NoNulls(goal)
    else Representable(from.value, goal)
  }

  /** The condition under which a merge patch can lead from one document to the other. */
  predicate Representable(from: Json, goal: Json)
    decreases goal, 0
  {
    goal.Object? ==>
      if !from.Object? then NoNulls(goal)
      else forall i :: 0 <= i < |goal.members| ==>
             RepresentableMember(ValueOf(from.members, goal.members[i].name), goal.members[i].value)
  }

  lemma {:induction false} EqualRepresentable(from: Json, goal: Json)
    requires Equal(from, goal, true) && DistinctNames(from, true) && DistinctNames(goal, true)
    ensures Representable(from, goal)
    decreases goal
  {
    hide Lookup, SameKey;
    if goal.Object? {
      forall i | 0 <= i < |goal.members|
        ensures RepresentableMember(ValueOf(from.members, goal.members[i].name), goal.members[i].value)
      {
        var n := goal.members[i].name;
        EqualByName(from.members, goal.members, n);
        ValueAt(goal.members, i);
        MemberValue(from, n);
        EqualRepresentable(ValueOf(from.members, n).value, goal.members[i].value);
      }
    }
  }

  lemma MemberValue(j: Json, n: cstring)
    requires j.Object? && ValueOf(j.members, n).Some?
    ensures forall cs :: DistinctNames(j, cs) ==> DistinctNames(ValueOf(j.members, n).value, cs)
    ensures Size(ValueOf(j.members, n).value) <= MembersSize(j.members)
  {
    hide Lookup;
    var i := ValueSome(j.members, n);
    MemberSmaller(j.members, j.members[i]);
  }

  /** The names of the generated patch are names of the documents, each at most once. */
  lemma NamesOfGenerated(from: seq<Member>, goal: seq<Member>, cs: bool, bound: nat)
    requires Ascending(from, NameOf, true) && Ascending(goal, NameOf, true)
    requires forall i :: 0 <= i < |goal| ==> Size(goal[i].value) <= bound
    ensures var p := GenerateMembers(from, goal, cs, bound);
            && Distinct(p, NameOf, true)
            && forall k :: 0 <= k < |p| ==> HasName(from, p[k].name) || HasName(goal, p[k].name)
    decreases |from| + |goal|
  {
    hide Lookup, Ascending, CompareSorted, Generate;
    if from != [] || goal != [] {
      var diff := if from == [] then 1 else if goal == [] then -1 else StrCmp(from[0].name, goal[0].name);
      if from != [] { TailByName(from, from[0].name); }
      if goal != [] { TailByName(goal, goal[0].name); }
      if from != [] && goal != [] {
        StrCmpAntisymmetric(from[0].name, goal[0].name);
        StrCmpZero(from[0].name, goal[0].name);
      }
      var f, t := if diff <= 0 then from[1..] else from, if diff >= 0 then goal[1..] else goal;
      var m := if diff < 0 then [Member(from[0].name, Null)] else if diff > 0 then [goal[0]]
               else GenerateShared(from[0].value, goal[0], cs);
      var rest := GenerateMembers(f, t, cs, bound);
      assert GenerateMembers(from, goal, cs, bound) == m + rest;
      hide GenerateMembers;
      NamesOfGenerated(f, t, cs, bound);
      TailNames(from, f);
      TailNames(goal, t);
      if m == [] {
        assert m + rest == rest;
      } else {
        var n := m[0].name;
        assert m == [m[0]];
        if diff < 0 { AboveHead(n, goal); }
        if diff > 0 { AboveHead(n, from); }
        GenerateMembersByName(f, t, cs, bound, n);
        DistinctCons(m[0], rest);
        assert if diff <= 0 then from[0].name == n else goal[0].name == n;
      }
    }
  }

  lemma TailNames(all: seq<Member>, tail: seq<Member>)
    requires tail == all || (all != [] && tail == all[1..])
    ensures forall n :: HasName(tail, n) ==> HasName(all, n)
  {
    forall n | HasName(tail, n)
      ensures HasName(all, n)
    {
      var i :| 0 <= i < |tail| && tail[i].name == n;
      assert all[if tail == all then i else i + 1].name == n;
    }
  }

  lemma DistinctCons(m: Member, rest: seq<Member>)
    requires Distinct(rest, NameOf, true) && ValueOf(rest, m.name) == None
    ensures Distinct([m] + rest, NameOf, true)
  {
    hide Lookup;
    ValueNone(rest, m.name);
    var all := [m] + rest;
    forall i, j | 0 <= i < j < |all|
      ensures !SameKey(NameOf(all[i]), NameOf(all[j]), true)
    {
      assert all[j] == rest[j - 1];
      if i > 0 {
        assert all[i] == rest[i - 1];
        assert !SameKey(NameOf(rest[i - 1]), NameOf(rest[j - 1]), true);
      }
    }
  }

  /** Merging where there is no object yet gives the patch, unless a null asks for a removal. */
  lemma {:induction false} MergeFresh(own: Option<Json>, v: Json, m: bool)
    requires DistinctNames(v, m) && (own.Some? ==> !own.value.Object?)
    ensures Equal(MergeInto(own, v, m), v, true) <==> NoNulls(v)
    decreases Size(v)
  {
    hide Lookup, SameKey, Equal, MergeMembers;
    EqualReflexive(v, true);
    if v.Object? {
      var r := MergeMembers([], v.members, m);
      MergeMembersExactly([], v.members, m, []);
      DistinctExactly(v.members, m);
      forall n
        ensures SameValue(ValueOf(r, n), ValueOf(v.members, n))
                <==> (ValueOf(v.members, n).Some? ==> var w := ValueOf(v.members, n).value; !w.Null? && NoNulls(w))
      {
        MergeMembersExactly([], v.members, m, n);
        ValueNone([], n);
        if ValueOf(v.members, n).Some? {
          MemberValue(v, n);
          MergeFresh(None, ValueOf(v.members, n).value, m);
        }
      }
      NullsByName(v.members);
      NamesDecide(r, v.members);
    }
  }

  lemma NullsByName(members: seq<Member>)
    requires Distinct(members, NameOf, true)
    ensures NoNulls(Object(members))
            <==> forall n :: ValueOf(members, n).Some? ==> var w := ValueOf(members, n).value; !w.Null? && NoNulls(w)
  {
    hide Lookup;
    forall i | 0 <= i < |members|
      ensures ValueOf(members, members[i].name) == Some(members[i].value)
    {
      ValueAt(members, i);
    }
    forall n | ValueOf(members, n).Some?
      ensures exists i :: 0 <= i < |members| && ValueOf(members, n) == Some(members[i].value)
    {
      var i := ValueSome(members, n);
    }
  }

  /** Objects are equal exactly when they hold the same under every name. */
  lemma NamesDecide(a: seq<Member>, b: seq<Member>)
    requires Distinct(a, NameOf, true) && Distinct(b, NameOf, true)
    ensures Equal(Object(a), Object(b), true) <==> forall n :: SameValue(ValueOf(a, n), ValueOf(b, n))
  {
    hide Lookup, Equal, Distinct, ValueOf, SameValue;
    if Equal(Object(a), Object(b), true) {
      forall n ensures SameValue(ValueOf(a, n), ValueOf(b, n)) { EqualByName(a, b, n); }
    }
    if forall n :: SameValue(ValueOf(a, n), ValueOf(b, n)) {
      ByNameEqual(a, b);
    }
  }

  /** The sorted objects generate_merge_patch walks, and the patch it builds from them. */
  function Generated(from: seq<Member>, goal: seq<Member>, g: bool): seq<Member> {
    SortedMembersSmaller(goal, g);
    GenerateMembers(Sort(from, NameOf, g), Sort(goal, NameOf, g), g, MembersSize(goal))
  }

  lemma GenerateDirect(from: Json, goal: Json, g: bool)
    ensures Generate(from, goal, g) ==
            if !goal.Object? || !from.Object? then Some(goal)
            else var p := Generated(from.members, goal.members, g); if p == [] then None else Some(Object(p))
  {
    hide GenerateMembers, Sort;
  }

  lemma GeneratedByName(from: Json, goal: Json, g: bool, n: cstring)
    requires from.Object? && goal.Object? && Walkable(from, goal, g) && DistinctNames(from, true) &&
             DistinctNames(goal, true)
    ensures ValueOf(Generated(from.members, goal.members, g), n) ==
            GeneratedValue(ValueOf(from.members, n), ValueOf(goal.members, n), g)
  {
    hide Sort, Lookup, Ascending, GenerateMembers, GeneratedValue, Agree;
    SortedAscending(from.members, g);
    SortedAscending(goal.members, g);
    SortedMembersSmaller(goal.members, g);
    var s, t := Sort(from.members, NameOf, g), Sort(goal.members, NameOf, g);
    GenerateMembersByName(s, t, g, MembersSize(goal.members), n);
    ValueSorted(from.members, g, n);
    ValueSorted(goal.members, g, n);
  }

  lemma GeneratedNames(from: Json, goal: Json, g: bool)
    requires from.Object? && goal.Object? && Walkable(from, goal, g) && DistinctNames(from, true) &&
             DistinctNames(goal, true)
    ensures var p := Generated(from.members, goal.members, g);
            && Distinct(p, NameOf, true)
            && forall k :: 0 <= k < |p| ==> HasName(from.members, p[k].name) || HasName(goal.members, p[k].name)
  {
    hide Sort, Ascending, GenerateMembers, Agree, HasName;
    SortedAscending(from.members, g);
    SortedAscending(goal.members, g);
    SortedMembersSmaller(goal.members, g);
    NamesOfGenerated(Sort(from.members, NameOf, g), Sort(goal.members, NameOf, g), g, MembersSize(goal.members));
    SortedNames(from.members, g);
    SortedNames(goal.members, g);
  }

  lemma SortedNames(members: seq<Member>, g: bool)
    ensures forall n :: HasName(Sort(members, NameOf, g), n) ==> HasName(members, n)
  {
    hide Sort;
    forall n | HasName(Sort(members, NameOf, g), n)
      ensures HasName(members, n)
    {
      var k :| 0 <= k < |Sort(members, NameOf, g)| && Sort(members, NameOf, g)[k].name == n;
      var i := SortedFrom(members, NameOf, g, k);
    }
  }

  /** The values of a member of both documents. */
  lemma SharedWalkable(from: Json, goal: Json, g: bool, n: cstring)
    requires from.Object? && goal.Object? && Walkable(from, goal, g)
    requires ValueOf(from.members, n).Some? && ValueOf(goal.members, n).Some?
    ensures Walkable(ValueOf(from.members, n).value, ValueOf(goal.members, n).value, false)
    ensures g || Uniform(ValueOf(from.members, n).value, ValueOf(goal.members, n).value)
  {
    hide Lookup, Agree;
    var i := ValueSome(from.members, n);
    var j := ValueSome(goal.members, n);
  }

  /** No patch is generated exactly when both documents are objects and equal. */
  lemma {:induction false} NoPatchIffEqual(from: Json, goal: Json, g: bool)
    requires DistinctNames(from, true) && DistinctNames(goal, true) && Walkable(from, goal, g)
    ensures Generate(from, goal, g).None? <==> from.Object? && goal.Object? && Equal(from, goal, true)
    decreases Size(goal)
  {
    hide Lookup, Sort, Equal, Generated, CompareSorted, GenerateMembers, Generate, Walkable, Uniform;
    GenerateDirect(from, goal, g);
    if from.Object? && goal.Object? {
      var p := Generated(from.members, goal.members, g);
      forall n
        ensures ValueOf(p, n) == None <==> SameValue(ValueOf(from.members, n), ValueOf(goal.members, n))
      {
        GeneratedByName(from, goal, g, n);
        if ValueOf(from.members, n).Some? && ValueOf(goal.members, n).Some? {
          var v, w := ValueOf(from.members, n).value, ValueOf(goal.members, n).value;
          MemberValue(from, n);
          MemberValue(goal, n);
          SharedWalkable(from, goal, g, n);
          CompareUniform(v, w, g);
          NoPatchIffEqual(v, w, false);
        }
      }
      EmptyByName(p);
      NamesDecide(from.members, goal.members);
    }
  }

  /** A member of both documents gets a patch exactly when its values differ. */
  lemma SharedPatchedIff(from: Json, to: Member, g: bool)
    requires DistinctNames(from, true) && DistinctNames(to.value, true)
    requires Walkable(from, to.value, false) && (g || Uniform(from, to.value))
    ensures GenerateShared(from, to, g) != [] <==> !Equal(from, to.value, true)
  {
    hide CompareSorted, Generate, Equal, Walkable, Uniform;
    CompareUniform(from, to.value, g);
    NoPatchIffEqual(from, to.value, false);
  }

  lemma EmptyByName(p: seq<Member>)
    ensures p == [] <==> forall n :: ValueOf(p, n) == None
  {
    if p != [] {
      hide Lookup;
      ValueNone(p, p[0].name);
    }
  }

  /** What a caller gets who applies the generated patch, or nothing when there is none. */
  function Updated(from: Json, goal: Json, g: bool, m: bool): Json {
    match Generate(from, goal, g)
    case None => from
    case Some(patch) => MergeInto(Some(from), patch, m)
  }

  /** What a merge without regard to case asks of two objects: no two of their names differ in case
      only. */
  predicate Mergeable(from: Json, goal: Json, m: bool) {
    from.Object? && goal.Object? ==>
      && Distinct(from.members, NameOf, m) && Distinct(goal.members, NameOf, m)
      && ClearOf(from.members, goal.members, m) && ClearOf(goal.members, from.members, m)
  }

  lemma UniformMergeable(from: Json, goal: Json, m: bool)
    requires Walkable(from, goal, false) && DistinctNames(from, true) && DistinctNames(goal, true)
    ensures Mergeable(from, goal, m)
  {
    hide Key, Agree, Sort;
    if from.Object? && goal.Object? {
      assert from.members == from.members && NamesAgree(from.members, from.members) &&
             NamesAgree(goal.members, goal.members);
      if m {
        forall n, i | 0 <= i < |from.members| && SameKey(n, from.members[i].name, true)
          ensures n == from.members[i].name
        {
          EqualKeys(n, from.members[i].name);
        }
        forall n, i | 0 <= i < |goal.members| && SameKey(n, goal.members[i].name, true)
          ensures n == goal.members[i].name
        {
          EqualKeys(n, goal.members[i].name);
        }
      } else {
        SortedAscending(from.members, false);
        SortedAscending(goal.members, false);
        forall i, j | 0 <= i < |from.members| && 0 <= j < |goal.members|
          ensures SameKey(from.members[i].name, goal.members[j].name, false) <==>
                  from.members[i].name == goal.members[j].name
          ensures SameKey(goal.members[j].name, from.members[i].name, false) <==>
                  from.members[i].name == goal.members[j].name
        {
          AgreeOnSame(from.members[i].name, goal.members[j].name);
          SameKeySymmetric(from.members[i].name, goal.members[j].name, false);
        }
      }
    }
  }

  /** The patch does not mix names up that the documents keep apart. */
  lemma PatchMergeable(from: Json, goal: Json, g: bool, m: bool)
    requires from.Object? && goal.Object? && Walkable(from, goal, g) && DistinctNames(from, true) &&
             DistinctNames(goal, true)
    requires Mergeable(from, goal, m)
    ensures var p := Generated(from.members, goal.members, g);
            Distinct(p, NameOf, m) && ClearOf(from.members, p, m) && ClearOf(p, from.members, m)
  {
    hide Key, Generated, Walkable;
    var p := Generated(from.members, goal.members, g);
    GeneratedNames(from, goal, g);
    DistinctClear(from.members, m);
    DistinctClear(goal.members, m);
    forall x, y | (HasName(from.members, x) || HasName(goal.members, x)) &&
           (HasName(from.members, y) || HasName(goal.members, y))
      ensures SameKey(x, y, m) ==> x == y
    {}
    forall i, j | 0 <= i < j < |p|
      ensures !SameKey(NameOf(p[i]), NameOf(p[j]), m)
    {
      assert !SameKey(NameOf(p[i]), NameOf(p[j]), true);
      EqualKeys(p[i].name, p[j].name);
    }
    forall i | 0 <= i < |from.members| ensures HasName(from.members, from.members[i].name) {}
  }

  /** Applying the generated patch leads to the goal exactly when the goal is representable. */
  lemma {:induction false} MergeRoundTrip(from: Json, goal: Json, g: bool, m: bool)
    requires DistinctNames(from, true) && DistinctNames(goal, true) && DistinctNames(goal, m)
    requires Walkable(from, goal, g) && Mergeable(from, goal, m)
    ensures Equal(Updated(from, goal, g, m), goal, true) <==> Representable(from, goal)
    decreases Size(goal), 1
  {
    hide Lookup, Sort, Equal, Generated, CompareSorted, GenerateMembers, MergeMembers, NoNulls, Generate, Walkable;
    hide Mergeable;
    NoPatchIffEqual(from, goal, g);
    GenerateDirect(from, goal, g);
    if !goal.Object? {
      EqualReflexive(goal, true);
    } else if !from.Object? {
      MergeFresh(Some(from), goal, m);
    } else if Equal(from, goal, true) {
      EqualRepresentable(from, goal);
    } else {
      MergeObjects(from, goal, g, m);
    }
  }

  lemma {:induction false} MergeObjects(from: Json, goal: Json, g: bool, m: bool)
    requires DistinctNames(from, true) && DistinctNames(goal, true) && DistinctNames(goal, m)
    requires Walkable(from, goal, g) && Mergeable(from, goal, m)
    requires from.Object? && goal.Object? && Generate(from, goal, g).Some?
    ensures Equal(Updated(from, goal, g, m), goal, true) <==> Representable(from, goal)
    decreases Size(goal), 0
  {
    hide Lookup, Sort, Equal, Generated, CompareSorted, GenerateMembers, MergeMembers, NoNulls, Generate, Walkable;
    hide Uniform;
    GenerateDirect(from, goal, g);
    var p := Generated(from.members, goal.members, g);
    var r := MergeMembers(from.members, p, m);
    assert Updated(from, goal, g, m) == Object(r);
    PatchMergeable(from, goal, g, m);
    MergeMembersExactly(from.members, p, m, []);
    forall n
      ensures SameValue(ValueOf(r, n), ValueOf(goal.members, n)) <==> NameRepresentable(from.members, goal.members, n)
    {
      GeneratedByName(from, goal, g, n);
      MergeMembersExactly(from.members, p, m, n);
      if ValueOf(goal.members, n).Some? {
        MemberValue(goal, n);
        if ValueOf(from.members, n).Some? {
          MemberValue(from, n);
          SharedWalkable(from, goal, g, n);
        }
        MergeMember(ValueOf(from.members, n), ValueOf(goal.members, n).value, g, m);
      }
    }
    NamesDecide(r, goal.members);
    RepresentableByName(from, goal);
  }

  ghost predicate NameRepresentable(from: seq<Member>, goal: seq<Member>, n: cstring) {
    ValueOf(goal, n).Some? ==> RepresentableMember(ValueOf(from, n), ValueOf(goal, n).value)
  }

  lemma RepresentableByName(from: Json, goal: Json)
    requires from.Object? && goal.Object? && Distinct(goal.members, NameOf, true)
    ensures Representable(from, goal) <==> forall n :: NameRepresentable(from.members, goal.members, n)
  {
    hide Lookup;
    var t := goal.members;
    if Representable(from, goal) {
      forall n ensures NameRepresentable(from.members, t, n) {
        if ValueOf(t, n).Some? { var i := ValueSome(t, n); }
      }
    }
    if forall n :: NameRepresentable(from.members, t, n) {
      forall i | 0 <= i < |t|
        ensures RepresentableMember(ValueOf(from.members, t[i].name), t[i].value)
      {
        ValueAt(t, i);
        assert NameRepresentable(from.members, t, t[i].name);
      }
    }
  }

  /** One member: the case a name occurs in the goal. */
  lemma {:induction false} MergeMember(own: Option<Json>, goal: Json, g: bool, m: bool)
    requires DistinctNames(goal, true) && DistinctNames(goal, m)
    requires own.Some? ==>
               && DistinctNames(own.value, true) && Walkable(own.value, goal, false)
               && (g || Uniform(own.value, goal))
    ensures SameValue(MergedValue(own, GeneratedValue(own, Some(goal), g), m), Some(goal)) <==>
            RepresentableMember(own, goal)
    decreases Size(goal), 2
  {
    hide Lookup, Sort, Equal, CompareSorted, MergeInto, NoNulls, DistinctNames, Walkable, Uniform, Mergeable;
    if own.None? {
      MergeFresh(None, goal, m);
    } else {
      CompareUniform(own.value, goal, g);
      if Equal(own.value, goal, true) {
        EqualRepresentable(own.value, goal);
        assert goal.Null? ==> own.value.Null? by { EqualKinds(own.value, goal); }
      } else {
        NoPatchIffEqual(own.value, goal, false);
        UniformMergeable(own.value, goal, m);
        MergeRoundTrip(own.value, goal, false, m);
        GenerateDirect(own.value, goal, false);
        assert goal.Null? ==> !own.value.Null? by { EqualReflexive(Null, true); }
      }
    }
  }

  lemma EqualKinds(a: Json, b: Json)
    requires Equal(a, b, true)
    ensures Kind(a) == Kind(b)
  {}

  /** Without nulls in the goal the generated patch always leads there. */
  lemma {:induction false} NoNullsRepresentable(from: Json, goal: Json)
    requires NoNulls(goal)
    ensures Representable(from, goal)
    decreases goal
  {
    hide Lookup;
    if goal.Object? && from.Object? {
      forall i | 0 <= i < |goal.members|
        ensures RepresentableMember(ValueOf(from.members, goal.members[i].name), goal.members[i].value)
      {
        var own := ValueOf(from.members, goal.members[i].name);
        if own.Some? { NoNullsRepresentable(own.value, goal.members[i].value); }
      }
    }
  }

  // ---- The comparisons have to agree ----

  /** All names of the tree are among two. */
  predicate Over(j: Json, a: cstring, b: cstring) {
    && (j.Array? ==> forall i :: 0 <= i < |j.items| ==> Over(j.items[i], a, b))
    && (j.Object? ==> forall i :: 0 <= i < |j.members| ==>
          (j.members[i].name == a || j.members[i].name == b) && Over(j.members[i].value, a, b))
  }

  function Single(name: cstring, value: Json): Json { Object([Member(name, value)]) }

  /** Comparing without regard to case takes two names for one. */
  lemma SingleCompared(a: cstring, b: cstring, x: Json, y: Json)
    requires SameKey(a, b, false)
    ensures CompareSorted(Single(a, x), Single(b, y), false) == CompareSorted(x, y, false)
  {
    hide Compare;
    CompareOrder(a, b, a, false);
    var s, t := [Member(a, x)], [Member(b, y)];
    assert Sort(s, NameOf, false) == s && Sort(t, NameOf, false) == t;
    CompareSortedObjects(s, t, false);
    assert s[0] == Member(a, x) && t[0] == Member(b, y);
  }

  lemma GenerateSingle(name: cstring, from: Json, goal: Json, g: bool)
    ensures Generate(Single(name, from), Single(name, goal), g) ==
            if GenerateShared(from, Member(name, goal), g) == [] then None
            else Some(Object(GenerateShared(from, Member(name, goal), g)))
  {
    hide StrCmp, GenerateShared;
    var s, t := [Member(name, from)], [Member(name, goal)];
    StrCmpZero(name, name);
    SortedMembersSmaller(t, g);
    assert Sort(s, NameOf, g) == s && Sort(t, NameOf, g) == t;
    assert s[1..] == [] && t[1..] == [];
    var shared := GenerateShared(from, t[0], g);
    assert GenerateMembers(s, t, g, MembersSize(t)) == shared + GenerateMembers([], [], g, MembersSize(t)) == shared;
  }

  /** Two names that differ in case only: the change from the one to the other goes unnoticed three
      levels down, in either mode. */
  lemma CaseMissed(a: cstring, b: cstring, outer: cstring, inner: cstring, g: bool)
    requires SameKey(a, b, false)
    ensures var x, y := Single(a, Number(1)), Single(b, Number(1));
            Generate(Single(outer, Single(inner, x)), Single(outer, Single(inner, y)), g) == None
  {
    hide Generate, CompareSorted, GenerateShared, Single;
    var x, y := Single(a, Number(1)), Single(b, Number(1));
    assert CompareSorted(Number(1), Number(1), false) by { NumberCompared(); }
    SingleCompared(a, b, Number(1), Number(1));
    NothingShared(x, Member(inner, y));
    GenerateSingle(inner, x, y, false);
    NothingBelow(Single(inner, x), Member(outer, Single(inner, y)), g);
    GenerateSingle(outer, Single(inner, x), Single(inner, y), g);
  }

  lemma NumberCompared()
    ensures CompareSorted(Number(1), Number(1), false)
  {}

  lemma NothingShared(from: Json, to: Member)
    requires CompareSorted(from, to.value, false)
    ensures GenerateShared(from, to, false) == []
  {}

  lemma NothingBelow(from: Json, to: Member, g: bool)
    requires Generate(from, to.value, false) == None
    ensures GenerateShared(from, to, g) == []
  {}

  /** Two names the comparisons order differently: the walk runs past the second. */
  lemma OrderMissed(a: cstring, b: cstring)
    requires Compare(a, b, false) < 0 && StrCmp(a, b) > 0
    ensures var from, goal := Object([Member(a, Number(1)), Member(b, Number(1))]), Single(b, Number(1));
            Generate(from, goal, false) == Some(Object([Member(b, Number(1)), Member(a, Null), Member(b, Null)]))
  {
    hide StrCmp, Key;
    var m, n := Member(a, Number(1)), Member(b, Number(1));
    assert Ascending([m, n], NameOf, false);
    assert Sort([m, n], NameOf, false) == [m, n] && Sort([n], NameOf, false) == [n];
    assert [m, n][1..] == [n] && [n][1..] == [];
    assert MembersSize([n]) == 0;
    var p, q := Member(a, Null), Member(b, Null);
    assert GenerateMembers([n], [], false, 0) == [q] + GenerateMembers([], [], false, 0) == [q];
    assert GenerateMembers([m, n], [], false, 0) == [p] + [q] == [p, q];
    assert GenerateMembers([m, n], [n], false, 0) == [n] + [p, q] == [n, p, q];
    GenerateDirect(Object([m, n]), Object([n]), false);
  }

  /** And merging what it generates empties the object. */
  lemma OrderMerged(a: cstring, b: cstring, m: bool)
    requires !SameKey(a, b, m)
    ensures var from := Object([Member(a, Number(1)), Member(b, Number(1))]);
            MergeInto(Some(from), Object([Member(b, Number(1)), Member(a, Null), Member(b, Null)]), m) == Object([])
  {
    hide Key;
    var x, y, p, q := Member(a, Number(1)), Member(b, Number(1)), Member(a, Null), Member(b, Null);
    SameKeySymmetric(a, b, m);
    SameKeyReflexive(a, m);
    SameKeyReflexive(b, m);
    assert [y, p, q][1..] == [p, q] && [p, q][1..] == [q] && [q][1..] == [] && [x, y][1..] == [y];
    assert Lookup([y], b, m) == Some(0);
    assert Lookup([x, y], b, m) == Some(1) && Lookup([x, y], a, m) == Some(0);
    assert Without([x, y], 1) == [x] && Without([x, y], 0) == [y] && Without([y], 0) == [];
    assert [x] + [y] == [x, y];
    assert MergeMembers([y], [q], m) == MergeMembers([], [], m) == [];
    assert MergeMembers([x, y], [p, q], m) == MergeMembers([y], [q], m);
    assert MergeMembers([x, y], [y, p, q], m) == MergeMembers([x, y], [p, q], m);
  }

  lemma MergeSingle(name: cstring, from: Json, patch: Json, m: bool)
    requires !patch.Null?
    ensures MergeInto(Some(Single(name, from)), Single(name, patch), m) == Single(name, MergeInto(Some(from), patch, m))
  {
    hide Key;
    var s, p := [Member(name, from)], [Member(name, patch)];
    SameKeyReflexive(name, m);
    assert Lookup(s, name, m) == Some(0) && Without(s, 0) == [] && p[1..] == [];
    var r := [Member(name, MergeInto(Some(from), patch, m))];
    assert [] + r == r;
    assert MergeMembers(s, p, m) == MergeMembers(r, [], m) == r;
  }

  lemma OrderBreaks(a: cstring, b: cstring, g: bool, m: bool)
    requires Compare(a, b, false) < 0 && StrCmp(a, b) > 0
    ensures var from, goal := Object([Member(a, Number(1)), Member(b, Number(1))]), Single(b, Number(1));
            && DistinctNames(from, false) && DistinctNames(goal, false)
            && !Equal(Updated(Single(a, from), Single(a, goal), g, m), Single(a, goal), true)
  {
    hide StrCmp, Key, Generate, CompareSorted, MergeInto, Single, Equal;
    var from, goal := Object([Member(a, Number(1)), Member(b, Number(1))]), Single(b, Number(1));
    OrderMissed(a, b);
    CompareOrder(a, b, a, false);
    StrCmpZero(a, b);
    EqualKeys(a, b);
    OrderMerged(a, b, m);
    var patch := Generate(from, goal, false).value;
    GenerateSingle(a, from, goal, g);
    SizesCompared(from.members, [Member(b, Number(1))], g);
    SingleIs(b, Number(1));
    assert Generate(Single(a, from), Single(a, goal), g) == Some(Single(a, patch)) by { SingleIs(a, patch); }
    MergeSingle(a, from, patch, m);
    EmptyDiffers(a, b);
    DistinctPair(a, b);
  }

  lemma SingleIs(name: cstring, value: Json)
    ensures Object([Member(name, value)]) == Single(name, value)
  {}

  lemma SizesCompared(members: seq<Member>, goal: seq<Member>, g: bool)
    requires |goal| != |members|
    ensures !CompareSorted(Object(members), Object(goal), g)
  {
    CompareSortedObjects(members, goal, g);
  }

  lemma EmptyDiffers(a: cstring, b: cstring)
    ensures !Equal(Single(a, Object([])), Single(a, Single(b, Number(1))), true)
  {
    if Equal(Single(a, Object([])), Single(a, Single(b, Number(1))), true) {
      var i := EqualMember([Member(a, Object([]))], [Member(a, Single(b, Number(1)))], true, 0);
      var j := EqualMemberBack([], [Member(b, Number(1))], true, 0);
    }
  }

  lemma DistinctPair(a: cstring, b: cstring)
    requires !SameKey(a, b, false)
    ensures DistinctNames(Object([Member(a, Number(1)), Member(b, Number(1))]), false) &&
            DistinctNames(Single(b, Number(1)), false)
  {
    assert DistinctNames(Number(1), false);
  }

  lemma SingleDiffers(name: cstring, x: Json, y: Json)
    requires !Equal(x, y, true)
    ensures !Equal(Single(name, x), Single(name, y), true)
  {
    if Equal(Single(name, x), Single(name, y), true) {
      var j := EqualMember([Member(name, x)], [Member(name, y)], true, 0);
    }
  }

  lemma OtherNameDiffers(a: cstring, b: cstring)
    requires a != b
    ensures !Equal(Single(a, Number(1)), Single(b, Number(1)), true)
  {
    if Equal(Single(a, Number(1)), Single(b, Number(1)), true) {
      var j := EqualMember([Member(a, Number(1))], [Member(b, Number(1))], true, 0);
    }
  }

  lemma CaseBreaks(a: cstring, b: cstring, g: bool, m: bool)
    requires SameKey(a, b, false) && a != b
    ensures var from, goal := Single(a, Single(a, Single(a, Number(1)))), Single(a, Single(a, Single(b, Number(1))));
            !Equal(Updated(from, goal, g, m), goal, true)
  {
    hide Key, Generate, Equal, Single;
    CaseMissed(a, b, a, a, g);
    OtherNameDiffers(a, b);
    SingleDiffers(a, Single(a, Number(1)), Single(b, Number(1)));
    SingleDiffers(a, Single(a, Single(a, Number(1))), Single(a, Single(b, Number(1))));
  }

  /** For any two names on which the comparisons disagree there are documents over these names,
      without nulls, for which the generated patch does not lead to the goal, in any modes. */
  lemma DisagreementBreaks(a: cstring, b: cstring, g: bool, m: bool) returns (from: Json, goal: Json)
    requires !Agree(a, b)
    ensures Over(from, a, b) && Over(goal, a, b) && NoNulls(goal)
    ensures DistinctNames(from, false) && DistinctNames(goal, false)
    ensures !Equal(Updated(from, goal, g, m), goal, true)
  {
    hide StrCmp, Key, Generate, Equal, Agree, Over, NoNulls, Single, DistinctNames, Updated;
    DisagreementCases(a, b);
    if SameKey(a, b, false) {
      from, goal := Single(a, Single(a, Single(a, Number(1)))), Single(a, Single(a, Single(b, Number(1))));
      CaseBreaks(a, b, g, m);
      NumberFacts(a, b);
      SingleFacts(a, Number(1), a, b);
      SingleFacts(b, Number(1), a, b);
      SingleFacts(a, Single(a, Number(1)), a, b);
      SingleFacts(a, Single(b, Number(1)), a, b);
      SingleFacts(a, Single(a, Single(a, Number(1))), a, b);
      SingleFacts(a, Single(a, Single(b, Number(1))), a, b);
    } else {
      var x, y := if Compare(a, b, false) < 0 then a else b, if Compare(a, b, false) < 0 then b else a;
      var pair := Object([Member(x, Number(1)), Member(y, Number(1))]);
      from, goal := Single(x, pair), Single(x, Single(y, Number(1)));
      OrderBreaks(x, y, g, m);
      NumberFacts(a, b);
      assert Over(pair, a, b) by { PairOver(x, y, a, b); }
      SingleFacts(x, pair, a, b);
      SingleFacts(y, Number(1), a, b);
      SingleFacts(x, Single(y, Number(1)), a, b);
    }
  }

  lemma NumberFacts(a: cstring, b: cstring)
    ensures Over(Number(1), a, b) && DistinctNames(Number(1), false) && NoNulls(Number(1))
  {}

  lemma SingleFacts(name: cstring, value: Json, a: cstring, b: cstring)
    requires (name == a || name == b) && Over(value, a, b) && DistinctNames(value, false)
    ensures Over(Single(name, value), a, b) && DistinctNames(Single(name, value), false)
    ensures NoNulls(value) && !value.Null? ==> NoNulls(Single(name, value))
    ensures !Single(name, value).Null?
  {}

  lemma PairOver(x: cstring, y: cstring, a: cstring, b: cstring)
    requires (x == a && y == b) || (x == b && y == a)
    ensures Over(Object([Member(x, Number(1)), Member(y, Number(1))]), a, b)
  {
    NumberFacts(a, b);
  }

  lemma DisagreementCases(a: cstring, b: cstring)
    requires !Agree(a, b)
    ensures a != b
    ensures !SameKey(a, b, false) ==>
              var x, y := if Compare(a, b, false) < 0 then a else b, if Compare(a, b, false) < 0 then b else a;
              Compare(x, y, false) < 0 && StrCmp(x, y) > 0
  {
    hide StrCmp, Key;
    StrCmpZero(a, b);
    StrCmpAntisymmetric(a, b);
    CompareOrder(a, b, a, false);
  }

  /** Agreement is needed and enough: on all documents over two names, goals without nulls are reached
      exactly when the comparisons agree on the two names. */
  lemma AgreementDecides(a: cstring, b: cstring, g: bool, m: bool)
    ensures Agree(a, b) <==>
            forall from, goal :: Over(from, a, b) && Over(goal, a, b) && NoNulls(goal) &&
                                 DistinctNames(from, false) && DistinctNames(goal, false) ==>
                                   Equal(Updated(from, goal, g, m), goal, true)
  {
    hide Agree, Over, Equal, Updated, NoNulls, DistinctNames;
    if Agree(a, b) {
      forall from, goal | Over(from, a, b) && Over(goal, a, b) && NoNulls(goal) &&
                          DistinctNames(from, false) && DistinctNames(goal, false)
        ensures Equal(Updated(from, goal, g, m), goal, true)
      {
        OverUniform(from, goal, a, b);
        DistinctBoth(from);
        DistinctBoth(goal);
        UniformWalkable(from, goal, g);
        UniformWalkable(from, goal, false);
        UniformMergeable(from, goal, m);
        NoNullsRepresentable(from, goal);
        assert DistinctNames(goal, m) by { if !m { assert DistinctNames(goal, false); } }
        MergeRoundTrip(from, goal, g, m);
      }
    } else {
      var from, goal := DisagreementBreaks(a, b, g, m);
    }
  }

  lemma UniformWalkable(from: Json, goal: Json, g: bool)
    requires Uniform(from, goal)
    ensures Walkable(from, goal, g)
  {
    hide Agree;
  }

  lemma {:induction false} DistinctBoth(j: Json)
    requires DistinctNames(j, false)
    ensures DistinctNames(j, true)
    decreases j
  {
    if j.Array? {
      forall i | 0 <= i < |j.items| ensures DistinctNames(j.items[i], true) { DistinctBoth(j.items[i]); }
    } else if j.Object? {
      DistinctExactly(j.members, false);
      forall i | 0 <= i < |j.members|
        ensures DistinctNames(j.members[i].value, true)
      {
        DistinctBoth(j.members[i].value);
      }
    }
  }

  lemma {:induction false} OverUniform(x: Json, y: Json, a: cstring, b: cstring)
    requires Over(x, a, b) && Over(y, a, b) && Agree(a, b)
    ensures Uniform(x, y)
    decreases x
  {
    hide Agree;
    AgreeSymmetric(a, b);
    AgreeReflexive(a);
    AgreeReflexive(b);
    if x.Array? && y.Array? {
      forall i | 0 <= i < |x.items| && i < |y.items| ensures Uniform(x.items[i], y.items[i]) {
        OverUniform(x.items[i], y.items[i], a, b);
      }
    } else if x.Object? && y.Object? {
      forall i, j | 0 <= i < |x.members| && 0 <= j < |y.members| && x.members[i].name == y.members[j].name
        ensures Uniform(x.members[i].value, y.members[j].value)
      {
        OverUniform(x.members[i].value, y.members[j].value, a, b);
      }
    }
  }

  lemma AgreeReflexive(a: cstring)
    ensures Agree(a, a)
  {
    hide StrCmp, Key;
    StrCmpZero(a, a);
    CompareOrder(a, a, a, false);
  }

  // ---- Upper case ----

  /** {"a":1} to {"A":1}: the patch adds "A" and removes "a", and without case both are one name. */
  lemma UpperCaseBreaks()
    ensures var from, goal := Object([Member([97], Number(1))]), Object([Member([65], Number(1))]);
            && Generate(from, goal, false) == Some(Object([Member([65], Number(1)), Member([97], Null)]))
            && Updated(from, goal, false, false) == Object([])
  {
    var a, b := Member([97], Number(1)), Member([65], Number(1));
    var add, remove := Member([65], Number(1)), Member([97], Null);
    assert Sort([a], NameOf, false) == [a] && Sort([b], NameOf, false) == [b];
    assert StrCmp(a.name, b.name) > 0;
    assert [a][1..] == [] && [b][1..] == [] && [add, remove][1..] == [remove] && [remove][1..] == [];
    assert MembersSize([b]) == 0;
    assert GenerateMembers([a], [], false, 0) == [remove] + GenerateMembers([], [], false, 0);
    assert GenerateMembers([a], [b], false, 0) == [b] + GenerateMembers([a], [], false, 0);
    assert [b] + ([remove] + []) == [add, remove];
    GenerateDirect(Object([a]), Object([b]), false);
    UpperCaseMerge();
  }

  lemma UpperCaseMerge()
    ensures var patch := Object([Member([65], Number(1)), Member([97], Null)]);
            MergeInto(Some(Object([Member([97], Number(1))])), patch, false) == Object([])
  {
    var a, add, remove := Member([97], Number(1)), Member([65], Number(1)), Member([97], Null);
    assert Fold(a.name) == [97] == Fold(add.name);
    assert [add, remove][1..] == [remove] && [remove][1..] == [];
    assert Lookup([a], add.name, false) == Some(0) && Lookup([add], remove.name, false) == Some(0);
    assert Without([a], 0) == [] && Without([add], 0) == [];
    assert [] + [add] == [add];
    assert MergeMembers([add], [remove], false) == MergeMembers([], [], false);
    assert MergeMembers([a], [add, remove], false) == MergeMembers([add], [remove], false);
  }
}
