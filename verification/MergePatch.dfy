/**
  JSON Merge Patch, RFC 7396: applying a merge patch and generating one from two documents.
  
  Members are looked up, removed and appended as the code does it; the lemmas about `ValueOf` see a list
  of members with distinct names as a finite map, in which the laws of the patches are then proved.
*/
module MergePatch {
  import opened CTypes
  import opened Names
  import opened Sorting
  import opened Json
  import opened JsonPointer
  import opened JsonPatch

  /** merge_patch; a target that does not exist is None. */
  function MergeInto(target: Option<Json>, patch: Json, cs: bool): Json
    decreases Size(patch), 0
  {
    if !patch.Object? then patch
    else
      var base := if target.Some? && target.value.Object? then target.value.members else [];
      Object(MergeMembers(base, patch.members, cs))
  }

  /** Its loop over the members of the patch. */
  function MergeMembers(members: seq<Member>, patch: seq<Member>, cs: bool): seq<Member>
    decreases MembersSize(patch), 1 + |patch|
  {
    if patch == [] then members
    else
      var p, rest := patch[0], DeleteMember(members, patch[0].name, cs);
      if p.value.Null? then MergeMembers(rest, patch[1..], cs)
      else MergeMembers(rest + [Member(p.name, MergeInto(GetMember(Object(members), p.name, cs), p.value, cs))],
                        patch[1..], cs)
  }

  /** generate_merge_patch; None when no patch is generated. The comparison of names below ignores
      the mode, and the recursion always ignores case. */
  function Generate(from: Json, to: Json, cs: bool): Option<Json>
    decreases Size(to), 0
  {
    if !to.Object? || !from.Object? then Some(to)
    else
      SortedMembersSmaller(to.members, cs);
      var patch := GenerateMembers(Sort(from.members, NameOf, cs), Sort(to.members, NameOf, cs), cs,
                                   MembersSize(to.members));
      if patch == [] then None else Some(Object(patch))
  }

  function GenerateMembers(from: seq<Member>, to: seq<Member>, cs: bool, ghost bound: nat): seq<Member>
    requires forall i :: 0 <= i < |to| ==> Size(to[i].value) <= bound
    decreases bound, 1 + |from| + |to|
  {
    if from == [] && to == [] then []
    else
      var diff := if from == [] then 1 else if to == [] then -1 else StrCmp(from[0].name, to[0].name);
      if diff < 0 then [Member(from[0].name, Null)] + GenerateMembers(from[1..], to, cs, bound)
      else if diff > 0 then [to[0]] + GenerateMembers(from, to[1..], cs, bound)
      else GenerateShared(from[0].value, to[0], cs) + GenerateMembers(from[1..], to[1..], cs, bound)
  }

  /** The member of the patch, if any, for a member of both objects. */
  function GenerateShared(from: Json, to: Member, cs: bool): (r: seq<Member>)
    ensures |r| <= 1
    decreases Size(to.value), 1
  {
    if CompareSorted(from, to.value, cs) then []
    else
      match Generate(from, to.value, false)
      case None => []
      case Some(patch) => [Member(to.name, patch)]
  }

  // ---- Lists of members with distinct names, as finite maps ----

  /** What a list of members holds under a name, in the given case mode. */
  function ValueIn(members: seq<Member>, name: cstring, cs: bool): Option<Json> {
    GetMember(Object(members), name, cs)
  }

  function ValueOf(members: seq<Member>, name: cstring): Option<Json> {
    ValueIn(members, name, true)
  }

  lemma InNone(members: seq<Member>, name: cstring, cs: bool)
    ensures ValueIn(members, name, cs) == None <==> forall i :: 0 <= i < |members| ==>
              !SameKey(name, members[i].name, cs)
  {
    hide SameKey;
    LookupFirst(members, name, cs);
  }

  lemma InSome(members: seq<Member>, name: cstring, cs: bool) returns (i: nat)
    requires ValueIn(members, name, cs).Some?
    ensures i < |members| && SameKey(name, members[i].name, cs) && ValueIn(members, name, cs) == Some(members[i].value)
  {
    LookupFirst(members, name, cs);
    i := Lookup(members, name, cs).value;
  }

  lemma InAt(members: seq<Member>, i: nat, name: cstring, cs: bool)
    requires Distinct(members, NameOf, cs) && i < |members| && SameKey(name, members[i].name, cs)
    ensures ValueIn(members, name, cs) == Some(members[i].value)
  {
    hide Key;
    LookupFirst(members, name, cs);
    DistinctIndex(members, i, Lookup(members, name, cs).value, cs);
  }

  lemma InAppend(members: seq<Member>, m: Member, name: cstring, cs: bool)
    requires Distinct(members, NameOf, cs) && ValueIn(members, m.name, cs) == None
    ensures Distinct(members + [m], NameOf, cs)
    ensures ValueIn(members + [m], name, cs) ==
            if SameKey(name, m.name, cs) then Some(m.value) else ValueIn(members, name, cs)
  {
    hide Key, Lookup;
    var all := members + [m];
    InNone(members, m.name, cs);
    assert Distinct(all, NameOf, cs);
    if SameKey(name, m.name, cs) {
      InAt(all, |members|, name, cs);
    } else if ValueIn(members, name, cs).Some? {
      var i := InSome(members, name, cs);
      assert all[i] == members[i];
      InAt(all, i, name, cs);
    } else {
      InNone(members, name, cs);
      InNone(all, name, cs);
    }
  }

  lemma InWithout(members: seq<Member>, k: nat, n: cstring, cs: bool)
    requires Distinct(members, NameOf, cs) && k < |members|
    ensures var rest := Without(members, k);
            && Distinct(rest, NameOf, cs)
            && ValueIn(rest, n, cs) == if SameKey(n, members[k].name, cs) then None else ValueIn(members, n, cs)
  {
    hide Key, Lookup;
    var rest := Without(members, k);
    forall i | 0 <= i < |rest|
      ensures rest[i] == members[if i < k then i else i + 1]
    {}
    forall i, j | 0 <= i < j < |rest|
      ensures !SameKey(NameOf(rest[i]), NameOf(rest[j]), cs)
    {
      assert !SameKey(NameOf(members[if i < k then i else i + 1]), NameOf(members[if j < k then j else j + 1]), cs);
    }
    if SameKey(n, members[k].name, cs) {
      forall i | 0 <= i < |rest|
        ensures !SameKey(n, rest[i].name, cs)
      {
        if SameKey(n, rest[i].name, cs) { DistinctIndex(members, k, if i < k then i else i + 1, cs); }
      }
      InNone(rest, n, cs);
    } else if ValueIn(members, n, cs).Some? {
      var i := InSome(members, n, cs);
      assert rest[if i < k then i else i - 1] == members[i];
      InAt(rest, if i < k then i else i - 1, n, cs);
    } else {
      InNone(members, n, cs);
      InNone(rest, n, cs);
    }
  }

  lemma InDelete(members: seq<Member>, name: cstring, n: cstring, cs: bool)
    requires Distinct(members, NameOf, cs)
    ensures var rest := DeleteMember(members, name, cs);
            && Distinct(rest, NameOf, cs)
            && ValueIn(rest, n, cs) == if SameKey(n, name, cs) then None else ValueIn(members, n, cs)
  {
    hide Lookup, Key;
    LookupFirst(members, name, cs);
    var r := Lookup(members, name, cs);
    if r.Some? {
      InWithout(members, r.value, n, cs);
    } else if SameKey(n, name, cs) {
      InNone(members, n, cs);
    }
  }

  lemma InCons(m: Member, members: seq<Member>, name: cstring, cs: bool)
    ensures ValueIn([m] + members, name, cs) ==
            if SameKey(name, m.name, cs) then Some(m.value) else ValueIn(members, name, cs)
  {
    hide SameKey;
    assert ([m] + members)[1..] == members;
  }

  // ---- The same with regard to case ----

  lemma ValueAt(members: seq<Member>, i: nat)
    requires Distinct(members, NameOf, true) && i < |members|
    ensures ValueOf(members, members[i].name) == Some(members[i].value)
  {
    InAt(members, i, members[i].name, true);
  }

  lemma ValueNone(members: seq<Member>, name: cstring)
    ensures ValueOf(members, name) == None <==> forall i :: 0 <= i < |members| ==> members[i].name != name
  {
    LookupFirst(members, name, true);
  }

  lemma ValueSome(members: seq<Member>, name: cstring) returns (i: nat)
    requires ValueOf(members, name).Some?
    ensures i < |members| && members[i].name == name && ValueOf(members, name) == Some(members[i].value)
  {
    i := InSome(members, name, true);
  }

  lemma ValueCons(m: Member, members: seq<Member>, name: cstring)
    ensures ValueOf([m] + members, name) == if m.name == name then Some(m.value) else ValueOf(members, name)
  {
    InCons(m, members, name, true);
  }

  /** No member has the name in the mode without having that very name. */
  predicate Clear(name: cstring, members: seq<Member>, cs: bool) {
    forall i :: 0 <= i < |members| && SameKey(name, members[i].name, cs) ==> name == members[i].name
  }

  lemma {:induction false} ClearValue(members: seq<Member>, name: cstring, cs: bool)
    requires Clear(name, members, cs)
    ensures ValueIn(members, name, cs) == ValueOf(members, name)
    decreases |members|
  {
    hide Key;
    if members != [] {
      var m, rest := members[0], members[1..];
      assert members == [m] + rest;
      forall i | 0 <= i < |rest| && SameKey(name, rest[i].name, cs)
        ensures name == rest[i].name
      {
        assert rest[i] == members[i + 1];
      }
      ClearValue(rest, name, cs);
      InCons(m, rest, name, cs);
      InCons(m, rest, name, true);
      SameKeyReflexive(name, cs);
      assert SameKey(name, m.name, true) <==> name == m.name by { EqualKeys(name, m.name); }
    }
  }

  lemma EqualKeys(a: cstring, b: cstring)
    ensures SameKey(a, b, true) <==> a == b
  {}

  // ---- The loops ----

  /** merge_patch. */
  method ApplyMergePatch(target: Option<Json>, patch: Json, cs: bool) returns (r: Json)
    ensures r == MergeInto(target, patch, cs)
    decreases Size(patch), 0
  {
    if !patch.Object? {
      return patch;
    }
    var members := if target.Some? && target.value.Object? then target.value.members else [];
    ghost var base := members;
    var i := 0;
    assert patch.members[0..] == patch.members;
    while i < |patch.members|
      invariant 0 <= i <= |patch.members|
      invariant MergeMembers(members, patch.members[i..], cs) == MergeMembers(base, patch.members, cs)
    {
      hide MergeInto, GetMember, DeleteMember;
      var p := patch.members[i];
      MemberSmaller(patch.members, p);
      assert patch.members[i..][1..] == patch.members[i + 1..];
      if p.value.Null? {
        members := DeleteMember(members, p.name, cs);
      } else {
        var replaced := GetMember(Object(members), p.name, cs);
        members := DeleteMember(members, p.name, cs);
        var replacement := ApplyMergePatch(replaced, p.value, cs);
        members := members + [Member(p.name, replacement)];
      }
      i := i + 1;
    }
    r := Object(members);
  }

  /** generate_merge_patch. */
  method GenerateMergePatch(from: Json, to: Json, cs: bool) returns (patch: Option<Json>)
    ensures patch == Generate(from, to, cs)
    decreases Size(to), 0
  {
    if !to.Object? || !from.Object? {
      return Some(to);
    }
    SortedMembersSmaller(to.members, cs);
    var members := GenerateSorted(Sort(from.members, NameOf, cs), Sort(to.members, NameOf, cs), cs,
                                  MembersSize(to.members));
    patch := if members == [] then None else Some(Object(members));
  }

  function Difference(from: seq<Member>, to: seq<Member>, i: nat, j: nat): int
    requires i <= |from| && j <= |to|
  {
    if i == |from| then 1 else if j == |to| then -1 else StrCmp(from[i].name, to[j].name)
  }

  /** What one step of the walk adds to the patch. */
  function GenerateStep(from: seq<Member>, to: seq<Member>, cs: bool, i: nat, j: nat): seq<Member>
    requires i <= |from| && j <= |to| && (i < |from| || j < |to|)
  {
    var diff := Difference(from, to, i, j);
    if diff < 0 then [Member(from[i].name, Null)]
    else if diff > 0 then [to[j]]
    else GenerateShared(from[i].value, to[j], cs)
  }

  lemma GenerateUnfolds(from: seq<Member>, to: seq<Member>, cs: bool, bound: nat, i: nat, j: nat)
    requires i <= |from| && j <= |to| && (i < |from| || j < |to|)
    requires forall i :: 0 <= i < |to| ==> Size(to[i].value) <= bound
    ensures var diff := Difference(from, to, i, j);
            GenerateMembers(from[i..], to[j..], cs, bound) ==
              GenerateStep(from, to, cs, i, j)
              + GenerateMembers(from[if diff <= 0 then i + 1 else i..], to[if diff >= 0 then j + 1 else j..], cs, bound)
  {
    hide GenerateShared, StrCmp;
    assert i < |from| ==> from[i..][1..] == from[i + 1..];
    assert j < |to| ==> to[j..][1..] == to[j + 1..];
  }

  lemma GenerateNothing(from: seq<Member>, to: seq<Member>, cs: bool, bound: nat)
    requires from == [] && to == []
    ensures GenerateMembers(from, to, cs, bound) == []
  {}

  method GenerateForShared(from: Json, to: Member, cs: bool) returns (patch: seq<Member>)
    ensures patch == GenerateShared(from, to, cs)
    decreases Size(to.value), 1
  {
    hide Generate, CompareSorted;
    patch := [];
    if !CompareSorted(from, to.value, cs) {
      var inner := GenerateMergePatch(from, to.value, false);
      if inner.Some? {
        patch := [Member(to.name, inner.value)];
      }
    }
  }

  /** Its loop over the sorted members of two objects. */
  method GenerateSorted(from: seq<Member>, to: seq<Member>, cs: bool, ghost bound: nat) returns (patch: seq<Member>)
    requires forall i :: 0 <= i < |to| ==> Size(to[i].value) <= bound
    ensures patch == GenerateMembers(from, to, cs, bound)
    decreases bound, 1 + |from| + |to|
  {
    hide Generate, CompareSorted, StrCmp, GenerateMembers, GenerateShared, Size;
    patch := [];
    var i, j := 0, 0;
    assert from[0..] == from && to[0..] == to;
    while i < |from| || j < |to|
      invariant 0 <= i <= |from| && 0 <= j <= |to|
      invariant patch + GenerateMembers(from[i..], to[j..], cs, bound) == GenerateMembers(from, to, cs, bound)
      decreases |from| - i + |to| - j
    {
      ghost var before, step := patch, GenerateStep(from, to, cs, i, j);
      GenerateUnfolds(from, to, cs, bound, i, j);
      var diff := if i == |from| then 1 else if j == |to| then -1 else StrCmp(from[i].name, to[j].name);
      if diff < 0 {
        patch := patch + [Member(from[i].name, Null)];
        i := i + 1;
      } else if diff > 0 {
        patch := patch + [to[j]];
        j := j + 1;
      } else {
        var shared := GenerateForShared(from[i].value, to[j], cs);
        patch := patch + shared;
        i, j := i + 1, j + 1;
      }
      assert patch == before + step;
      assert before + (step + GenerateMembers(from[i..], to[j..], cs, bound)) ==
             patch + GenerateMembers(from[i..], to[j..], cs, bound);
    }
    GenerateNothing(from[i..], to[j..], cs, bound);
    assert patch + [] == patch;
  }
}
