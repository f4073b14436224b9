/** Names that lead single patches astray. */
module JsonPatchNames {
  import opened CTypes
  import opened Names
  import opened Numerals
  import opened Sorting
  import opened Json
  import opened JsonPointer
  import opened JsonPatch
  import opened JsonPatchLaws
  import opened JsonPatchDecode
  import opened JsonPatchMisled
  import opened JsonPatchNamesakes
  import opened JsonPatchRoundTrip

  // ---- Names that differ in case only ----

  predicate FirstOfName(members: seq<Member>, k: nat)
    requires k < |members|
  {
    forall i :: 0 <= i < k ==> !SameKey(members[i].name, members[k].name, false)
  }

  /** In either mode, removing a member by its own pointer removes that member exactly when no earlier
      one has its name without regard to case. */
  lemma RemoveOwnIff(doc: Json, pointer: cstring, cs: bool, loc: Path, k: nat)
    requires LeadsTo(doc, pointer, cs, loc) && At(doc, loc).Object? && k < |At(doc, loc).members|
    requires Distinct(At(doc, loc).members, NameOf, true) && DecodeSafe(At(doc, loc).members[k].name)
    ensures var members := At(doc, loc).members;
            (Edit(doc, Compose(REMOVE, pointer, Some(members[k].name), None), cs) ==
             (Put(doc, loc, Object(Without(members, k))), 0)) <==> FirstOfName(members, k)
  {
    hide Compose, Edit, DecodeSafe, Resolve, Put, At, Key, Distinct;
    var members := At(doc, loc).members;
    LookupFirst(members, members[k].name, false);
    SameKeyReflexive(members[k].name, false);
    var i := Lookup(members, members[k].name, false).value;
    assert i <= k;
    ApplyRemoveMember(doc, pointer, cs, loc, members[k].name);
    PutAt(doc, loc, Object(Without(members, i)));
    PutAt(doc, loc, Object(Without(members, k)));
    SameKeySymmetric(members[k].name, members[i].name, false);
    if i < k {
      assert Without(members, i)[i] == members[i + 1] && Without(members, k)[i] == members[i];
      if members[i] == members[i + 1] {
        SameKeyReflexive(members[i].name, true);
        DistinctIndex(members, i, i + 1, true);
      }
    } else {
      forall l | 0 <= l < k
        ensures !SameKey(members[l].name, members[k].name, false)
      {
        SameKeySymmetric(members[l].name, members[k].name, false);
      }
    }
  }

  lemma {:induction false} NoNamesake(ms: seq<Member>, key: cstring)
    requires forall i :: 0 <= i < |ms| ==> Fold(ms[i].name) != key
    ensures Namesakes(ms, key) == []
  {
    hide Fold;
    if ms != [] {
      assert Fold(ms[0].name) != key;
      NoNamesake(ms[1..], key);
    }
  }

  lemma {:induction false} OnlyNamesake(ms: seq<Member>, m: Member)
    requires Distinct(ms, NameOf, false) && m in ms
    ensures Namesakes(ms, Fold(m.name)) == [m]
    decreases |ms|
  {
    hide Fold;
    forall a, b | 0 <= a < b < |ms| - 1
      ensures !SameKey(NameOf(ms[1..][a]), NameOf(ms[1..][b]), false)
    {
      assert !SameKey(NameOf(ms[a + 1]), NameOf(ms[b + 1]), false);
    }
    if Fold(ms[0].name) == Fold(m.name) {
      var k :| 0 <= k < |ms| && ms[k] == m;
      DistinctIndex(ms, 0, k, false);
      forall i | 0 <= i < |ms| - 1
        ensures Fold(ms[1..][i].name) != Fold(m.name)
      {
        assert !SameKey(NameOf(ms[0]), NameOf(ms[i + 1]), false);
      }
      NoNamesake(ms[1..], Fold(m.name));
    } else {
      OnlyNamesake(ms[1..], m);
    }
  }

  lemma {:induction false} OnlyNamesakesDue(from: seq<Member>, to: seq<Member>, past: seq<Member>, rest: seq<Member>,
                                            cs: bool)
    requires Distinct(from, NameOf, false) && multiset(past + rest) == multiset(from)
    ensures AllDue(from, to, past, rest, cs)
    decreases |rest|
  {
    hide Fold, Changed, Namesakes, Distinct, NoKey;
    if rest != [] {
      var m := rest[0];
      assert past + rest == (past + [m]) + rest[1..];
      assert m in past + rest;
      assert m in multiset(from);
      OnlyNamesake(from, m);
      if Changed(m, to, cs) {
        TurnsNext(past, to, m, Fold(m.name), cs);
        TurnsTotal(from, past + [m], rest[1..], to, Fold(m.name), cs);
        assert [m][..1] == [m];
      }
      OnlyNamesakesDue(from, to, past + [m], rest[1..], cs);
    }
  }

  /** Members whose names are distinct without regard to case are never mistaken for one another. */
  lemma CaselessUntangled(from: seq<Member>, to: seq<Member>, cs: bool)
    requires Distinct(from, NameOf, false)
    ensures Untangled(from, to, cs)
  {
    hide Distinct, AllDue, Sort;
    SortPermutes(from, NameOf, cs);
    assert [] + Sort(from, NameOf, cs) == Sort(from, NameOf, cs);
    OnlyNamesakesDue(from, to, [], Sort(from, NameOf, cs), cs);
  }

  /** Two names that differ in case only: removing the second takes the first. */
  lemma CaseCollisionBreaks()
    ensures var from := Object([Member([65], Number(1)), Member([97], Number(2))]);
            var to := Object([Member([65], Number(1))]);
            var (r, status) := EditAll(from, CreatePatches([], from, to, true), true);
            && DistinctNames(from, true) && Addressable(from) && DistinctNames(to, true)
            && !(status == 0 && Equal(r, to, true))
  {
    hide *;
    var m, n := Member([65], Number(1)), Member([97], Number(2));
    CollidingDocuments();
    PatchRoundTrip(Object([m, n]), Object([m]), true);
    CollidingTangled();
    ObjectPatchable([m, n], [m], true);
  }

  lemma CollidingDocuments()
    ensures var from := Object([Member([65], Number(1)), Member([97], Number(2))]);
            var to := Object([Member([65], Number(1))]);
            DistinctNames(from, true) && Addressable(from) && DistinctNames(to, true)
  {
    CollidingNames();
    assert DistinctNames(Number(1), true) && DistinctNames(Number(2), true) && Addressable(Number(1)) &&
           Addressable(Number(2));
    hide SameKey;
  }

  lemma CollidingNames()
    ensures !SameKey([65], [97], true) && !SameKey([97], [65], true) && Fold([65]) == [97] == Fold([97])
    ensures Compare([65], [97], true) < 0
  {
    var a: cstring, b: cstring := [65], [97];
    assert a[0] != b[0];
  }

  lemma CollidingTangled()
    ensures var m, n := Member([65], Number(1)), Member([97], Number(2)); !Untangled([m, n], [m], true)
  {
    hide Key, Fold, Compare, Mismatch;
    var m, n := Member([65], Number(1)), Member([97], Number(2));
    var from, to := [m, n], [m];
    CollidingNames();
    SameKeyReflexive(m.name, true);
    assert Ascending(from, NameOf, true);
    assert Sort(from, NameOf, true) == from;
    assert !Changed(m, to, true) by {
      SameNumber();
      assert SameKey(m.name, to[0].name, true) && !Mismatch(m.value, to[0].value);
    }
    assert Changed(n, to, true);
    assert from[1..] == [n] && [n][1..] == [] && [] + [m] == [m] && [m][1..] == [];
    assert Namesakes([n], [97]) == [n] && Namesakes(from, [97]) == [m] + [n];
    assert Namesakes([m], [97]) == [m];
    assert Turns([m], to, [97], true) == 0;
    assert !Due(from, to, [m], n, true);
    assert !AllDue(from, to, [m], [n], true);
    assert AllDue(from, to, [], from, true) ==> AllDue(from, to, [] + [m], [n], true);
  }

  lemma SameNumber()
    ensures !Mismatch(Number(1), Number(1))
  {}

  // ---- Names that do not survive decoding ----

  /** A single added member arrives under its own name exactly when the name survives. */
  lemma AddedNameSurvivesIff(name: cstring, value: Json, cs: bool)
    ensures var to := Object([Member(name, value)]);
            var (r, status) := EditAll(Object([]), CreatePatches([], Object([]), to, cs), cs);
            status == 0 && Equal(r, to, cs) <==> DecodeSafe(name)
  {
    var from, to := Object([]), Object([Member(name, value)]);
    var patch := Compose(ADD, [], Some(name), Some(value));
    var r := Object([Member(Decoded(name), value)]);
    assert CreatePatches([], from, to, cs) == [patch];
    assert Edit(from, patch, cs) == (r, 0) by {
      hide Encode, Compose, DecodeFrom, AddAtPath;
      ApplyComposed(from, ADD, [], Some(name), Some(value), cs);
      AddToEmpty(name, value, cs);
    }
    EditAllOne(from, patch, r, cs);
    hide Encode, DecodeFrom, DecodeSafe, Compose, Edit, CreatePatches, Key;
    DecodedKeyIff(name, cs);
    SingleEqualIff(Member(Decoded(name), value), Member(name, value), cs);
  }

  lemma SingleEqualIff(a: Member, b: Member, cs: bool)
    requires a.value == b.value
    ensures Equal(Object([a]), Object([b]), cs) <==> SameKey(a.name, b.name, cs)
  {
    hide Key, Equal;
    EqualReflexive(a.value, cs);
    EqualObjects([a], [b], cs);
    if Equal(Object([a]), Object([b]), cs) {
      var j := EqualMember([a], [b], cs, 0);
    }
    if SameKey(a.name, b.name, cs) {
      assert SameKey(a.name, [b][0].name, cs) && Equal(a.value, [b][0].value, cs);
      assert SameKey([a][0].name, b.name, cs) && Equal([a][0].value, b.value, cs);
    }
  }

  /** Decoding never changes the case of letters only. */
  lemma DecodedKeyIff(name: cstring, cs: bool)
    ensures SameKey(Decoded(name), name, cs) <==> DecodeSafe(name)
  {
    hide Encode, DecodeFrom, DecodeSafe, Fold;
    DecodeUndoesEncodeIff(name);
    DecodeUndoesEncodeIff(Fold(name));
    DecodedFold(name);
    SafeFold(name);
  }

  lemma AddToEmpty(name: cstring, value: Json, cs: bool)
    ensures AddAtPath(Object([]), [] + [SLASH] + Encode(name), value, cs) == (Object([Member(Decoded(name), value)]), 0)
  {
    hide Encode, DecodeFrom, LastSlash;
    ComposedPath([], name);
    assert Resolve(Object([]), [], cs) == Some([]);
    assert DeleteMember([], Decoded(name), cs) == [];
    assert [] + [Member(Decoded(name), value)] == [Member(Decoded(name), value)];
  }
}
