/** Runs of patches on linked documents, tests included. */
module JsonPatchRuns {
  import opened CTypes
  import opened Names
  import opened Numerals
  import opened Sorting
  import opened Json
  import opened JsonPointer
  import opened JsonPatch
  import opened JsonPatchLaws
  import opened JsonPatchOperations
  import opened JsonPatchDecode
  import opened JsonPatchMisled
  import opened JsonPatchRoundTrip
  import opened BackLinks
  import opened JsonLinks
  import opened JsonCompare
  import opened JsonPatchApply

  // ---- Created patches hold no tests ----

  lemma InsideNoTest(patch: Json, path: cstring, cs: bool)
    requires Inside(patch, path)
    ensures GetMember(patch, OP, cs) != Some(String(TEST))
  {
    hide GetMember, Compose;
    var op: cstring, rest: cstring, value: Option<Json> :|
      op in {ADD, REMOVE, REPLACE} && (op == REMOVE <==> value.None?) &&
      patch == Compose(op, path + [SLASH] + rest, None, value);
    ComposedMembers(op, path + [SLASH] + rest, None, value, cs);
  }

  lemma CreatedNoTests(path: cstring, from: Json, to: Json, cs: bool)
    ensures NoTests(CreatePatches(path, from, to, cs), cs)
  {
    hide GetMember, Compose, CreatePatches, Inside;
    var patches := CreatePatches(path, from, to, cs);
    if Mismatch(from, to) {
      MismatchPatches(path, from, to, cs);
      ComposedMembers(REPLACE, path, None, Some(to), cs);
    } else {
      PatchesInside(path, from, to, cs);
      forall i | 0 <= i < |patches|
        ensures GetMember(patches[i], OP, cs) != Some(String(TEST))
      {
        InsideNoTest(patches[i], path, cs);
      }
    }
  }

  /** The round trip of JSON Patch for documents as they are linked: cJSONUtils_ApplyPatches with the patches
      of create_patches succeeds and gives the second document if and only if every name that ends a path
      survives decoding and no removal takes the wrong namesake; and it leaves every list in its shape. */
  lemma ApplyRoundTrip(from: Json, to: Json, cs: bool)
    requires DistinctNames(from, cs) && Addressable(from) && DistinctNames(to, cs)
    ensures var (d, status) := ApplyAll(Lift(from), CreatePatches([], from, to, cs), cs);
            && (status == 0 && Equal(Erase(d), to, cs) <==> Patchable(from, to, cs))
            && Whole(d)
  {
    hide *;
    CreatedNoTests([], from, to, cs);
    RunIsEdits(from, CreatePatches([], from, to, cs), cs);
    PatchRoundTrip(from, to, cs);
    LiftWhole(EditAll(from, CreatePatches([], from, to, cs), cs).0);
  }

  // ---- Tests ----

  lemma {:induction false} DistinctAt(j: Json, loc: Path, cs: bool)
    requires ValidPath(j, loc) && DistinctNames(j, cs)
    ensures DistinctNames(At(j, loc), cs)
    decreases |loc|
  {
    if loc != [] { DistinctAt(Children(j)[loc[0]], loc[1..], cs); }
  }

  lemma EqualReplaced(j: Json, i: nat, x: Json, cs: bool)
    requires i < |Children(j)| && Equal(x, Children(j)[i], cs)
    ensures Equal(ReplaceChild(j, i, x), j, cs)
  {
    hide SameKey;
    if j.Array? {
      forall k | 0 <= k < |j.items|
        ensures Equal(j.items[i := x][k], j.items[k], cs)
      {
        EqualReflexive(j.items[k], cs);
      }
    } else {
      var a, b := j.members[i := j.members[i].(value := x)], j.members;
      forall k | 0 <= k < |b|
        ensures SameKey(a[k].name, b[k].name, cs) && Equal(a[k].value, b[k].value, cs)
      {
        SameKeyReflexive(b[k].name, cs);
        EqualReflexive(b[k].value, cs);
      }
      hide Equal;
      forall k | 0 <= k < |b|
        ensures Matched(a[k], b, cs) && MatchedBy(a, b[k], cs)
      {
      }
      EqualObjects(a, b, cs);
    }
  }

  /** Putting an equal value in a place keeps the document equal. */
  lemma {:induction false} EqualPut(j: Json, loc: Path, x: Json, cs: bool)
    requires ValidPath(j, loc) && Equal(x, At(j, loc), cs)
    ensures Equal(Put(j, loc, x), j, cs)
    decreases |loc|
  {
    hide Equal;
    if loc != [] {
      EqualPut(Children(j)[loc[0]], loc[1..], x, cs);
      EqualReplaced(j, loc[0], Put(Children(j)[loc[0]], loc[1..], x), cs);
    }
  }

  /** A test at the pointer of a node succeeds exactly when the value given equals the node. Successful or
      not, it leaves the document as the comparison does: equal to what it was, up to the order of members. */
  lemma TestDecides(d: Doc, test: Json, loc: Path, value: Json, cs: bool)
    requires ValidPath(Erase(d), loc) && PointerTo(Erase(d), loc).Some?
    requires DistinctNames(Erase(d), cs) && DistinctNames(value, cs)
    requires Asks(test, TEST, PointerTo(Erase(d), loc).value, cs) && Carries(test, value, cs)
    ensures var (d', status) := ApplyPatch(d, test, cs);
            && status == (if Equal(At(Erase(d), loc), value, cs) then 0 else 1)
            && d' == DocPut(d, loc, Compared(DocAt(d, loc), value, cs))
            && Equal(Erase(d'), Erase(d), cs)
  {
    hide GetMember, Resolve, PointerTo, Unshadowed, At, CompareSorted, Equal, DistinctNames, Erase, DocAt, DocPut;
    hide Compared, Put;
    var j := Erase(d);
    DistinctUnshadowed(j, loc, cs);
    PointerRoundTrip(j, loc, cs);
    DistinctAt(j, loc, cs);
    DocAtErased(d, loc);
    CompareSortedDecides(At(j, loc), value, cs);
    var node := Compared(DocAt(d, loc), value, cs);
    ComparedSame(DocAt(d, loc), value, cs);
    DocPutErased(d, loc, node);
    EqualPut(j, loc, Erase(node), cs);
  }

  /** What any test answers, wherever its path leads: success exactly when the path leads to a node, there is
      a value, and the two are equal; and status 1 otherwise. A test of nothing, or without a value, leaves the
      document alone. */
  lemma TestAnswers(d: Doc, test: Json, path: cstring, cs: bool)
    requires DistinctNames(Erase(d), cs) && Asks(test, TEST, path, cs)
    requires var value := GetMember(test, VALUE, cs); value.Some? ==> DistinctNames(value.value, cs)
    ensures var (d', status) := ApplyPatch(d, test, cs);
            var loc, value := Resolve(Erase(d), path, cs), GetMember(test, VALUE, cs);
            && status in {0, 1}
            && (status == 0 <==>
                  loc.Some? && value.Some? && Equal(At(Erase(d), loc.value), value.value, cs))
            && (loc.None? || value.None? ==> d' == d)
            && Equal(Erase(d'), Erase(d), cs)
  {
    hide GetMember, Resolve, At, CompareSorted, Equal, DistinctNames, Erase, DocAt, DocPut, Compared, Put;
    var j := Erase(d);
    var loc, value := Resolve(j, path, cs), GetMember(test, VALUE, cs);
    if loc.Some? && value.Some? {
      DistinctAt(j, loc.value, cs);
      DocAtErased(d, loc.value);
      CompareSortedDecides(At(j, loc.value), value.value, cs);
      var node := Compared(DocAt(d, loc.value), value.value, cs);
      ComparedSame(DocAt(d, loc.value), value.value, cs);
      DocPutErased(d, loc.value, node);
      EqualPut(j, loc.value, Erase(node), cs);
    } else {
      EqualReflexive(j, cs);
    }
  }

  // ---- Failures ----

  lemma EraseRecord(entries: seq<Entry>, link: Link)
    ensures Erase(Record(entries, link)) == Object(EraseEntries(entries))
  {}

  lemma ListErased(items: seq<Doc>)
    ensures Erase(List(items)) == Array(EraseItems(items))
  {}

  lemma ListWithoutErased(items: seq<Doc>, i: nat)
    requires i < |items|
    ensures Erase(List(Without(items, i))) == Array(Without(EraseItems(items), i))
  {
    hide Erase;
    ListErased(Without(items, i));
    assert EraseItems(Without(items, i)) == Without(EraseItems(items), i);
  }

  lemma RecordWithoutErased(entries: seq<Entry>, link: Link, i: nat)
    requires i < |entries|
    ensures Erase(WithoutEntry(entries, link, i)) == Object(Without(EraseEntries(entries), i))
  {
    hide Erase;
    EraseRecord(Without(entries, i), LinkAfterRemove(link, i, |entries|));
    assert EraseEntries(Without(entries, i)) == Without(EraseEntries(entries), i);
  }

  lemma ScalarErased(d: Doc)
    requires d.Scalar?
    ensures !Erase(d).Array? && !Erase(d).Object?
  {}

  lemma DetachItemErased(d: Doc, loc: Path, i: Option<int>)
    requires ValidPath(Erase(d), loc) && DocAt(d, loc).List?
    ensures var items := DocAt(d, loc).items;
            && At(Erase(d), loc).Array? && |At(Erase(d), loc).items| == |items|
            && (i.Some? && 0 <= i.value < |items| ==>
                  Erase(DocPut(d, loc, List(Without(items, i.value)))) ==
                  Put(Erase(d), loc, Array(Without(At(Erase(d), loc).items, i.value))))
  {
    hide Erase, EraseItems, DocAt, DocPut, Put, At, Without;
    var items := DocAt(d, loc).items;
    DocAtErased(d, loc);
    ListErased(items);
    if i.Some? && 0 <= i.value < |items| {
      ListWithoutErased(items, i.value);
      DocPutErased(d, loc, List(Without(items, i.value)));
    }
  }

  lemma DetachEntryErased(d: Doc, loc: Path, i: Option<nat>)
    requires ValidPath(Erase(d), loc) && DocAt(d, loc).Record?
    ensures var r := DocAt(d, loc);
            && At(Erase(d), loc).Object? && At(Erase(d), loc).members == EraseEntries(r.entries)
            && (i.Some? && i.value < |r.entries| ==>
                  Erase(DocPut(d, loc, WithoutEntry(r.entries, r.link, i.value))) ==
                  Put(Erase(d), loc, Object(Without(EraseEntries(r.entries), i.value))))
  {
    hide Erase, EraseEntries, DocAt, DocPut, Put, At, Without, WithoutEntry;
    var r := DocAt(d, loc);
    DocAtErased(d, loc);
    EraseRecord(r.entries, r.link);
    if i.Some? && i.value < |r.entries| {
      RecordWithoutErased(r.entries, r.link, i.value);
      DocPutErased(d, loc, WithoutEntry(r.entries, r.link, i.value));
    }
  }

  lemma DetachErased(d: Doc, path: cstring, cs: bool)
    ensures DetachFrom(d, path, cs).Some? <==> DetachPath(Erase(d), path, cs).Some?
    ensures DetachFrom(d, path, cs).Some? ==>
              Erase(DetachFrom(d, path, cs).value.doc) == DetachPath(Erase(d), path, cs).value.doc
  {
    hide Resolve, LastSlash, DecodeInplace, DecodeIndexText, Lookup, DocAt, DocPut, Put, At, Erase, EraseEntries;
    hide WithoutEntry;
    hide EraseItems, Without;
    var slash := LastSlash(path);
    if slash.Some? && Resolve(Erase(d), path[..slash.value], cs).Some? {
      var loc, child := Resolve(Erase(d), path[..slash.value], cs).value, DecodeInplace(path[slash.value + 1..]);
      match DocAt(d, loc) {
        case List(items) => DetachItemErased(d, loc, DecodeIndexText(child));
        case Record(entries, link) => DetachEntryErased(d, loc, Lookup(EraseEntries(entries), child, false));
        case _ =>
          DocAtErased(d, loc);
          ScalarErased(DocAt(d, loc));
      }
    }
  }

  lemma FailedAddKeepsDoc(d: Doc, path: cstring, value: Doc, cs: bool)
    ensures AddTo(d, path, value, cs).1 != 0 ==> AddTo(d, path, value, cs).0 == d
  {}

  /** The patch detaches a value before it can fail. */
  predicate Detaches(d: Doc, patch: Json, op: cstring, path: cstring, cs: bool) {
    || (op == REPLACE && path != [] && DetachFrom(d, path, cs).Some?)
    || (op == MOVE && Take(d, patch, true, cs).Some?)
  }

  /** The patch is a test that comes to an object out of order. */
  predicate Disturbs(d: Doc, patch: Json, op: cstring, path: cstring, cs: bool) {
    var (loc, value) := (Resolve(Erase(d), path, cs), GetMember(patch, VALUE, cs));
    op == TEST && loc.Some? && value.Some? && !Undisturbed(DocAt(d, loc.value), value.value, cs)
  }

  lemma DetachDiffers(d: Doc, path: cstring, cs: bool)
    requires DetachFrom(d, path, cs).Some?
    ensures DetachFrom(d, path, cs).value.doc != d
  {
    hide DetachFrom, DetachPath, Erase;
    DetachErased(d, path, cs);
    DetachChanges(Erase(d), path, cs);
  }

  lemma TestKeepsIff(d: Doc, patch: Json, path: cstring, cs: bool)
    requires Asks(patch, TEST, path, cs) && DistinctNames(Erase(d), cs)
    ensures ApplyPatch(d, patch, cs).0 == d <==> !Disturbs(d, patch, TEST, path, cs)
  {
    hide GetMember, Resolve, Compared, CompareSorted, Undisturbed, DocAt, DocPut, Erase, DistinctNames;
    var loc, value := Resolve(Erase(d), path, cs), GetMember(patch, VALUE, cs);
    if loc.Some? && value.Some? {
      var node := DocAt(d, loc.value);
      DistinctAt(Erase(d), loc.value, cs);
      DocAtErased(d, loc.value);
      ComparedKeepsIff(node, value.value, cs);
      DocPutSame(d, loc.value);
      DocPutAt(d, loc.value, Compared(node, value.value, cs));
    }
  }

  lemma ReplaceLoses(d: Doc, patch: Json, path: cstring, cs: bool)
    requires Asks(patch, REPLACE, path, cs) && path != []
    requires ApplyPatch(d, patch, cs).1 != 0
    ensures ApplyPatch(d, patch, cs).0 == d <==> DetachFrom(d, path, cs).None?
  {
    hide GetMember, AddTo, DetachFrom, Lift;
    var removed, value := DetachFrom(d, path, cs), GetMember(patch, VALUE, cs);
    if removed.Some? {
      DetachDiffers(d, path, cs);
      if value.Some? { FailedAddKeepsDoc(removed.value.doc, path, Lift(value.value), cs); }
    }
  }

  lemma MoveLoses(d: Doc, patch: Json, path: cstring, op: cstring, cs: bool)
    requires Asks(patch, op, path, cs) && (op == MOVE || op == COPY)
    requires ApplyPatch(d, patch, cs).1 != 0
    ensures ApplyPatch(d, patch, cs).0 == d <==> (op == COPY || Take(d, patch, true, cs).None?)
  {
    hide GetMember, AddTo, DetachFrom, Lift, DocAt, Resolve, Erase;
    var taken := Take(d, patch, op == MOVE, cs);
    if taken.Some? {
      FailedAddKeepsDoc(taken.value.doc, path, taken.value.item, cs);
      if op == MOVE { DetachDiffers(d, GetMember(patch, FROM, cs).value.s, cs); }
    }
  }

  lemma OtherKeeps(d: Doc, patch: Json, path: cstring, op: cstring, cs: bool)
    requires Asks(patch, op, path, cs) && op !in {TEST, MOVE, COPY} && (op == REPLACE ==> path == [])
    requires ApplyPatch(d, patch, cs).1 != 0
    ensures ApplyPatch(d, patch, cs).0 == d
  {
    hide GetMember, AddTo, DetachFrom, Lift;
    var value := GetMember(patch, VALUE, cs);
    if value.Some? { FailedAddKeepsDoc(d, path, Lift(value.value), cs); }
  }

  /** RFC 6902 section 5 has a failed patch leave the document alone. It does exactly when it has not
      detached a value, which is lost then, and has not compared an object whose members were out of
      order, which are sorted then. */
  lemma FailureKeepsDocumentIff(d: Doc, patch: Json, op: cstring, path: cstring, cs: bool)
    requires Asks(patch, op, path, cs) && DistinctNames(Erase(d), cs)
    requires ApplyPatch(d, patch, cs).1 !in {0, UNDEFINED}
    ensures ApplyPatch(d, patch, cs).0 == d <==> !Detaches(d, patch, op, path, cs) && !Disturbs(d, patch, op, path, cs)
  {
    hide GetMember, ApplyPatch, DistinctNames, Erase, Take, DetachFrom, Disturbs;
    if op == TEST {
      TestKeepsIff(d, patch, path, cs);
    } else {
      NoTestNoDisturbance(d, patch, op, path, cs);
      if op == MOVE || op == COPY {
        MoveLoses(d, patch, path, op, cs);
      } else if op == REPLACE && path != [] {
        ReplaceLoses(d, patch, path, cs);
      } else {
        OtherKeeps(d, patch, path, op, cs);
      }
    }
  }

  lemma NoTestNoDisturbance(d: Doc, patch: Json, op: cstring, path: cstring, cs: bool)
    requires op != TEST
    ensures !Disturbs(d, patch, op, path, cs)
  {
    hide GetMember, Resolve, Undisturbed, Erase, DocAt;
  }

  /** Patches are applied up to the first that fails. */
  lemma {:induction false} FirstFailure(d: Doc, patches: seq<Json>, cs: bool) returns (k: nat, before: Doc)
    requires ApplyAll(d, patches, cs).1 != 0
    ensures k < |patches| && ApplyAll(d, patches[..k], cs) == (before, 0)
    ensures ApplyAll(d, patches, cs) == ApplyPatch(before, patches[k], cs)
    decreases |patches|
  {
    hide ApplyPatch;
    var (d', status) := ApplyPatch(d, patches[0], cs);
    if status != 0 {
      k, before := 0, d;
    } else {
      k, before := FirstFailure(d', patches[1..], cs);
      assert patches[..k + 1][1..] == patches[1..][..k];
      k := k + 1;
    }
  }

  // ---- What an append keeps ----

  lemma NewEntry(d: Doc, pointer: cstring, cs: bool, loc: Path, name: cstring, value: Json)
    requires LeadsTo(Erase(d), pointer, cs, loc) && DocAt(d, loc).Record? && DecodeSafe(name)
    requires Lookup(EraseEntries(DocAt(d, loc).entries), name, cs).None?
    ensures var r := DocAt(d, loc);
            ApplyPatch(d, Compose(ADD, pointer, Some(name), Some(value)), cs) ==
            if r.entries != [] && r.link.Gone? then (d, UNDEFINED)
            else (DocPut(d, loc, WithEntry(r.entries, r.link, Entry(name, Lift(value)))), 0)
  {
    hide Encode, Compose, DecodeInplace, DecodeSafe, Lookup, DocAt, DocPut, LastSlash, WithEntry, Lift, GetMember;
    hide Erase, Resolve;
    ComposedMembers(ADD, pointer, Some(name), Some(value), cs);
    ComposedPath(pointer, name);
    DecodeUndoesEncodeIff(name);
  }

  /** Adding a member to an object, whatever became of it before: the object keeps all its members and gets
      the new one behind them exactly when its link still leads to the last member. */
  lemma AddKeepsMembersIff(d: Doc, pointer: cstring, cs: bool, loc: Path, name: cstring, value: Json)
    requires LeadsTo(Erase(d), pointer, cs, loc) && DocAt(d, loc).Record? && DecodeSafe(name)
    requires Lookup(EraseEntries(DocAt(d, loc).entries), name, cs).None?
    ensures var r := DocAt(d, loc);
            var more := Record(r.entries + [Entry(name, Lift(value))], Tail);
            ApplyPatch(d, Compose(ADD, pointer, Some(name), Some(value)), cs) == (DocPut(d, loc, more), 0) <==>
            Intact(r.link, |r.entries|)
  {
    hide Compose, DecodeSafe, Lookup, DocAt, DocPut, ApplyPatch, Erase, Resolve, Lift;
    NewEntry(d, pointer, cs, loc, name, value);
    var r, e := DocAt(d, loc), Entry(name, Lift(value));
    AppendedIff(r.entries, r.link, e);
    DocPutAt(d, loc, Record(r.entries + [e], Tail));
    DocPutAt(d, loc, WithEntry(r.entries, r.link, e));
  }

  lemma EqualMore(a: seq<Member>, b: seq<Member>, m: Member, cs: bool)
    requires Equal(Object(a), Object(b), cs)
    ensures Equal(Object(a + [m]), Object(b + [m]), cs)
  {
    hide SameKey, Equal;
    SameKeyReflexive(m.name, cs);
    EqualReflexive(m.value, cs);
    assert (a + [m])[|a|] == m && (b + [m])[|b|] == m;
    forall i | 0 <= i < |a + [m]|
      ensures Matched((a + [m])[i], b + [m], cs)
    {
      if i < |a| {
        var j := EqualMember(a, b, cs, i);
        assert (b + [m])[j] == b[j];
      }
    }
    forall j | 0 <= j < |b + [m]|
      ensures MatchedBy(a + [m], (b + [m])[j], cs)
    {
      if j < |b| {
        var i := EqualMemberBack(a, b, cs, j);
        assert (a + [m])[i] == a[i];
      }
    }
    EqualObjects(a + [m], b + [m], cs);
  }

  /** An object with a member of no name that another has is not its equal. */
  lemma MissingMember(a: seq<Member>, b: seq<Member>, j: nat, cs: bool)
    requires j < |b| && forall i :: 0 <= i < |a| ==> !SameKey(a[i].name, b[j].name, cs)
    ensures !Equal(Object(a), Object(b), cs)
  {
    hide SameKey, Equal;
    if Equal(Object(a), Object(b), cs) {
      var i := EqualMemberBack(a, b, cs, j);
    }
  }

  /** The members of an object after a comparison: the same names, in another order. */
  ghost predicate Shuffled(es: seq<Entry>, members: seq<Member>, cs: bool) {
    && |es| == |members|
    && Equal(Object(EraseEntries(es)), Object(members), cs)
    && Distinct(es, EntryName, cs)
    && forall k :: 0 <= k < |es| ==> HasName(members, es[k].name)
  }

  ghost predicate HasName(members: seq<Member>, name: cstring) {
    exists i :: 0 <= i < |members| && members[i].name == name
  }

  lemma PickedDistinct(entries: seq<Entry>, cs: bool)
    requires Distinct(entries, EntryName, cs)
    ensures Distinct(Picked(entries, EntryOrder(entries, cs)), EntryName, cs)
  {
    hide SameKey, Order;
    OrderSorts(entries, EntryName, cs);
    SortStrict(entries, EntryName, cs);
  }

  lemma SameNamesDistinct(a: seq<Entry>, b: seq<Entry>, cs: bool)
    requires SameEntries(a, b, cs) && Distinct(b, EntryName, cs)
    ensures Distinct(a, EntryName, cs)
  {
    hide SameKey, Equal, Erase;
    forall i, j | 0 <= i < j < |a|
      ensures !SameKey(EntryName(a[i]), EntryName(a[j]), cs)
    {
      assert !SameKey(EntryName(b[i]), EntryName(b[j]), cs);
    }
  }

  lemma NamesFrom(es: seq<Entry>, members: seq<Member>, order: seq<nat>, cs: bool)
    requires (forall k :: 0 <= k < |order| ==> order[k] < |members|) &&
             SameEntries(es, Picked(LiftMembers(members), order), cs)
    ensures forall k :: 0 <= k < |es| ==> HasName(members, es[k].name)
  {
    hide Equal, Erase, Lift;
    forall k | 0 <= k < |es|
      ensures HasName(members, es[k].name)
    {
      assert members[order[k]].name == es[k].name;
    }
  }

  lemma ComparedShuffles(members: seq<Member>, value: Json, cs: bool)
    requires Distinct(members, NameOf, cs) && value.Object?
    ensures var order := EntryOrder(LiftMembers(members), cs);
            var es := ComparedEntries(LiftMembers(members), order, Sort(value.members, NameOf, cs), cs);
            && Compared(Lift(Object(members)), value, cs) == Record(es, LinkAfterSort(Tail, order))
            && Shuffled(es, members, cs)
  {
    hide Lift, Erase, Sort, ComparedEntries, Equal, EraseEntries, EntryOrder, SameEntries, Distinct, LiftMembers;
    var entries := LiftMembers(members);
    var order, t := EntryOrder(entries, cs), Sort(value.members, NameOf, cs);
    var es := ComparedEntries(entries, order, t, cs);
    LiftObject(members);
    ComparedEntriesSame(entries, order, t, cs);
    PickedSame(entries, order, es, cs);
    LiftedDistinct(members, cs);
    PickedDistinct(entries, cs);
    SameNamesDistinct(es, Picked(entries, order), cs);
    NamesFrom(es, members, order, cs);
    assert Shuffled(es, members, cs);
  }

  lemma LiftedDistinct(members: seq<Member>, cs: bool)
    requires Distinct(members, NameOf, cs)
    ensures Distinct(LiftMembers(members), EntryName, cs)
  {
    hide SameKey, Lift;
    var entries := LiftMembers(members);
    forall i, j | 0 <= i < j < |entries|
      ensures !SameKey(EntryName(entries[i]), EntryName(entries[j]), cs)
    {
      assert !SameKey(NameOf(members[i]), NameOf(members[j]), cs);
    }
  }

  /** Appending to a shuffled object keeps all its members exactly when the link leads to the last one. */
  lemma AppendToShuffled(es: seq<Entry>, link: Link, members: seq<Member>, e: Entry, cs: bool)
    requires Shuffled(es, members, cs) && (link.Stale? ==> link.at < |es|)
    requires forall i :: 0 <= i < |members| ==> !SameKey(members[i].name, e.name, cs)
    ensures Equal(Erase(WithEntry(es, link, e)), Object(members + [Member(e.name, Erase(e.value))]), cs) <==>
            Intact(link, |es|)
  {
    hide SameKey, Equal, Erase;
    var m, n := Member(e.name, Erase(e.value)), |es|;
    var a, r := EraseEntries(es), EraseEntries(Appended(es, link, e));
    var b := members + [m];
    assert b[|members|] == m;
    EraseRecord(Appended(es, link, e), LinkAfterAppend(link, n));
    if Intact(link, n) {
      AppendedIff(es, link, e);
      assert r == a + [m];
      EqualMore(a, members, m, cs);
    } else if link.Nothing? || link.Gone? {
      MissingMember(r, b, |members|, cs);
    } else {
      var k := link.at;
      assert r == a[..k + 1] + [m];
      var j := EqualMember(a, members, cs, n - 1);
      LastIsGone(es, members, e.name, cs, k, j);
      assert b[j] == members[j];
      MissingMember(r, b, j, cs);
    }
  }

  lemma LastIsGone(es: seq<Entry>, members: seq<Member>, name: cstring, cs: bool, k: nat, j: nat)
    requires Distinct(es, EntryName, cs) && k < |es| - 1 && j < |members| &&
             SameKey(es[|es| - 1].name, members[j].name, cs)
    requires !SameKey(members[j].name, name, cs)
    ensures forall i :: 0 <= i <= k ==> !SameKey(es[i].name, members[j].name, cs)
    ensures !SameKey(name, members[j].name, cs)
  {
    hide Key;
    SameKeySymmetric(members[j].name, name, cs);
    forall i | 0 <= i <= k
      ensures !SameKey(es[i].name, members[j].name, cs)
    {
      assert !SameKey(EntryName(es[i]), EntryName(es[|es| - 1]), cs);
    }
  }

  lemma NoneOf(members: seq<Member>, name: cstring, cs: bool)
    requires Lookup(members, name, cs).None?
    ensures forall i :: 0 <= i < |members| ==> !SameKey(members[i].name, name, cs)
  {
    hide Key;
    LookupFirst(members, name, cs);
    forall i | 0 <= i < |members|
      ensures !SameKey(members[i].name, name, cs)
    {
      SameKeySymmetric(members[i].name, name, cs);
    }
  }

  lemma ShuffledNone(es: seq<Entry>, members: seq<Member>, name: cstring, cs: bool)
    requires Shuffled(es, members, cs) && Lookup(members, name, cs).None?
    ensures Lookup(EraseEntries(es), name, cs).None?
  {
    hide SameKey, Equal, Erase;
    LookupFirst(members, name, cs);
    LookupFirst(EraseEntries(es), name, cs);
    assert forall k :: 0 <= k < |es| ==> EraseEntries(es)[k].name == es[k].name;
  }

  lemma OrderStays(entries: seq<Entry>, cs: bool)
    ensures var link := LinkAfterSort(Tail, EntryOrder(entries, cs));
            !link.Gone? && (link.Stale? ==> link.at < |entries|) &&
            (Intact(link, |entries|) <==> EndsStay(EntryOrder(entries, cs)))
  {
    hide Order, Permutes;
    OrderPermutes(NamesOf(entries, EntryName), cs);
    TailAfterSort(EntryOrder(entries, cs));
  }

  lemma ApplyTwo(d: Doc, first: Json, second: Json, d': Doc, cs: bool)
    requires ApplyPatch(d, first, cs) == (d', 0)
    ensures ApplyAll(d, [first, second], cs) == ApplyPatch(d', second, cs)
  {
    hide ApplyPatch;
    assert [first, second][1..] == [second] && [second][1..] == [];
    assert ApplyAll(d', [second], cs) == ApplyPatch(d', second, cs);
  }

  /** What a successful test leaves of the object it compares. */
  lemma TestedObject(doc: Json, test: Json, pointer: cstring, cs: bool, loc: Path, value: Json)
    requires LeadsTo(doc, pointer, cs, loc)
    requires Asks(test, TEST, pointer, cs) && Carries(test, value, cs) && CompareSorted(At(doc, loc), value, cs)
    ensures ValidPath(Erase(Lift(doc)), loc)
    ensures var node := Compared(Lift(At(doc, loc)), value, cs);
            var d := DocPut(Lift(doc), loc, node);
            && ApplyPatch(Lift(doc), test, cs) == (d, 0)
            && LeadsTo(Erase(d), pointer, cs, loc) && DocAt(d, loc) == node
  {
    hide GetMember, Compared, CompareSorted, DocAt, DocPut, Erase, Lift, Put, At, Resolve;
    LiftWhole(doc);
    DocAtLift(doc, loc);
    LiftWhole(At(doc, loc));
    var node := Compared(Lift(At(doc, loc)), value, cs);
    DocPutErased(Lift(doc), loc, node);
    DocPutAt(Lift(doc), loc, node);
    LeadsToAfterPut(doc, pointer, cs, loc, Erase(node));
  }

  lemma DistinctMembers(doc: Json, loc: Path, cs: bool)
    requires ValidPath(doc, loc) && DistinctNames(doc, cs) && At(doc, loc).Object?
    ensures Distinct(At(doc, loc).members, NameOf, cs)
  {
    DistinctAt(doc, loc, cs);
  }

  lemma TestedAndAdded(doc: Json, test: Json, pointer: cstring, cs: bool, loc: Path, value: Json, name: cstring,
                       more: Json,
                       es: seq<Entry>, link: Link)
    requires LeadsTo(doc, pointer, cs, loc) && At(doc, loc).Object?
    requires Asks(test, TEST, pointer, cs) && Carries(test, value, cs) && CompareSorted(At(doc, loc), value, cs)
    requires Compared(Lift(At(doc, loc)), value, cs) == Record(es, link) && !link.Gone?
    requires Shuffled(es, At(doc, loc).members, cs)
    requires DecodeSafe(name) && Lookup(At(doc, loc).members, name, cs).None?
    ensures ValidPath(Erase(Lift(doc)), loc)
    ensures var node := WithEntry(es, link, Entry(name, Lift(more)));
            var d := DocPut(Lift(doc), loc, node);
            && ApplyAll(Lift(doc), [test, Compose(ADD, pointer, Some(name), Some(more))], cs) == (d, 0)
            && ValidPath(Erase(d), loc) && DocAt(d, loc) == node
  {
    hide GetMember, Compared, CompareSorted, DocAt, DocPut, Erase, Lift, Put, At, Resolve, ApplyPatch, ApplyAll;
    hide Lookup, DecodeSafe;
    hide Shuffled, Compose, EraseEntries, WithEntry;
    TestedObject(doc, test, pointer, cs, loc, value);
    var d1 := DocPut(Lift(doc), loc, Record(es, link));
    ShuffledNone(es, At(doc, loc).members, name, cs);
    NewEntry(d1, pointer, cs, loc, name, more);
    ApplyTwo(Lift(doc), test, Compose(ADD, pointer, Some(name), Some(more)), d1, cs);
    DocPutPut(Lift(doc), loc, Record(es, link), WithEntry(es, link, Entry(name, Lift(more))));
    DocPutAt(Lift(doc), loc, WithEntry(es, link, Entry(name, Lift(more))));
  }

  /** A member added to an object that a successful test has compared: with distinct names, the add always
      reports success, and the object keeps all its members and gets the new one exactly when its first and
      its last member stayed where they were, that is, were the smallest and the greatest. */
  lemma AddAfterTestIff(doc: Json, test: Json, pointer: cstring, cs: bool, loc: Path, value: Json, name: cstring,
                        more: Json)
    requires LeadsTo(doc, pointer, cs, loc) && At(doc, loc).Object? && DistinctNames(doc, cs)
    requires Asks(test, TEST, pointer, cs) && Carries(test, value, cs) && CompareSorted(At(doc, loc), value, cs)
    requires DecodeSafe(name) && Lookup(At(doc, loc).members, name, cs).None?
    ensures var members := At(doc, loc).members;
            var (d, status) := ApplyAll(Lift(doc), [test, Compose(ADD, pointer, Some(name), Some(more))], cs);
            && status == 0
            && ValidPath(Erase(Lift(doc)), loc) && ValidPath(Erase(d), loc) &&
            d == DocPut(Lift(doc), loc, DocAt(d, loc))
            && (Equal(Erase(DocAt(d, loc)), Object(members + [Member(name, more)]), cs) <==>
                EndsStay(EntryOrder(LiftMembers(members), cs)))
  {
    var members := At(doc, loc).members;
    assert value.Object?;
    hide GetMember, Compared, CompareSorted, DocAt, DocPut, Erase, Lift, Put, At, Resolve, ApplyPatch, ApplyAll;
    hide Lookup, DecodeSafe;
    hide Shuffled, Equal, Distinct, EntryOrder, LiftMembers, Compose, ComparedEntries, Sort, EraseEntries;
    hide DistinctNames;
    hide WithEntry, EndsStay, LinkAfterSort;
    DistinctMembers(doc, loc, cs);
    var order := EntryOrder(LiftMembers(members), cs);
    var es := ComparedEntries(LiftMembers(members), order, Sort(value.members, NameOf, cs), cs);
    var link, e := LinkAfterSort(Tail, order), Entry(name, Lift(more));
    ComparedShuffles(members, value, cs);
    OrderStays(LiftMembers(members), cs);
    TestedAndAdded(doc, test, pointer, cs, loc, value, name, more, es, link);
    NoneOf(members, name, cs);
    AppendToShuffled(es, link, members, e, cs);
    LiftWhole(more);
  }
}
