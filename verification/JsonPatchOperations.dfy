/** The operations of RFC 6902 section 4 against one another. */
module JsonPatchOperations {
  import opened CTypes
  import opened Names
  import opened Numerals
  import opened Sorting
  import opened Json
  import opened JsonPointer
  import opened JsonPatch
  import opened JsonPatchLaws

  /** A patch with the operation and the path given, whatever else it holds. */
  predicate Asks(patch: Json, op: cstring, path: cstring, cs: bool) {
    GetMember(patch, OP, cs) == Some(String(op)) && GetMember(patch, PATH, cs) == Some(String(path))
  }

  predicate Carries(patch: Json, value: Json, cs: bool) { GetMember(patch, VALUE, cs) == Some(value) }

  predicate ComesFrom(patch: Json, from: cstring, cs: bool) { GetMember(patch, FROM, cs) == Some(String(from)) }

  // ---- Copy and move ----

  /** A copy does what an add of the value at `from` does, except that it cannot replace the root. */
  lemma CopyIsAddIff(doc: Json, copy: Json, add: Json, from: cstring, path: cstring, loc: Path, cs: bool)
    requires Asks(copy, COPY, path, cs) && ComesFrom(copy, from, cs)
    requires Resolve(doc, from, cs) == Some(loc)
    requires Asks(add, ADD, path, cs) && Carries(add, At(doc, loc), cs)
    ensures Edit(doc, copy, cs) == Edit(doc, add, cs) <==> path != []
  {
    hide GetMember, Resolve, AddAtPath, At;
    NoSlashInRoot(doc, At(doc, loc), cs);
  }

  lemma NoSlashInRoot(doc: Json, value: Json, cs: bool)
    ensures AddAtPath(doc, [], value, cs) == (doc, 9) && DetachPath(doc, [], cs) == None
  {}

  /** A move does what a remove at `from` and an add of the removed value do, with the same exception. */
  lemma MoveIsRemoveThenAddIff(doc: Json, move: Json, remove: Json, add: Json, from: cstring, path: cstring,
                               removed: Detached, cs: bool)
    requires Asks(move, MOVE, path, cs) && ComesFrom(move, from, cs)
    requires DetachPath(doc, from, cs) == Some(removed)
    requires Asks(remove, REMOVE, from, cs)
    requires Asks(add, ADD, path, cs) && Carries(add, removed.item, cs)
    ensures Edit(doc, move, cs) == EditAll(doc, [remove, add], cs) <==> path != []
  {
    hide GetMember, DetachPath, AddAtPath;
    NoSlashInRoot(doc, removed.item, cs);
    NoSlashInRoot(removed.doc, removed.item, cs);
    assert Edit(doc, remove, cs) == (removed.doc, 0);
    EditAllTwo(doc, remove, removed.doc, add, cs);
  }

  lemma EditAllTwo(doc: Json, first: Json, doc': Json, second: Json, cs: bool)
    requires Edit(doc, first, cs) == (doc', 0)
    ensures EditAll(doc, [first, second], cs) == Edit(doc', second, cs)
  {
    hide Edit;
    assert [second][1..] == [];
    assert EditAll(doc', [second], cs) == Edit(doc', second, cs);
    assert [first, second][1..] == [second];
  }

  // ---- Operations that undo each other ----

  /** A patch that adds a value, and one that removes it. */
  function AddAndRemove(pointer: cstring, token: cstring, value: Json): seq<Json> {
    [Compose(ADD, pointer, Some(token), Some(value)), Compose(REMOVE, pointer, Some(token), None)]
  }

  /** Removing a member that was just added gives the document back, unless the document has a member
      whose name differs in case only: then that one is removed. */
  lemma AddThenRemoveMemberIff(doc: Json, pointer: cstring, cs: bool, loc: Path, name: cstring, value: Json)
    requires LeadsTo(doc, pointer, cs, loc) && At(doc, loc).Object? && DecodeSafe(name)
    requires Lookup(At(doc, loc).members, name, cs).None?
    ensures EditAll(doc, AddAndRemove(pointer, name, value), cs) == (doc, 0) <==>
            Lookup(At(doc, loc).members, name, false).None?
  {
    hide Compose, Edit, EditAll, DecodeSafe, Resolve, Lookup, Put, At;
    var members := At(doc, loc).members;
    var more := Object(members + [Member(name, value)]);
    ApplyAddMember(doc, pointer, cs, loc, name, value);
    LeadsToAfterPut(doc, pointer, cs, loc, more);
    var i := AddedFound(members, name, value);
    ApplyRemoveMember(Put(doc, loc, more), pointer, cs, loc, name);
    EditAllTwo(doc, Compose(ADD, pointer, Some(name), Some(value)), Put(doc, loc, more),
                Compose(REMOVE, pointer, Some(name), None), cs);
    var rest := Object(Without(more.members, i));
    PutPut(doc, loc, more, rest);
    PutSame(doc, loc);
    PutAt(doc, loc, rest);
    AddedRemoved(members, name, value, cs, i);
  }

  lemma AddedFound(members: seq<Member>, name: cstring, value: Json) returns (i: nat)
    ensures i <= |members| && Lookup(members + [Member(name, value)], name, false) == Some(i)
    ensures i == |members| <==> Lookup(members, name, false).None?
  {
    var more := members + [Member(name, value)];
    LookupFirst(members, name, false);
    LookupFirst(more, name, false);
    SameKeyReflexive(name, false);
    assert more[|members|].name == name;
    assert forall k :: 0 <= k < |members| ==> more[k] == members[k];
    i := Lookup(more, name, false).value;
  }

  lemma AddedRemoved(members: seq<Member>, name: cstring, value: Json, cs: bool, i: nat)
    requires Lookup(members, name, cs).None? && i <= |members|
    ensures Without(members + [Member(name, value)], i) == members <==> i == |members|
  {
    LookupFirst(members, name, cs);
    var rest := Without(members + [Member(name, value)], i);
    if i == |members| {
      assert rest == members;
    } else {
      assert rest[|members| - 1] == Member(name, value);
      assert !SameKey(name, members[|members| - 1].name, cs);
      SameKeyReflexive(name, cs);
    }
  }

  lemma ApplyInsertItem(doc: Json, pointer: cstring, cs: bool, loc: Path, i: nat, value: Json)
    requires LeadsTo(doc, pointer, cs, loc) && At(doc, loc).Array? && i <= |At(doc, loc).items| && i < TWO_64
    ensures var items := At(doc, loc).items;
            Edit(doc, Compose(ADD, pointer, Some(Decimal(i)), Some(value)), cs) ==
            (Put(doc, loc, Array(items[..i] + [value] + items[i..])), 0)
  {
    hide Encode, Compose, AddAtPath, Edit, Decimal, DecodeInplace, DecodeIndexText;
    ApplyComposed(doc, ADD, pointer, Some(Decimal(i)), Some(value), cs);
    PlainIndex(i);
    AddItem(doc, pointer, cs, loc, i, value);
  }

  /** Removing the item just inserted gives the document back. */
  lemma InsertThenRemoveItem(doc: Json, pointer: cstring, cs: bool, loc: Path, i: nat, value: Json)
    requires LeadsTo(doc, pointer, cs, loc) && At(doc, loc).Array? && i <= |At(doc, loc).items| && i < TWO_64
    ensures EditAll(doc, AddAndRemove(pointer, Decimal(i), value), cs) == (doc, 0)
  {
    hide Compose, Edit, EditAll, Decimal, Resolve, Put, At;
    var items := At(doc, loc).items;
    var more := Array(items[..i] + [value] + items[i..]);
    ApplyInsertItem(doc, pointer, cs, loc, i, value);
    LeadsToAfterPut(doc, pointer, cs, loc, more);
    ApplyRemoveItem(Put(doc, loc, more), pointer, cs, loc, i);
    EditAllTwo(doc, Compose(ADD, pointer, Some(Decimal(i)), Some(value)), Put(doc, loc, more),
                Compose(REMOVE, pointer, Some(Decimal(i)), None), cs);
    PutPut(doc, loc, more, Array(Without(more.items, i)));
    assert Without(more.items, i) == items;
    PutSame(doc, loc);
  }

  /** Inserting the item just removed gives the document back. */
  lemma RemoveThenInsertItem(doc: Json, pointer: cstring, cs: bool, loc: Path, i: nat)
    requires LeadsTo(doc, pointer, cs, loc) && At(doc, loc).Array? && i < |At(doc, loc).items| && i < TWO_64
    ensures EditAll(doc, [Compose(REMOVE, pointer, Some(Decimal(i)), None),
                           Compose(ADD, pointer, Some(Decimal(i)), Some(At(doc, loc).items[i]))], cs) == (doc, 0)
  {
    hide Compose, Edit, EditAll, Decimal, Resolve, Put, At;
    var items := At(doc, loc).items;
    var less := Array(Without(items, i));
    ApplyRemoveItem(doc, pointer, cs, loc, i);
    LeadsToAfterPut(doc, pointer, cs, loc, less);
    ApplyInsertItem(Put(doc, loc, less), pointer, cs, loc, i, items[i]);
    EditAllTwo(doc, Compose(REMOVE, pointer, Some(Decimal(i)), None), Put(doc, loc, less),
                Compose(ADD, pointer, Some(Decimal(i)), Some(items[i])), cs);
    PutPut(doc, loc, less, Array(less.items[..i] + [items[i]] + less.items[i..]));
    assert less.items[..i] + [items[i]] + less.items[i..] == items;
    PutSame(doc, loc);
  }

  // ---- Failures ----

  /** Detaching always changes the document. */
  lemma DetachChanges(doc: Json, path: cstring, cs: bool)
    requires DetachPath(doc, path, cs).Some?
    ensures DetachPath(doc, path, cs).value.doc != doc
  {
    hide DecodeInplace, DecodeIndexText, Lookup;
    var k := LastSlash(path).value;
    var loc := Resolve(doc, path[..k], cs).value;
    var child := DecodeInplace(path[k + 1..]);
    match At(doc, loc) {
      case Array(items) => PutAt(doc, loc, Array(Without(items, DecodeIndexText(child).value)));
      case Object(members) =>
        LookupFirst(members, child, false);
        PutAt(doc, loc, Object(Without(members, Lookup(members, child, false).value)));
    }
  }

  /** Below the root, a replace succeeds exactly when there is an old value and a new one. */
  lemma ReplaceSucceedsIff(doc: Json, patch: Json, path: cstring, cs: bool)
    requires Asks(patch, REPLACE, path, cs) && path != []
    ensures Edit(doc, patch, cs).1 == 0 <==> DetachPath(doc, path, cs).Some? && GetMember(patch, VALUE, cs).Some?
  {
    hide GetMember, AddAtPath, DetachPath, Resolve, CompareSorted;
    if DetachPath(doc, path, cs).Some? && GetMember(patch, VALUE, cs).Some? {
      DetachedTakesBack(doc, path, GetMember(patch, VALUE, cs).value, cs);
    }
  }

  /** Adding at a path, where the path leads. */
  lemma AddWhere(doc: Json, path: cstring, k: nat, loc: Path, value: Json, cs: bool)
    requires LastSlash(path) == Some(k) && Resolve(doc, path[..k], cs) == Some(loc)
    ensures At(doc, loc).Array? ==>
              var child := DecodeInplace(path[k + 1..]);
              var i := DecodeIndexText(child);
              child != [HYPHEN] && i.Some? && 0 <= i.value <= |At(doc, loc).items| ==>
                AddAtPath(doc, path, value, cs).1 == 0
    ensures At(doc, loc).Object? ==> AddAtPath(doc, path, value, cs).1 == 0
  {
    hide DecodeInplace, DecodeIndexText, Lookup, LastSlash, Resolve, Put, At;
  }

  lemma DetachWhere(doc: Json, path: cstring, cs: bool) returns (k: nat, loc: Path, rest: Json)
    requires DetachPath(doc, path, cs).Some?
    ensures k <= |path| && LastSlash(path) == Some(k) && Resolve(doc, path[..k], cs) == Some(loc)
    ensures DetachPath(doc, path, cs).value.doc == Put(doc, loc, rest)
    ensures rest.Object? || (rest.Array? && var i := DecodeIndexText(DecodeInplace(path[k + 1..]));
                                            i.Some? && 0 <= i.value <= |rest.items|)
  {
    hide DecodeInplace, DecodeIndexText, Lookup, LastSlash, Resolve, Put, At;
    k := LastSlash(path).value;
    loc := Resolve(doc, path[..k], cs).value;
    var parent, child := At(doc, loc), DecodeInplace(path[k + 1..]);
    rest := if parent.Array? then Array(Without(parent.items, DecodeIndexText(child).value))
            else Object(Without(parent.members, Lookup(parent.members, child, false).value));
  }

  /** Where something was detached, something can be added. */
  lemma DetachedTakesBack(doc: Json, path: cstring, value: Json, cs: bool)
    requires DetachPath(doc, path, cs).Some?
    ensures AddAtPath(DetachPath(doc, path, cs).value.doc, path, value, cs).1 == 0
  {
    hide DecodeInplace, DecodeIndexText, LastSlash, Put, At, AddAtPath, DetachPath, Walk;
    var k, loc, rest := DetachWhere(doc, path, cs);
    HyphenIsNoIndex();
    WalkPut(doc, Tokens(path[..k]), cs, loc, rest);
    PutAt(doc, loc, rest);
    AddWhere(Put(doc, loc, rest), path, k, loc, value, cs);
  }

  lemma HyphenIsNoIndex()
    ensures DecodeIndexText([HYPHEN]).None?
  {
    assert [HYPHEN][..1] == [HYPHEN];
  }
}
