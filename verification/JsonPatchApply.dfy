/** apply_patch on documents as they are linked, tests included. */
module JsonPatchApply {
  import opened CTypes
  import opened Names
  import opened Numerals
  import opened Sorting
  import opened Json
  import opened JsonPointer
  import opened JsonPatch
  import opened JsonPatchLaws
  import opened JsonPatchOperations
  import opened JsonPatchMisled
  import opened JsonPatchRoundTrip
  import opened BackLinks
  import opened JsonLinks
  import opened JsonCompare

  /** The outcome of an append through a link to a node that has left its list. */
  const UNDEFINED := -1

  datatype Taken = Taken(doc: Doc, item: Doc)

  /** detach_path. */
  function DetachFrom(d: Doc, path: cstring, cs: bool): Option<Taken> {
    match LastSlash(path)
    case None => None
    case Some(k) =>
      match Resolve(Erase(d), path[..k], cs)
      case None => None
      case Some(loc) =>
        var child := DecodeInplace(path[k + 1..]);
        match DocAt(d, loc)
        case List(items) =>
          var i := DecodeIndexText(child);
          if i.Some? && 0 <= i.value < |items|
             then Some(Taken(DocPut(d, loc, List(Without(items, i.value))), items[i.value]))
          else None
        case Record(entries, link) =>
          var i := Lookup(EraseEntries(entries), child, false);
          if i.Some? then Some(Taken(DocPut(d, loc, WithoutEntry(entries, link, i.value)), entries[i.value].value))
             else None
        case _ => None
  }

  function WithoutEntry(entries: seq<Entry>, link: Link, i: nat): (r: Doc)
    requires i < |entries|
    ensures r.Record?
  {
    Record(Without(entries, i), LinkAfterRemove(link, i, |entries|))
  }

  function DeleteEntry(entries: seq<Entry>, link: Link, name: cstring, cs: bool): (r: Doc)
    ensures r.Record?
  {
    match Lookup(EraseEntries(entries), name, cs)
    case None => Record(entries, link)
    case Some(i) => WithoutEntry(entries, link, i)
  }

  /** The end of apply_patch: add the value to the path. */
  function AddTo(d: Doc, path: cstring, value: Doc, cs: bool): (Doc, int) {
    match LastSlash(path)
    case None => (d, 9)
    case Some(k) =>
      match Resolve(Erase(d), path[..k], cs)
      case None => (d, 9)
      case Some(loc) =>
        var child := DecodeInplace(path[k + 1..]);
        match DocAt(d, loc)
        case List(items) =>
          if child == [HYPHEN] then (DocPut(d, loc, List(items + [value])), 0)
          else
            var i := DecodeIndexText(child);
            if i.None? then (d, 11)
            else if 0 <= i.value <= |items|
                    then (DocPut(d, loc, List(items[..i.value] + [value] + items[i.value..])), 0)
            else (d, 10)
        case Record(entries, link) =>
          var rest := DeleteEntry(entries, link, child, cs);
          if rest.entries != [] && rest.link.Gone? then (d, UNDEFINED)
          else (DocPut(d, loc, WithEntry(rest.entries, rest.link, Entry(child, value))), 0)
        case _ => (d, 9)
  }

  function WithEntry(entries: seq<Entry>, link: Link, e: Entry): Doc {
    Record(Appended(entries, link, e), LinkAfterAppend(link, |entries|))
  }

  function Take(d: Doc, patch: Json, move: bool, cs: bool): Option<Taken> {
    match GetMember(patch, FROM, cs)
    case Some(String(from)) =>
      if move then DetachFrom(d, from, cs)
      else
        (match Resolve(Erase(d), from, cs)
         case None => None
         case Some(loc) => Some(Taken(d, Lift(Erase(DocAt(d, loc))))))
    case _ => None
  }

  /** The test of apply_patch, which sorts what it compares. */
  function TestAt(d: Doc, path: cstring, value: Option<Json>, cs: bool): (Doc, int) {
    match Resolve(Erase(d), path, cs)
    case None => (d, 1)
    case Some(loc) =>
      if value.None? then (d, 1)
      else
        var node := DocAt(d, loc);
        (DocPut(d, loc, Compared(node, value.value, cs)), if CompareSorted(Erase(node), value.value, cs) then 0 else 1)
  }

  /** apply_patch: the new document and the status, 0 for success. */
  function ApplyPatch(d: Doc, patch: Json, cs: bool): (Doc, int) {
    match GetMember(patch, PATH, cs)
    case Some(String(path)) =>
      (match GetMember(patch, OP, cs)
       case Some(String(op)) =>
         var value := GetMember(patch, VALUE, cs);
         if op == TEST then TestAt(d, path, value, cs)
         else if op !in {ADD, REMOVE, REPLACE, MOVE, COPY} then (d, 3)
         else if path == [] && op == REMOVE then (Scalar(Invalid), 0)
         else if path == [] && (op == REPLACE || op == ADD) then
           (if value.None? then (d, 7) else (Lift(value.value), 0))
         else if op == REMOVE || op == REPLACE then
           var removed := DetachFrom(d, path, cs);
           if removed.None? then (d, 13)
           else if op == REMOVE then (removed.value.doc, 0)
           else if value.None? then (removed.value.doc, 7)
           else AddTo(removed.value.doc, path, Lift(value.value), cs)
         else if op == MOVE || op == COPY then
           if GetMember(patch, FROM, cs).None? then (d, 4)
           else
             var taken := Take(d, patch, op == MOVE, cs);
             if taken.None? then (d, 5) else AddTo(taken.value.doc, path, taken.value.item, cs)
         else if value.None? then (d, 7)
         else AddTo(d, path, Lift(value.value), cs)
       case _ => (d, 3))
    case _ => (d, 2)
  }

  /** cJSONUtils_ApplyPatches on an array of patches. */
  function ApplyAll(d: Doc, patches: seq<Json>, cs: bool): (Doc, int)
    decreases |patches|
  {
    if patches == [] then (d, 0)
    else
      var (d', status) := ApplyPatch(d, patches[0], cs);
      if status != 0 then (d', status) else ApplyAll(d', patches[1..], cs)
  }

  /** Its loop. */
  method ApplyPatches(d: Doc, patches: seq<Json>, cs: bool) returns (r: Doc, status: int)
    ensures (r, status) == ApplyAll(d, patches, cs)
  {
    hide ApplyPatch;
    r := d;
    var i := 0;
    assert patches[0..] == patches;
    while i < |patches|
      invariant 0 <= i <= |patches|
      invariant ApplyAll(r, patches[i..], cs) == ApplyAll(d, patches, cs)
    {
      assert patches[i..][1..] == patches[i + 1..];
      var (next, failure) := ApplyPatch(r, patches[i], cs);
      r := next;
      if failure != 0 {
        return r, failure;
      }
      i := i + 1;
    }
    status := 0;
  }

  // ---- Without tests, documents are values ----

  lemma LiftedItem(items: seq<Json>, i: nat)
    requires i < |items|
    ensures LiftItems(items)[i] == Lift(items[i]) &&
            List(Without(LiftItems(items), i)) == Lift(Array(Without(items, i)))
  {
    hide Lift;
    assert Lift(Array(Without(items, i))) == List(LiftItems(Without(items, i))) by { LiftArray(Without(items, i)); }
    assert LiftItems(Without(items, i)) == Without(LiftItems(items), i);
  }

  lemma LiftArray(items: seq<Json>)
    ensures Lift(Array(items)) == List(LiftItems(items))
  {}

  lemma LiftObject(members: seq<Member>)
    ensures Lift(Object(members)) == Record(LiftMembers(members), Tail) && EraseEntries(LiftMembers(members)) == members
  {
    LiftWhole(Object(members));
  }

  lemma InsertedItem(items: seq<Json>, i: nat, value: Json)
    requires i <= |items|
    ensures List(LiftItems(items)[..i] + [Lift(value)] + LiftItems(items)[i..]) ==
            Lift(Array(items[..i] + [value] + items[i..]))
  {
    hide Lift;
    LiftArray(items[..i] + [value] + items[i..]);
    assert LiftItems(items[..i] + [value] + items[i..]) ==
           LiftItems(items)[..i] + [Lift(value)] + LiftItems(items)[i..];
  }

  lemma LiftedWithout(members: seq<Member>, i: nat)
    requires i < |members|
    ensures WithoutEntry(LiftMembers(members), Tail, i) == Lift(Object(Without(members, i)))
    ensures LiftMembers(members)[i].value == Lift(members[i].value)
  {
    hide Lift;
    LiftObject(Without(members, i));
    assert LiftMembers(Without(members, i)) == Without(LiftMembers(members), i);
  }

  lemma LiftedDelete(members: seq<Member>, name: cstring, cs: bool)
    ensures DeleteEntry(LiftMembers(members), Tail, name, cs) == Lift(Object(DeleteMember(members, name, cs)))
  {
    hide Lift, Lookup, WithoutEntry;
    LiftObject(members);
    var i := Lookup(members, name, cs);
    if i.Some? { LiftedWithout(members, i.value); }
  }

  lemma LiftedWith(members: seq<Member>, m: Member)
    ensures WithEntry(LiftMembers(members), Tail, Entry(m.name, Lift(m.value))) == Lift(Object(members + [m]))
  {
    hide Lift;
    LiftObject(members + [m]);
    assert LiftMembers(members + [m]) == LiftMembers(members) + [Entry(m.name, Lift(m.value))];
    var s := LiftMembers(members);
    assert s != [] ==> s[..|s|] == s;
  }

  lemma DetachLift(doc: Json, path: cstring, cs: bool)
    ensures DetachFrom(Lift(doc), path, cs) ==
            match DetachPath(doc, path, cs) {
              case None => None
              case Some(removed) => Some(Taken(Lift(removed.doc), Lift(removed.item)))
            }
  {
    hide Lift, Resolve, LastSlash, DecodeInplace, DecodeIndexText, Lookup, DocAt, DocPut, WithoutEntry, Put, At, Erase;
    LiftWhole(doc);
    var slash := LastSlash(path);
    if slash.Some? && Resolve(doc, path[..slash.value], cs).Some? {
      var loc, child := Resolve(doc, path[..slash.value], cs).value, DecodeInplace(path[slash.value + 1..]);
      DocAtLift(doc, loc);
      match At(doc, loc) {
        case Array(items) =>
          LiftArray(items);
          var i := DecodeIndexText(child);
          if i.Some? && 0 <= i.value < |items| {
            LiftedItem(items, i.value);
            DocPutLift(doc, loc, Array(Without(items, i.value)));
          }
        case Object(members) =>
          LiftObject(members);
          var i := Lookup(members, child, false);
          if i.Some? {
            LiftedWithout(members, i.value);
            DocPutLift(doc, loc, Object(Without(members, i.value)));
          }
        case _ => LiftScalar(At(doc, loc));
      }
    }
  }

  lemma LiftScalar(j: Json)
    requires !j.Array? && !j.Object?
    ensures Lift(j).Scalar?
  {}

  lemma AddLift(doc: Json, path: cstring, value: Json, cs: bool)
    ensures var (r, status) := AddAtPath(doc, path, value, cs);
            AddTo(Lift(doc), path, Lift(value), cs) == (Lift(r), status)
  {
    hide Lift, Resolve, LastSlash, DecodeInplace, DecodeIndexText, DeleteMember, DeleteEntry, WithEntry, DocAt;
    hide DocPut, Put, At, Erase;
    LiftWhole(doc);
    var slash := LastSlash(path);
    if slash.Some? && Resolve(doc, path[..slash.value], cs).Some? {
      var loc, child := Resolve(doc, path[..slash.value], cs).value, DecodeInplace(path[slash.value + 1..]);
      DocAtLift(doc, loc);
      match At(doc, loc) {
        case Array(items) =>
          LiftArray(items);
          var i := if child == [HYPHEN] then Some(|items|) else DecodeIndexText(child);
          if i.Some? && 0 <= i.value <= |items| {
            InsertedItem(items, i.value, value);
            assert child == [HYPHEN] ==> items[..|items|] + [value] + items[|items|..] == items + [value];
            assert child == [HYPHEN] ==>
                LiftItems(items)[..|items|] + [Lift(value)] + LiftItems(items)[|items|..] ==
                LiftItems(items) + [Lift(value)];
            DocPutLift(doc, loc, Array(items[..i.value] + [value] + items[i.value..]));
          }
        case Object(members) =>
          LiftObject(members);
          LiftedDelete(members, child, cs);
          var rest := DeleteMember(members, child, cs);
          LiftObject(rest);
          LiftedWith(rest, Member(child, value));
          DocPutLift(doc, loc, Object(rest + [Member(child, value)]));
        case _ => LiftScalar(At(doc, loc));
      }
    }
  }

  lemma CopyLift(doc: Json, from: cstring, cs: bool)
    ensures Resolve(Erase(Lift(doc)), from, cs) == Resolve(doc, from, cs)
    ensures Resolve(doc, from, cs).Some? ==>
              var loc := Resolve(doc, from, cs).value;
              Lift(Erase(DocAt(Lift(doc), loc))) == Lift(At(doc, loc))
  {
    hide *;
    LiftWhole(doc);
    if Resolve(doc, from, cs).Some? {
      var loc := Resolve(doc, from, cs).value;
      DocAtLift(doc, loc);
      LiftWhole(At(doc, loc));
    }
  }

  lemma TakeLift(doc: Json, patch: Json, move: bool, cs: bool)
    ensures Take(Lift(doc), patch, move, cs) ==
            match TakeFrom(doc, patch, move, cs) {
              case None => None
              case Some(taken) => Some(Taken(Lift(taken.doc), Lift(taken.item)))
            }
  {
    hide Lift, Resolve, DocAt, DetachFrom, DetachPath, At, Erase, GetMember;
    var from := GetMember(patch, FROM, cs);
    if from.Some? && from.value.String? {
      if move {
        DetachLift(doc, from.value.s, cs);
      } else {
        CopyLift(doc, from.value.s, cs);
      }
    }
  }

  lemma LiftInvalid()
    ensures Lift(Invalid) == Scalar(Invalid)
  {}

  lemma DetachAndAddLift(doc: Json, path: cstring, value: Option<Json>, cs: bool)
    ensures var (removed, taken) := (DetachPath(doc, path, cs), DetachFrom(Lift(doc), path, cs));
            && (removed.None? <==> taken.None?)
            && (removed.Some? ==> taken.value.doc == Lift(removed.value.doc))
            && (removed.Some? && value.Some? ==>
                  AddTo(taken.value.doc, path, Lift(value.value), cs) ==
                  (Lift(AddAtPath(removed.value.doc, path, value.value, cs).0),
                   AddAtPath(removed.value.doc, path, value.value, cs).1))
  {
    hide *;
    DetachLift(doc, path, cs);
    var removed := DetachPath(doc, path, cs);
    if removed.Some? && value.Some? { AddLift(removed.value.doc, path, value.value, cs); }
  }

  lemma TakeAndAddLift(doc: Json, patch: Json, path: cstring, move: bool, cs: bool)
    ensures var (taken, lifted) := (TakeFrom(doc, patch, move, cs), Take(Lift(doc), patch, move, cs));
            && (taken.None? <==> lifted.None?)
            && (taken.Some? ==>
                  AddTo(lifted.value.doc, path, lifted.value.item, cs) ==
                  (Lift(AddAtPath(taken.value.doc, path, taken.value.item, cs).0),
                   AddAtPath(taken.value.doc, path, taken.value.item, cs).1))
  {
    hide *;
    TakeLift(doc, patch, move, cs);
    var taken := TakeFrom(doc, patch, move, cs);
    if taken.Some? { AddLift(taken.value.doc, path, taken.value.item, cs); }
  }

  lemma RemoveIsEdit(doc: Json, patch: Json, path: cstring, op: cstring, cs: bool)
    requires Asks(patch, op, path, cs) && path != [] && (op == REMOVE || op == REPLACE)
    ensures var (r, status) := Edit(doc, patch, cs);
            ApplyPatch(Lift(doc), patch, cs) == (Lift(r), status)
  {
    hide Lift, GetMember, DetachFrom, DetachPath, AddTo, AddAtPath, Take, TakeFrom, TestAt;
    DetachAndAddLift(doc, path, GetMember(patch, VALUE, cs), cs);
  }

  lemma MoveIsEdit(doc: Json, patch: Json, path: cstring, op: cstring, cs: bool)
    requires Asks(patch, op, path, cs) && (op == MOVE || op == COPY)
    ensures var (r, status) := Edit(doc, patch, cs);
            ApplyPatch(Lift(doc), patch, cs) == (Lift(r), status)
  {
    hide Lift, GetMember, DetachFrom, DetachPath, AddTo, AddAtPath, Take, TakeFrom, TestAt;
    TakeAndAddLift(doc, patch, path, op == MOVE, cs);
  }

  lemma OtherIsEdit(doc: Json, patch: Json, path: cstring, op: cstring, cs: bool)
    requires Asks(patch, op, path, cs) && op !in {MOVE, COPY, TEST} && (path == [] || (op != REMOVE && op != REPLACE))
    ensures var (r, status) := Edit(doc, patch, cs);
            ApplyPatch(Lift(doc), patch, cs) == (Lift(r), status)
  {
    hide Lift, GetMember, DetachFrom, DetachPath, AddTo, AddAtPath, Take, TakeFrom, TestAt;
    LiftInvalid();
    var value := GetMember(patch, VALUE, cs);
    if value.Some? { AddLift(doc, path, value.value, cs); }
  }

  /** A patch other than a test is the edit it asks for, and leaves the document in its shape. */
  lemma PatchIsEdit(doc: Json, patch: Json, cs: bool)
    requires GetMember(patch, OP, cs) != Some(String(TEST))
    ensures var (r, status) := Edit(doc, patch, cs);
            ApplyPatch(Lift(doc), patch, cs) == (Lift(r), status)
  {
    var path, op := GetMember(patch, PATH, cs), GetMember(patch, OP, cs);
    hide Lift, GetMember;
    if path.Some? && path.value.String? && op.Some? && op.value.String? {
      hide Edit, ApplyPatch;
      if op.value.s == MOVE || op.value.s == COPY {
        MoveIsEdit(doc, patch, path.value.s, op.value.s, cs);
      } else if path.value.s != [] && (op.value.s == REMOVE || op.value.s == REPLACE) {
        RemoveIsEdit(doc, patch, path.value.s, op.value.s, cs);
      } else {
        OtherIsEdit(doc, patch, path.value.s, op.value.s, cs);
      }
    } else {
      NothingAsked(doc, patch, cs);
    }
  }

  lemma NothingAsked(doc: Json, patch: Json, cs: bool)
    requires var path, op := GetMember(patch, PATH, cs), GetMember(patch, OP, cs);
             !(path.Some? && path.value.String? && op.Some? && op.value.String?)
    ensures var (r, status) := Edit(doc, patch, cs);
            ApplyPatch(Lift(doc), patch, cs) == (Lift(r), status)
  {
    hide Lift, GetMember;
  }

  predicate NoTests(patches: seq<Json>, cs: bool) {
    forall i :: 0 <= i < |patches| ==> GetMember(patches[i], OP, cs) != Some(String(TEST))
  }

  lemma {:induction false} RunIsEdits(doc: Json, patches: seq<Json>, cs: bool)
    requires NoTests(patches, cs)
    ensures var (r, status) := EditAll(doc, patches, cs);
            ApplyAll(Lift(doc), patches, cs) == (Lift(r), status)
    decreases |patches|
  {
    hide Lift, ApplyPatch, Edit, GetMember;
    if patches != [] {
      PatchIsEdit(doc, patches[0], cs);
      var (r, status) := Edit(doc, patches[0], cs);
      if status == 0 { RunIsEdits(r, patches[1..], cs); }
    }
  }
}
